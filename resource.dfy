/**
  The data a `JPNetworkResource` describes: method, URL parts, headers, the two
  parameter dictionaries, the raw body, the parameter encoding and the
  authentication, together with the Foundation services the assembly relies on
  but does not implement.
*/
module Resource {
  import opened Wrappers
  import Utf8

  datatype HttpMethod = Get | Post | Delete | Put | Head
  {
    /** `HttpMethod.name`: the method token sent on the request line. */
    function Name(): (s: string)
      ensures |s| >= 3 && forall i :: 0 <= i < |s| ==> 'A' <= s[i] <= 'Z'
    {
      match this
      case Get => "GET"
      case Post => "POST"
      case Delete => "DELETE"
      case Put => "PUT"
      case Head => "HEAD"
    }

    /** The methods whose requests carry a body, a `Content-Type` and credentials. */
    predicate HasBody()
    {
      this == Post || this == Delete || this == Put
    }
  }

  /** Different methods have different names. */
  lemma NameInjective(m: HttpMethod, n: HttpMethod)
    requires m.Name() == n.Name()
    ensures m == n
  {
    assert m.Name()[0] == n.Name()[0];
    if m.Name()[0] == 'P' {
      assert m.Name()[1] == n.Name()[1];
    }
  }

  datatype AuthType = Basic(userName: string, password: string) | Token(token: string) | NoAuth
  {
    /**
      The `==` the source declares for `AuthType`: true when both sides are the same
      case, whatever user name, password or token they carry.
    */
    predicate SameKind(other: AuthType)
    {
      match (this, other)
      case (Basic(_, _), Basic(_, _)) => true
      case (NoAuth, NoAuth) => true
      case (Token(_), Token(_)) => true
      case _ => false
    }
  }

  /** `SameKind` is an equivalence with three classes, one per case. */
  lemma SameKindIsCaseEquality(a: AuthType, b: AuthType)
    ensures a.SameKind(b) <==> (a.Basic? && b.Basic?) || (a.Token? && b.Token?) || (a.NoAuth? && b.NoAuth?)
    ensures a == b ==> a.SameKind(b)
  {
  }

  /** Two different credentials compare equal. */
  lemma SameKindIgnoresPayload()
    ensures Basic("alice", "secret").SameKind(Basic("bob", "other"))
    ensures Basic("alice", "secret") != Basic("bob", "other")
    ensures Token("t1").SameKind(Token("t2"))
  {
  }

  datatype ParameterEncoding = Url | Json | Form | NoEncoding | Multipart(boundary: string)

  /**
    A parameter value, Swift's `Any`: a `String`, or any other value, which the
    encoders other than JSON skip. `id` tells such values apart.
  */
  datatype Value = Str(text: string) | NonString(id: nat)

  predicate UniqueKeys(d: seq<(string, Value)>)
  {
    forall i, j :: 0 <= i < j < |d| ==> d[i].0 != d[j].0
  }

  /**
    A Swift `[String: Any]`: its entries in the dictionary's iteration order,
    which Swift leaves unspecified; every property below holds for any order.
  */
  type Dict = d: seq<(string, Value)> | UniqueKeys(d) witness []

  /** `dict.keys`, in iteration order. */
  function Keys(d: Dict): (ks: seq<string>)
    ensures |ks| == |d| && forall i :: 0 <= i < |d| ==> ks[i] == d[i].0
    ensures forall i, j :: 0 <= i < j < |ks| ==> ks[i] != ks[j]
  {
    seq(|d|, i requires 0 <= i < |d| => d[i].0)
  }

  /** `dict[key]`. */
  function Lookup(d: Dict, key: string): (r: Option<Value>)
    ensures r.Some? <==> exists i :: 0 <= i < |d| && d[i].0 == key
    ensures forall i :: 0 <= i < |d| && d[i].0 == key ==> r == Some(d[i].1)
  {
    if d == [] then None
    else if d[0].0 == key then Some(d[0].1)
    else
      assert UniqueKeys(d[1..]);
      Lookup(d[1..], key)
  }

  /**
    What the model takes from Foundation without implementing it: whether
    `URLComponents(string:)` parses a string into components that yield a `URL`,
    and `JSONSerialization.data(withJSONObject:)`, `None` where it throws.
  */
  datatype Platform = Platform(parsesUrl: string -> bool, jsonData: Dict -> Option<seq<Utf8.byte>>)

  /**
    A value conforming to `JPNetworkResource` (its `method` is `httpMethod` here,
    `method` being a Dafny keyword). `baseURL` is the text of the Swift `URL`, its
    `absoluteString`, which is all `urlRequest` reads of it.
  */
  datatype Resource = Resource(
    baseURL: string,
    endPoint: string,
    httpMethod: HttpMethod,
    headers: map<string, string>,
    params: Dict,
    bodyParams: Dict,
    body: Option<seq<Utf8.byte>>,
    paramsEncoding: ParameterEncoding,
    authType: AuthType)

  /** A resource that takes the protocol extension's defaults: no headers, no params, no body. */
  function WithDefaults(baseURL: string, endPoint: string, httpMethod: HttpMethod, bodyParams: Dict,
                        paramsEncoding: ParameterEncoding, authType: AuthType): Resource
  {
    Resource(baseURL, endPoint, httpMethod, map[], [], bodyParams, None, paramsEncoding, authType)
  }

  /** The fields of a resource built by `WithDefaults`. */
  lemma WithDefaultsFields(baseURL: string, endPoint: string, httpMethod: HttpMethod, bodyParams: Dict,
                           paramsEncoding: ParameterEncoding, authType: AuthType)
    ensures var r := WithDefaults(baseURL, endPoint, httpMethod, bodyParams, paramsEncoding, authType);
      && r.headers == map[] && r.params == [] && r.body == None
      && r.baseURL == baseURL && r.endPoint == endPoint && r.httpMethod == httpMethod
      && r.bodyParams == bodyParams && r.paramsEncoding == paramsEncoding && r.authType == authType
  {
  }
}
