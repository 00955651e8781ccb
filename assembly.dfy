/**
  The parts of `JPNetworkResource` that turn a resource into a request:
  `encodedParameters`, `encodedBodyParameters` and `urlRequest`. The URL
  parser and the JSON serializer come in as a `Platform`.
*/
module Assembly {
  import opened Wrappers
  import Utf8
  import Trimming
  import Base64
  import FormEncoding
  import Multipart
  import opened Resource

  type byte = Utf8.byte

  /** A `URLQueryItem`. */
  datatype QueryItem = QueryItem(name: string, value: string)

  /**
    The URL `URLComponents` yields: the text it parsed, and the query items
    assigned to it, if any were.
  */
  datatype RequestUrl = RequestUrl(text: string, queryItems: Option<seq<QueryItem>>)

  /** The parts of a `URLRequest` that `urlRequest` sets. */
  datatype UrlRequest = UrlRequest(url: RequestUrl, httpMethod: string, headers: map<string, string>,
                                   httpBody: Option<seq<byte>>)

  // The two encoders.

  /**
    What either encoder returns for `encoding`, given the dictionary it encodes in
    the `.url` and `.json` cases (`fields`), the dictionary the `.multipart` case
    hands to `createBody` (`params` in both encoders) and the raw body.
  */
  function Payload(encoding: ParameterEncoding, fields: Dict, params: Dict, body: Option<seq<byte>>,
                   p: Platform): Option<seq<byte>>
  {
    match encoding
    case Url => Some(Utf8.Encode(FormEncoding.FormText(fields)))
    case Json => if |fields| > 0 then p.jsonData(fields) else body
    case Multipart(boundary) => Some(Utf8.Encode(Multipart.MultipartText(params, boundary)))
    case Form => None
    case NoEncoding => None
  }

  /** The `switch` both encoders share; the `catch` blocks only log, so they return nil. */
  method Encoded(encoding: ParameterEncoding, fields: Dict, params: Dict, body: Option<seq<byte>>, p: Platform)
    returns (data: Option<seq<byte>>)
    ensures data == Payload(encoding, fields, params, body, p)
  {
    match encoding
    case Url =>
      var encoded := FormEncoding.Encode(fields);
      data := Some(encoded);
    case Json =>
      if |fields| > 0 {
        data := p.jsonData(fields);
      } else if body.Some? {
        data := body;
      } else {
        data := None;
      }
    case Multipart(boundaryString) =>
      var encoded := Multipart.CreateBody(params, boundaryString);
      data := Some(encoded);
    case Form =>
      data := None;
    case NoEncoding =>
      data := None;
  }

  /** `encodedParameters()`: encodes `params`. */
  method EncodedParameters(r: Resource, p: Platform) returns (data: Option<seq<byte>>)
    ensures data == Payload(r.paramsEncoding, r.params, r.params, r.body, p)
  {
    data := Encoded(r.paramsEncoding, r.params, r.params, r.body, p);
  }

  /** `encodedBodyParameters()`: encodes `bodyParams`, except in the `.multipart` case. */
  method EncodedBodyParameters(r: Resource, p: Platform) returns (data: Option<seq<byte>>)
    ensures data == Payload(r.paramsEncoding, r.bodyParams, r.params, r.body, p)
  {
    data := Encoded(r.paramsEncoding, r.bodyParams, r.params, r.body, p);
  }

  /**
    What the encoders return, case by case: the `.url` form is never nil, even for
    an empty dictionary; both `.multipart` encoders return the same bytes, those of
    `params`; a non-empty dictionary gives its JSON and an empty one the raw body;
    `.form` and `.none` give nil.
  */
  lemma PayloadCases(encoding: ParameterEncoding, fields: Dict, other: Dict, params: Dict,
                     body: Option<seq<byte>>, p: Platform)
    ensures encoding.Url? ==> Payload(encoding, fields, params, body, p).Some?
    ensures encoding.Url? && fields == [] ==> Payload(encoding, fields, params, body, p) == Some([])
    ensures encoding.Multipart? ==>
      Payload(encoding, fields, params, body, p) == Payload(encoding, other, params, body, p)
      == Some(Utf8.Encode(Multipart.MultipartText(params, encoding.boundary)))
    ensures encoding.Json? && |fields| > 0 ==> Payload(encoding, fields, params, body, p) == p.jsonData(fields)
    ensures encoding.Json? && fields == [] ==> Payload(encoding, fields, params, body, p) == body
    ensures encoding.Form? || encoding.NoEncoding? ==> Payload(encoding, fields, params, body, p) == None
  {
    if encoding.Url? && fields == [] {
      assert FormEncoding.SortedKeys(fields) == [];
    }
  }

  /**
    The `.url` payload of any dictionary reads back as its String-valued entries,
    in ascending key order.
  */
  lemma UrlPayloadReadsBack(fields: Dict, params: Dict, body: Option<seq<byte>>, p: Platform)
    ensures var pairs := FormEncoding.StringPairs(fields, FormEncoding.SortedKeys(fields));
      && Payload(Url, fields, params, body, p).Some?
      && Utf8.Decode(Payload(Url, fields, params, body, p).value).Some?
      && FormEncoding.Decode(Utf8.Decode(Payload(Url, fields, params, body, p).value).value) == Some(pairs)
      && (forall k, v :: (k, v) in pairs <==> Lookup(fields, k) == Some(Str(v)))
  {
    FormEncoding.FormRoundTrip(fields);
  }

  // The request.

  /** `baseURL.absoluteString + endPoint`, trimmed of white space and newlines. */
  function UrlString(r: Resource): string
  {
    Trimming.Trim(r.baseURL + r.endPoint)
  }

  /** One query item per String-valued entry, in iteration order. */
  function QueryItems(d: seq<(string, Value)>): (items: seq<QueryItem>)
    ensures |items| <= |d|
  {
    if d == [] then []
    else
      var e := d[|d| - 1];
      QueryItems(d[..|d| - 1]) + (if e.1.Str? then [QueryItem(e.0, e.1.text)] else [])
  }

  /** The URL `urlComponents?.url` gives: nil when the text does not parse. */
  function ComponentsUrl(r: Resource, p: Platform): Option<RequestUrl>
  {
    if !p.parsesUrl(UrlString(r)) then None
    else
      var items := QueryItems(r.params);
      Some(RequestUrl(UrlString(r), if r.httpMethod == Get && |items| > 0 then Some(items) else None))
  }

  const FormContentType := "application/x-www-form-urlencoded; charset=utf-8"

  /** The `Content-Type` an encoding calls for, if any. */
  function ContentType(encoding: ParameterEncoding): Option<string>
  {
    match encoding
    case Url => Some(FormContentType)
    case Json => Some("application/json")
    case Multipart(boundary) => Some("multipart/form-data; boundary=" + boundary)
    case Form => None
    case NoEncoding => None
  }

  function ContentTypeField(encoding: ParameterEncoding): (f: Option<(string, string)>)
    ensures f.Some? <==> encoding.Url? || encoding.Json? || encoding.Multipart?
    ensures f.Some? ==> f.value.0 == "Content-Type"
  {
    match ContentType(encoding)
    case None => None
    case Some(t) => Some(("Content-Type", t))
  }

  /** The Base64 form of the UTF-8 bytes of `userName:password`. */
  function Credentials(userName: string, password: string): string
  {
    Base64.Encode(Utf8.Encode(userName + ":" + password))
  }

  /** The header field an authentication adds, with its value. */
  function AuthHeader(auth: AuthType): (f: Option<(string, string)>)
    ensures f.Some? <==> !auth.NoAuth?
    ensures f.Some? ==> f.value.0 == if auth.Basic? then "Authorization" else "x-fi-access-token"
  {
    match auth
    case Basic(userName, password) => Some(("Authorization", "Basic " + Credentials(userName, password)))
    case Token(token) => Some(("x-fi-access-token", token))
    case NoAuth => None
  }

  function WithHeader(headers: map<string, string>, field: Option<(string, string)>): map<string, string>
  {
    match field
    case None => headers
    case Some((name, value)) => headers[name := value]
  }

  /** The body: the body parameters' payload, or else that of the parameters. */
  function RequestBody(r: Resource, p: Platform): Option<seq<byte>>
  {
    match Payload(r.paramsEncoding, r.bodyParams, r.params, r.body, p)
    case Some(data) => Some(data)
    case None => Payload(r.paramsEncoding, r.params, r.params, r.body, p)
  }

  /** The caller's headers with the `Content-Type` and the authentication header set. */
  function BodyHeaders(r: Resource): map<string, string>
  {
    WithHeader(WithHeader(r.headers, ContentTypeField(r.paramsEncoding)), AuthHeader(r.authType))
  }

  /** The request `urlRequest` returns. */
  function AssembledRequest(r: Resource, p: Platform): Option<UrlRequest>
  {
    match ComponentsUrl(r, p)
    case None => None
    case Some(url) =>
      if r.httpMethod.HasBody() then
        Some(UrlRequest(url, r.httpMethod.Name(), BodyHeaders(r), RequestBody(r, p)))
      else
        Some(UrlRequest(url, r.httpMethod.Name(), r.headers, None))
  }

  lemma QueryItemsStep(d: seq<(string, Value)>, i: nat)
    requires i < |d|
    ensures QueryItems(d[..i + 1])
      == QueryItems(d[..i]) + (if d[i].1.Str? then [QueryItem(d[i].0, d[i].1.text)] else [])
  {
    assert d[..i + 1][..i] == d[..i];
  }

  /** The loop of `urlRequest` that collects the query items. */
  method CollectQueryItems(params: Dict) returns (queryItems: seq<QueryItem>)
    ensures queryItems == QueryItems(params)
  {
    queryItems := [];
    for i := 0 to |params|
      invariant queryItems == QueryItems(params[..i])
    {
      var (key, value) := params[i];
      QueryItemsStep(params, i);
      if value.Str? {
        queryItems := queryItems + [QueryItem(key, value.text)];
      }
    }
    assert params[..|params|] == params;
  }

  /** The body `urlRequest` sets for POST, DELETE and PUT. */
  method ChooseBody(r: Resource, p: Platform) returns (httpBody: Option<seq<byte>>)
    ensures httpBody == RequestBody(r, p)
  {
    httpBody := None;
    var encodedBody := EncodedBodyParameters(r, p);
    if encodedBody.Some? {
      httpBody := encodedBody;
    } else {
      var encodedParams := EncodedParameters(r, p);
      if encodedParams.Some? {
        httpBody := encodedParams;
      }
    }
  }

  /** The two `switch`es of `urlRequest` that set header fields. */
  method SetHeaders(r: Resource, headers: map<string, string>) returns (result: map<string, string>)
    ensures result == WithHeader(WithHeader(headers, ContentTypeField(r.paramsEncoding)), AuthHeader(r.authType))
  {
    result := headers;
    match r.paramsEncoding {
      case Url =>
        result := result["Content-Type" := FormContentType];
      case Json =>
        result := result["Content-Type" := "application/json"];
      case Multipart(boundaryString) =>
        result := result["Content-Type" := "multipart/form-data; boundary=" + boundaryString];
      case _ =>
    }
    match r.authType {
      case Basic(userName, password) =>
        var authData := Utf8.Encode(userName + ":" + password);
        var encodedString := Base64.Encode(authData);
        result := result["Authorization" := "Basic " + encodedString];
      case Token(authToken) =>
        result := result["x-fi-access-token" := authToken];
      case NoAuth =>
    }
  }

  /** `urlRequest`, step by step. */
  method BuildUrlRequest(r: Resource, p: Platform) returns (request: Option<UrlRequest>)
    ensures request == AssembledRequest(r, p)
  {
    var urlString := Trimming.Trim(r.baseURL + r.endPoint);
    var urlComponents := if p.parsesUrl(urlString) then Some(RequestUrl(urlString, None)) else None;
    if r.httpMethod == Get {
      var queryItems := CollectQueryItems(r.params);
      if |queryItems| > 0 && urlComponents.Some? {
        urlComponents := Some(urlComponents.value.(queryItems := Some(queryItems)));
      }
    }

    if urlComponents.Some? {
      var urlRequest := UrlRequest(urlComponents.value, "GET", map[], None);
      urlRequest := urlRequest.(httpMethod := r.httpMethod.Name());
      if |r.headers| > 0 {
        urlRequest := urlRequest.(headers := r.headers);
      } else {
        assert r.headers == map[];
      }
      if r.httpMethod == Post || r.httpMethod == Delete || r.httpMethod == Put {
        var httpBody := ChooseBody(r, p);
        urlRequest := urlRequest.(httpBody := httpBody);
        var headers := SetHeaders(r, urlRequest.headers);
        urlRequest := urlRequest.(headers := headers);
      }
      return Some(urlRequest);
    }
    return None;
  }

  // What the request carries.

  /**
    The query items are the String-valued entries, one per entry, under distinct
    names; there are none exactly when no value is a String.
  */
  lemma {:induction false} QueryItemsOf(d: Dict)
    ensures forall n, v :: QueryItem(n, v) in QueryItems(d) <==> (n, Str(v)) in d
    ensures forall i, j :: 0 <= i < j < |QueryItems(d)| ==> QueryItems(d)[i].name != QueryItems(d)[j].name
    ensures QueryItems(d) == [] <==> forall i :: 0 <= i < |d| ==> !d[i].1.Str?
  {
    if d != [] {
      var init: Dict := d[..|d| - 1];
      var e := d[|d| - 1];
      assert d == init + [e];
      QueryItemsOf(init);
      var items := QueryItems(init);
      forall i | 0 <= i < |items| ensures items[i].name != e.0 {
        assert QueryItem(items[i].name, items[i].value) in items;
        var k :| 0 <= k < |init| && init[k] == (items[i].name, Str(items[i].value));
        assert d[k].0 != d[|d| - 1].0;
      }
    }
  }

  /**
    `urlRequest` is nil exactly when the trimmed `baseURL + endPoint` does not
    parse. Otherwise the URL is that text; only a GET with at least one
    String-valued parameter gets query items, and then one per such parameter; the
    method is the method's name; and a GET or HEAD request carries the caller's
    headers unchanged and no body.
  */
  lemma RequestUrlAndMethod(r: Resource, p: Platform)
    ensures AssembledRequest(r, p).None? <==> !p.parsesUrl(Trimming.Trim(r.baseURL + r.endPoint))
    ensures AssembledRequest(r, p).Some? ==>
      var req := AssembledRequest(r, p).value;
      && req.url.text == Trimming.Trim(r.baseURL + r.endPoint)
      && (req.url.queryItems.Some? <==> r.httpMethod == Get && exists i :: 0 <= i < |r.params| && r.params[i].1.Str?)
      && (req.url.queryItems.Some? ==>
            forall n, v :: QueryItem(n, v) in req.url.queryItems.value <==> (n, Str(v)) in r.params)
      && req.httpMethod == r.httpMethod.Name()
      && (!r.httpMethod.HasBody() ==> req.headers == r.headers && req.httpBody == None)
  {
    QueryItemsOf(r.params);
  }

  lemma AssembledHeaders(r: Resource, p: Platform)
    requires AssembledRequest(r, p).Some? && r.httpMethod.HasBody()
    ensures AssembledRequest(r, p).value.headers == BodyHeaders(r)
  {
  }

  /** Field `f` of `h` is as it was in `orig`: present exactly when it was, with the same value. */
  predicate FieldKept(h: map<string, string>, orig: map<string, string>, f: string)
  {
    (f in h <==> f in orig) && (f in h ==> h[f] == orig[f])
  }

  /**
    For POST, DELETE and PUT every header field of the caller's other than
    `Content-Type`, `Authorization` and `x-fi-access-token` is kept as it is, and
    no other field is added.
  */
  lemma RequestHeadersKept(r: Resource, p: Platform, k: string)
    requires AssembledRequest(r, p).Some? && r.httpMethod.HasBody()
    requires k != "Content-Type" && k != "Authorization" && k != "x-fi-access-token"
    ensures FieldKept(AssembledRequest(r, p).value.headers, r.headers, k)
  {
    AssembledHeaders(r, p);
    WithHeaderEffect(r.headers, ContentTypeField(r.paramsEncoding), k);
    WithHeaderEffect(WithHeader(r.headers, ContentTypeField(r.paramsEncoding)), AuthHeader(r.authType), k);
  }

  /**
    For POST, DELETE and PUT the encoding sets the `Content-Type`: `.url`, `.json`
    and `.multipart` to their media types, while `.form` and `.none` leave the
    caller's as it is.
  */
  lemma RequestContentType(r: Resource, p: Platform)
    requires AssembledRequest(r, p).Some? && r.httpMethod.HasBody()
    ensures var h := AssembledRequest(r, p).value.headers;
      && (r.paramsEncoding.Url? ==> "Content-Type" in h && h["Content-Type"] == "application/x-www-form-urlencoded; charset=utf-8")
      && (r.paramsEncoding.Json? ==> "Content-Type" in h && h["Content-Type"] == "application/json")
      && (r.paramsEncoding.Multipart? ==>
            "Content-Type" in h && h["Content-Type"] == "multipart/form-data; boundary=" + r.paramsEncoding.boundary)
      && (r.paramsEncoding.Form? || r.paramsEncoding.NoEncoding? ==> FieldKept(h, r.headers, "Content-Type"))
  {
    var h := AssembledRequest(r, p).value.headers;
    assert h == BodyHeaders(r) by {
      AssembledHeaders(r, p);
    }
    BodyContentType(r);
  }

  lemma BodyContentType(r: Resource)
    ensures var h := BodyHeaders(r);
      && (r.paramsEncoding.Url? ==> "Content-Type" in h && h["Content-Type"] == "application/x-www-form-urlencoded; charset=utf-8")
      && (r.paramsEncoding.Json? ==> "Content-Type" in h && h["Content-Type"] == "application/json")
      && (r.paramsEncoding.Multipart? ==>
            "Content-Type" in h && h["Content-Type"] == "multipart/form-data; boundary=" + r.paramsEncoding.boundary)
      && (r.paramsEncoding.Form? || r.paramsEncoding.NoEncoding? ==> FieldKept(h, r.headers, "Content-Type"))
  {
    assert "Content-Type"[0] != "Authorization"[0] && "Content-Type"[0] != "x-fi-access-token"[0];
    var h1 := WithHeader(r.headers, ContentTypeField(r.paramsEncoding));
    WithHeaderEffect(r.headers, ContentTypeField(r.paramsEncoding), "Content-Type");
    WithHeaderEffect(h1, AuthHeader(r.authType), "Content-Type");
  }

  /**
    For POST, DELETE and PUT `.basic` sets `Authorization` to `Basic ` and the
    credentials, `.token` sets `x-fi-access-token` to the token, and whichever of
    the two fields a case does not set stays as the caller had it.
  */
  lemma RequestAuthHeader(r: Resource, p: Platform)
    requires AssembledRequest(r, p).Some? && r.httpMethod.HasBody()
    ensures var h := AssembledRequest(r, p).value.headers;
      && (r.authType.Token? ==> "x-fi-access-token" in h && h["x-fi-access-token"] == r.authType.token)
      && (r.authType.Basic? ==>
            "Authorization" in h && h["Authorization"] == "Basic " + Credentials(r.authType.userName, r.authType.password))
      && (!r.authType.Basic? ==> FieldKept(h, r.headers, "Authorization"))
      && (!r.authType.Token? ==> FieldKept(h, r.headers, "x-fi-access-token"))
  {
    var h := AssembledRequest(r, p).value.headers;
    assert h == BodyHeaders(r) by {
      AssembledHeaders(r, p);
    }
    BodyAuthHeader(r);
  }

  lemma BodyAuthHeader(r: Resource)
    ensures var h := BodyHeaders(r);
      && (r.authType.Token? ==> "x-fi-access-token" in h && h["x-fi-access-token"] == r.authType.token)
      && (r.authType.Basic? ==>
            "Authorization" in h && h["Authorization"] == "Basic " + Credentials(r.authType.userName, r.authType.password))
      && (!r.authType.Basic? ==> FieldKept(h, r.headers, "Authorization"))
      && (!r.authType.Token? ==> FieldKept(h, r.headers, "x-fi-access-token"))
  {
    assert "Content-Type"[0] != "Authorization"[0] && "Content-Type"[0] != "x-fi-access-token"[0];
    assert "Authorization"[0] != "x-fi-access-token"[0];
    var h1 := WithHeader(r.headers, ContentTypeField(r.paramsEncoding));
    WithHeaderEffect(r.headers, ContentTypeField(r.paramsEncoding), "Authorization");
    WithHeaderEffect(r.headers, ContentTypeField(r.paramsEncoding), "x-fi-access-token");
    WithHeaderEffect(h1, AuthHeader(r.authType), "Authorization");
    WithHeaderEffect(h1, AuthHeader(r.authType), "x-fi-access-token");
  }

  /**
    A resource that keeps the protocol extension's defaults (no headers, no
    `params`, no raw body) gets no query items; a GET or HEAD then has no header
    fields and no body, and a POST, DELETE or PUT carries only the fields the
    encoding and the authentication set, and in `.json` mode with empty
    `bodyParams` no body.
  */
  lemma DefaultsRequest(baseURL: string, endPoint: string, httpMethod: HttpMethod, bodyParams: Dict,
                        encoding: ParameterEncoding, auth: AuthType, p: Platform)
    ensures var req := AssembledRequest(WithDefaults(baseURL, endPoint, httpMethod, bodyParams, encoding, auth), p);
      req.Some? ==>
        && req.value.url.queryItems == None
        && (!httpMethod.HasBody() ==> req.value.headers == map[] && req.value.httpBody == None)
        && (httpMethod.HasBody() ==>
              forall k :: k in req.value.headers ==> k == "Content-Type" || k == "Authorization" || k == "x-fi-access-token")
        && (httpMethod.HasBody() && encoding.Json? && bodyParams == [] ==> req.value.httpBody == None)
  {
    var r := WithDefaults(baseURL, endPoint, httpMethod, bodyParams, encoding, auth);
    WithDefaultsFields(baseURL, endPoint, httpMethod, bodyParams, encoding, auth);
    assert QueryItems(r.params) == [];
    if AssembledRequest(r, p).Some? && httpMethod.HasBody() {
      var h := AssembledRequest(r, p).value.headers;
      assert h == BodyHeaders(r) by {
        AssembledHeaders(r, p);
      }
      forall k | k in h && k != "Content-Type" && k != "Authorization"
        ensures k == "x-fi-access-token"
      {
        WithHeaderEffect(map[], ContentTypeField(encoding), k);
        WithHeaderEffect(WithHeader(map[], ContentTypeField(encoding)), AuthHeader(auth), k);
      }
      if encoding.Json? && bodyParams == [] {
        AssembledBody(r, p);
      }
    }
  }

  /** Setting a header field changes that field and no other. */
  lemma WithHeaderEffect(headers: map<string, string>, field: Option<(string, string)>, k: string)
    ensures (field.None? || k != field.value.0) ==>
      (k in WithHeader(headers, field) <==> k in headers)
      && (k in headers ==> WithHeader(headers, field)[k] == headers[k])
    ensures field.Some? ==>
      field.value.0 in WithHeader(headers, field) && WithHeader(headers, field)[field.value.0] == field.value.1
  {
  }

  /** Splits decoded credentials at the first colon, as section 2 of RFC 7617 reads them. */
  function SplitCredentials(s: string): Option<(string, string)>
  {
    if s == [] then None
    else if s[0] == ':' then Some(([], s[1..]))
    else
      match SplitCredentials(s[1..])
      case None => None
      case Some((user, password)) => Some(([s[0]] + user, password))
  }

  /** The user name and password a `Basic` credential string carries. */
  function ReadCredentials(c: string): Option<(string, string)>
  {
    match Base64.Decode(c)
    case None => None
    case Some(bytes) =>
      match Utf8.Decode(bytes)
      case None => None
      case Some(s) => SplitCredentials(s)
  }

  lemma {:induction false} SplitCredentialsOf(user: string, password: string)
    requires ':' !in user
    ensures SplitCredentials(user + ":" + password) == Some((user, password))
  {
    if user == [] {
      assert user + ":" + password == [':'] + password;
    } else {
      assert (user + ":" + password)[1..] == user[1..] + ":" + password;
      SplitCredentialsOf(user[1..], password);
      assert [user[0]] + user[1..] == user;
    }
  }

  /**
    The `Authorization` value gives back the user name and password, provided the
    user name has no colon (section 2 of RFC 7617 rules one out).
  */
  lemma CredentialsRoundTrip(userName: string, password: string)
    requires ':' !in userName
    ensures ReadCredentials(Credentials(userName, password)) == Some((userName, password))
  {
    var bytes := Utf8.Encode(userName + ":" + password);
    Base64.DecodeEncode(bytes);
    Utf8.DecodeEncode(userName + ":" + password);
    SplitCredentialsOf(userName, password);
  }

  /**
    The body of a POST, DELETE or PUT: in `.url` mode the form of `bodyParams`,
    never nil, so the fall-back to `params` is never taken; in `.multipart` mode the
    parts of `params`; in `.form` and `.none` mode none; in `.json` mode the JSON of
    `bodyParams`, else the raw body, else (when those are nil) the JSON of `params`,
    else the raw body.
  */
  lemma RequestBodyCases(r: Resource, p: Platform)
    requires AssembledRequest(r, p).Some? && r.httpMethod.HasBody()
    ensures var b := AssembledRequest(r, p).value.httpBody;
      && (r.paramsEncoding.Url? ==> b == Some(Utf8.Encode(FormEncoding.FormText(r.bodyParams))))
      && (r.paramsEncoding.Multipart? ==>
            b == Some(Utf8.Encode(Multipart.MultipartText(r.params, r.paramsEncoding.boundary))))
      && (r.paramsEncoding.Form? || r.paramsEncoding.NoEncoding? ==> b == None)
      && (r.paramsEncoding.Json? ==>
            b == (if |r.bodyParams| > 0 && p.jsonData(r.bodyParams).Some? then p.jsonData(r.bodyParams)
                  else if |r.bodyParams| == 0 && r.body.Some? then r.body
                  else if |r.params| > 0 then p.jsonData(r.params)
                  else r.body))
  {
    AssembledBody(r, p);
    PayloadCases(r.paramsEncoding, r.bodyParams, r.params, r.params, r.body, p);
    PayloadCases(r.paramsEncoding, r.params, r.bodyParams, r.params, r.body, p);
  }

  lemma AssembledBody(r: Resource, p: Platform)
    requires AssembledRequest(r, p).Some? && r.httpMethod.HasBody()
    ensures AssembledRequest(r, p).value.httpBody == RequestBody(r, p)
  {
  }

  /**
    With both dictionaries empty and no raw body, a POST, DELETE or PUT still gets
    a body in `.url` mode (empty data) and in `.multipart` mode (the closing
    delimiter), and none otherwise.
  */
  lemma EmptyDictionariesBody(r: Resource, p: Platform)
    requires AssembledRequest(r, p).Some? && r.httpMethod.HasBody()
    requires r.params == [] && r.bodyParams == [] && r.body == None
    ensures var b := AssembledRequest(r, p).value.httpBody;
      && (r.paramsEncoding.Url? ==> b == Some([]))
      && (r.paramsEncoding.Multipart? ==>
            b == Some(Utf8.Encode("\r\n--" + r.paramsEncoding.boundary + "--\r\n")))
      && (!r.paramsEncoding.Url? && !r.paramsEncoding.Multipart? ==> b == None)
  {
    AssembledBody(r, p);
    PayloadCases(r.paramsEncoding, r.bodyParams, r.params, r.params, r.body, p);
    if r.paramsEncoding.Multipart? {
      Multipart.EmptyDictionary(r.paramsEncoding.boundary);
    }
  }

  lemma ExampleUrlText()
    ensures Trimming.Trim("https://api.test/" + "v1/items") == "https://api.test/v1/items"
  {
    var s := "https://api.test/v1/items";
    assert "https://api.test/" + "v1/items" == s;
    Trimming.TrimKeeps(s);
  }

  /**
    GET `https://api.test/` + `v1/items` with the parameter `q` = `x` gives the URL
    `https://api.test/v1/items` with the single query item `q=x`, whatever the
    encoding and authentication, and no body.
  */
  lemma GetWithQuery(encoding: ParameterEncoding, auth: AuthType, p: Platform)
    requires p.parsesUrl("https://api.test/v1/items")
    ensures AssembledRequest(Resource("https://api.test/", "v1/items", Get, map[], [("q", Str("x"))], [], None,
                                      encoding, auth), p)
      == Some(UrlRequest(RequestUrl("https://api.test/v1/items", Some([QueryItem("q", "x")])), "GET", map[], None))
  {
    ExampleUrlText();
    var d: Dict := [("q", Str("x"))];
    assert d[..0] == [];
    assert QueryItems(d) == [QueryItem("q", "x")];
    var r := Resource("https://api.test/", "v1/items", Get, map[], d, [], None, encoding, auth);
    assert UrlString(r) == "https://api.test/v1/items";
    assert ComponentsUrl(r, p) == Some(RequestUrl("https://api.test/v1/items", Some([QueryItem("q", "x")])));
    assert Get.Name() == "GET";
  }

  lemma ExampleCredentialBytes()
    ensures Utf8.Encode("user" + ":" + "pass") == [0x75, 0x73, 0x65, 0x72, 0x3A, 0x70, 0x61, 0x73, 0x73]
  {
    var s := "user:pass";
    var bs: seq<byte> := [0x75, 0x73, 0x65, 0x72, 0x3A, 0x70, 0x61, 0x73, 0x73];
    assert "user" + ":" + "pass" == s;
    assert s[0] == 'u' && s[1] == 's' && s[2] == 'e' && s[3] == 'r' && s[4] == ':';
    assert s[5] == 'p' && s[6] == 'a' && s[7] == 's' && s[8] == 's';
    Utf8.EncodeAsciiBytes(s, bs);
  }

  lemma ExampleCells()
    ensures Base64.Cells([0x75, 0x73, 0x65, 0x72, 0x3A, 0x70, 0x61, 0x73, 0x73])
      == [Base64.Sextet(29), Base64.Sextet(23), Base64.Sextet(13), Base64.Sextet(37)]
         + ([Base64.Sextet(28), Base64.Sextet(35), Base64.Sextet(41), Base64.Sextet(48)]
            + [Base64.Sextet(24), Base64.Sextet(23), Base64.Sextet(13), Base64.Sextet(51)])
  {
    var bs: seq<byte> := [0x75, 0x73, 0x65, 0x72, 0x3A, 0x70, 0x61, 0x73, 0x73];
    assert bs[6..][3..] == [];
    assert Base64.Cells(bs[6..]) == [Base64.Sextet(24), Base64.Sextet(23), Base64.Sextet(13), Base64.Sextet(51)];
    assert bs[3..][3..] == bs[6..];
    assert Base64.Cells(bs[3..]) == [Base64.Sextet(28), Base64.Sextet(35), Base64.Sextet(41), Base64.Sextet(48)]
      + Base64.Cells(bs[6..]);
  }

  lemma ExampleRender()
    ensures Base64.Render([Base64.Sextet(29), Base64.Sextet(23), Base64.Sextet(13), Base64.Sextet(37)]) == "dXNl"
    ensures Base64.Render([Base64.Sextet(28), Base64.Sextet(35), Base64.Sextet(41), Base64.Sextet(48)]) == "cjpw"
    ensures Base64.Render([Base64.Sextet(24), Base64.Sextet(23), Base64.Sextet(13), Base64.Sextet(51)]) == "YXNz"
  {
  }

  lemma ExampleRenderAll()
    ensures Base64.Render([Base64.Sextet(29), Base64.Sextet(23), Base64.Sextet(13), Base64.Sextet(37)]
         + ([Base64.Sextet(28), Base64.Sextet(35), Base64.Sextet(41), Base64.Sextet(48)]
            + [Base64.Sextet(24), Base64.Sextet(23), Base64.Sextet(13), Base64.Sextet(51)])) == "dXNlcjpwYXNz"
  {
    var a := [Base64.Sextet(29), Base64.Sextet(23), Base64.Sextet(13), Base64.Sextet(37)];
    var b := [Base64.Sextet(28), Base64.Sextet(35), Base64.Sextet(41), Base64.Sextet(48)];
    var c := [Base64.Sextet(24), Base64.Sextet(23), Base64.Sextet(13), Base64.Sextet(51)];
    assert Base64.Render(a + (b + c)) == "dXNl" + ("cjpw" + "YXNz") by {
      ExampleRender();
      Base64.RenderAppend(b, c);
      Base64.RenderAppend(a, b + c);
    }
    assert "dXNl" + ("cjpw" + "YXNz") == "dXNlcjpwYXNz";
  }

  lemma CredentialsVia(userName: string, password: string, bytes: seq<byte>, cells: seq<Base64.Cell>, text: string)
    requires Utf8.Encode(userName + ":" + password) == bytes
    requires Base64.Cells(bytes) == cells && Base64.Render(cells) == text
    ensures Credentials(userName, password) == text
  {
  }

  lemma ExampleCredentials()
    ensures Credentials("user", "pass") == "dXNlcjpwYXNz"
  {
    ExampleCredentialBytes();
    ExampleCells();
    ExampleRenderAll();
    CredentialsVia("user", "pass", [0x75, 0x73, 0x65, 0x72, 0x3A, 0x70, 0x61, 0x73, 0x73],
      [Base64.Sextet(29), Base64.Sextet(23), Base64.Sextet(13), Base64.Sextet(37)]
      + ([Base64.Sextet(28), Base64.Sextet(35), Base64.Sextet(41), Base64.Sextet(48)]
         + [Base64.Sextet(24), Base64.Sextet(23), Base64.Sextet(13), Base64.Sextet(51)]),
      "dXNlcjpwYXNz");
  }

  /** `.basic(userName: "user", password: "pass")` sends `Authorization: Basic dXNlcjpwYXNz`. */
  lemma BasicUserPass()
    ensures AuthHeader(Basic("user", "pass")) == Some(("Authorization", "Basic dXNlcjpwYXNz"))
  {
    ExampleCredentials();
    assert "Basic " + "dXNlcjpwYXNz" == "Basic dXNlcjpwYXNz";
  }
}
