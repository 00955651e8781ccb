/**
  `JPNetworkResponse`: what a finished request hands back (status code, body,
  the request that was sent and the HTTP response), and the text it prints as,
  `"<status>"` or `"<status>:<body as UTF-8>"`.
*/
module Response {
  import opened Wrappers
  import Utf8
  import Decimal
  import Assembly

  type byte = Utf8.byte

  /** The parts of an `HTTPURLResponse` this model keeps. */
  datatype HttpUrlResponse = HttpUrlResponse(statusCode: int, headerFields: map<string, string>)

  /** Every property is a `let`, so every field is a `const` set once by the constructor. */
  class NetworkResponse {
    const statusCode: int
    const data: Option<seq<byte>>
    const urlRequest: Option<Assembly.UrlRequest>
    const httpResponse: Option<HttpUrlResponse>

    constructor (statusCode: int, data: Option<seq<byte>>, urlRequest: Option<Assembly.UrlRequest>,
                 httpResponse: Option<HttpUrlResponse>)
      ensures this.statusCode == statusCode && this.data == data
      ensures this.urlRequest == urlRequest && this.httpResponse == httpResponse
    {
      this.statusCode := statusCode;
      this.data := data;
      this.urlRequest := urlRequest;
      this.httpResponse := httpResponse;
    }

    /** `String(data: data, encoding: .utf8)`: the body as text, when there is one and it is valid UTF-8. */
    function DataText(): (t: Option<string>)
      ensures t.Some? <==> data.Some? && exists s :: Utf8.Encode(s) == data.value
      ensures t.Some? ==> Utf8.Encode(t.value) == data.value
    {
      if data.None? then None
      else
        var t := Utf8.Decode(data.value);
        Utf8.DecodeIsInverse(data.value, if t.Some? then t.value else "");
        if t.None? then
          assert forall s :: Utf8.Encode(s) != data.value by {
            forall s ensures Utf8.Encode(s) != data.value {
              Utf8.DecodeIsInverse(data.value, s);
            }
          }
          None
        else t
    }

    /**
      `description`: the status code, followed by `:` and the body only when
      there is a body that decodes as UTF-8.
    */
    function Description(): (s: string)
      ensures |s| >= |Decimal.IntText(statusCode)|
      ensures s[..|Decimal.IntText(statusCode)|] == Decimal.IntText(statusCode)
      ensures ':' in s <==> DataText().Some?
    {
      var code := Decimal.IntText(statusCode);
      NoColonInNumber(statusCode);
      if data.Some? && Utf8.Decode(data.value).Some? then
        var dataString := Utf8.Decode(data.value).value;
        assert (code + ":" + dataString)[|code|] == ':';
        code + ":" + dataString
      else
        code
    }

    /** `debugDescription`, written out as its own body; it is the same text as `description`. */
    function DebugDescription(): (s: string)
      ensures s == Description()
    {
      if data.None? then Decimal.IntText(statusCode)
      else match Utf8.Decode(data.value)
        case None => Decimal.IntText(statusCode)
        case Some(dataString) => Decimal.IntText(statusCode) + ":" + dataString
    }
  }

  lemma NoColonInNumber(n: int)
    ensures ':' !in Decimal.IntText(n)
  {
  }

  /** `t` cut at its first `:`: the part before it, and the rest when there is a colon. */
  function SplitAtColon(t: string): (r: (string, Option<string>))
  {
    if t == [] then ("", None)
    else if t[0] == ':' then ("", Some(t[1..]))
    else
      var (head, rest) := SplitAtColon(t[1..]);
      ([t[0]] + head, rest)
  }

  /** Reads a description back into a status code and the body's text, if it has one. */
  function ReadDescription(t: string): Option<(int, Option<string>)>
  {
    var (head, rest) := SplitAtColon(t);
    match Decimal.ParseInt(head)
    case None => None
    case Some(n) => Some((n, rest))
  }

  lemma {:induction false} SplitWithoutColon(x: string)
    requires ':' !in x
    ensures SplitAtColon(x) == (x, None)
  {
    if x != [] {
      SplitWithoutColon(x[1..]);
      assert [x[0]] + x[1..] == x;
    }
  }

  lemma {:induction false} SplitAtFirstColon(x: string, y: string)
    requires ':' !in x
    ensures SplitAtColon(x + ":" + y) == (x, Some(y))
  {
    if x == [] {
      assert x + ":" + y == ":" + y;
      assert (":" + y)[1..] == y;
    } else {
      assert (x + ":" + y)[1..] == x[1..] + ":" + y;
      SplitAtFirstColon(x[1..], y);
      assert [x[0]] + x[1..] == x;
    }
  }

  /**
    A description tells the status code and the body's text apart: it reads back
    as exactly that code and that text (nothing after the code when the body is
    absent or not UTF-8).
  */
  lemma DescriptionReadsBack(r: NetworkResponse)
    ensures ReadDescription(r.Description()) == Some((r.statusCode, r.DataText()))
    ensures ReadDescription(r.DebugDescription()) == Some((r.statusCode, r.DataText()))
  {
    var code := Decimal.IntText(r.statusCode);
    NoColonInNumber(r.statusCode);
    Decimal.ParseIntText(r.statusCode);
    if r.DataText().Some? {
      SplitAtFirstColon(code, r.DataText().value);
    } else {
      SplitWithoutColon(code);
    }
  }
}
