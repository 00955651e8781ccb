/**
  `escape` of JPNetworkResource: percent-encoding with Foundation's query-allowed
  character set, less the general delimiters `:#[]@` and the sub-delimiters
  `!$&'()*+,;=` of section 2.2 of RFC 3986. `?` and `/` stay allowed, as section
  3.4 of RFC 3986 permits them in a query.
*/
module Escaping {
  import opened Wrappers
  import Utf8
  import Sequences

  const GeneralDelimiters: string := ":#[]@"
  const SubDelimiters: string := "!$&'()*+,;="

  predicate IsAlphaNumeric(c: char)
  {
    ('A' <= c <= 'Z') || ('a' <= c <= 'z') || ('0' <= c <= '9')
  }

  /**
    Foundation's `CharacterSet.urlQueryAllowed`: the characters section 3.4 of
    RFC 3986 lets stand in a query unescaped (unreserved, sub-delimiters, `:`, `@`,
    `/` and `?`).
  */
  predicate QueryAllowed(c: char)
  {
    IsAlphaNumeric(c) || c in "-._~" || c in SubDelimiters || c in ":@/?"
  }

  /** The allowed set `escape` builds: the query-allowed set with the delimiters removed. */
  predicate EscapeAllowed(c: char)
  {
    QueryAllowed(c) && c !in GeneralDelimiters + SubDelimiters
  }

  /** What is left is RFC 3986's unreserved characters plus `/` and `?`. */
  lemma EscapeAllowedChars(c: char)
    ensures EscapeAllowed(c) <==> IsAlphaNumeric(c) || c in "-._~/?"
  {
  }

  function HexDigit(n: int): (c: char)
    requires 0 <= n < 16
    ensures IsAlphaNumeric(c)
  {
    if n < 10 then ('0' as int + n) as char else ('A' as int + n - 10) as char
  }

  predicate IsHexDigit(c: char)
  {
    ('0' <= c <= '9') || ('A' <= c <= 'F') || ('a' <= c <= 'f')
  }

  function HexValue(c: char): (n: int)
    requires IsHexDigit(c)
    ensures 0 <= n < 16
  {
    if '0' <= c <= '9' then c as int - '0' as int
    else if 'A' <= c <= 'F' then c as int - 'A' as int + 10
    else c as int - 'a' as int + 10
  }

  lemma HexRoundTrip(n: int)
    requires 0 <= n < 16
    ensures IsHexDigit(HexDigit(n)) && HexValue(HexDigit(n)) == n
  {
  }

  /** `%HH` for each byte, upper-case hexadecimal, as `addingPercentEncoding` writes it. */
  function PercentEncode(bs: seq<Utf8.byte>): (t: string)
    ensures |t| == 3 * |bs|
  {
    if bs == [] then ""
    else ['%', HexDigit(bs[0] as int / 16), HexDigit(bs[0] as int % 16)] + PercentEncode(bs[1..])
  }

  function EscapeChar(c: char): string
  {
    if EscapeAllowed(c) then [c] else PercentEncode(Utf8.EncodeScalar(c))
  }

  /**
    `escape(_:)`. Foundation's `addingPercentEncoding` returns nil only for text that
    has no UTF-8 form, which no Dafny string is, so the `?? string` fallback is
    never taken and does not appear here.
  */
  function Escape(s: string): (r: string)
    ensures |r| >= |s|
  {
    if s == [] then "" else EscapeChar(s[0]) + Escape(s[1..])
  }

  /**
    Percent-decoding to bytes, as `removingPercentEncoding` does before it reads the
    bytes as UTF-8: `%HH` is one byte, any other character its UTF-8 encoding;
    a `%` not followed by two hexadecimal digits is an error.
  */
  function Unescape(t: string): (r: Option<seq<Utf8.byte>>)
  {
    if t == [] then Some([])
    else if t[0] == '%' then
      if |t| >= 3 && IsHexDigit(t[1]) && IsHexDigit(t[2]) then
        match Unescape(t[3..])
        case None => None
        case Some(rest) => Some([(HexValue(t[1]) * 16 + HexValue(t[2])) as Utf8.byte] + rest)
      else None
    else
      match Unescape(t[1..])
      case None => None
      case Some(rest) => Some(Utf8.EncodeScalar(t[0]) + rest)
  }

  /** Percent-decoding followed by strict UTF-8 decoding. */
  function DecodeComponent(t: string): Option<string>
  {
    match Unescape(t)
    case None => None
    case Some(bs) => Utf8.Decode(bs)
  }

  /** A character `escape` may write: an allowed one, or the `%` of an escape. */
  predicate Escaped(c: char)
  {
    EscapeAllowed(c) || c == '%'
  }

  lemma EscapedNotDelimiter(c: char)
    requires Escaped(c)
    ensures c !in GeneralDelimiters + SubDelimiters
  {
    if c == '%' {
      assert '%' !in GeneralDelimiters + SubDelimiters;
    }
  }

  /** No character of `escape`'s output is one of the delimiters it removes from the allowed set. */
  lemma EscapeHasNoDelimiter(s: string)
    ensures forall i :: 0 <= i < |Escape(s)| ==> Escape(s)[i] !in GeneralDelimiters + SubDelimiters
    ensures forall i :: 0 <= i < |Escape(s)| ==> EscapeAllowed(Escape(s)[i]) || Escape(s)[i] == '%'
  {
    EscapeWrites(s);
    forall i | 0 <= i < |Escape(s)| ensures Escape(s)[i] !in GeneralDelimiters + SubDelimiters {
      EscapedNotDelimiter(Escape(s)[i]);
    }
  }

  lemma {:induction false} EscapeWrites(s: string)
    ensures forall i :: 0 <= i < |Escape(s)| ==> Escaped(Escape(s)[i])
  {
    if s != [] {
      EscapeWrites(s[1..]);
      EscapeCharWrites(s[0]);
      AllEscapedAppend(EscapeChar(s[0]), Escape(s[1..]));
    }
  }

  lemma EscapeCharWrites(c: char)
    ensures forall i :: 0 <= i < |EscapeChar(c)| ==> Escaped(EscapeChar(c)[i])
  {
    if !EscapeAllowed(c) {
      var t := PercentEncode(Utf8.EncodeScalar(c));
      PercentEncodeChars(Utf8.EncodeScalar(c));
      forall i | 0 <= i < |t| ensures Escaped(t[i]) {
        if t[i] != '%' {
          EscapeAllowedChars(t[i]);
        }
      }
    }
  }

  lemma AllEscapedAppend(a: string, b: string)
    requires forall i :: 0 <= i < |a| ==> Escaped(a[i])
    requires forall i :: 0 <= i < |b| ==> Escaped(b[i])
    ensures forall i :: 0 <= i < |a + b| ==> Escaped((a + b)[i])
  {
    forall i | 0 <= i < |a + b| ensures Escaped((a + b)[i]) {
      if i >= |a| {
        assert (a + b)[i] == b[i - |a|];
      }
    }
  }

  lemma {:induction false} PercentEncodeChars(bs: seq<Utf8.byte>)
    ensures forall i :: 0 <= i < |PercentEncode(bs)| ==> PercentEncode(bs)[i] == '%' || IsAlphaNumeric(PercentEncode(bs)[i])
  {
    if bs != [] {
      PercentEncodeChars(bs[1..]);
    }
  }

  /** `escape` leaves a string alone exactly when all its characters are in the allowed set. */
  lemma {:induction false} EscapeIdentity(s: string)
    ensures Escape(s) == s <==> forall i :: 0 <= i < |s| ==> EscapeAllowed(s[i])
  {
    if s != [] {
      EscapeIdentity(s[1..]);
      if !EscapeAllowed(s[0]) {
        assert |EscapeChar(s[0])| >= 3;
        assert |Escape(s)| > |s|;
      }
      assert s == [s[0]] + s[1..];
    }
  }

  /** In particular `?` and `/` come through unchanged. */
  lemma QuestionMarkAndSlashKept()
    ensures Escape("/?") == "/?"
  {
    assert EscapeAllowed('/') && EscapeAllowed('?');
    EscapeIdentity("/?");
  }

  /** One `%HH` triple decodes to its byte. */
  lemma UnescapeTriple(b: Utf8.byte, u: string, rest: seq<Utf8.byte>)
    requires Unescape(u) == Some(rest)
    ensures Unescape(['%', HexDigit(b as int / 16), HexDigit(b as int % 16)] + u) == Some([b] + rest)
  {
    var p := ['%', HexDigit(b as int / 16), HexDigit(b as int % 16)] + u;
    HexRoundTrip(b as int / 16);
    HexRoundTrip(b as int % 16);
    assert p[0] == '%' && p[3..] == u;
    assert (HexValue(p[1]) * 16 + HexValue(p[2])) as Utf8.byte == b;
  }

  /** Percent-encoded bytes decode back to those bytes, whatever decodable text follows. */
  lemma {:induction false} UnescapePercentEncode(bs: seq<Utf8.byte>, t: string, rest: seq<Utf8.byte>)
    requires Unescape(t) == Some(rest)
    ensures Unescape(PercentEncode(bs) + t) == Some(bs + rest)
  {
    if bs == [] {
      assert PercentEncode(bs) + t == t;
      assert bs + rest == rest;
    } else {
      var b := bs[0] as int;
      var u := PercentEncode(bs[1..]) + t;
      Sequences.Assoc(['%', HexDigit(b / 16), HexDigit(b % 16)], PercentEncode(bs[1..]), t);
      UnescapePercentEncode(bs[1..], t, rest);
      UnescapeTriple(bs[0], u, bs[1..] + rest);
      assert [bs[0]] + bs[1..] == bs;
      Sequences.Assoc([bs[0]], bs[1..], rest);
    }
  }

  /** Percent-decoding what `escape` produced gives the UTF-8 bytes of the original. */
  lemma {:induction false} UnescapeEscape(s: string)
    ensures Unescape(Escape(s)) == Some(Utf8.Encode(s))
  {
    if s != [] {
      UnescapeEscape(s[1..]);
      if EscapeAllowed(s[0]) {
        assert ([s[0]] + Escape(s[1..]))[1..] == Escape(s[1..]);
      } else {
        UnescapePercentEncode(Utf8.EncodeScalar(s[0]), Escape(s[1..]), Utf8.Encode(s[1..]));
      }
    }
  }

  /** Decoding an escaped component recovers the original string. */
  lemma DecodeEscape(s: string)
    ensures DecodeComponent(Escape(s)) == Some(s)
  {
    UnescapeEscape(s);
    Utf8.DecodeEncode(s);
  }

  /** Different strings escape differently. */
  lemma EscapeInjective(s: string, t: string)
    requires Escape(s) == Escape(t)
    ensures s == t
  {
    DecodeEscape(s);
    DecodeEscape(t);
  }
}
