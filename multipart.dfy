/**
  `createBody(with:boundaryString:)`, the `.multipart` case of the encoders: one
  `multipart/form-data` part per dictionary entry, in the dictionary's iteration
  order, followed by the closing delimiter; and a reader that takes such a body
  apart again.
*/
module Multipart {
  import opened Wrappers
  import Utf8
  import opened Resource
  import Sequences

  const Crlf := "\r\n"
  const Dashes := "--"
  const Quote := "\""
  const Disposition := "Content-Disposition: form-data; name=\""

  /** The content a value contributes: a String's text, nothing for any other value. */
  function Content(v: Value): string
  {
    match v
    case Str(t) => t
    case NonString(_) => ""
  }

  /** `--boundary` and its line break: the dash-boundary of section 5.1.1 of RFC 2046. */
  function Open(boundary: string): string
  {
    Dashes + boundary + Crlf
  }

  /** The `Content-Disposition` line naming the field. */
  function Line(key: string): string
  {
    Disposition + key + Quote + Crlf
  }

  /** The part's header lines and the empty line that ends them. */
  function Header(key: string, boundary: string): string
  {
    Open(boundary) + Line(key) + Crlf
  }

  /**
    One part: its header lines, then the value's text. A String value is the
    part's content; any other value leaves a part with the header alone.
  */
  function PartText(e: (string, Value), boundary: string): (t: string)
    ensures 0 < |Header(e.0, boundary)| <= |t|
    ensures t[..|Header(e.0, boundary)|] == Header(e.0, boundary)
    ensures e.1.Str? ==> t[|Header(e.0, boundary)|..] == e.1.text
    ensures e.1.NonString? ==> t == Header(e.0, boundary)
  {
    Header(e.0, boundary) + Content(e.1)
  }

  /**
    The parts written by the loop over `d`, each after a CRLF unless the body is
    still empty.
  */
  function PartsText(d: seq<(string, Value)>, boundary: string): string
  {
    if d == [] then ""
    else
      var prefix := PartsText(d[..|d| - 1], boundary);
      prefix + (if prefix == "" then "" else Crlf) + PartText(d[|d| - 1], boundary)
  }

  /** The close-delimiter of section 5.1.1 of RFC 2046, with its surrounding line breaks. */
  function Closing(boundary: string): string
  {
    Crlf + Dashes + boundary + Dashes + Crlf
  }

  /** The text of the body `createBody` returns, before its conversion to UTF-8. */
  function MultipartText(d: Dict, boundary: string): string
  {
    PartsText(d, boundary) + Closing(boundary)
  }

  lemma PrefixOf(p: string, x: string)
    ensures StartsWith(p + x, p) && (p + x)[..|p|] == p && (p + x)[|p|..] == x
  {
  }

  lemma PrefixThrough(c: string, rest: string, p: string)
    requires StartsWith(rest, p)
    ensures StartsWith(c + rest, c + p)
  {
    assert (c + rest)[..|c + p|] == c + rest[..|p|];
  }

  lemma SameSlice(t: string, p: string, i: nat, k: nat)
    requires StartsWith(t, p) && i <= k <= |p|
    ensures t[i..k] == p[i..k]
  {
    forall m | i <= m < k ensures t[m] == p[m] {
      assert t[..|p|][m] == t[m];
    }
    assert t[i..k] == p[i..k];
  }

  /** `((x + a) + b) + c` regrouped, over any strings. */
  lemma Regroup(x: string, a: string, b: string, c: string)
    ensures x + a + b + c == x + (a + b + c)
  {
  }

  lemma PartsTextStep(d: seq<(string, Value)>, i: nat, boundary: string)
    requires i < |d|
    ensures var prefix := PartsText(d[..i], boundary);
      PartsText(d[..i + 1], boundary) == prefix + (if prefix == "" then "" else Crlf) + PartText(d[i], boundary)
  {
    assert d[..i + 1][..i] == d[..i];
  }

  /**
    The loop of `createBody`. Each `append` adds the UTF-8 bytes of one piece of
    text; the `guard`s that throw cannot fail, since every character is a
    Unicode scalar value and so always has a UTF-8 form.
  */
  method CreateBody(parameters: Dict, boundaryString: string) returns (body: seq<Utf8.byte>)
    ensures body == Utf8.Encode(MultipartText(parameters, boundaryString))
  {
    body := [];
    ghost var text := "";
    for i := 0 to |parameters|
      invariant text == PartsText(parameters[..i], boundaryString)
      invariant body == Utf8.Encode(text)
    {
      var (key, rawValue) := parameters[i];
      PartsTextStep(parameters, i, boundaryString);
      if body != [] {
        Utf8.EncodeAppend(text, Crlf);
        body := body + Utf8.Encode(Crlf);
        text := text + Crlf;
      }
      ghost var separated := text;
      Utf8.EncodeAppend(text, Open(boundaryString));
      body := body + Utf8.Encode(Open(boundaryString));
      text := text + Open(boundaryString);
      Utf8.EncodeAppend(text, Line(key));
      body := body + Utf8.Encode(Line(key));
      text := text + Line(key);
      Utf8.EncodeAppend(text, Crlf);
      body := body + Utf8.Encode(Crlf);
      text := text + Crlf;
      Regroup(separated, Open(boundaryString), Line(key), Crlf);
      if rawValue.Str? {
        Utf8.EncodeAppend(text, rawValue.text);
        body := body + Utf8.Encode(rawValue.text);
        text := text + rawValue.text;
        Sequences.Assoc(separated, Header(key, boundaryString), rawValue.text);
      } else {
        assert Header(key, boundaryString) + [] == Header(key, boundaryString);
      }
    }
    assert parameters[..|parameters|] == parameters;
    Utf8.EncodeAppend(text, Closing(boundaryString));
    body := body + Utf8.Encode(Closing(boundaryString));
  }

  // Reading a body back.

  /** The delimiter that precedes every part but the first, and the close-delimiter. */
  function Delimiter(boundary: string): string
  {
    Crlf + Dashes + boundary
  }

  predicate StartsWith(t: string, p: string)
  {
    |p| <= |t| && t[..|p|] == p
  }

  predicate OccursAt(t: string, pat: string, j: nat)
  {
    j + |pat| <= |t| && t[j..j + |pat|] == pat
  }

  /** The first position at or after `from` where `pat` occurs in `t`. */
  function IndexOf(t: string, pat: string, from: nat): (r: Option<nat>)
    decreases |t| - from
    ensures r.Some? ==> from <= r.value && OccursAt(t, pat, r.value)
  {
    if from + |pat| > |t| then None
    else if OccursAt(t, pat, from) then Some(from)
    else IndexOf(t, pat, from + 1)
  }

  /**
    Reads parts off the front of `u`, where each part's dash-boundary comes after
    a CRLF: the field name runs to the first quote, and the content to the next
    delimiter.
  */
  function ReadParts(u: string, boundary: string): Option<seq<(string, string)>>
    decreases |u|
  {
    var open := Delimiter(boundary) + Crlf + Disposition;
    var close := Quote + Crlf + Crlf;
    if u == Closing(boundary) then Some([])
    else if !StartsWith(u, open) then None
    else
      var t := u[|open|..];
      match IndexOf(t, Quote, 0)
      case None => None
      case Some(q) =>
        var after := t[q..];
        if !StartsWith(after, close) then None
        else
          var rest := after[|close|..];
          match IndexOf(rest, Delimiter(boundary), 0)
          case None => None
          case Some(e) =>
            match ReadParts(rest[e..], boundary)
            case None => None
            case Some(more) => Some([(t[..q], rest[..e])] + more)
  }

  /** Reads a whole body: the fields' names and contents, in order. */
  function ReadMultipart(text: string, boundary: string): Option<seq<(string, string)>>
  {
    if text == Closing(boundary) then Some([]) else ReadParts(Crlf + text, boundary)
  }

  /**
    The delimiter occurs nowhere in the content, not even running into the
    delimiter that follows it: the condition section 5.1.1 of RFC 2046 puts on the
    choice of boundary.
  */
  predicate DelimiterFree(c: string, boundary: string)
  {
    forall j: nat :: j < |c| ==> !OccursAt(c + Delimiter(boundary), Delimiter(boundary), j)
  }

  /** The entries a reader can recover: names without quotes, contents without the delimiter. */
  predicate Readable(d: seq<(string, Value)>, boundary: string)
  {
    forall i :: 0 <= i < |d| ==> '"' !in d[i].0 && DelimiterFree(Content(d[i].1), boundary)
  }

  /** Each entry's name and the content its part carries. */
  function Fields(d: seq<(string, Value)>): (fs: seq<(string, string)>)
    ensures |fs| == |d|
    ensures forall i :: 0 <= i < |d| ==> fs[i] == (d[i].0, Content(d[i].1))
  {
    if d == [] then [] else [(d[0].0, Content(d[0].1))] + Fields(d[1..])
  }

  /** The parts, each after a CRLF, read front to back. */
  function Framed(d: seq<(string, Value)>, boundary: string): string
  {
    if d == [] then "" else Crlf + PartText(d[0], boundary) + Framed(d[1..], boundary)
  }

  lemma {:induction false} FramedSnoc(d: seq<(string, Value)>, e: (string, Value), boundary: string)
    ensures Framed(d + [e], boundary) == Framed(d, boundary) + Crlf + PartText(e, boundary)
  {
    if d == [] {
      assert d + [e] == [e];
      assert [e][1..] == [];
    } else {
      var x := Crlf + PartText(d[0], boundary);
      var tail := PartText(e, boundary);
      assert (d + [e])[1..] == d[1..] + [e];
      assert Framed(d + [e], boundary) == x + Framed(d[1..] + [e], boundary);
      FramedSnoc(d[1..], e, boundary);
      Regroup(x, Framed(d[1..], boundary), Crlf, tail);
    }
  }

  /** The loop's text, after a CRLF, is the framed parts. */
  lemma {:induction false} PartsFramed(d: seq<(string, Value)>, boundary: string)
    ensures d == [] ==> PartsText(d, boundary) == ""
    ensures d != [] ==> Crlf + PartsText(d, boundary) == Framed(d, boundary)
  {
    if d != [] {
      var init := d[..|d| - 1];
      var e := d[|d| - 1];
      assert d == init + [e];
      PartsFramed(init, boundary);
      FramedSnoc(init, e, boundary);
      var p := PartsText(init, boundary);
      if init == [] {
        assert PartsText(d, boundary) == PartText(e, boundary);
        assert Framed(init, boundary) == "";
      } else {
        assert |Crlf + p| > |Crlf|;
        assert PartsText(d, boundary) == p + Crlf + PartText(e, boundary);
        Regroup(Crlf, p, Crlf, PartText(e, boundary));
      }
    }
  }

  /** The first position of `pat` is the first one where it occurs. */
  lemma {:induction false} IndexOfFirst(t: string, pat: string, from: nat, k: nat)
    requires from <= k && OccursAt(t, pat, k)
    requires forall j: nat :: from <= j < k ==> !OccursAt(t, pat, j)
    ensures IndexOf(t, pat, from) == Some(k)
    decreases k - from
  {
    if from < k {
      IndexOfFirst(t, pat, from + 1, k);
    }
  }

  /** What follows a part always starts with the delimiter. */
  lemma FollowerStartsWithDelimiter(d: seq<(string, Value)>, boundary: string)
    ensures StartsWith(Framed(d, boundary) + Closing(boundary), Delimiter(boundary))
  {
    var D := Delimiter(boundary);
    if d == [] {
      PrefixOf(D + Dashes, Crlf);
      PrefixOf(D, Dashes);
    } else {
      FramedShape(d, boundary);
      var x := d[0].0 + ((Quote + Crlf + Crlf) + (Content(d[0].1) + (Framed(d[1..], boundary) + Closing(boundary))));
      PrefixOf(D + Crlf + Disposition, x);
      PrefixOf(D + Crlf, Disposition);
      PrefixOf(D, Crlf);
    }
  }

  /** A quote-free name is read up to the quote that follows it. */
  lemma KeyRead(key: string, tail: string)
    requires '"' !in key
    ensures IndexOf(key + (Quote + tail), Quote, 0) == Some(|key|)
  {
    var t := key + (Quote + tail);
    assert OccursAt(t, Quote, |key|);
    forall j: nat | j < |key| ensures !OccursAt(t, Quote, j) {
      assert t[j] == key[j];
    }
    IndexOfFirst(t, Quote, 0, |key|);
  }

  /** A delimiter-free content is read up to the delimiter that follows it. */
  lemma ContentRead(c: string, rest: string, boundary: string)
    requires DelimiterFree(c, boundary)
    requires StartsWith(rest, Delimiter(boundary))
    ensures IndexOf(c + rest, Delimiter(boundary), 0) == Some(|c|)
  {
    var D := Delimiter(boundary);
    var t := c + rest;
    PrefixThrough(c, rest, D);
    PrefixOf(c, rest);
    assert OccursAt(t, D, |c|) by {
      SameSlice(t, c + D, |c|, |c| + |D|);
      PrefixOf(c, D);
    }
    forall j: nat | j < |c| ensures !OccursAt(t, D, j) {
      assert !OccursAt(c + D, D, j);
      SameSlice(t, c + D, j, j + |D|);
    }
    IndexOfFirst(t, D, 0, |c|);
  }

  /** A part after a CRLF, then what follows it, in the shape the reader takes apart. */
  lemma PartShape(key: string, boundary: string, c: string, f: string)
    ensures Crlf + (Header(key, boundary) + c) + f
      == (Delimiter(boundary) + Crlf + Disposition) + (key + ((Quote + Crlf + Crlf) + (c + f)))
  {
  }

  lemma FramedShape(d: seq<(string, Value)>, boundary: string)
    requires d != []
    ensures Framed(d, boundary) + Closing(boundary)
      == (Delimiter(boundary) + Crlf + Disposition)
         + (d[0].0 + ((Quote + Crlf + Crlf) + (Content(d[0].1) + (Framed(d[1..], boundary) + Closing(boundary)))))
  {
    var p := PartText(d[0], boundary);
    var f := Framed(d[1..], boundary);
    assert Framed(d, boundary) == Crlf + p + f;
    Sequences.Assoc(Crlf + p, f, Closing(boundary));
    PartShape(d[0].0, boundary, Content(d[0].1), f + Closing(boundary));
  }

  /** A part's opening is never the close-delimiter. */
  lemma NotClosing(boundary: string, t: string)
    ensures Delimiter(boundary) + Crlf + Disposition + t != Closing(boundary)
  {
    var D := Delimiter(boundary);
    assert (D + Crlf + Disposition + t)[|D|] == '\r';
    assert Closing(boundary)[|D|] == '-';
  }

  /** One part is read off the front, and reading goes on with what follows it. */
  lemma ReadPart(key: string, c: string, follower: string, boundary: string)
    requires '"' !in key && DelimiterFree(c, boundary)
    requires StartsWith(follower, Delimiter(boundary))
    ensures var u := (Delimiter(boundary) + Crlf + Disposition) + (key + ((Quote + Crlf + Crlf) + (c + follower)));
      ReadParts(u, boundary) == (match ReadParts(follower, boundary)
                                 case None => None
                                 case Some(more) => Some([(key, c)] + more))
  {
    var open := Delimiter(boundary) + Crlf + Disposition;
    var close := Quote + Crlf + Crlf;
    var rest := c + follower;
    var after := close + rest;
    var t := key + after;
    PrefixOf(open, t);
    NotClosing(boundary, t);
    Regroup(Quote, Crlf, Crlf, rest);
    KeyRead(key, Crlf + Crlf + rest);
    PrefixOf(key, after);
    PrefixOf(close, rest);
    ContentRead(c, follower, boundary);
    PrefixOf(c, follower);
  }

  lemma {:induction false} ReadFramed(d: seq<(string, Value)>, boundary: string)
    requires Readable(d, boundary)
    ensures ReadParts(Framed(d, boundary) + Closing(boundary), boundary) == Some(Fields(d))
  {
    if d == [] {
      assert Framed(d, boundary) + Closing(boundary) == Closing(boundary);
    } else {
      FramedShape(d, boundary);
      FollowerStartsWithDelimiter(d[1..], boundary);
      ReadPart(d[0].0, Content(d[0].1), Framed(d[1..], boundary) + Closing(boundary), boundary);
      assert Readable(d[1..], boundary) by {
        forall i | 0 <= i < |d[1..]| ensures '"' !in d[1..][i].0 && DelimiterFree(Content(d[1..][i].1), boundary) {
          assert d[1..][i] == d[i + 1];
        }
      }
      ReadFramed(d[1..], boundary);
    }
  }

  /**
    A body written for readable entries is valid UTF-8, and reading its text back
    gives every entry's name with its content, in the order they were written.
  */
  lemma MultipartRoundTrip(d: Dict, boundary: string)
    requires Readable(d, boundary)
    ensures Utf8.Decode(Utf8.Encode(MultipartText(d, boundary))) == Some(MultipartText(d, boundary))
    ensures ReadMultipart(MultipartText(d, boundary), boundary) == Some(Fields(d))
  {
    Utf8.DecodeEncode(MultipartText(d, boundary));
    PartsFramed(d, boundary);
    ReadFramed(d, boundary);
    var p := PartsText(d, boundary);
    if d != [] {
      assert |Framed(d, boundary)| > |Crlf| by {
        assert |PartText(d[0], boundary)| > 0;
      }
      assert |MultipartText(d, boundary)| > |Closing(boundary)|;
      Sequences.Assoc(Crlf, p, Closing(boundary));
    } else {
      assert MultipartText(d, boundary) == Closing(boundary);
    }
  }

  /** The body for `["a": "1"]` with the boundary `B`, line by line. */
  lemma OneFieldExample()
    ensures MultipartText([("a", Str("1"))], "B")
      == "--B\r\n" + "Content-Disposition: form-data; name=\"a\"\r\n" + "\r\n" + "1" + "\r\n--B--\r\n"
  {
    var d: seq<(string, Value)> := [("a", Str("1"))];
    assert d[..0] == [];
    assert PartsText(d, "B") == PartText(d[0], "B");
    assert Open("B") == "--B\r\n";
    assert Line("a") == "Content-Disposition: form-data; name=\"a\"\r\n";
    assert Closing("B") == "\r\n--B--\r\n";
  }

  /** An empty dictionary still yields the closing delimiter, not an empty body. */
  lemma EmptyDictionary(boundary: string)
    ensures MultipartText([], boundary) == "\r\n--" + boundary + "--\r\n"
  {
  }
}
