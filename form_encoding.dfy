/**
  The `.url` case of `encodedParameters` / `encodedBodyParameters`: the
  String-valued entries, keys in ascending order, each key and value escaped,
  written `key=value` and joined with `&`; and the decoding that reads such a
  body back.
*/
module FormEncoding {
  import opened Wrappers
  import Utf8
  import Ordering
  import opened Escaping
  import opened Resource

  /** `dict.keys.sorted(by: <)`. */
  function SortedKeys(d: Dict): (ks: seq<string>)
    ensures Ordering.StrictlyAscending(ks)
    ensures multiset(ks) == multiset(Keys(d))
  {
    Ordering.Sort(Keys(d))
  }

  /** The String-valued entries whose keys are listed in `keys`, in the order of `keys`. */
  function StringPairs(d: Dict, keys: seq<string>): (ps: seq<(string, string)>)
  {
    if keys == [] then []
    else
      var k := keys[|keys| - 1];
      StringPairs(d, keys[..|keys| - 1]) + (match Lookup(d, k) case Some(Str(v)) => [(k, v)] case _ => [])
  }

  /** Every key and value escaped. */
  function EscapePairs(ps: seq<(string, string)>): (es: seq<(string, string)>)
    ensures |es| == |ps|
  {
    if ps == [] then [] else [(Escape(ps[0].0), Escape(ps[0].1))] + EscapePairs(ps[1..])
  }

  function PairText(c: (string, string)): string
  {
    c.0 + "=" + c.1
  }

  /** `components.map { "\($0)=\($1)" }.joined(separator: "&")`. */
  function Join(cs: seq<(string, string)>): string
  {
    if |cs| == 0 then ""
    else if |cs| == 1 then PairText(cs[0])
    else PairText(cs[0]) + "&" + Join(cs[1..])
  }

  /** The text a dictionary encodes to, before its conversion to UTF-8. */
  function FormText(d: Dict): string
  {
    Join(EscapePairs(StringPairs(d, SortedKeys(d))))
  }

  lemma {:induction false} EscapePairsAppend(a: seq<(string, string)>, b: seq<(string, string)>)
    ensures EscapePairs(a + b) == EscapePairs(a) + EscapePairs(b)
  {
    if a == [] {
      assert a + b == b;
    } else {
      assert (a + b)[1..] == a[1..] + b;
      EscapePairsAppend(a[1..], b);
    }
  }

  /** One more key adds its escaped pair when its value is a String, and nothing otherwise. */
  lemma StringPairsStep(d: Dict, keys: seq<string>, i: nat)
    requires i < |keys|
    ensures var v := Lookup(d, keys[i]);
      EscapePairs(StringPairs(d, keys[..i + 1])) ==
        EscapePairs(StringPairs(d, keys[..i]))
        + (if v.Some? && v.value.Str? then [(Escape(keys[i]), Escape(v.value.text))] else [])
  {
    assert keys[..i + 1][..i] == keys[..i];
    var v := Lookup(d, keys[i]);
    var extra := if v.Some? && v.value.Str? then [(keys[i], v.value.text)] else [];
    assert StringPairs(d, keys[..i + 1]) == StringPairs(d, keys[..i]) + extra;
    EscapePairsAppend(StringPairs(d, keys[..i]), extra);
  }

  /**
    The loop of the `.url` case: the components collected over the sorted keys,
    joined and converted to UTF-8 (a conversion that cannot fail, so the result is
    never nil).
  */
  method Encode(d: Dict) returns (data: seq<Utf8.byte>)
    ensures data == Utf8.Encode(FormText(d))
  {
    var components: seq<(string, string)> := [];
    var keys := SortedKeys(d);
    for i := 0 to |keys|
      invariant components == EscapePairs(StringPairs(d, keys[..i]))
    {
      var key := keys[i];
      var value := Lookup(d, key);
      StringPairsStep(d, keys, i);
      if value.Some? && value.value.Str? {
        components := components + [(Escape(key), Escape(value.value.text))];
      }
    }
    assert keys[..|keys|] == keys;
    data := Utf8.Encode(Join(components));
  }

  // Reading a body back.

  /** The pieces of `t` between occurrences of `sep`; always at least one. */
  function SplitOn(t: string, sep: char): (parts: seq<string>)
    ensures |parts| >= 1
  {
    if t == [] then [""]
    else
      var rest := SplitOn(t[1..], sep);
      if t[0] == sep then [""] + rest else [[t[0]] + rest[0]] + rest[1..]
  }

  /** `k=v` split at its first `=`. */
  function SplitPair(p: string): Option<(string, string)>
  {
    if p == [] then None
    else if p[0] == '=' then Some(("", p[1..]))
    else match SplitPair(p[1..])
      case None => None
      case Some((k, v)) => Some(([p[0]] + k, v))
  }

  function DecodePair(p: string): Option<(string, string)>
  {
    match SplitPair(p)
    case None => None
    case Some((k, v)) =>
      match (DecodeComponent(k), DecodeComponent(v))
      case (Some(key), Some(value)) => Some((key, value))
      case _ => None
  }

  function DecodePairs(parts: seq<string>): Option<seq<(string, string)>>
  {
    if parts == [] then Some([])
    else match (DecodePair(parts[0]), DecodePairs(parts[1..]))
      case (Some(p), Some(rest)) => Some([p] + rest)
      case _ => None
  }

  /** Splits a URL-encoded form on `&` and `=` and percent-decodes every key and value. */
  function Decode(t: string): Option<seq<(string, string)>>
  {
    if t == [] then Some([]) else DecodePairs(SplitOn(t, '&'))
  }

  predicate Lacks(x: string, c: char)
  {
    forall i :: 0 <= i < |x| ==> x[i] != c
  }

  lemma {:induction false} SplitOnLacking(x: string, sep: char)
    requires Lacks(x, sep)
    ensures SplitOn(x, sep) == [x]
  {
    if x != [] {
      SplitOnLacking(x[1..], sep);
      assert [x[0]] + x[1..] == x;
    }
  }

  lemma {:induction false} SplitOnFirst(x: string, sep: char, y: string)
    requires Lacks(x, sep)
    ensures SplitOn(x + [sep] + y, sep) == [x] + SplitOn(y, sep)
  {
    if x == [] {
      assert x + [sep] + y == [sep] + y;
      assert ([sep] + y)[1..] == y;
    } else {
      assert (x + [sep] + y)[1..] == x[1..] + [sep] + y;
      SplitOnFirst(x[1..], sep, y);
      assert [x[0]] + x[1..] == x;
    }
  }

  lemma {:induction false} SplitPairOf(k: string, v: string)
    requires Lacks(k, '=')
    ensures SplitPair(k + "=" + v) == Some((k, v))
  {
    if k == [] {
      assert k + "=" + v == "=" + v;
    } else {
      assert (k + "=" + v)[1..] == k[1..] + "=" + v;
      SplitPairOf(k[1..], v);
      assert [k[0]] + k[1..] == k;
    }
  }

  lemma EscapeLacks(s: string, c: char)
    requires c in GeneralDelimiters + SubDelimiters
    ensures Lacks(Escape(s), c)
  {
    EscapeHasNoDelimiter(s);
  }

  lemma DecodeEscapedPair(p: (string, string))
    ensures DecodePair(PairText((Escape(p.0), Escape(p.1)))) == Some(p)
    ensures Lacks(PairText((Escape(p.0), Escape(p.1))), '&')
  {
    EscapeLacks(p.0, '=');
    EscapeLacks(p.0, '&');
    EscapeLacks(p.1, '&');
    SplitPairOf(Escape(p.0), Escape(p.1));
    DecodeEscape(p.0);
    DecodeEscape(p.1);
  }

  /** A single escaped pair decodes back to itself. */
  lemma DecodeOnePair(p: (string, string))
    ensures Decode(PairText((Escape(p.0), Escape(p.1)))) == Some([p])
  {
    var x := PairText((Escape(p.0), Escape(p.1)));
    DecodeEscapedPair(p);
    SplitOnLacking(x, '&');
    assert |x| >= 1;
    assert [x][1..] == [];
    assert DecodePairs([x][1..]) == Some([]);
    assert [p] + [] == [p];
  }

  /** Splitting on `&` and `=` and percent-decoding recovers exactly the pairs that were joined. */
  lemma {:induction false} DecodeJoin(ps: seq<(string, string)>)
    ensures Decode(Join(EscapePairs(ps))) == Some(ps)
    decreases |ps|, 1
  {
    var es := EscapePairs(ps);
    if |ps| == 1 {
      DecodeOnePair(ps[0]);
      assert Join(es) == PairText(es[0]);
      assert ps == [ps[0]];
    } else if |ps| > 1 {
      DecodeJoinStep(ps);
    }
  }

  lemma {:induction false} DecodeJoinStep(ps: seq<(string, string)>)
    requires |ps| > 1
    ensures Decode(Join(EscapePairs(ps))) == Some(ps)
    decreases |ps|, 0
  {
    var es := EscapePairs(ps);
    var x, rest := PairText(es[0]), Join(es[1..]);
    assert DecodePair(x) == Some(ps[0]) && Lacks(x, '&') by {
      DecodeEscapedPair(ps[0]);
    }
    assert rest != [] && Decode(rest) == Some(ps[1..]) by {
      DecodeJoin(ps[1..]);
      assert |PairText(es[1])| >= 1;
    }
    assert Join(es) == x + ['&'] + rest;
    DecodeCons(x, rest, ps[0], ps[1..]);
    assert [ps[0]] + ps[1..] == ps;
  }

  /** A pair without `&`, then `&`, then a non-empty form decodes to that pair before the form's pairs. */
  lemma DecodeCons(x: string, rest: string, p: (string, string), tail: seq<(string, string)>)
    requires DecodePair(x) == Some(p) && Lacks(x, '&')
    requires rest != [] && Decode(rest) == Some(tail)
    ensures Decode(x + ['&'] + rest) == Some([p] + tail)
  {
    SplitOnFirst(x, '&', rest);
    var parts := [x] + SplitOn(rest, '&');
    assert parts[0] == x && parts[1..] == SplitOn(rest, '&');
  }

  lemma {:induction false} StringPairsKeys(d: Dict, keys: seq<string>)
    ensures forall j :: 0 <= j < |StringPairs(d, keys)| ==> StringPairs(d, keys)[j].0 in keys
    ensures Ordering.StrictlyAscending(keys) ==>
      forall i, j :: 0 <= i < j < |StringPairs(d, keys)| ==> Ordering.Below(StringPairs(d, keys)[i].0, StringPairs(d, keys)[j].0)
    ensures forall k, v :: (k, v) in StringPairs(d, keys) <==> k in keys && Lookup(d, k) == Some(Str(v))
  {
    if keys != [] {
      var init := keys[..|keys| - 1];
      var k := keys[|keys| - 1];
      StringPairsKeys(d, init);
      assert keys == init + [k];
      if Ordering.StrictlyAscending(keys) {
        assert Ordering.StrictlyAscending(init);
        forall j | 0 <= j < |StringPairs(d, init)| ensures Ordering.Below(StringPairs(d, init)[j].0, k) {
          var x := StringPairs(d, init)[j].0;
          assert x in init;
          var m :| 0 <= m < |init| && init[m] == x;
        }
      }
    }
  }

  /**
    The encoded body of a dictionary reads back as its String-valued entries, each
    exactly once, in strictly ascending key order: the body is valid UTF-8, and
    splitting its text on `&` and `=` and percent-decoding gives those pairs.
  */
  lemma FormRoundTrip(d: Dict)
    ensures var pairs := StringPairs(d, SortedKeys(d));
      && Utf8.Decode(Utf8.Encode(FormText(d))) == Some(FormText(d))
      && Decode(FormText(d)) == Some(pairs)
      && (forall i, j :: 0 <= i < j < |pairs| ==> Ordering.Below(pairs[i].0, pairs[j].0))
      && (forall k, v :: (k, v) in pairs <==> Lookup(d, k) == Some(Str(v)))
  {
    var keys := SortedKeys(d);
    Utf8.DecodeEncode(FormText(d));
    DecodeJoin(StringPairs(d, keys));
    StringPairsKeys(d, keys);
    SortedKeysOf(d);
  }

  lemma SortedKeysOf(d: Dict)
    ensures forall k :: k in SortedKeys(d) <==> Lookup(d, k).Some?
  {
    forall k ensures k in SortedKeys(d) <==> Lookup(d, k).Some? {
      assert k in SortedKeys(d) <==> k in multiset(Keys(d));
    }
  }

  /** A dictionary with no String value encodes to empty data, not to nil. */
  lemma NoStringValues(d: Dict)
    requires forall i :: 0 <= i < |d| ==> !d[i].1.Str?
    ensures Utf8.Encode(FormText(d)) == []
  {
    var keys := SortedKeys(d);
    StringPairsKeys(d, keys);
    forall k, v ensures (k, v) !in StringPairs(d, keys) {
      if Lookup(d, k).Some? {
        var i :| 0 <= i < |d| && d[i].0 == k;
      }
    }
    Ordering.EmptyIffNoElements(StringPairs(d, keys));
  }
}
