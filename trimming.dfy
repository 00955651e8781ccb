/** Foundation's `trimmingCharacters(in: .whitespacesAndNewlines)`. */
module Trimming {

  /**
    The `whitespacesAndNewlines` set: Unicode general categories Zs, Zl and Zp,
    the tab and the line-ending controls U+000A to U+000D and U+0085.
  */
  predicate IsWhitespaceOrNewline(c: char)
  {
    var x := c as int;
    x == 0x20 || 0x09 <= x <= 0x0D || x == 0x85 || x == 0xA0 || x == 0x1680
    || 0x2000 <= x <= 0x200A || x == 0x2028 || x == 0x2029 || x == 0x202F || x == 0x205F || x == 0x3000
  }

  /** Drops the leading run of whitespace: what is left is a suffix that does not start with any. */
  function TrimStart(s: string): (r: string)
    ensures |r| <= |s| && r == s[|s| - |r|..]
    ensures forall i :: 0 <= i < |s| - |r| ==> IsWhitespaceOrNewline(s[i])
    ensures r != [] ==> !IsWhitespaceOrNewline(r[0])
  {
    if s != [] && IsWhitespaceOrNewline(s[0]) then TrimStart(s[1..]) else s
  }

  /** Drops the trailing run of whitespace: what is left is a prefix that does not end with any. */
  function TrimEnd(s: string): (r: string)
    ensures |r| <= |s| && r == s[..|r|]
    ensures forall i :: |r| <= i < |s| ==> IsWhitespaceOrNewline(s[i])
    ensures r != [] ==> !IsWhitespaceOrNewline(r[|r| - 1])
  {
    if s != [] && IsWhitespaceOrNewline(s[|s| - 1]) then TrimEnd(s[..|s| - 1]) else s
  }

  function Trim(s: string): string
  {
    TrimEnd(TrimStart(s))
  }

  /**
    The trimmed string is the slice of `s` between a whitespace-only prefix and a
    whitespace-only suffix, and it neither starts nor ends with whitespace.
  */
  lemma TrimIsSlice(s: string)
    ensures var r, a := Trim(s), |s| - |TrimStart(s)|;
      && a + |r| <= |s| && r == s[a..a + |r|]
      && (forall i :: 0 <= i < a ==> IsWhitespaceOrNewline(s[i]))
      && (forall i :: a + |r| <= i < |s| ==> IsWhitespaceOrNewline(s[i]))
      && (r != [] ==> !IsWhitespaceOrNewline(r[0]) && !IsWhitespaceOrNewline(r[|r| - 1]))
  {
    TrimmedSlice(s);
    TrimmedTail(s);
    TrimmedEnds(s);
  }

  lemma TrimmedSlice(s: string)
    ensures var a := |s| - |TrimStart(s)|; a + |Trim(s)| <= |s| && Trim(s) == s[a..a + |Trim(s)|]
  {
    var t := TrimStart(s);
    var r := TrimEnd(t);
    var a := |s| - |t|;
    assert t == s[a..];
    assert r == t[..|r|];
    PrefixOfSuffix(s, a, |r|);
  }

  lemma PrefixOfSuffix(s: string, a: nat, n: nat)
    requires a + n <= |s|
    ensures s[a..][..n] == s[a..a + n]
  {
  }

  /** What `Trim` cuts off the end of `s` is all whitespace. */
  lemma TrimmedTail(s: string)
    ensures forall i :: |s| - |TrimStart(s)| + |Trim(s)| <= i < |s| ==> IsWhitespaceOrNewline(s[i])
  {
    var t := TrimStart(s);
    var a := |s| - |t|;
    WhitespaceTailShift(s, a, |TrimEnd(t)|);
  }

  lemma WhitespaceTailShift(s: string, a: nat, n: nat)
    requires a + n <= |s|
    requires forall j :: n <= j < |s| - a ==> IsWhitespaceOrNewline(s[a..][j])
    ensures forall i :: a + n <= i < |s| ==> IsWhitespaceOrNewline(s[i])
  {
    forall i | a + n <= i < |s| ensures IsWhitespaceOrNewline(s[i]) {
      assert s[a..][i - a] == s[i];
    }
  }

  lemma TrimmedEnds(s: string)
    ensures var r := Trim(s); r != [] ==> !IsWhitespaceOrNewline(r[0]) && !IsWhitespaceOrNewline(r[|r| - 1])
  {
    var t := TrimStart(s);
    var r := Trim(s);
    if r != [] {
      assert r[0] == t[0];
    }
  }

  /** Trimming twice is trimming once. */
  lemma TrimIdempotent(s: string)
    ensures Trim(Trim(s)) == Trim(s)
  {
    var r := Trim(s);
    TrimIsSlice(s);
    assert TrimStart(r) == r;
    assert TrimEnd(r) == r;
  }

  /** Text that neither starts nor ends with whitespace is left as it is. */
  lemma TrimKeeps(s: string)
    requires s != [] ==> !IsWhitespaceOrNewline(s[0]) && !IsWhitespaceOrNewline(s[|s| - 1])
    ensures Trim(s) == s
  {
  }
}
