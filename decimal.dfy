/** Swift's string interpolation of an `Int` ("\(statusCode)"): decimal digits, `-` for negatives. */
module Decimal {
  import opened Wrappers

  predicate IsDigit(c: char) { '0' <= c <= '9' }

  function DigitChar(d: int): (c: char)
    requires 0 <= d < 10
    ensures IsDigit(c)
  {
    ('0' as int + d) as char
  }

  /** The digits of `n`, most significant first, with no leading zero. */
  function NatText(n: nat): (s: string)
    ensures |s| >= 1
    ensures forall i :: 0 <= i < |s| ==> IsDigit(s[i])
    ensures s[0] == '0' ==> n == 0
  {
    if n < 10 then [DigitChar(n)] else NatText(n / 10) + [DigitChar(n % 10)]
  }

  function IntText(n: int): (s: string)
    ensures forall i :: 0 <= i < |s| ==> IsDigit(s[i]) || (i == 0 && s[i] == '-')
  {
    if n < 0 then "-" + NatText(-n) else NatText(n)
  }

  /** Reads a non-empty run of digits. */
  function ParseNat(s: string): (r: Option<nat>)
    ensures r.Some? ==> s != []
  {
    if s == [] then None
    else if !IsDigit(s[|s| - 1]) then None
    else
      var d := s[|s| - 1] as int - '0' as int;
      if |s| == 1 then Some(d)
      else match ParseNat(s[..|s| - 1])
        case None => None
        case Some(high) => Some(high * 10 + d)
  }

  function ParseInt(s: string): Option<int>
  {
    if s != [] && s[0] == '-' then
      match ParseNat(s[1..]) case None => None case Some(n) => Some(-(n as int))
    else ParseNat(s)
  }

  lemma {:induction false} ParseNatText(n: nat)
    ensures ParseNat(NatText(n)) == Some(n)
  {
    if n >= 10 {
      var s := NatText(n);
      assert s[..|s| - 1] == NatText(n / 10);
      ParseNatText(n / 10);
    }
  }

  /** Reading the rendering of an integer gives it back. */
  lemma ParseIntText(n: int)
    ensures ParseInt(IntText(n)) == Some(n)
  {
    if n < 0 {
      var t := NatText(-n);
      ParseNatText(-n);
      MinusText(t);
      assert IntText(n) == "-" + t;
    } else {
      ParseNatText(n);
    }
  }

  lemma MinusText(t: string)
    requires t != [] && IsDigit(t[0])
    ensures ParseInt("-" + t) == match ParseNat(t) case None => None case Some(m) => Some(-(m as int))
  {
    assert ("-" + t)[1..] == t;
  }
}
