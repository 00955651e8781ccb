/**
  Swift's `String` `<` and `sorted(by: <)`, as used on dictionary keys before
  URL-form encoding. Strings are ordered lexicographically by scalar value.
*/
module Ordering {

  /** `a` comes strictly before `b`: a proper prefix, or smaller at the first difference. */
  predicate Below(a: string, b: string)
  {
    if a == [] then b != []
    else b != [] && (a[0] < b[0] || (a[0] == b[0] && Below(a[1..], b[1..])))
  }

  lemma {:induction false} BelowIrreflexive(a: string)
    ensures !Below(a, a)
  {
    if a != [] {
      BelowIrreflexive(a[1..]);
    }
  }

  lemma {:induction false} BelowTransitive(a: string, b: string, c: string)
    requires Below(a, b) && Below(b, c)
    ensures Below(a, c)
  {
    if a != [] && a[0] == b[0] && b[0] == c[0] {
      BelowTransitive(a[1..], b[1..], c[1..]);
    }
  }

  /** Any two different strings are ordered one way. */
  lemma {:induction false} BelowTotal(a: string, b: string)
    requires a != b
    ensures Below(a, b) || Below(b, a)
  {
    if a != [] && b != [] && a[0] == b[0] {
      assert a == [a[0]] + a[1..] && b == [b[0]] + b[1..];
      BelowTotal(a[1..], b[1..]);
    }
  }

  lemma {:induction false} BelowAsymmetric(a: string, b: string)
    requires Below(a, b)
    ensures !Below(b, a)
  {
    if Below(b, a) {
      BelowTransitive(a, b, a);
      BelowIrreflexive(a);
    }
  }

  predicate StrictlyAscending(ks: seq<string>)
  {
    forall i, j :: 0 <= i < j < |ks| ==> Below(ks[i], ks[j])
  }

  /** Every key of `ks` comes after `k`. */
  predicate AllAbove(k: string, ks: seq<string>)
  {
    forall i :: 0 <= i < |ks| ==> Below(k, ks[i])
  }

  /** Places `k` in the ascending sequence `ks`. */
  function Insert(k: string, ks: seq<string>): (r: seq<string>)
    requires StrictlyAscending(ks) && k !in ks
    ensures StrictlyAscending(r)
    ensures multiset(r) == multiset(ks) + multiset{k}
  {
    if ks == [] then [k]
    else if Below(k, ks[0]) then
      InsertFront(k, ks);
      [k] + ks
    else
      BelowTotal(k, ks[0]);
      var tail := Insert(k, ks[1..]);
      InsertBehind(k, ks, tail);
      [ks[0]] + tail
  }

  lemma InsertFront(k: string, ks: seq<string>)
    requires StrictlyAscending(ks) && ks != [] && Below(k, ks[0])
    ensures StrictlyAscending([k] + ks)
  {
    forall j | 0 < j < |ks| ensures Below(k, ks[j]) {
      BelowTransitive(k, ks[0], ks[j]);
    }
  }

  lemma InsertBehind(k: string, ks: seq<string>, tail: seq<string>)
    requires StrictlyAscending(ks) && ks != [] && Below(ks[0], k)
    requires StrictlyAscending(tail) && multiset(tail) == multiset(ks[1..]) + multiset{k}
    ensures StrictlyAscending([ks[0]] + tail)
    ensures multiset([ks[0]] + tail) == multiset(ks) + multiset{k}
  {
    TailAbove(k, ks, tail);
    assert ks == [ks[0]] + ks[1..];
  }

  /** Whatever holds the rest of `ks` and a key after its head comes after its head. */
  lemma TailAbove(k: string, ks: seq<string>, tail: seq<string>)
    requires StrictlyAscending(ks) && ks != [] && Below(ks[0], k)
    requires multiset(tail) == multiset(ks[1..]) + multiset{k}
    ensures AllAbove(ks[0], tail)
  {
    forall j | 0 <= j < |tail| ensures Below(ks[0], tail[j]) {
      assert tail[j] in multiset(tail);
      if tail[j] != k {
        assert tail[j] in multiset(ks[1..]);
        var i :| 0 <= i < |ks[1..]| && ks[1..][i] == tail[j];
        assert ks[i + 1] == tail[j];
      }
    }
  }

  /** Sorts distinct keys: the result is ascending and a permutation of the input. */
  function Sort(ks: seq<string>): (r: seq<string>)
    requires forall i, j :: 0 <= i < j < |ks| ==> ks[i] != ks[j]
    ensures StrictlyAscending(r)
    ensures multiset(r) == multiset(ks)
  {
    if ks == [] then []
    else
      var rest := Sort(ks[1..]);
      SortStep(ks, rest);
      Insert(ks[0], rest)
  }

  lemma SortStep(ks: seq<string>, rest: seq<string>)
    requires ks != [] && forall i, j :: 0 <= i < j < |ks| ==> ks[i] != ks[j]
    requires multiset(rest) == multiset(ks[1..])
    ensures ks[0] !in rest
    ensures multiset(ks) == multiset(rest) + multiset{ks[0]}
  {
    assert ks[0] !in multiset(ks[1..]);
    assert ks == [ks[0]] + ks[1..];
  }

  lemma EmptyIffNoElements<T>(s: seq<T>)
    ensures s == [] <==> forall x :: x !in s
  {
    if s != [] {
      assert s[0] in s;
    }
  }

  /** Two ascending sequences with the same elements are equal: sorting has one answer. */
  lemma {:induction false} AscendingUnique(a: seq<string>, b: seq<string>)
    requires StrictlyAscending(a) && StrictlyAscending(b)
    requires forall x :: x in a <==> x in b
    ensures a == b
  {
    EmptyIffNoElements(a);
    EmptyIffNoElements(b);
    if a != [] && b != [] {
      if a[0] != b[0] {
        assert b[0] in a;
        var j :| 0 <= j < |a| && a[j] == b[0];
        assert a[0] in b;
        var i :| 0 <= i < |b| && b[i] == a[0];
        assert Below(a[0], b[0]) && Below(b[0], a[0]);
        BelowAsymmetric(a[0], b[0]);
      }
      forall x ensures x in a[1..] <==> x in b[1..] {
        if x in a[1..] {
          var i :| 1 <= i < |a| && a[i] == x;
          assert x in b;
          BelowIrreflexive(x);
          assert x != b[0];
        }
        if x in b[1..] {
          var i :| 1 <= i < |b| && b[i] == x;
          assert x in a;
          BelowIrreflexive(x);
          assert x != a[0];
        }
      }
      AscendingUnique(a[1..], b[1..]);
      assert a == [a[0]] + a[1..] && b == [b[0]] + b[1..];
    }
  }
}
