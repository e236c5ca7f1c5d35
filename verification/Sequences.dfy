/** Facts about sequences that both simulators need. */
module Sequences {

  ghost predicate Distinct<T>(s: seq<T>) {
    forall i, j :: 0 <= i < j < |s| ==> s[i] != s[j]
  }

  function Elements<T>(s: seq<T>): set<T> {
    set x | x in s
  }

  /** The position of the first occurrence of x. */
  function IndexOf<T(==)>(s: seq<T>, x: T): (n: nat)
    requires x in s
    ensures n < |s| && s[n] == x && x !in s[..n]
  {
    if s[0] == x then 0 else 1 + IndexOf(s[1..], x)
  }

  /** s without its first occurrence of x. */
  function Remove<T(==)>(s: seq<T>, x: T): seq<T> {
    if s == [] then []
    else if s[0] == x then s[1..]
    else [s[0]] + Remove(s[1..], x)
  }

  /** The last n elements of s, or all of s if it is shorter. */
  function Suffix<T>(s: seq<T>, n: nat): seq<T> {
    if |s| <= n then s else s[|s| - n..]
  }

  /** Overwrites position i, or appends if i is the length. */
  function Put<T>(s: seq<T>, i: nat, x: T): (r: seq<T>)
    requires i <= |s|
    ensures i < |r| && r[i] == x
  {
    if i < |s| then s[i := x] else s + [x]
  }

  lemma IndexUnique<T>(s: seq<T>, n: nat)
    requires Distinct(s) && n < |s|
    ensures IndexOf(s, s[n]) == n
  {
    assert s[IndexOf(s, s[n])] == s[n];
  }

  lemma {:induction false} RemoveDistinct<T>(s: seq<T>, x: T)
    requires Distinct(s)
    ensures Distinct(Remove(s, x))
    ensures x !in Remove(s, x)
    ensures forall y :: y in Remove(s, x) <==> y in s && y != x
    ensures |Remove(s, x)| == if x in s then |s| - 1 else |s|
    ensures x !in s ==> Remove(s, x) == s
  {
    if s == [] {
    } else {
      assert s == [s[0]] + s[1..];
      assert s[0] !in s[1..];
      if s[0] != x {
        RemoveDistinct(s[1..], x);
        assert s[0] !in Remove(s[1..], x);
      }
    }
  }

  lemma {:induction false} RemoveAt<T>(s: seq<T>, x: T)
    requires x in s
    ensures var n := IndexOf(s, x); Remove(s, x) == s[..n] + s[n + 1..]
  {
    if s[0] == x {
    } else {
      RemoveAt(s[1..], x);
      var n := IndexOf(s[1..], x);
      assert s[..n + 1] == [s[0]] + s[1..][..n];
    }
  }

  lemma {:induction false} RemoveConcat<T>(a: seq<T>, b: seq<T>, x: T)
    ensures Remove(a + b, x) == if x in a then Remove(a, x) + b else a + Remove(b, x)
  {
    if a == [] {
      assert a + b == b;
    } else {
      assert (a + b)[0] == a[0] && (a + b)[1..] == a[1..] + b;
      if a[0] != x {
        RemoveConcat(a[1..], b, x);
        assert x in a <==> x in a[1..] by { assert a == [a[0]] + a[1..]; }
        assert [a[0]] + (Remove(a[1..], x) + b) == [a[0]] + Remove(a[1..], x) + b;
        assert [a[0]] + (a[1..] + Remove(b, x)) == a + Remove(b, x);
      }
    }
  }

  lemma DistinctParts<T>(a: seq<T>, b: seq<T>)
    requires Distinct(a + b)
    ensures Distinct(a) && Distinct(b)
    ensures forall x :: x in a ==> x !in b
  {
    assert forall i :: 0 <= i < |a| ==> a[i] == (a + b)[i];
    assert forall i :: 0 <= i < |b| ==> b[i] == (a + b)[i + |a|];
  }

  lemma DistinctAt<T>(s: seq<T>, i: nat)
    requires Distinct(s) && i < |s|
    ensures forall j :: 0 <= j < |s| && j != i ==> s[j] != s[i]
  {
  }

  lemma DistinctCut<T>(s: seq<T>, i: nat)
    requires Distinct(s) && i < |s|
    ensures Distinct(s[..i] + s[i + 1..])
  {
  }

  lemma DistinctJoin<T>(a: seq<T>, b: seq<T>)
    requires Distinct(a) && Distinct(b)
    requires forall x :: x in a ==> x !in b
    ensures Distinct(a + b)
  {
    forall i, j | 0 <= i < j < |a + b| ensures (a + b)[i] != (a + b)[j] {
      if i < |a| <= j {
        assert a[i] in a && b[j - |a|] in b;
      }
    }
  }

  /** A sequence without repetitions has as many members as positions. */
  lemma {:induction false} DistinctCount<T>(s: seq<T>)
    requires Distinct(s)
    ensures |Elements(s)| == |s|
  {
    if s == [] {
    } else {
      var n := |s| - 1;
      DistinctCount(s[..n]);
      assert Elements(s) == Elements(s[..n]) + {s[n]};
      assert s[n] !in s[..n];
    }
  }

  lemma SubsetCount<T>(a: set<T>, b: set<T>)
    requires a <= b
    ensures |a| <= |b|
  {
    assert |b| == |a| + |b - a| by { assert b == a + (b - a); }
  }

  lemma ElementsSnoc<T>(s: seq<T>)
    requires s != []
    ensures Elements(s) == Elements(s[..|s| - 1]) + {s[|s| - 1]}
  {
    assert s == s[..|s| - 1] + [s[|s| - 1]];
  }

  lemma {:induction false} FewElements<T>(s: seq<T>)
    ensures |Elements(s)| <= |s|
  {
    if s == [] {
    } else {
      FewElements(s[..|s| - 1]);
      ElementsSnoc(s);
    }
  }

  /** Distinct members of a set are no more than the set has. */
  lemma DistinctBound<T>(s: seq<T>, bound: set<T>)
    requires Distinct(s) && Elements(s) <= bound
    ensures |s| <= |bound|
  {
    DistinctCount(s);
    SubsetCount(Elements(s), bound);
  }
}
