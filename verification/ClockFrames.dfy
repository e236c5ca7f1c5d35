/**
 * Exactly when more frames can cost CLOCK more misses: for all k and K with 2 <= k < K. A larger
 * memory may just have one page without its reference bit, which is the one it then throws out.
 */
module ClockFrames {
  import opened Sequences
  import opened Replacement
  import opened PagingTheorems
  import opened ClockTheorems
  import opened PolicyLimits

  /** The pages 0..n - 1, each twice. */
  function Pairs(n: nat): seq<Page> {
    if n == 0 then [] else Pairs(n - 1) + [Page(0, n - 1)] + [Page(0, n - 1)]
  }

  function Sets(ps: seq<Page>): (q: seq<Entry<Page>>)
    ensures |q| == |ps| && (forall i :: 0 <= i < |q| ==> q[i] == Entry(ps[i], true)) && Datas(q) == ps
  {
    seq(|ps|, i requires 0 <= i < |ps| => Entry(ps[i], true))
  }

  /** A hit sets one bit, that of the page. */
  lemma HitAt(k: nat, q: seq<Entry<Page>>, j: nat)
    requires 1 <= k && Distinct(Datas(q)) && j < |q|
    ensures q[j].data in Datas(q) && ClockStep(k, q, q[j].data) == q[j := Entry(q[j].data, true)]
  {
    assert Datas(q)[j] == q[j].data;
    forall i | 0 <= i < |q| ensures q[i].data == q[j].data <==> i == j {
      assert Datas(q)[i] == q[i].data;
    }
    WithRefAt(q, q[j].data, j);
  }

  /** A memory large enough loads them all and has every bit set. */
  lemma {:induction false} PairsLarge(k: nat, n: nat)
    requires n <= k && 1 <= k
    ensures At(k, Pairs(n), Sets(Numbered(n)), n)
  {
    hide At, ClockStep;
    if n == 0 {
      AtFirst(k);
    } else {
      var p, q := Page(0, n - 1), Sets(Numbered(n - 1));
      PairsLarge(k, n - 1);
      AtNext(k, Pairs(n - 1), q, n - 1, p);
      var r := q + [Entry(p, false)];
      FillsUp(k, q, p);
      AtNext(k, Pairs(n - 1) + [p], r, n, p);
      assert Datas(r) == Numbered(n) && r[n - 1].data == p;
      HitAt(k, r, n - 1);
      assert r[n - 1 := Entry(p, true)] == Sets(Numbered(n));
    }
  }

  lemma FillsUp(k: nat, q: seq<Entry<Page>>, p: Page)
    requires |q| < k && p !in Datas(q)
    ensures ClockStep(k, q, p) == q + [Entry(p, false)]
  {
  }

  /** A queue of some of the first n pages. */
  ghost predicate Among(q: seq<Entry<Page>>, n: nat) {
    Distinct(Datas(q)) && forall i :: 0 <= i < |q| ==> q[i].data.pid == 0 && q[i].data.vpn < n
  }

  lemma NotAmong(q: seq<Entry<Page>>, n: nat, p: Page)
    requires Among(q, n) && p.vpn >= n
    ensures p !in Datas(q)
  {
    assert forall i :: 0 <= i < |q| ==> Datas(q)[i] == q[i].data;
  }

  /** Loading the next page. */
  lemma AmongNext(k: nat, q: seq<Entry<Page>>, n: nat)
    requires 1 <= k && Among(q, n) && |q| <= k
    ensures var r := ClockStep(k, q, Page(0, n));
      && Among(r, n + 1) && |r| == (if |q| < k then |q| + 1 else k) && r[|r| - 1].data == Page(0, n)
  {
    hide Sweep, SetPrefix;
    var p := Page(0, n);
    var r := ClockStep(k, q, p);
    NotAmong(q, n, p);
    if |q| < k {
      assert Datas(r) == Datas(q) + [p];
    } else {
      SweepRotates(q);
      var s, m := Sweep(q), SetPrefix(q);
      assert Datas(r) == (Datas(q)[m..] + Datas(q)[..m])[1..] + [p];
      forall i | 0 <= i < k - 1 ensures r[i].data.pid == 0 && r[i].data.vpn < n {
        assert r[i].data == Datas(s)[i + 1] && Datas(s)[i + 1] in Datas(q);
        var j := IndexOf(Datas(q), r[i].data);
        assert q[j].data == r[i].data;
      }
      RotationHolds(Datas(q), m);
    }
  }

  /** A smaller memory misses them all too. */
  lemma {:induction false} PairsSmall(k: nat, n: nat) returns (q: seq<Entry<Page>>)
    requires 1 <= k
    ensures At(k, Pairs(n), q, n) && Among(q, n) && |q| == if n < k then n else k
  {
    hide At, ClockStep, Among;
    if n == 0 {
      AtFirst(k);
      q := [];
      assert Among(q, 0) by { NothingAmong(); }
    } else {
      var p := Page(0, n - 1);
      var q0 := PairsSmall(k, n - 1);
      AtNext(k, Pairs(n - 1), q0, n - 1, p);
      NotAmong(q0, n - 1, p);
      var r := ClockStep(k, q0, p);
      AmongNext(k, q0, n - 1);
      AtNext(k, Pairs(n - 1) + [p], r, n, p);
      q := ClockStep(k, r, p);
      HitKeepsAmong(k, r, n, |r| - 1);
    }
  }

  lemma NothingAmong()
    ensures Among([], 0)
  {
  }

  lemma HitKeepsAmong(k: nat, q: seq<Entry<Page>>, n: nat, j: nat)
    requires 1 <= k && Among(q, n) && j < |q|
    ensures q[j].data in Datas(q) && ClockStep(k, q, q[j].data) == q[j := Entry(q[j].data, true)]
    ensures Among(q[j := Entry(q[j].data, true)], n)
    ensures Datas(q[j := Entry(q[j].data, true)]) == Datas(q)
  {
    HitAt(k, q, j);
  }

  /** Accessing all of the queue once sets all of its bits. */
  lemma {:induction false} SetSmall(k: nat, t: seq<Page>, q: seq<Entry<Page>>, n: nat, misses: nat, i: nat)
    returns (r: seq<Entry<Page>>)
    requires 1 <= k && At(k, t, q, misses) && Among(q, n) && i <= |q|
    ensures At(k, t + Datas(q)[..i], r, misses) && Among(r, n) && Datas(r) == Datas(q)
    ensures forall j :: 0 <= j < i ==> r[j].ref
  {
    hide At, ClockStep, Among;
    if i == 0 {
      r := q;
      assert t + Datas(q)[..0] == t;
    } else {
      var r0 := SetSmall(k, t, q, n, misses, i - 1);
      var p := Datas(q)[i - 1];
      assert r0[i - 1].data == Datas(r0)[i - 1] == p;
      HitKeepsAmong(k, r0, n, i - 1);
      AtNext(k, t + Datas(q)[..i - 1], r0, misses, p);
      r := r0[i - 1 := Entry(p, true)];
      assert t + Datas(q)[..i - 1] + [p] == t + Datas(q)[..i];
    }
  }

  /** And changes nothing in the larger memory, where all bits are set already. */
  lemma {:induction false} SetLarge(k: nat, t: seq<Page>, ps: seq<Page>, misses: nat, w: seq<Page>)
    requires 1 <= k && Distinct(ps) && At(k, t, Sets(ps), misses) && forall i :: 0 <= i < |w| ==> w[i] in ps
    ensures At(k, t + w, Sets(ps), misses)
  {
    hide At, ClockStep;
    if w == [] {
      assert t + w == t;
    } else {
      var m := |w| - 1;
      SetLarge(k, t, ps, misses, w[..m]);
      var j := IndexOf(ps, w[m]);
      HitAt(k, Sets(ps), j);
      assert Sets(ps)[j := Entry(w[m], true)] == Sets(ps);
      AtNext(k, t + w[..m], Sets(ps), misses, w[m]);
      assert t + w[..m] + [w[m]] == t + w;
    }
  }

  /** Two new pages and the first of them again: it is still there in the smaller memory. */
  lemma EndSmall(k: nat, t: seq<Page>, q: seq<Entry<Page>>, n: nat, misses: nat) returns (r: seq<Entry<Page>>)
    requires 2 <= k && At(k, t, q, misses) && Among(q, n) && |q| == k && AllSet(q)
    ensures At(k, t + [Page(0, n)] + [Page(0, n + 1)] + [Page(0, n)], r, misses + 2)
  {
    hide At, Among, ClockStep, AllSet;
    var x, y := Page(0, n), Page(0, n + 1);
    NotAmong(q, n, x);
    AtNext(k, t, q, misses, x);
    AmongNext(k, q, n);
    var q1 := Cleared(q)[1..] + [Entry(x, false)];
    AllSetVictim(k, q, x);
    NotAmong(q1, n + 1, y);
    AtNext(k, t + [x], q1, misses + 1, y);
    HeadIsVictim(k, q1, y);
    var q2 := q1[1..] + [Entry(y, false)];
    assert q2[k - 2] == Entry(x, false) && Datas(q2)[k - 2] == x;
    AtNext(k, t + [x] + [y], q2, misses + 2, x);
    r := ClockStep(k, q2, x);
  }

  lemma AllSetVictim(k: nat, q: seq<Entry<Page>>, p: Page)
    requires 1 <= k == |q| && AllSet(q) && p !in Datas(q)
    ensures ClockStep(k, q, p) == Cleared(q)[1..] + [Entry(p, false)]
  {
    SweepAllSet(q);
  }

  /** But the larger memory, where it was the only page without its bit, has thrown it out. */
  lemma EndLarge(k: nat, t: seq<Page>, n: nat, misses: nat) returns (r: seq<Entry<Page>>)
    requires n + 1 == k && At(k, t, Sets(Numbered(n)), misses)
    ensures At(k, t + [Page(0, n)] + [Page(0, n + 1)] + [Page(0, n)], r, misses + 3)
  {
    hide At, ClockStep;
    var x, y, ps := Page(0, n), Page(0, n + 1), Numbered(n);
    var q := Sets(ps);
    AtNext(k, t, q, misses, x);
    FillsUp(k, q, x);
    var q1 := q + [Entry(x, false)];
    assert Datas(q1) == ps + [x];
    AtNext(k, t + [x], q1, misses + 1, y);
    LastVictim(k, ps, x, y);
    var q2 := Clears(ps) + [Entry(y, false)];
    assert Datas(q2) == ps + [y];
    AtNext(k, t + [x] + [y], q2, misses + 2, x);
    r := ClockStep(k, q2, x);
  }

  lemma LastVictim(k: nat, ps: seq<Page>, x: Page, y: Page)
    requires |ps| + 1 == k && y !in ps + [x]
    ensures ClockStep(k, Sets(ps) + [Entry(x, false)], y) == Clears(ps) + [Entry(y, false)]
  {
    var q := Sets(ps) + [Entry(x, false)];
    assert Datas(q) == ps + [x];
    assert q == Sets(ps) + [Entry(x, false)] + [];
    SweepStopsAtFirstClear(Sets(ps), Entry(x, false), []);
    assert Cleared(Sets(ps)) == Clears(ps);
    assert ([Entry(x, false)] + [] + Clears(ps))[1..] == Clears(ps);
  }

  /** For all 2 <= k < K there is a trace that costs CLOCK K + 1 misses with k frames and K + 2 with K. */
  lemma ClockAnomaly(K: nat, k: nat) returns (t: seq<Page>)
    requires 2 <= k < K
    ensures Valid(Clock, K, EMPTY) && Valid(Clock, k, EMPTY)
    ensures Misses(Clock, K, EMPTY, t) == K + 2
    ensures Misses(Clock, k, EMPTY, t) == K + 1
  {
    hide Run, Misses, Valid, ClockQueue, Pairs, Among;
    var n := K - 1;
    PairsLarge(K, n);
    var q := PairsSmall(k, n);
    var r := SetSmall(k, Pairs(n), q, n, n, k);
    assert Datas(q)[..k] == Datas(q);
    var t1 := Pairs(n) + Datas(q);
    AmongNumbered(q, n);
    SetLarge(K, Pairs(n), Numbered(n), n, Datas(q));
    var r1 := EndSmall(k, t1, r, n, n);
    var r2 := EndLarge(K, t1, n, n);
    t := t1 + [Page(0, n)] + [Page(0, n + 1)] + [Page(0, n)];
  }

  lemma AmongNumbered(q: seq<Entry<Page>>, n: nat)
    requires Among(q, n)
    ensures Distinct(Numbered(n)) && forall i :: 0 <= i < |q| ==> Datas(q)[i] in Numbered(n)
  {
    forall i | 0 <= i < |q| ensures Datas(q)[i] in Numbered(n) {
      assert Numbered(n)[q[i].data.vpn] == q[i].data;
    }
  }
}
