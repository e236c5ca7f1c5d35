/**
 * Exactly when more frames can cost FIFO more misses. With K frames instead of k it is never worse
 * if K >= 2k - 1; for every K between there is a trace on which it is.
 */
module FifoFrames {
  import opened Sequences
  import opened Replacement
  import opened QueuePaging
  import opened PagingTheorems

  // ----- 2k - 1 frames are enough

  /** From j on the page p has stayed resident under FIFO. */
  ghost predicate Stays(k: nat, t: seq<Page>, j: nat, p: Page)
    requires 1 <= k
  {
    forall n :: j < n <= |t| ==> p in QRun(false, k, [], t[..n])
  }

  /**
   * While p stays, the queue is a, then p, then b: what is in a was there at first, and every page
   * accessed was there at first or is in b.
   */
  ghost predicate Around(q: seq<Page>, w: seq<Page>, p: Page, r: seq<Page>, a: seq<Page>, b: seq<Page>) {
    && r == a + [p] + b
    && Elements(a) <= Elements(q)
    && Elements(w) <= Elements(q) + Elements(b)
  }

  lemma AroundNext(k: nat, q: seq<Page>, w: seq<Page>, p: Page, r: seq<Page>, a: seq<Page>, b: seq<Page>, x: Page)
    returns (a': seq<Page>, b': seq<Page>)
    requires QValid(k, r) && p in q && Around(q, w, p, r, a, b)
    requires p in QStep(false, k, r, x)
    ensures Around(q, w + [x], p, QStep(false, k, r, x), a', b')
  {
    ElementsSnoc(w + [x]);
    assert (w + [x])[..|w|] == w;
    if x in r {
      a', b' := a, b;
      assert x in a || x == p || x in b;
    } else {
      b' := b + [x];
      ElementsSnoc(b');
      assert b'[..|b|] == b;
      if |r| < k {
        a' := a;
        assert r + [x] == a' + [p] + b';
      } else if a == [] {
        assert r[1..] + [x] == b';
        OnlyOnce(p, b, x);
        assert false;
      } else {
        a' := a[1..];
        assert r[1..] + [x] == a' + [p] + b';
      }
    }
  }

  lemma OnlyOnce(p: Page, b: seq<Page>, x: Page)
    requires Distinct([] + [p] + b) && x !in [] + [p] + b
    ensures p !in b + [x]
  {
    assert [] + [p] + b == [p] + b;
    DistinctParts([p], b);
    assert p in [p];
  }

  lemma {:induction false} AroundRun(k: nat, q: seq<Page>, w: seq<Page>, p: Page) returns (a: seq<Page>, b: seq<Page>)
    requires 1 <= k && QValid(k, q) && forall n :: 0 <= n <= |w| ==> p in QRun(false, k, q, w[..n])
    ensures Around(q, w, p, QRun(false, k, q, w), a, b)
  {
    hide QStep, QValid, Around;
    assert w[..|w|] == w && w[..0] == [];
    if w == [] {
      var i := IndexOf(q, p);
      a, b := q[..i], q[i + 1..];
      AroundFirst(q, i);
    } else {
      var n := |w| - 1;
      forall i | 0 <= i <= n ensures p in QRun(false, k, q, w[..n][..i]) {
        assert w[..n][..i] == w[..i];
      }
      var a0, b0 := AroundRun(k, q, w[..n], p);
      QRunValid(false, k, q, w[..n]);
      assert p in QRun(false, k, q, w[..0]);
      a, b := AroundNext(k, q, w[..n], p, QRun(false, k, q, w[..n]), a0, b0, w[n]);
      assert w == w[..n] + [w[n]];
    }
  }

  lemma AroundFirst(q: seq<Page>, i: nat)
    requires i < |q|
    ensures Around(q, [], q[i], q, q[..i], q[i + 1..])
  {
    assert q == q[..i] + [q[i]] + q[i + 1..];
  }

  /** While a page stays in k frames, no more than 2k - 1 different pages are accessed. */
  lemma FewWhileStaying(k: nat, q: seq<Page>, w: seq<Page>, p: Page)
    requires 1 <= k && QValid(k, q) && forall n :: 0 <= n <= |w| ==> p in QRun(false, k, q, w[..n])
    ensures |Elements(w) + {p}| <= 2 * k - 1
  {
    hide QRun, QStep;
    var a, b := AroundRun(k, q, w, p);
    QRunValid(false, k, q, w);
    assert w[..0] == [] && QRun(false, k, q, []) == q by { QRunNothing(k, q); }
    assert p in QRun(false, k, q, w[..0]);
    FewElements(b);
    FewElements(q);
    SubsetCount(Elements(w) + {p}, Elements(q) + Elements(b));
    UnionCount(Elements(q), Elements(b));
  }

  lemma QRunNothing(k: nat, q: seq<Page>)
    requires 1 <= k
    ensures QRun(false, k, q, []) == q
  {
  }

  lemma UnionCount(a: set<Page>, b: set<Page>)
    ensures |a + b| <= |a| + |b|
  {
  }

  /**
   * How the two compare after trace t: the pages of d were hits with the larger memory when FIFO
   * loaded them, and each of the others that FIFO holds has missed there since, while it stayed.
   */
  ghost predicate Ahead(recency: bool, K: nat, k: nat, t: seq<Page>, d: set<Page>)
    requires 1 <= k && 1 <= K
  {
    && d <= Elements(QRun(false, k, [], t))
    && QMisses(recency, K, [], t) + |d| <= QMisses(false, k, [], t)
    && forall p :: p in QRun(false, k, [], t) && p !in d ==> Missed(recency, K, k, t, p)
  }

  ghost predicate Missed(recency: bool, K: nat, k: nat, t: seq<Page>, p: Page)
    requires 1 <= k && 1 <= K
  {
    exists j :: 0 <= j < |t| && t[j] == p && QMissAt(recency, K, [], t, j) && Stays(k, t, j, p)
  }

  lemma MissedStill(recency: bool, K: nat, k: nat, t: seq<Page>, p: Page)
    requires 1 <= k && 1 <= K && t != []
    requires Missed(recency, K, k, t[..|t| - 1], p) && p in QRun(false, k, [], t)
    ensures Missed(recency, K, k, t, p)
  {
    hide QRun;
    var n := |t| - 1;
    var j :| 0 <= j < n && t[..n][j] == p && QMissAt(recency, K, [], t[..n], j) && Stays(k, t[..n], j, p);
    assert t[..n][..j] == t[..j];
    forall i | j < i <= |t| ensures p in QRun(false, k, [], t[..i]) {
      if i <= n {
        assert t[..n][..i] == t[..i];
      } else {
        assert t[..i] == t;
      }
    }
    assert Stays(k, t, j, p) && QMissAt(recency, K, [], t, j) && t[j] == p;
  }

  lemma JustMissed(recency: bool, K: nat, k: nat, t: seq<Page>)
    requires 1 <= k && 1 <= K && t != []
    requires QMissAt(recency, K, [], t, |t| - 1) && t[|t| - 1] in QRun(false, k, [], t)
    ensures Missed(recency, K, k, t, t[|t| - 1])
  {
    hide QRun;
    assert t[..|t|] == t;
    assert Stays(k, t, |t| - 1, t[|t| - 1]);
  }

  /** A page that has missed since FIFO loaded it does not miss again while it stays. */
  lemma MissedIsHit(recency: bool, K: nat, k: nat, t: seq<Page>, p: Page)
    requires 1 <= k && 2 * k - 1 <= K && Missed(recency, K, k, t, p)
    ensures p in QRun(recency, K, [], t)
  {
    hide QRun, QMissAt, QValid;
    var j :| 0 <= j < |t| && t[j] == p && QMissAt(recency, K, [], t, j) && Stays(k, t, j, p);
    var q, w := QRun(false, k, [], t[..j + 1]), t[j + 1..];
    EmptyQueue(k);
    EmptyQueue(K);
    QRunValid(false, k, [], t[..j + 1]);
    QRunValid(recency, K, [], t[..j]);
    forall n | 0 <= n <= |w| ensures p in QRun(false, k, q, w[..n]) {
      QConcat(false, k, [], t[..j + 1], w[..n]);
      assert t[..j + 1] + w[..n] == t[..j + 1 + n];
    }
    FewWhileStaying(k, q, w, p);
    NoMissAfter(recency, K, t, j);
  }

  lemma EmptyQueue(k: nat)
    requires 1 <= k
    ensures QValid(k, [])
  {
  }

  lemma NoMissAfter(recency: bool, K: nat, t: seq<Page>, j: nat)
    requires 1 <= K && j < |t| && QMissAt(recency, K, [], t, j)
    requires QValid(K, QRun(recency, K, [], t[..j])) && |Elements(t[j + 1..]) + {t[j]}| <= K
    ensures t[j] in QRun(recency, K, [], t)
  {
    hide QRun, QValid, QMisses, QMissAt, Elements;
    var p, r := t[j], QRun(recency, K, [], t[..j]);
    var w, n := t[j..] + [p], |t| - j;
    WindowOf(t, j);
    QConcat(recency, K, [], t[..j], t[j..]);
    FirstMissed(recency, K, t, j, w);
    if QMissAt(recency, K, r, w, n) {
      NoSecondMiss(recency, K, r, w, 0, n);
    }
    LastHit(recency, K, r, w, n);
  }

  /** From access j to the end, and its page once more. */
  lemma WindowOf(t: seq<Page>, j: nat)
    requires j < |t|
    ensures var w, n := t[j..] + [t[j]], |t| - j;
      && t[..j] + t[j..] == t && w[..n] == t[j..] && w[0] == w[n] == t[j]
      && Elements(w) == Elements(t[j + 1..]) + {t[j]}
  {
    assert t[j..] == [t[j]] + t[j + 1..];
  }

  lemma FirstMissed(recency: bool, K: nat, t: seq<Page>, j: nat, w: seq<Page>)
    requires 1 <= K && j < |t| && QMissAt(recency, K, [], t, j) && w != [] && w[0] == t[j]
    ensures QMissAt(recency, K, QRun(recency, K, [], t[..j]), w, 0)
  {
    assert w[..0] == [];
  }

  lemma LastHit(recency: bool, K: nat, r: seq<Page>, w: seq<Page>, n: nat)
    requires 1 <= K && n < |w|
    ensures QMissAt(recency, K, r, w, n) <==> w[n] !in QRun(recency, K, r, w[..n])
  {
  }

  lemma AheadHit(recency: bool, K: nat, k: nat, t: seq<Page>, d: set<Page>) returns (d': set<Page>)
    requires 1 <= k && 2 * k - 1 <= K && t != [] && Ahead(recency, K, k, t[..|t| - 1], d)
    requires t[|t| - 1] in QRun(false, k, [], t[..|t| - 1])
    ensures Ahead(recency, K, k, t, d')
  {
    hide QRun, QMisses, Missed;
    var p, v := t[|t| - 1], t[..|t| - 1];
    QSnoc(recency, K, [], t);
    QSnoc(false, k, [], t);
    LastHit(recency, K, [], t, |t| - 1);
    if p in QRun(recency, K, [], v) {
      d' := d;
    } else {
      if p !in d {
        MissedIsHit(recency, K, k, v, p);
        assert false;
      }
      d' := d - {p};
      JustMissed(recency, K, k, t);
    }
    forall x | x in QRun(false, k, [], t) && x !in d' && x !in d ensures Missed(recency, K, k, t, x) {
      MissedStill(recency, K, k, t, x);
    }
  }

  lemma AheadMiss(recency: bool, K: nat, k: nat, t: seq<Page>, d: set<Page>) returns (d': set<Page>)
    requires 1 <= k && 2 * k - 1 <= K && t != [] && Ahead(recency, K, k, t[..|t| - 1], d)
    requires t[|t| - 1] !in QRun(false, k, [], t[..|t| - 1])
    ensures Ahead(recency, K, k, t, d')
  {
    hide QRun, QMisses, Missed;
    var p, v := t[|t| - 1], t[..|t| - 1];
    QSnoc(recency, K, [], t);
    QSnoc(false, k, [], t);
    LastHit(recency, K, [], t, |t| - 1);
    var q, q' := QRun(false, k, [], v), QRun(false, k, [], t);
    assert q'[|q'| - 1] == p && forall x :: x in q' ==> x in q || x == p;
    var kept := d * Elements(q');
    SubsetCount(kept, d);
    if p in QRun(recency, K, [], v) {
      d' := kept + {p};
    } else {
      d' := kept;
      JustMissed(recency, K, k, t);
    }
    forall x | x in q' && x !in d' && x != p ensures Missed(recency, K, k, t, x) {
      MissedStill(recency, K, k, t, x);
    }
  }

  lemma {:induction false} KeepsAhead(recency: bool, K: nat, k: nat, t: seq<Page>) returns (d: set<Page>)
    requires 1 <= k && 2 * k - 1 <= K
    ensures Ahead(recency, K, k, t, d)
  {
    if t == [] {
      d := {};
    } else {
      hide Ahead;
      var d0 := KeepsAhead(recency, K, k, t[..|t| - 1]);
      if t[|t| - 1] in QRun(false, k, [], t[..|t| - 1]) {
        d := AheadHit(recency, K, k, t, d0);
      } else {
        d := AheadMiss(recency, K, k, t, d0);
      }
    }
  }

  /** FIFO and LRU with 2k - 1 frames or more never miss more often than FIFO with k. */
  lemma EnoughFrames(policy: Policy, K: nat, k: nat, t: seq<Page>)
    requires IsQueue(policy) && 1 <= k && 2 * k - 1 <= K
    ensures Valid(policy, K, EMPTY) && Valid(Fifo, k, EMPTY)
    ensures Misses(policy, K, EMPTY, t) <= Misses(Fifo, k, EMPTY, t)
  {
    EmptyIsEmptyQueue(policy, K);
    EmptyIsEmptyQueue(Fifo, k);
    RunIsQueueRun(policy, K, EMPTY, t);
    RunIsQueueRun(Fifo, k, EMPTY, t);
    var d := KeepsAhead(policy.Lru?, K, k, t);
  }

  // ----- fewer are not

  /** The pages a, a + 1, .., b - 1. */
  function Range(a: nat, b: nat): (s: seq<Page>)
    requires a <= b
    ensures |s| == b - a && forall i :: 0 <= i < b - a ==> s[i] == Page(0, a + i)
  {
    seq(b - a, (i: nat) => Page(0, a + i))
  }

  /** The pages 1..K, 1..k - 1, K + 1, 1..K, K + 1. */
  function Trap(K: nat, k: nat): seq<Page>
    requires 1 <= k
  {
    Range(1, K + 1) + Range(1, k) + [Page(0, K + 1)] + Range(1, K + 1) + [Page(0, K + 1)]
  }

  /** FIFO after trace t: its queue, next victim first, and its misses. */
  ghost predicate At(k: nat, t: seq<Page>, q: seq<Page>, misses: nat) {
    1 <= k && QRun(false, k, [], t) == q && QMisses(false, k, [], t) == misses
  }

  /** Pages that are missing when their turn comes. */
  ghost predicate Fresh(q: seq<Page>, w: seq<Page>) {
    |w| <= |q| && forall i :: 0 <= i < |w| ==> w[i] !in q[i..] + w[..i]
  }

  lemma AtMisses(k: nat, t: seq<Page>, q: seq<Page>, misses: nat)
    requires At(k, t, q, misses)
    ensures QMisses(false, k, [], t) == misses
  {
  }

  lemma AtMiss(k: nat, t: seq<Page>, q: seq<Page>, misses: nat, p: Page)
    requires At(k, t, q, misses) && p !in q
    ensures At(k, t + [p], (if |q| < k then q else q[1..]) + [p], misses + 1)
  {
    assert (t + [p])[..|t|] == t;
    QSnoc(false, k, [], t + [p]);
  }

  lemma {:induction false} AtHits(k: nat, t: seq<Page>, q: seq<Page>, misses: nat, w: seq<Page>)
    requires At(k, t, q, misses) && forall i :: 0 <= i < |w| ==> w[i] in q
    ensures At(k, t + w, q, misses)
  {
    if w == [] {
      assert t + w == t;
    } else {
      var n := |w| - 1;
      AtHits(k, t, q, misses, w[..n]);
      assert (t + w)[..|t + w| - 1] == t + w[..n];
      QSnoc(false, k, [], t + w);
    }
  }

  /** One for another they replace the head of a full queue. */
  lemma {:induction false} AtReplaces(k: nat, t: seq<Page>, q: seq<Page>, misses: nat, w: seq<Page>, n: nat)
    requires At(k, t, q, misses) && |q| == k && Fresh(q, w) && n <= |w|
    ensures At(k, t + w[..n], q[n..] + w[..n], misses + n)
  {
    hide At;
    if n == 0 {
      assert t + w[..n] == t && q[n..] + w[..n] == q;
    } else {
      AtReplaces(k, t, q, misses, w, n - 1);
      AtMiss(k, t + w[..n - 1], q[n - 1..] + w[..n - 1], misses + (n - 1), w[n - 1]);
      assert t + w[..n - 1] + [w[n - 1]] == t + w[..n];
      assert (q[n - 1..] + w[..n - 1])[1..] + [w[n - 1]] == q[n..] + w[..n];
    }
  }

  lemma {:induction false} AtFills(k: nat, n: nat)
    requires n <= k && 1 <= k
    ensures At(k, Range(1, n + 1), Range(1, n + 1), n)
  {
    if n == 0 {
    } else {
      hide At;
      AtFills(k, n - 1);
      AtMiss(k, Range(1, n), Range(1, n), n - 1, Page(0, n));
      assert Range(1, n + 1) == Range(1, n) + [Page(0, n)];
    }
  }

  /** On this trace FIFO with K frames misses 2K + 2 times. */
  lemma TrapLarge(K: nat, k: nat)
    requires 1 <= k <= K
    ensures QMisses(false, K, [], Trap(K, k)) == 2 * K + 2
  {
    hide At;
    var all, last := Range(1, K + 1), Page(0, K + 1);
    AtFills(K, K);
    assert forall i :: 0 <= i < k - 1 ==> Range(1, k)[i] == all[i];
    AtHits(K, all, all, K, Range(1, k));
    AtMiss(K, all + Range(1, k), all, K, last);
    var q := all[1..] + [last];
    assert Fresh(q, all) by {
      assert forall i, j :: 0 <= i < K && 0 <= j < K - i ==> q[i..][j] == Page(0, i + j + 2);
    }
    AtReplaces(K, all + Range(1, k) + [last], q, K + 1, all, K);
    assert all[..K] == all && q[K..] + all == all;
    AtMiss(K, all + Range(1, k) + [last] + all, all, 2 * K + 1, last);
    AtMisses(K, Trap(K, k), all[1..] + [last], 2 * K + 2);
  }

  /** And with k frames only 2K + 1 times, if K < 2k - 1. */
  lemma TrapSmall(K: nat, k: nat)
    requires 1 <= k < K < 2 * k - 1
    ensures QMisses(false, k, [], Trap(K, k)) == 2 * K + 1
  {
    hide At;
    var all, low, last := Range(1, K + 1), Range(1, k), Page(0, K + 1);
    SmallFirst(K, k);
    var q3 := low + [last];
    AtHits(k, all + low + [last], q3, K + k, low);
    var high := Range(k, K + 1);
    HighFresh(K, k);
    AtReplaces(k, all + low + [last] + low, q3, K + k, high, K - k + 1);
    assert high[..K - k + 1] == high && low + high == all;
    assert all + low + [last] + low + high == all + low + [last] + all;
    var q4 := q3[K - k + 1..] + high;
    assert q4[2 * k - 2 - K] == last;
    AtHits(k, all + low + [last] + all, q4, 2 * K + 1, [last]);
    AtMisses(k, Trap(K, k), q4, 2 * K + 1);
  }

  lemma HighFresh(K: nat, k: nat)
    requires 1 <= k < K < 2 * k - 1
    ensures Fresh(Range(1, k) + [Page(0, K + 1)], Range(k, K + 1))
  {
    var q := Range(1, k) + [Page(0, K + 1)];
    assert forall i, j :: 0 <= i < K - k + 1 && 0 <= j < k - 1 - i ==> q[i..][j] == Page(0, i + j + 1);
    assert forall i :: 0 <= i < K - k + 1 ==> q[i..][k - 1 - i] == Page(0, K + 1);
  }

  /** The first part: pages 1..K, 1..k - 1 and K + 1. */
  lemma SmallFirst(K: nat, k: nat)
    requires 1 <= k < K < 2 * k - 1
    ensures At(k, Range(1, K + 1) + Range(1, k) + [Page(0, K + 1)], Range(1, k) + [Page(0, K + 1)], K + k)
  {
    hide At;
    var all, low, last := Range(1, K + 1), Range(1, k), Page(0, K + 1);
    AtFills(k, k);
    var q0, w := Range(1, k + 1), Range(k + 1, K + 1);
    assert Fresh(q0, w);
    AtReplaces(k, q0, q0, k, w, K - k);
    assert w[..K - k] == w && q0 + w == all;
    var q1 := Range(K - k + 1, K + 1);
    assert q0[K - k..] + w == q1;
    assert Fresh(q1, low);
    AtReplaces(k, all, q1, K, low, k - 1);
    assert low[..k - 1] == low && q1[k - 1..] == [Page(0, K)];
    var q := [Page(0, K)] + low;
    AtMiss(k, all + low, q, K + k - 1, last);
    assert q[1..] + [last] == low + [last];
  }

  /** So between k and 2k - 1 more frames can do worse. */
  lemma FewFrames(K: nat, k: nat)
    requires 1 <= k < K < 2 * k - 1
    ensures Valid(Fifo, K, EMPTY) && Valid(Fifo, k, EMPTY)
    ensures Misses(Fifo, K, EMPTY, Trap(K, k)) == 2 * K + 2
    ensures Misses(Fifo, k, EMPTY, Trap(K, k)) == 2 * K + 1
  {
    hide Trap;
    TrapLarge(K, k);
    TrapSmall(K, k);
    EmptyIsEmptyQueue(Fifo, K);
    EmptyIsEmptyQueue(Fifo, k);
    RunIsQueueRun(Fifo, K, EMPTY, Trap(K, k));
    RunIsQueueRun(Fifo, k, EMPTY, Trap(K, k));
  }

  /** The trace of p3/example_inputs/belady_input.txt. */
  const BELADY := [P(1), P(2), P(3), P(4), P(1), P(2), P(5), P(1), P(2), P(3), P(4), P(5)]

  function P(vpn: nat): Page { Page(0, vpn) }

  /** It is the case of the smallest memories: nine misses with three frames, ten with four. */
  lemma FifoAnomaly()
    ensures Valid(Fifo, 3, EMPTY) && Valid(Fifo, 4, EMPTY)
    ensures Misses(Fifo, 3, EMPTY, BELADY) == 9
    ensures Misses(Fifo, 4, EMPTY, BELADY) == 10
  {
    FewFrames(4, 3);
    assert BELADY == Trap(4, 3);
  }
}
