/**
 * FIFO and LRU as a queue of resident pages, next victim first. Both drop the head and append
 * the new page on a miss; only LRU moves a page to the tail when it is hit. The frame numbers,
 * the modular counter and the linked list of the simulator are all gone here; the lemmas at the
 * end show that they implement exactly this queue.
 */
module QueuePaging {
  import opened Sequences
  import opened Replacement

  function QStep(recency: bool, k: nat, q: seq<Page>, p: Page): seq<Page>
    requires 1 <= k
  {
    if p in q then
      if recency then Remove(q, p) + [p] else q
    else
      (if |q| < k then q else q[1..]) + [p]
  }

  function QRun(recency: bool, k: nat, q: seq<Page>, t: seq<Page>): seq<Page>
    requires 1 <= k
  {
    if t == [] then q else QStep(recency, k, QRun(recency, k, q, t[..|t| - 1]), t[|t| - 1])
  }

  predicate QMissAt(recency: bool, k: nat, q: seq<Page>, t: seq<Page>, j: nat)
    requires 1 <= k && j < |t|
  {
    t[j] !in QRun(recency, k, q, t[..j])
  }

  function QMisses(recency: bool, k: nat, q: seq<Page>, t: seq<Page>): nat
    requires 1 <= k
  {
    if t == [] then 0
    else QMisses(recency, k, q, t[..|t| - 1]) + if QMissAt(recency, k, q, t, |t| - 1) then 1 else 0
  }

  lemma QSnoc(recency: bool, k: nat, q: seq<Page>, t: seq<Page>)
    requires 1 <= k && t != []
    ensures var r, p := QRun(recency, k, q, t[..|t| - 1]), t[|t| - 1];
      && QRun(recency, k, q, t) == QStep(recency, k, r, p)
      && QMisses(recency, k, q, t) == QMisses(recency, k, q, t[..|t| - 1]) + if p in r then 0 else 1
  {
  }

  /** Two traces one after the other. */
  lemma {:induction false} QConcat(recency: bool, k: nat, q: seq<Page>, t: seq<Page>, w: seq<Page>)
    requires 1 <= k
    ensures var r := QRun(recency, k, q, t);
      && QRun(recency, k, q, t + w) == QRun(recency, k, r, w)
      && QMisses(recency, k, q, t + w) == QMisses(recency, k, q, t) + QMisses(recency, k, r, w)
  {
    hide QStep;
    if w == [] {
      assert t + w == t;
    } else {
      var n := |w| - 1;
      QConcat(recency, k, q, t, w[..n]);
      assert (t + w)[..|t + w| - 1] == t + w[..n] && (t + w)[|t + w| - 1] == w[n];
      QSnoc(recency, k, q, t + w);
      QSnoc(recency, k, QRun(recency, k, q, t), w);
    }
  }

  ghost predicate QValid(k: nat, q: seq<Page>) {
    1 <= k && |q| <= k && Distinct(q)
  }

  lemma QStepValid(recency: bool, k: nat, q: seq<Page>, p: Page)
    requires QValid(k, q)
    ensures QValid(k, QStep(recency, k, q, p)) && p in QStep(recency, k, q, p)
    ensures |q| <= |QStep(recency, k, q, p)|
  {
    RemoveDistinct(q, p);
    var r := QStep(recency, k, q, p);
    assert r[|r| - 1] == p || r == q;
  }

  lemma {:induction false} QRunValid(recency: bool, k: nat, q: seq<Page>, t: seq<Page>)
    requires QValid(k, q)
    ensures QValid(k, QRun(recency, k, q, t))
  {
    if t == [] {
    } else {
      QRunValid(recency, k, q, t[..|t| - 1]);
      QStepValid(recency, k, QRun(recency, k, q, t[..|t| - 1]), t[|t| - 1]);
    }
  }

  // ----- one window

  /**
   * The queue is split in two: m holds pages that the window has loaded or used. As long as the
   * window has at most k distinct pages, an access never takes a page out of m.
   */
  lemma SafeStep(recency: bool, k: nat, a: seq<Page>, m: seq<Page>, p: Page) returns (a': seq<Page>, m': seq<Page>)
    requires QValid(k, a + m)
    requires |Elements(m) + {p}| <= k
    ensures QStep(recency, k, a + m, p) == a' + m'
    ensures Elements(m) <= Elements(m') <= Elements(m) + {p}
    ensures p !in a + m ==> p in m' && |m'| == |m| + 1
    ensures |m'| >= |m|
  {
    hide QStep, QValid;
    if p in a + m {
      a', m' := SafeHit(recency, k, a, m, p);
    } else {
      a', m' := SafeMiss(recency, k, a, m, p);
    }
  }

  lemma SafeHit(recency: bool, k: nat, a: seq<Page>, m: seq<Page>, p: Page) returns (a': seq<Page>, m': seq<Page>)
    requires QValid(k, a + m) && p in a + m
    ensures QStep(recency, k, a + m, p) == a' + m'
    ensures Elements(m) <= Elements(m') <= Elements(m) + {p} && |m'| >= |m|
  {
    DistinctParts(a, m);
    if recency {
      RemoveConcat(a, m, p);
      RemoveDistinct(a, p);
      RemoveDistinct(m, p);
      a', m' := Remove(a, p), Remove(m, p) + [p];
      assert a' + m' == Remove(a + m, p) + [p];
    } else {
      a', m' := a, m;
    }
  }

  lemma SafeMiss(recency: bool, k: nat, a: seq<Page>, m: seq<Page>, p: Page) returns (a': seq<Page>, m': seq<Page>)
    requires QValid(k, a + m) && p !in a + m && |Elements(m) + {p}| <= k
    ensures QStep(recency, k, a + m, p) == a' + m'
    ensures Elements(m') == Elements(m) + {p} && |m'| == |m| + 1
  {
    DistinctParts(a, m);
    DistinctCount(m);
    m' := m + [p];
    assert Elements(m') == Elements(m) + {p};
    if |a + m| < k {
      a' := a;
      assert a' + m' == a + m + [p];
    } else {
      assert a != [];
      a' := a[1..];
      assert a' + m' == (a + m)[1..] + [p];
    }
  }

  /** The pages missed in a window of at most k distinct pages all stay at the end of the queue. */
  lemma {:induction false} SafeWindow(recency: bool, k: nat, q: seq<Page>, w: seq<Page>)
    returns (a: seq<Page>, m: seq<Page>)
    requires QValid(k, q) && |Elements(w)| <= k
    ensures QRun(recency, k, q, w) == a + m
    ensures Elements(m) <= Elements(w)
    ensures QMisses(recency, k, q, w) <= |m|
    ensures forall j :: 0 <= j < |w| && QMissAt(recency, k, q, w, j) ==> w[j] in m
  {
    hide QStep;
    if w == [] {
      assert q == q + [];
      a, m := q, [];
    } else {
      var n := |w| - 1;
      var v, p := w[..n], w[n];
      ElementsSnoc(w);
      SubsetCount(Elements(v), Elements(w));
      var a0, m0 := SafeWindow(recency, k, q, v);
      QRunValid(recency, k, q, v);
      SubsetCount(Elements(m0) + {p}, Elements(w));
      a, m := SafeStep(recency, k, a0, m0, p);
      forall j | 0 <= j < |w| && QMissAt(recency, k, q, w, j) ensures w[j] in m {
        if j < n {
          assert v[..j] == w[..j];
          assert QMissAt(recency, k, q, v, j);
          assert w[j] in Elements(m0);
        }
      }
    }
  }

  /** In a window of at most k distinct pages no page misses twice. */
  lemma NoSecondMiss(recency: bool, k: nat, q: seq<Page>, w: seq<Page>, i: nat, j: nat)
    requires QValid(k, q) && |Elements(w)| <= k
    requires i < j < |w| && w[i] == w[j]
    requires QMissAt(recency, k, q, w, i)
    ensures !QMissAt(recency, k, q, w, j)
  {
    var v := w[..j];
    SubsetCount(Elements(v), Elements(w));
    var a, m := SafeWindow(recency, k, q, v);
    assert v[..i] == w[..i];
    assert QMissAt(recency, k, q, v, i);
  }

  // ----- the LRU stack

  /** The distinct pages of a trace in order of last use, most recent last. */
  function Recency(t: seq<Page>): seq<Page> {
    if t == [] then [] else Remove(Recency(t[..|t| - 1]), t[|t| - 1]) + [t[|t| - 1]]
  }

  lemma {:induction false} RecencyDistinct(t: seq<Page>)
    ensures Distinct(Recency(t)) && Elements(Recency(t)) == Elements(t)
  {
    if t == [] {
    } else {
      RecencyDistinct(t[..|t| - 1]);
      RemoveDistinct(Recency(t[..|t| - 1]), t[|t| - 1]);
      ElementsSnoc(t);
      ElementsSnoc(Recency(t));
    }
  }

  /** With k frames LRU holds the k most recently used pages, in order of last use. */
  lemma {:induction false} LruHoldsMostRecent(k: nat, t: seq<Page>)
    requires 1 <= k
    ensures QRun(true, k, [], t) == Suffix(Recency(t), k)
  {
    if t == [] {
    } else {
      var v, p := t[..|t| - 1], t[|t| - 1];
      LruHoldsMostRecent(k, v);
      RecencyDistinct(v);
      SuffixStep(k, Recency(v), p);
    }
  }

  /** One access seen in the full recency order a + q, of which LRU holds only q. */
  lemma SuffixHit(k: nat, a: seq<Page>, q: seq<Page>, p: Page)
    requires Distinct(a + q) && |q| <= k && (|q| == k || a == []) && p in q
    ensures Suffix(Remove(a + q, p) + [p], k) == Remove(q, p) + [p]
  {
    DistinctParts(a, q);
    RemoveConcat(a, q, p);
    RemoveDistinct(q, p);
    assert a + Remove(q, p) + [p] == a + (Remove(q, p) + [p]);
    SuffixConcat(k, a, Remove(q, p) + [p]);
  }

  lemma SuffixMissFull(k: nat, a: seq<Page>, q: seq<Page>, p: Page)
    requires Distinct(a + q) && |q| == k && 1 <= k && p !in q
    ensures Suffix(Remove(a + q, p) + [p], k) == q[1..] + [p]
  {
    hide Remove, Distinct;
    DistinctParts(a, q);
    RemoveConcat(a, q, p);
    RemoveDistinct(a, p);
    RemoveDistinct(q, p);
    MoveBoundary(Remove(a, p), q, p);
    SuffixConcat(k, Remove(a, p) + [q[0]], q[1..] + [p]);
  }

  lemma MoveBoundary(a: seq<Page>, q: seq<Page>, p: Page)
    requires q != []
    ensures a + q + [p] == a + [q[0]] + (q[1..] + [p])
  {
  }

  lemma SuffixStep(k: nat, r: seq<Page>, p: Page)
    requires 1 <= k && Distinct(r)
    ensures QStep(true, k, Suffix(r, k), p) == Suffix(Remove(r, p) + [p], k)
  {
    var q := Suffix(r, k);
    var a := r[..|r| - |q|];
    assert r == a + q;
    if p in q {
      SuffixHit(k, a, q, p);
    } else if |q| == k {
      SuffixMissFull(k, a, q, p);
    } else {
      RemoveDistinct(r, p);
    }
  }

  lemma SuffixConcat(k: nat, a: seq<Page>, b: seq<Page>)
    requires |b| == k || (|b| <= k && a == [])
    ensures Suffix(a + b, k) == b
  {
  }
}
