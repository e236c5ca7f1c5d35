/**
 * What CLOCK costs. A page enters with its reference bit clear, so it may miss again in the same
 * window (CLOCK is not conservative), but a page outside the window is passed at most once, and
 * that bounds the misses of a window by 2k - 1. Nothing less is true, of windows or of whole traces.
 */
module ClockTheorems {
  import opened Sequences
  import opened Replacement
  import opened PagingTheorems
  import opened Competitiveness

  /** How many victims there can still be before the entry at position j is one itself, with it. */
  function Weight(k: nat, q: seq<Entry<Page>>, j: nat): int
    requires j < |q|
  {
    j + 1 + if q[j].ref then k - 1 else 0
  }

  /** After so many misses, the most that each page outside d still allows stays within 2k - 1. */
  ghost predicate Within(k: nat, q: seq<Entry<Page>>, d: set<Page>, misses: nat) {
    && |q| <= k
    && misses + (k - |q|) <= 2 * k - 1
    && forall j :: 0 <= j < |q| && q[j].data !in d ==> misses + (k - |q|) + Weight(k, q, j) <= 2 * k - 1
  }

  lemma SweepAt(q: seq<Entry<Page>>, i: nat)
    requires i < |q|
    ensures var n := SetPrefix(q);
      && |Sweep(q)| == |q|
      && (forall j :: 0 <= j < n ==> q[j].ref)
      && Sweep(q)[i] == if n < |q| && i < |q| - n then q[n + i]
                        else Entry(q[if n < |q| then i - (|q| - n) else i].data, false)
  {
    hide Sweep, SetPrefix;
    SweepShape(q);
    var n := SetPrefix(q);
    assert forall j :: 0 <= j < n ==> q[..n][j].ref;
    if AllSet(q) {
      SetPrefixAll(q);
    }
  }

  /** A replacement that spares a page moves it, by one victim at least, towards being one. */
  lemma WeightFalls(k: nat, q: seq<Entry<Page>>, p: Page, i: nat) returns (j: nat)
    requires |q| == k && i + 1 < k && p !in Datas(q)
    ensures var r := ClockStep(k, q, p);
      j < k && |r| == k && q[j].data == r[i].data && Weight(k, r, i) + 1 <= Weight(k, q, j)
  {
    hide Sweep, SetPrefix;
    SweepAt(q, i + 1);
    var n := SetPrefix(q);
    j := if n == k then i + 1 else if i + 1 < k - n then n + i + 1 else i + 1 - (k - n);
  }

  /** While a page of the window is missing and memory is full, some page outside is resident. */
  lemma SomeOutside(q: seq<Entry<Page>>, d: set<Page>, p: Page) returns (j: nat)
    requires Distinct(Datas(q)) && |d| <= |q| && p in d && p !in Datas(q)
    ensures j < |q| && q[j].data !in d
  {
    var s := Elements(Datas(q));
    DistinctCount(Datas(q));
    if s <= d {
      SubsetCount(s, d - {p});
    }
    var x :| x in s && x !in d;
    j := IndexOf(Datas(q), x);
  }

  lemma MissWithin(k: nat, q: seq<Entry<Page>>, d: set<Page>, p: Page, misses: nat)
    requires Distinct(Datas(q)) && |d| <= k && p in d && p !in Datas(q) && |q| == k
    requires Within(k, q, d, misses)
    ensures Within(k, ClockStep(k, q, p), d, misses + 1)
  {
    hide Sweep, Distinct;
    var r := ClockStep(k, q, p);
    var x := SomeOutside(q, d, p);
    SweepAt(q, 0);
    forall i | 0 <= i < |r| && r[i].data !in d ensures misses + 1 + (k - |r|) + Weight(k, r, i) <= 2 * k - 1 {
      var j := WeightFalls(k, q, p, i);
    }
  }

  lemma StepWithin(k: nat, q: seq<Entry<Page>>, d: set<Page>, p: Page, misses: nat)
    requires 1 <= k && Distinct(Datas(q)) && |d| <= k && p in d && Within(k, q, d, misses)
    ensures Within(k, ClockStep(k, q, p), d, misses + if p in Datas(q) then 0 else 1)
  {
    hide Sweep, Distinct;
    if p in Datas(q) {
      HitKeepsOthers(q, p);
    } else if |q| < k {
    } else {
      MissWithin(k, q, d, p, misses);
    }
  }

  lemma {:induction false} HitKeepsOthers(q: seq<Entry<Page>>, p: Page)
    ensures |WithRef(q, p)| == |q|
    ensures forall j :: 0 <= j < |q| && q[j].data != p ==> WithRef(q, p)[j] == q[j]
  {
    if q == [] {
    } else {
      HitKeepsOthers(q[1..], p);
      assert q == [q[0]] + q[1..];
    }
  }

  lemma ClockQueueDistinct(k: nat, c: Core)
    requires Valid(Clock, k, c)
    ensures Distinct(Datas(ClockQueue(k, c))) && |ClockQueue(k, c)| <= k && 1 <= k
  {
    ListInRange(Datas(c.clock), |c.frames|);
    LruQueueHolds(c.frames, Datas(c.clock));
    assert Datas(ClockQueue(k, c)) == Resolve(c.frames, Datas(c.clock));
  }

  lemma {:induction false} WindowWithin(k: nat, c: Core, w: seq<Page>, d: set<Page>)
    requires Valid(Clock, k, c) && |d| <= k && Elements(w) <= d
    ensures Within(k, ClockQueue(k, Run(Clock, k, c, w)), d, Misses(Clock, k, c, w))
  {
    hide Touch, ClockStep, ClockQueue, Valid;
    if w == [] {
      ClockQueueDistinct(k, c);
    } else {
      var n := |w| - 1;
      var c', p := Run(Clock, k, c, w[..n]), w[n];
      WindowWithin(k, c, w[..n], d);
      ClockQueueDistinct(k, c');
      ClockQueueHolds(k, c', p);
      assert p in Elements(w);
      StepWithin(k, ClockQueue(k, c'), d, p, Misses(Clock, k, c, w[..n]));
      ClockTouchIsQueueStep(k, c', p);
    }
  }

  /** From any state a window of at most k distinct pages costs CLOCK at most 2k - 1 misses. */
  lemma ClockWindowCost(k: nat, c: Core, w: seq<Page>)
    requires Valid(Clock, k, c) && |Elements(w)| <= k
    ensures Misses(Clock, k, c, w) <= 2 * k - 1
  {
    hide Misses, Run, Valid;
    WindowWithin(k, c, w, Elements(w));
  }

  lemma ClockWindows(k: nat)
    requires 1 <= k
    ensures WindowsCost(Clock, k, 2 * k - 1)
  {
    hide Misses, Valid;
    forall c: Core, w: seq<Page> | Valid(Clock, k, c) && |Elements(w)| <= k
      ensures Misses(Clock, k, c, w) <= 2 * k - 1
    {
      ClockWindowCost(k, c, w);
    }
  }

  /** CLOCK with k frames against any schedule with h of them. */
  lemma ClockCompetitive(k: nat, h: nat, t: seq<Page>, c: seq<set<Page>>)
    requires 1 <= h <= k && Schedule(h, t, c)
    ensures Valid(Clock, k, EMPTY)
    ensures (k - h + 1) * Misses(Clock, k, EMPTY, t) <= (2 * k - 1) * (Faults(t, c) + (k - h))
  {
    hide Misses, Valid;
    ClockWindows(k);
    PhasesBound(Clock, k, h, 2 * k - 1, t, c);
  }

  // ----- following a trace

  /** CLOCK after trace t: its queue of pages and its misses. */
  ghost predicate At(k: nat, t: seq<Page>, q: seq<Entry<Page>>, misses: nat) {
    && Valid(Clock, k, EMPTY)
    && ClockQueue(k, Run(Clock, k, EMPTY, t)) == q
    && Misses(Clock, k, EMPTY, t) == misses
  }

  lemma AtFirst(k: nat)
    requires 1 <= k
    ensures At(k, [], [], 0)
  {
  }

  lemma AtNext(k: nat, t: seq<Page>, q: seq<Entry<Page>>, misses: nat, p: Page)
    requires 1 <= k && At(k, t, q, misses)
    ensures At(k, t + [p], ClockStep(k, q, p), misses + if p in Datas(q) then 0 else 1)
  {
    hide Touch, Run, Misses, ClockQueue, ClockStep, Valid;
    var c := Run(Clock, k, EMPTY, t);
    RunSnoc(Clock, k, EMPTY, t, p);
    ClockTouchIsQueueStep(k, c, p);
    ClockQueueHolds(k, c, p);
  }

  function Clears(ps: seq<Page>): (q: seq<Entry<Page>>)
    ensures |q| == |ps| && (forall i :: 0 <= i < |q| ==> q[i] == Entry(ps[i], false)) && Datas(q) == ps
  {
    seq(|ps|, i requires 0 <= i < |ps| => Entry(ps[i], false))
  }

  lemma HeadIsVictim(k: nat, q: seq<Entry<Page>>, p: Page)
    requires 1 <= k == |q| && p !in Datas(q) && !q[0].ref
    ensures ClockStep(k, q, p) == q[1..] + [Entry(p, false)]
  {
  }
}
