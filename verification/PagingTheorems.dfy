/** What the four replacement policies guarantee over whole traces. */
module PagingTheorems {
  import opened Sequences
  import opened Replacement
  import opened QueuePaging
  import opened Competitiveness

  predicate IsQueue(policy: Policy) {
    policy.Fifo? || policy.Lru?
  }

  ghost predicate InRange(l: seq<nat>, n: nat) {
    forall i :: 0 <= i < |l| ==> l[i] < n
  }

  /** The pages in the frames that l lists, in that order. */
  function Resolve(frames: seq<Page>, l: seq<nat>): (q: seq<Page>)
    requires InRange(l, |frames|)
    ensures |q| == |l| && forall i :: 0 <= i < |l| ==> q[i] == frames[l[i]]
  {
    seq(|l|, i requires 0 <= i < |l| => frames[l[i]])
  }

  lemma ListInRange(l: seq<nat>, n: nat)
    requires ListsFrames(l, n)
    ensures InRange(l, n)
  {
    assert forall i :: 0 <= i < |l| ==> l[i] in l;
  }

  /** The resident pages in the order in which the policy would replace them. */
  function QueueOf(policy: Policy, k: nat, c: Core): (q: seq<Page>)
    requires Valid(policy, k, c) && IsQueue(policy)
    ensures |q| == |c.frames|
  {
    if policy.Lru? then
      ListInRange(c.lru, |c.frames|);
      Resolve(c.frames, c.lru)
    else if |c.frames| < k then c.frames
    else c.frames[(c.counter + 1) % k..] + c.frames[..(c.counter + 1) % k]
  }

  lemma LruQueueHolds(frames: seq<Page>, l: seq<nat>)
    requires Distinct(frames) && ListsFrames(l, |frames|) && InRange(l, |frames|)
    ensures Distinct(Resolve(frames, l)) && Elements(Resolve(frames, l)) == Elements(frames)
  {
    var q := Resolve(frames, l);
    forall p ensures p in q <==> p in frames {
      if p in frames {
        var f := IndexOf(frames, p);
        assert f in l;
        assert q[IndexOf(l, f)] == p;
      }
    }
  }

  lemma RotationHolds(s: seq<Page>, h: nat)
    requires Distinct(s) && h <= |s|
    ensures Distinct(s[h..] + s[..h]) && Elements(s[h..] + s[..h]) == Elements(s)
  {
    var q, k := s[h..] + s[..h], |s|;
    assert s == s[..h] + s[h..];
    assert forall i :: 0 <= i < k ==> q[i] == s[if i < k - h then i + h else i + h - k];
  }

  lemma QueueHolds(policy: Policy, k: nat, c: Core)
    requires Valid(policy, k, c) && IsQueue(policy)
    ensures QValid(k, QueueOf(policy, k, c))
    ensures Elements(QueueOf(policy, k, c)) == Elements(c.frames)
    ensures forall p :: p in QueueOf(policy, k, c) <==> p in c.frames
  {
    if policy.Lru? {
      ListInRange(c.lru, |c.frames|);
      LruQueueHolds(c.frames, c.lru);
    } else if |c.frames| == k {
      RotationHolds(c.frames, (c.counter + 1) % k);
    }
    assert forall p :: p in QueueOf(policy, k, c) <==> p in Elements(QueueOf(policy, k, c));
    assert forall p :: p in c.frames <==> p in Elements(c.frames);
  }

  /** Reading frames page by page commutes with taking a frame out of the list. */
  lemma {:induction false} ResolveRemove(frames: seq<Page>, l: seq<nat>, f: nat)
    requires Distinct(frames) && f < |frames| && InRange(l, |frames|)
    ensures InRange(Remove(l, f), |frames|)
    ensures Resolve(frames, Remove(l, f)) == Remove(Resolve(frames, l), frames[f])
  {
    if l == [] {
    } else {
      var q := Resolve(frames, l);
      var l', q' := l[1..], q[1..];
      assert Resolve(frames, l') == q';
      if l[0] != f {
        ResolveRemove(frames, l', f);
        assert q[0] != frames[f];
        assert Remove(l, f) == [l[0]] + Remove(l', f);
        assert Remove(q, frames[f]) == [q[0]] + Remove(q', frames[f]);
      }
    }
  }

  lemma LruHit(k: nat, c: Core, p: Page)
    requires Valid(Lru, k, c) && p in c.frames
    ensures QueueOf(Lru, k, Touch(Lru, k, c, p)) == Remove(QueueOf(Lru, k, c), p) + [p]
  {
    var f := IndexOf(c.frames, p);
    ListInRange(c.lru, |c.frames|);
    ResolveRemove(c.frames, c.lru, f);
    assert Resolve(c.frames, Remove(c.lru, f) + [f]) == Resolve(c.frames, Remove(c.lru, f)) + [p];
  }

  lemma LruMiss(k: nat, c: Core, p: Page)
    requires Valid(Lru, k, c) && p !in c.frames
    ensures QueueOf(Lru, k, Touch(Lru, k, c, p))
            == (if |c.frames| < k then QueueOf(Lru, k, c) else QueueOf(Lru, k, c)[1..]) + [p]
  {
    var l, f, frames := c.lru, |c.frames|, c.frames;
    ListInRange(l, f);
    if f < k {
      assert Resolve(frames + [p], l + [f]) == Resolve(frames, l) + [p];
    } else {
      assert l[0] in l;
      assert Resolve(frames[l[0] := p], l[1..] + [l[0]]) == Resolve(frames, l)[1..] + [p];
    }
  }

  lemma FifoTouch(k: nat, c: Core, p: Page)
    requires Valid(Fifo, k, c) && p !in c.frames
    ensures var n := Touch(Fifo, k, c, p);
      if |c.frames| < k then n.frames == c.frames + [p] && n.counter == c.counter == -1
      else
        && |c.frames| == k && c.counter >= -1
        && n.frames == c.frames[(c.counter + 1) % k := p] && n.counter == c.counter + 1
  {
  }

  /** Overwriting the first element of a rotation moves the rotation on by one. */
  lemma RotateOn(s: seq<Page>, h: nat, p: Page)
    requires h < |s|
    ensures var s', h' := s[h := p], if h + 1 < |s| then h + 1 else 0;
      s'[h'..] + s'[..h'] == (s[h..] + s[..h])[1..] + [p]
  {
    var s' := s[h := p];
    if h + 1 < |s| {
      assert s'[h + 1..] == s[h + 1..] && s'[..h + 1] == s[..h] + [p];
    } else {
      assert s' == s[..h] + [p];
    }
  }

  lemma FifoMiss(k: nat, c: Core, p: Page)
    requires Valid(Fifo, k, c) && p !in c.frames
    ensures QueueOf(Fifo, k, Touch(Fifo, k, c, p))
            == (if |c.frames| < k then QueueOf(Fifo, k, c) else QueueOf(Fifo, k, c)[1..]) + [p]
  {
    hide Touch, Valid, QueueOf;
    if |c.frames| < k {
      FifoFilling(k, c, p);
    } else {
      var h := FifoFull(k, c, p);
      RotateOn(c.frames, h, p);
    }
  }

  lemma FifoFilling(k: nat, c: Core, p: Page)
    requires Valid(Fifo, k, c) && p !in c.frames && |c.frames| < k
    ensures QueueOf(Fifo, k, c) == c.frames && QueueOf(Fifo, k, Touch(Fifo, k, c, p)) == c.frames + [p]
  {
    hide Touch;
    FifoTouch(k, c, p);
    var n := Touch(Fifo, k, c, p);
    assert n.frames[0..] + n.frames[..0] == n.frames;
  }

  /** h is the frame that the counter names. */
  lemma FifoFull(k: nat, c: Core, p: Page) returns (h: nat)
    requires Valid(Fifo, k, c) && p !in c.frames && |c.frames| >= k
    ensures h < |c.frames| && QueueOf(Fifo, k, c) == c.frames[h..] + c.frames[..h]
    ensures var s, h' := c.frames[h := p], if h + 1 < |c.frames| then h + 1 else 0;
      QueueOf(Fifo, k, Touch(Fifo, k, c, p)) == s[h'..] + s[..h']
  {
    hide Touch;
    FifoTouch(k, c, p);
    h := (c.counter + 1) % k;
    NextIndex(c.counter + 1, k);
  }

  lemma NextIndex(n: nat, k: nat)
    requires 1 <= k
    ensures (n + 1) % k == if n % k + 1 < k then n % k + 1 else 0
  {
    var q := n / k;
    assert n == q * k + n % k;
    if n % k + 1 < k {
      ModUnique(n + 1, k, q, n % k + 1);
    } else {
      ModUnique(n + 1, k, q + 1, 0);
    }
  }

  lemma ModUnique(n: nat, k: nat, q: nat, r: nat)
    requires r < k && n == q * k + r
    ensures n % k == r
  {
    var d := n / k - q;
    assert n % k - r == -(d * k);
    assert d >= 1 ==> d * k >= k;
    assert d <= -1 ==> d * k <= 0 - k;
  }

  /** The modular counter and the linked list both implement the queue of pages. */
  lemma TouchIsQueueStep(policy: Policy, k: nat, c: Core, p: Page)
    requires Valid(policy, k, c) && IsQueue(policy)
    ensures QueueOf(policy, k, Touch(policy, k, c, p)) == QStep(policy.Lru?, k, QueueOf(policy, k, c), p)
  {
    QueueHolds(policy, k, c);
    if p in c.frames {
      if policy.Lru? {
        LruHit(k, c, p);
      }
    } else if policy.Lru? {
      LruMiss(k, c, p);
    } else {
      FifoMiss(k, c, p);
    }
  }

  lemma {:induction false} RunIsQueueRun(policy: Policy, k: nat, c: Core, t: seq<Page>)
    requires Valid(policy, k, c) && IsQueue(policy)
    ensures QueueOf(policy, k, Run(policy, k, c, t)) == QRun(policy.Lru?, k, QueueOf(policy, k, c), t)
    ensures Misses(policy, k, c, t) == QMisses(policy.Lru?, k, QueueOf(policy, k, c), t)
    ensures var q := QueueOf(policy, k, c);
      forall j :: 0 <= j < |t| ==> (MissAt(policy, k, c, t, j) <==> QMissAt(policy.Lru?, k, q, t, j))
  {
    hide Touch, QStep, Valid, QueueOf;
    if t == [] {
    } else {
      var n := |t| - 1;
      RunIsQueueRun(policy, k, c, t[..n]);
      var r := Run(policy, k, c, t[..n]);
      QueueHolds(policy, k, r);
      TouchIsQueueStep(policy, k, r, t[n]);
      forall j | 0 <= j < |t|
        ensures MissAt(policy, k, c, t, j) <==> QMissAt(policy.Lru?, k, QueueOf(policy, k, c), t, j)
      {
        if j < n {
          assert t[..n][..j] == t[..j];
          assert MissAt(policy, k, c, t[..n], j) <==> QMissAt(policy.Lru?, k, QueueOf(policy, k, c), t[..n], j);
        }
      }
    }
  }

  lemma EmptyIsEmptyQueue(policy: Policy, k: nat)
    requires 1 <= k && IsQueue(policy)
    ensures Valid(policy, k, EMPTY) && QueueOf(policy, k, EMPTY) == []
  {
  }

  // ----- what is resident

  /**
   * LRU with k frames holds the k most recently used pages, its list is in order of last use, and
   * the victim is the least recent of them.
   */
  lemma LruStack(k: nat, t: seq<Page>)
    requires 1 <= k
    ensures Valid(Lru, k, EMPTY)
    ensures var c := Run(Lru, k, EMPTY, t);
            QueueOf(Lru, k, c) == Suffix(Recency(t), k)
            && (|c.frames| == k ==> |Recency(t)| >= k && c.frames[Evict(Lru, k, c).0] == Recency(t)[|Recency(t)| - k])
  {
    EmptyIsEmptyQueue(Lru, k);
    RunIsQueueRun(Lru, k, EMPTY, t);
    LruHoldsMostRecent(k, t);
  }

  /** The pages that missed, in the order in which they were loaded. */
  function LoadLog(k: nat, t: seq<Page>): seq<Page>
    requires 1 <= k
  {
    if t == [] then []
    else
      var n := |t| - 1;
      LoadLog(k, t[..n]) + if MissAt(Fifo, k, EMPTY, t, n) then [t[n]] else []
  }

  lemma LoadStep(k: nat, log: seq<Page>, p: Page)
    requires 1 <= k
    ensures var q := Suffix(log, k);
            QStep(false, k, q, p) == Suffix(if p in q then log else log + [p], k)
  {
  }

  lemma {:induction false} LoadsEndInQueue(k: nat, t: seq<Page>)
    requires 1 <= k
    ensures QRun(false, k, [], t) == Suffix(LoadLog(k, t), k)
  {
    hide *;
    if t == [] {
      NothingLoaded(k);
    } else {
      var n := |t| - 1;
      LoadsEndInQueue(k, t[..n]);
      LoadLogSnoc(k, t);
      QSnoc(false, k, [], t);
      LoadStep(k, LoadLog(k, t[..n]), t[n]);
    }
  }

  lemma NothingLoaded(k: nat)
    requires 1 <= k
    ensures QRun(false, k, [], []) == Suffix(LoadLog(k, []), k)
  {
  }

  lemma LoadLogSnoc(k: nat, t: seq<Page>)
    requires 1 <= k && t != []
    ensures var n := |t| - 1;
      LoadLog(k, t) == if t[n] in QRun(false, k, [], t[..n]) then LoadLog(k, t[..n]) else LoadLog(k, t[..n]) + [t[n]]
  {
    hide Valid, Touch, QRun, QueueOf;
    EmptyIsEmptyQueue(Fifo, k);
    RunIsQueueRun(Fifo, k, EMPTY, t);
    assert MissAt(Fifo, k, EMPTY, t, |t| - 1) <==> QMissAt(false, k, [], t, |t| - 1);
  }

  /** FIFO with k frames holds the k pages loaded last, and the modular counter names the oldest. */
  lemma FifoHoldsLastLoaded(k: nat, t: seq<Page>)
    requires 1 <= k
    ensures Valid(Fifo, k, EMPTY)
    ensures var c := Run(Fifo, k, EMPTY, t);
            QueueOf(Fifo, k, c) == Suffix(LoadLog(k, t), k)
            && (|c.frames| == k ==> c.frames[(c.counter + 1) % k] == LoadLog(k, t)[|LoadLog(k, t)| - k])
  {
    EmptyIsEmptyQueue(Fifo, k);
    RunIsQueueRun(Fifo, k, EMPTY, t);
    LoadsEndInQueue(k, t);
  }

  // ----- conservative policies

  /**
   * In every window of every run that touches at most k distinct pages, each page misses at most
   * once.
   */
  ghost predicate Conservative(policy: Policy, k: nat)
    requires 1 <= k
  {
    forall t: seq<Page>, w: seq<Page>, i, j | |Elements(w)| <= k && 0 <= i < j < |w| && w[i] == w[j] ::
      !(MissAt(policy, k, Run(policy, k, EMPTY, t), w, i) && MissAt(policy, k, Run(policy, k, EMPTY, t), w, j))
  }

  /** FIFO and LRU: the window may start in any state at all. */
  lemma MissesOnce(policy: Policy, k: nat, c: Core, w: seq<Page>, i: nat, j: nat)
    requires Valid(policy, k, c) && IsQueue(policy)
    requires |Elements(w)| <= k && i < j < |w| && w[i] == w[j]
    requires MissAt(policy, k, c, w, i)
    ensures !MissAt(policy, k, c, w, j)
  {
    QueueHolds(policy, k, c);
    RunIsQueueRun(policy, k, c, w);
    NoSecondMiss(policy.Lru?, k, QueueOf(policy, k, c), w, i, j);
  }

  /** So a window costs no more than its distinct pages. */
  lemma WindowCost(policy: Policy, k: nat, c: Core, w: seq<Page>)
    requires Valid(policy, k, c) && IsQueue(policy)
    requires |Elements(w)| <= k
    ensures Misses(policy, k, c, w) <= |Elements(w)|
  {
    QueueHolds(policy, k, c);
    RunIsQueueRun(policy, k, c, w);
    var q := QueueOf(policy, k, c);
    var a, m := SafeWindow(policy.Lru?, k, q, w);
    QRunValid(policy.Lru?, k, q, w);
    DistinctParts(a, m);
    DistinctBound(m, Elements(w));
  }

  /** With a single frame the last page is always resident, whatever the policy. */
  lemma LastIsResident(policy: Policy, k: nat, c: Core, w: seq<Page>, i: nat, j: nat)
    requires Valid(policy, k, c)
    requires |Elements(w)| <= 1 && i < j < |w|
    ensures !MissAt(policy, k, c, w, j)
  {
    var p, p' := w[j - 1], w[j];
    SubsetCount({p, p'}, Elements(w));
    assert p == p' by {
      assert p != p' ==> |{p, p'}| == 2;
    }
    assert w[..j][..j - 1] == w[..j - 1];
  }

  // ----- CLOCK as a queue of pages

  /** The CLOCK list with each frame replaced by the page it holds. */
  function Slots(frames: seq<Page>, q: seq<Entry<nat>>): (r: seq<Entry<Page>>)
    requires InRange(Datas(q), |frames|)
    ensures |r| == |q| && forall i :: 0 <= i < |q| ==> r[i] == Entry(frames[q[i].data], q[i].ref)
  {
    assert forall i :: 0 <= i < |q| ==> q[i].data == Datas(q)[i];
    seq(|q|, i requires 0 <= i < |q| => Entry(frames[q[i].data], q[i].ref))
  }

  /** One access to a CLOCK queue: a hit sets a bit, a miss sweeps, drops the head and appends. */
  function ClockStep(k: nat, q: seq<Entry<Page>>, p: Page): seq<Entry<Page>>
    requires 1 <= k
  {
    if p in Datas(q) then WithRef(q, p)
    else if |q| < k then q + [Entry(p, false)]
    else if Sweep(q) == [] then [Entry(p, false)]
    else Sweep(q)[1..] + [Entry(p, false)]
  }

  lemma {:induction false} SlotsWithRef(frames: seq<Page>, q: seq<Entry<nat>>, f: nat)
    requires Distinct(frames) && f < |frames| && InRange(Datas(q), |frames|)
    ensures Datas(WithRef(q, f)) == Datas(q)
    ensures Slots(frames, WithRef(q, f)) == WithRef(Slots(frames, q), frames[f])
  {
    if q == [] {
    } else {
      var r := Slots(frames, q);
      assert Datas(q)[0] == q[0].data && Datas(q[1..]) == Datas(q)[1..];
      assert Slots(frames, q[1..]) == r[1..];
      if q[0].data != f {
        SlotsWithRef(frames, q[1..], f);
        assert r[0].data != frames[f];
        assert Slots(frames, [q[0]] + WithRef(q[1..], f)) == [r[0]] + Slots(frames, WithRef(q[1..], f));
      }
    }
  }

  lemma {:induction false} SlotsSweep(frames: seq<Page>, q: seq<Entry<nat>>)
    requires InRange(Datas(q), |frames|)
    ensures InRange(Datas(Sweep(q)), |frames|)
    ensures Slots(frames, Sweep(q)) == Sweep(Slots(frames, q))
    decreases RefCount(q)
  {
    if q == [] || !q[0].ref {
    } else {
      RotatedRefCount(q);
      RotatedRefCount(Slots(frames, q));
      assert Datas(q)[0] == q[0].data && Datas(Rotated(q)) == Datas(q)[1..] + [Datas(q)[0]];
      assert Rotated(Slots(frames, q)) == Slots(frames, Rotated(q));
      SlotsSweep(frames, Rotated(q));
    }
  }

  function ClockQueue(k: nat, c: Core): (q: seq<Entry<Page>>)
    requires Valid(Clock, k, c)
    ensures |q| == |c.frames|
  {
    ListInRange(Datas(c.clock), |c.frames|);
    Slots(c.frames, c.clock)
  }

  lemma ClockQueueHolds(k: nat, c: Core, p: Page)
    requires Valid(Clock, k, c)
    ensures p in Datas(ClockQueue(k, c)) <==> p in c.frames
  {
    var q := ClockQueue(k, c);
    ListInRange(Datas(c.clock), |c.frames|);
    LruQueueHolds(c.frames, Datas(c.clock));
    assert Datas(q) == Resolve(c.frames, Datas(c.clock));
    assert p in Datas(q) <==> p in Elements(Datas(q));
    assert p in c.frames <==> p in Elements(c.frames);
  }

  lemma ClockFull(k: nat, c: Core, p: Page)
    requires Valid(Clock, k, c) && p !in c.frames && |c.frames| == k
    ensures |Sweep(ClockQueue(k, c))| == k
    ensures ClockQueue(k, Touch(Clock, k, c, p)) == Sweep(ClockQueue(k, c))[1..] + [Entry(p, false)]
  {
    var q, frames := c.clock, c.frames;
    SweepRotates(ClockQueue(k, c));
    ListInRange(Datas(q), k);
    SlotsSweep(frames, q);
    SweepRotates(q);
    RotationLists(Datas(q), k, SetPrefix(q));
    var s := Sweep(q);
    var f := s[0].data;
    assert Datas(s)[0] == f;
    assert forall i :: 1 <= i < k ==> s[i].data == Datas(s)[i];
    ListInRange(Datas(Touch(Clock, k, c, p).clock), k);
    assert Slots(frames[f := p], s[1..] + [Entry(f, false)]) == Slots(frames, s)[1..] + [Entry(p, false)];
  }

  lemma ClockTouchIsQueueStep(k: nat, c: Core, p: Page)
    requires Valid(Clock, k, c)
    ensures ClockQueue(k, Touch(Clock, k, c, p)) == ClockStep(k, ClockQueue(k, c), p)
  {
    var q, frames := c.clock, c.frames;
    ListInRange(Datas(q), |frames|);
    ClockQueueHolds(k, c, p);
    if p in frames {
      SlotsWithRef(frames, q, IndexOf(frames, p));
    } else if |frames| < k {
      assert Datas(q + [Entry(|frames|, false)]) == Datas(q) + [|frames|];
      assert Slots(frames + [p], q + [Entry(|frames|, false)]) == Slots(frames, q) + [Entry(p, false)];
    } else {
      ClockFull(k, c, p);
      SweepRotates(ClockQueue(k, c));
    }
  }

  // ----- competitiveness

  lemma QueueWindows(policy: Policy, k: nat)
    requires IsQueue(policy) && 1 <= k
    ensures WindowsCost(policy, k, k)
  {
    forall c: Core, w: seq<Page> | Valid(policy, k, c) && |Elements(w)| <= k
      ensures Misses(policy, k, c, w) <= k
    {
      WindowCost(policy, k, c, w);
    }
  }

  /**
   * FIFO and LRU with k frames against any schedule, even one that knows the whole trace, with
   * h <= k frames. With h == k this says that they miss at most k times as often.
   */
  lemma Competitive(policy: Policy, k: nat, h: nat, t: seq<Page>, c: seq<set<Page>>)
    requires IsQueue(policy) && 1 <= h <= k && Schedule(h, t, c)
    ensures Valid(policy, k, EMPTY)
    ensures (k - h + 1) * Misses(policy, k, EMPTY, t) <= k * (Faults(t, c) + (k - h))
  {
    QueueWindows(policy, k);
    PhasesBound(policy, k, h, k, t, c);
  }
}
