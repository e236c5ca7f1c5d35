/** Which policies are competitive at all, against schedules with how many frames. */
module CompetitiveLimits {
  import opened Sequences
  import opened Replacement
  import opened Competitiveness
  import opened PagingTheorems
  import opened PolicyLimits
  import ClockTheorems

  /** On every trace the misses are bounded by a times the faults of any schedule with h frames, plus b. */
  ghost predicate Bounded(policy: Policy, k: nat, h: nat, a: nat, b: nat)
    requires 1 <= k
  {
    && Valid(policy, k, EMPTY)
    && forall t: seq<Page>, c: seq<set<Page>> | Schedule(h, t, c) :: Misses(policy, k, EMPTY, t) <= a * Faults(t, c) + b
  }

  ghost predicate IsCompetitive(policy: Policy, k: nat, h: nat)
    requires 1 <= k
  {
    exists a: nat, b: nat :: Bounded(policy, k, h, a, b)
  }

  // ----- against a single frame

  /** The page accessed last is resident, and it is all that a schedule with one frame holds. */
  lemma MissIsFault(policy: Policy, k: nat, t: seq<Page>, c: seq<set<Page>>)
    requires 1 <= k && t != [] && Schedule(1, t, c)
    ensures Valid(policy, k, EMPTY)
    ensures MissAt(policy, k, EMPTY, t, |t| - 1) ==> t[|t| - 1] !in c[|t| - 1]
  {
    EmptyValid(policy, k);
    var n := |t| - 1;
    if n == 0 {
    } else {
      assert t[..n][n - 1] == t[n - 1];
      assert t[n - 1] in c[n] && |c[n]| <= 1;
      if t[n] in c[n] && t[n] != t[n - 1] {
        SubsetCount({t[n], t[n - 1]}, c[n]);
        assert false;
      }
    }
  }

  /** Whatever the policy, it never misses more often than a schedule with one frame must fault. */
  lemma {:induction false} OneFrame(policy: Policy, k: nat, t: seq<Page>, c: seq<set<Page>>)
    requires 1 <= k && Schedule(1, t, c)
    ensures Valid(policy, k, EMPTY) && Misses(policy, k, EMPTY, t) <= Faults(t, c)
  {
    hide Valid, Run, MissAt;
    EmptyValid(policy, k);
    if t == [] {
    } else {
      OneFrame(policy, k, t[..|t| - 1], c);
      MissIsFault(policy, k, t, c);
    }
  }

  // ----- ZERO

  /** ZERO with k full frames: the first page changes, the others never do. */
  ghost predicate ZeroAt(k: nat, t: seq<Page>, p: Page, misses: nat)
    requires 1 <= k
  {
    && Valid(Zero, k, EMPTY)
    && Run(Zero, k, EMPTY, t) == Core(Numbered(k)[0 := p], -1, [], [])
    && Misses(Zero, k, EMPTY, t) == misses
  }

  lemma ZeroNext(k: nat, t: seq<Page>, p: Page, misses: nat, x: Page)
    requires 1 <= k && ZeroAt(k, t, p, misses) && x != p && x !in Numbered(k)
    ensures ZeroAt(k, t + [x], x, misses + 1)
  {
    RunSnoc(Zero, k, EMPTY, t, x);
    assert x !in Numbered(k)[0 := p];
    assert Numbered(k)[0 := p][0 := x] == Numbered(k)[0 := x];
  }

  lemma {:induction false} ZeroFills(k: nat, n: nat)
    requires 1 <= k && n <= k
    ensures Valid(Zero, k, EMPTY)
    ensures Run(Zero, k, EMPTY, Numbered(n)) == Full(Zero, n, 0) && Misses(Zero, k, EMPTY, Numbered(n)) == n
  {
    EmptyValid(Zero, k);
    if n == 0 {
    } else {
      hide Run, Misses, Touch;
      ZeroFills(k, n - 1);
      FillStep(Zero, k, n - 1);
      RunSnoc(Zero, k, EMPTY, Numbered(n - 1), Page(0, n - 1));
      assert Numbered(n) == Numbered(n - 1) + [Page(0, n - 1)];
    }
  }

  /** A schedule that keeps one page only. */
  lemma {:induction false} LazyFill(h: nat, n: nat) returns (c: seq<set<Page>>)
    requires 1 <= h
    ensures Rival(h, Numbered(n), c, n, if n == 0 then {} else {Page(0, n - 1)})
  {
    hide Rival;
    if n == 0 {
      NoRival(h);
      c := [{}];
      assert Numbered(0) == [];
    } else {
      var c0 := LazyFill(h, n - 1);
      var p := Page(0, n - 1);
      RivalMore(h, Numbered(n - 1), c0, n - 1, if n == 1 then {} else {Page(0, n - 2)}, p, {p});
      c := c0 + [{p}];
      assert Numbered(n) == Numbered(n - 1) + [p];
    }
  }

  /** Two new pages in turn: ZERO misses every time, a schedule with two frames no more. */
  lemma {:induction false} Alternate(k: nat, h: nat, n: nat) returns (t: seq<Page>, c: seq<set<Page>>)
    requires 2 <= h <= k
    ensures ZeroAt(k, t, Fresher(k), k + 2 + 2 * n)
    ensures Rival(h, t, c, k + 2, {Fresh(k), Fresher(k)})
  {
    hide Rival, ZeroAt;
    var x, y := Fresh(k), Fresher(k);
    if n == 0 {
      ZeroFull(k);
      var c0 := LazyFill(h, k);
      ZeroNext(k, Numbered(k), Page(0, 0), k, x);
      ZeroNext(k, Numbered(k) + [x], x, k + 1, y);
      RivalMore(h, Numbered(k), c0, k, {Page(0, k - 1)}, x, {x});
      RivalMore(h, Numbered(k) + [x], c0 + [{x}], k + 1, {x}, y, {x, y});
      t, c := Numbered(k) + [x] + [y], c0 + [{x}] + [{x, y}];
    } else {
      var t0, c0 := Alternate(k, h, n - 1);
      ZeroNext(k, t0, y, k + 2 + 2 * (n - 1), x);
      ZeroNext(k, t0 + [x], x, k + 1 + 2 * n, y);
      RivalMore(h, t0, c0, k + 2, {x, y}, x, {x, y});
      RivalMore(h, t0 + [x], c0 + [{x, y}], k + 2, {x, y}, y, {x, y});
      t, c := t0 + [x] + [y], c0 + [{x, y}] + [{x, y}];
    }
  }

  lemma ZeroFull(k: nat)
    requires 1 <= k
    ensures ZeroAt(k, Numbered(k), Page(0, 0), k)
  {
    ZeroFills(k, k);
    assert Numbered(k)[0 := Page(0, 0)] == Numbered(k);
  }

  lemma ZeroUnbounded(k: nat, h: nat, a: nat, b: nat) returns (t: seq<Page>, c: seq<set<Page>>)
    requires 2 <= h <= k
    ensures Valid(Zero, k, EMPTY) && Schedule(h, t, c)
    ensures Misses(Zero, k, EMPTY, t) > a * Faults(t, c) + b
  {
    hide Valid, Run, Misses, Schedule, Faults;
    t, c := Alternate(k, h, a * (k + 2) + b);
  }

  // ----- in all

  lemma Loosened(d: nat, cost: nat, misses: nat, faults: nat)
    requires 1 <= d && d * misses <= cost * (faults + (d - 1))
    ensures misses <= cost * faults + cost * (d - 1)
  {
    MulMonotone(1, d, misses);
    assert cost * (faults + (d - 1)) == cost * faults + cost * (d - 1);
  }

  lemma WindowsBounded(policy: Policy, k: nat, h: nat, cost: nat)
    requires 1 <= h <= k && WindowsCost(policy, k, cost)
    ensures Bounded(policy, k, h, cost, cost * (k - h))
  {
    hide Valid, Misses, Schedule, Faults, WindowsCost;
    EmptyValid(policy, k);
    forall t: seq<Page>, c: seq<set<Page>> | Schedule(h, t, c)
      ensures |t| < |c| && Misses(policy, k, EMPTY, t) <= cost * Faults(t, c) + cost * (k - h)
    {
      ScheduleLength(h, t, c);
      PhasesBound(policy, k, h, cost, t, c);
      Loosened(k - h + 1, cost, Misses(policy, k, EMPTY, t), Faults(t, c));
    }
  }

  lemma OneFrameBounded(policy: Policy, k: nat)
    requires 1 <= k
    ensures Bounded(policy, k, 1, 1, 0)
  {
    hide Valid, Misses, Schedule, Faults;
    EmptyValid(policy, k);
    forall t: seq<Page>, c: seq<set<Page>> | Schedule(1, t, c)
      ensures |t| < |c| && Misses(policy, k, EMPTY, t) <= Faults(t, c)
    {
      ScheduleLength(1, t, c);
      OneFrame(policy, k, t, c);
    }
  }

  lemma ZeroNotBounded(k: nat, h: nat, a: nat, b: nat)
    requires 2 <= h <= k
    ensures !Bounded(Zero, k, h, a, b)
  {
    hide Valid, Misses, Schedule, Faults;
    var t, c := ZeroUnbounded(k, h, a, b);
  }

  /** A policy is competitive against schedules with h of its k frames exactly when it is not ZERO, or h is 1. */
  lemma CompetitiveIff(policy: Policy, k: nat, h: nat)
    requires 1 <= h <= k
    ensures IsCompetitive(policy, k, h) <==> !policy.Zero? || h == 1
  {
    hide Bounded, WindowsCost;
    if h == 1 {
      OneFrameBounded(policy, k);
    } else if policy.Zero? {
      forall a: nat, b: nat ensures !Bounded(policy, k, h, a, b) {
        ZeroNotBounded(k, h, a, b);
      }
    } else if policy.Clock? {
      ClockTheorems.ClockWindows(k);
      WindowsBounded(policy, k, h, 2 * k - 1);
    } else {
      QueueWindows(policy, k);
      WindowsBounded(policy, k, h, k);
    }
  }
}
