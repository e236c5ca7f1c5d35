/**
 * Replacement against other schedules. The trace is cut into phases of at most k distinct pages; a
 * policy pays what a window of k pages costs it in each phase, any other schedule at least its share.
 */
module Competitiveness {
  import opened Sequences
  import opened Replacement

  /**
   * A way to serve trace t with h frames from an empty memory: c[i] is what is resident before
   * access i. Only the accessed page may come in; anything may be dropped at any time, and the
   * choice may depend on the whole trace.
   */
  ghost predicate Schedule(h: nat, t: seq<Page>, c: seq<set<Page>>) {
    && |t| < |c|
    && c[0] == {}
    && (forall i :: 0 <= i <= |t| ==> |c[i]| <= h)
    && (forall i :: 0 <= i < |t| ==> t[i] in c[i + 1] && c[i + 1] <= c[i] + {t[i]})
  }

  ghost function Faults(t: seq<Page>, c: seq<set<Page>>): nat
    requires |t| < |c|
  {
    if t == [] then 0 else Faults(t[..|t| - 1], c) + if t[|t| - 1] in c[|t| - 1] then 0 else 1
  }

  /** Started in any state, a window of at most k distinct pages misses no more often than this. */
  ghost predicate WindowsCost(policy: Policy, k: nat, cost: nat)
    requires 1 <= k
  {
    forall c: Core, w: seq<Page> | Valid(policy, k, c) && |Elements(w)| <= k :: Misses(policy, k, c, w) <= cost
  }

  lemma EmptyValid(policy: Policy, k: nat)
    requires 1 <= k
    ensures Valid(policy, k, EMPTY)
  {
  }

  /**
   * Where a trace stands in its partition into phases: the number of phases begun, where the present
   * one began, its pages so far, and what the other schedule held just after its first access.
   */
  datatype Phase = Phase(number: nat, cut: nat, used: set<Page>, start: set<Page>)

  /** What the other schedule has paid when it is in this phase, besides its pages new to the phase. */
  function Share(k: nat, h: nat, number: nat): nat
    requires h <= k && 1 <= number
  {
    1 + (number - 1) * (k - h + 1)
  }

  ghost predicate PhaseInv(k: nat, h: nat, t: seq<Page>, c: seq<set<Page>>, ph: Phase)
    requires 1 <= h <= k && |t| < |c|
  {
    && 1 <= ph.number && ph.cut <= |t|
    && ph.used == Elements(t[ph.cut..])
    && |ph.used| <= k && |ph.start| <= h
    && c[|t|] <= ph.start + ph.used
    && Faults(t, c) >= Share(k, h, ph.number) + |ph.used - ph.start|
  }

  /** The policy has paid for the phases that are over. */
  ghost predicate Paid(policy: Policy, k: nat, cost: nat, t: seq<Page>, ph: Phase)
    requires 1 <= k && 1 <= ph.number && ph.cut <= |t|
  {
    Valid(policy, k, EMPTY) && Misses(policy, k, EMPTY, t[..ph.cut]) <= (ph.number - 1) * cost
  }

  /** A page new to the phase that the other schedule did not hold at its start is a fault. */
  lemma StaysFaults(k: nat, h: nat, t: seq<Page>, c: seq<set<Page>>, ph: Phase)
    requires 1 <= h <= k && t != [] && |t| < |c|
    requires c[|t| - 1] <= ph.start + ph.used
    ensures var p := t[|t| - 1];
      Faults(t, c) - |ph.used + {p} - ph.start| >= Faults(t[..|t| - 1], c) - |ph.used - ph.start|
  {
    var p := t[|t| - 1];
    if p !in ph.used && p !in ph.start {
      assert ph.used + {p} - ph.start == (ph.used - ph.start) + {p};
    } else {
      assert ph.used + {p} - ph.start == ph.used - ph.start;
    }
  }

  lemma PhaseStays(policy: Policy, k: nat, h: nat, cost: nat, t: seq<Page>, c: seq<set<Page>>, ph: Phase)
    returns (ph': Phase)
    requires 1 <= h <= k && t != [] && Schedule(h, t, c)
    requires PhaseInv(k, h, t[..|t| - 1], c, ph) && Paid(policy, k, cost, t[..|t| - 1], ph)
    requires |ph.used + {t[|t| - 1]}| <= k
    ensures PhaseInv(k, h, t, c, ph') && Paid(policy, k, cost, t, ph')
  {
    hide Faults, Misses, Valid, Elements, Share;
    var n := |t| - 1;
    StaysFaults(k, h, t, c, ph);
    UsedSnoc(t, ph.cut);
    assert t[..n][..ph.cut] == t[..ph.cut];
    ph' := ph.(used := ph.used + {t[n]});
    assert c[n + 1] <= c[n] + {t[n]};
  }

  lemma UsedSnoc(t: seq<Page>, cut: nat)
    requires cut < |t|
    ensures Elements(t[cut..]) == Elements(t[..|t| - 1][cut..]) + {t[|t| - 1]}
  {
    ElementsSnoc(t[cut..]);
    assert t[cut..][..|t| - 1 - cut] == t[..|t| - 1][cut..];
  }

  /** A page that does not fit opens the next phase; the other schedule has paid for the last one. */
  lemma TurnFaults(k: nat, h: nat, t: seq<Page>, c: seq<set<Page>>, ph: Phase)
    requires 1 <= h <= k && t != [] && |t| < |c|
    requires 1 <= ph.number && |ph.start| <= h
    requires c[|t| - 1] <= ph.start + ph.used
    requires t[|t| - 1] !in ph.used && |ph.used| == k
    requires Faults(t[..|t| - 1], c) >= Share(k, h, ph.number) + |ph.used - ph.start|
    ensures Faults(t, c) >= Share(k, h, ph.number + 1)
  {
    PaidFor(ph.used, ph.start, t[|t| - 1], h);
    OneMore(ph.number, k - h + 1);
  }

  lemma OneMore(n: nat, x: nat)
    ensures n * x == (n - 1) * x + x
  {
  }

  lemma PaidFor(used: set<Page>, start: set<Page>, p: Page, h: nat)
    requires |start| <= h && p !in used
    ensures |used - start| >= |used| - h
    ensures p in start ==> |used - start| >= |used| - h + 1
  {
    assert used == (used - start) + used * start;
    if p in start {
      SubsetCount(used * start, start - {p});
    } else {
      SubsetCount(used * start, start);
    }
  }

  /** And the policy pays for it what a window costs. */
  lemma TurnMisses(policy: Policy, k: nat, cost: nat, t: seq<Page>, ph: Phase)
    requires 1 <= k && WindowsCost(policy, k, cost)
    requires 1 <= ph.number && ph.cut <= |t| && |Elements(t[ph.cut..])| <= k && Paid(policy, k, cost, t, ph)
    ensures Misses(policy, k, EMPTY, t) <= ph.number * cost
  {
    hide Misses, Run, Valid, Elements;
    RunConcat(policy, k, EMPTY, t[..ph.cut], t[ph.cut..]);
    assert t == t[..ph.cut] + t[ph.cut..];
    OneMore(ph.number, cost);
  }

  lemma NoRoom(used: set<Page>, p: Page, k: nat)
    requires |used| <= k < |used + {p}|
    ensures p !in used && |used| == k
  {
    assert p in used ==> used + {p} == used;
  }

  /** A phase of one page. */
  lemma OpensPhase(k: nat, h: nat, t: seq<Page>, c: seq<set<Page>>, number: nat)
    requires 1 <= h <= k && t != [] && Schedule(h, t, c) && 1 <= number && Faults(t, c) >= Share(k, h, number)
    ensures PhaseInv(k, h, t, c, Phase(number, |t| - 1, {t[|t| - 1]}, c[|t|]))
  {
    hide Faults, Share;
    var n, p := |t| - 1, t[|t| - 1];
    assert t[n..] == [p] && p in c[n + 1];
    assert {p} - c[n + 1] == {};
    assert |c[n + 1]| <= h;
  }

  lemma NextPhase(k: nat, h: nat, t: seq<Page>, c: seq<set<Page>>, ph: Phase) returns (ph': Phase)
    requires 1 <= h <= k && t != [] && Schedule(h, t, c)
    requires PhaseInv(k, h, t[..|t| - 1], c, ph) && |ph.used + {t[|t| - 1]}| > k
    ensures PhaseInv(k, h, t, c, ph') && ph'.number == ph.number + 1 && ph'.cut == |t| - 1
  {
    hide Faults, Share, Elements, Schedule;
    ScheduleLength(h, t, c);
    NoRoom(ph.used, t[|t| - 1], k);
    TurnFaults(k, h, t, c, ph);
    OpensPhase(k, h, t, c, ph.number + 1);
    ph' := Phase(ph.number + 1, |t| - 1, {t[|t| - 1]}, c[|t|]);
  }

  lemma PhaseTurns(policy: Policy, k: nat, h: nat, cost: nat, t: seq<Page>, c: seq<set<Page>>, ph: Phase)
    returns (ph': Phase)
    requires 1 <= h <= k && t != [] && Schedule(h, t, c) && WindowsCost(policy, k, cost)
    requires PhaseInv(k, h, t[..|t| - 1], c, ph) && Paid(policy, k, cost, t[..|t| - 1], ph)
    requires |ph.used + {t[|t| - 1]}| > k
    ensures PhaseInv(k, h, t, c, ph') && Paid(policy, k, cost, t, ph')
  {
    hide Misses, Run, Valid, WindowsCost, Faults, Schedule, Elements;
    TurnMisses(policy, k, cost, t[..|t| - 1], ph);
    ph' := NextPhase(k, h, t, c, ph);
  }

  lemma {:induction false} PhasesCover(policy: Policy, k: nat, h: nat, cost: nat, t: seq<Page>, c: seq<set<Page>>)
    returns (ph: Phase)
    requires 1 <= h <= k && t != [] && Schedule(h, t, c) && WindowsCost(policy, k, cost)
    ensures PhaseInv(k, h, t, c, ph) && Paid(policy, k, cost, t, ph)
  {
    hide PhaseInv, Paid, WindowsCost;
    if |t| == 1 {
      ph := FirstPhase(policy, k, h, cost, t, c);
    } else {
      var ph0 := PhasesCover(policy, k, h, cost, t[..|t| - 1], c);
      if |ph0.used + {t[|t| - 1]}| <= k {
        ph := PhaseStays(policy, k, h, cost, t, c, ph0);
      } else {
        ph := PhaseTurns(policy, k, h, cost, t, c, ph0);
      }
    }
  }

  lemma FirstPhase(policy: Policy, k: nat, h: nat, cost: nat, t: seq<Page>, c: seq<set<Page>>) returns (ph: Phase)
    requires 1 <= h <= k && |t| == 1 && Schedule(h, t, c)
    ensures PhaseInv(k, h, t, c, ph) && Paid(policy, k, cost, t, ph)
  {
    EmptyValid(policy, k);
    assert t[..0] == [] && t == [t[0]];
    assert Faults(t, c) == 1;
    OpensPhase(k, h, t, c, 1);
    ph := Phase(1, 0, {t[0]}, c[1]);
  }

  lemma PhasesEnd(policy: Policy, k: nat, h: nat, cost: nat, t: seq<Page>, c: seq<set<Page>>) returns (number: nat)
    requires 1 <= h <= k && t != [] && Schedule(h, t, c) && WindowsCost(policy, k, cost)
    ensures Valid(policy, k, EMPTY) && |t| < |c| && 1 <= number
    ensures Misses(policy, k, EMPTY, t) <= number * cost
    ensures Faults(t, c) >= Share(k, h, number)
  {
    hide WindowsCost, Valid, Paid, Faults, Misses, Share;
    EmptyValid(policy, k);
    var ph := PhasesCover(policy, k, h, cost, t, c);
    TurnMisses(policy, k, cost, t, ph);
    number := ph.number;
  }

  lemma ScheduleLength(h: nat, t: seq<Page>, c: seq<set<Page>>)
    requires Schedule(h, t, c)
    ensures |t| < |c|
  {
  }

  /** With k frames, against any schedule with h of them. */
  lemma PhasesBound(policy: Policy, k: nat, h: nat, cost: nat, t: seq<Page>, c: seq<set<Page>>)
    requires 1 <= h <= k && Schedule(h, t, c) && WindowsCost(policy, k, cost)
    ensures Valid(policy, k, EMPTY)
    ensures (k - h + 1) * Misses(policy, k, EMPTY, t) <= cost * (Faults(t, c) + (k - h))
  {
    hide *;
    EmptyValid(policy, k);
    ScheduleLength(h, t, c);
    if t == [] {
      RunNothing(policy, k, EMPTY);
    } else {
      var number := PhasesEnd(policy, k, h, cost, t, c);
      CombineBounds(k, h, cost, number, Misses(policy, k, EMPTY, t), Faults(t, c));
    }
  }

  lemma CombineBounds(k: nat, h: nat, cost: nat, number: nat, misses: nat, faults: nat)
    requires 1 <= h <= k && 1 <= number
    requires misses <= number * cost && faults >= Share(k, h, number)
    ensures (k - h + 1) * misses <= cost * (faults + (k - h))
  {
    var d := k - h + 1;
    OneMore(number, d);
    MulMonotone(misses, number * cost, d);
    Rearrange(d, number, cost);
    MulMonotone(number * d, faults + (k - h), cost);
  }

  lemma Rearrange(d: nat, n: nat, k: nat)
    ensures d * (n * k) == k * (n * d)
  {
  }

  lemma MulMonotone(x: int, y: int, z: nat)
    requires x <= y
    ensures z * x <= z * y
  {
  }

  // ----- a schedule that is built access by access

  /** The schedule serves all of t, has faulted so often, and now holds what is said. */
  ghost predicate Rival(h: nat, t: seq<Page>, c: seq<set<Page>>, faults: nat, held: set<Page>) {
    Schedule(h, t, c) && |c| == |t| + 1 && c[|t|] == held && Faults(t, c) == faults
  }

  lemma NoRival(h: nat)
    ensures Rival(h, [], [{}], 0, {})
  {
  }

  lemma {:induction false} FaultsPrefix(t: seq<Page>, c: seq<set<Page>>, c': seq<set<Page>>)
    requires |t| < |c| <= |c'| && forall i :: 0 <= i < |c| ==> c[i] == c'[i]
    ensures Faults(t, c') == Faults(t, c)
  {
    if t == [] {
    } else {
      FaultsPrefix(t[..|t| - 1], c, c');
    }
  }

  lemma ScheduleMore(h: nat, t: seq<Page>, c: seq<set<Page>>, p: Page, next: set<Page>)
    requires Schedule(h, t, c) && |c| == |t| + 1
    requires p in next && next <= c[|t|] + {p} && |next| <= h
    ensures Schedule(h, t + [p], c + [next])
  {
    var t', c' := t + [p], c + [next];
    forall i | 0 <= i < |t'| ensures t'[i] in c'[i + 1] && c'[i + 1] <= c'[i] + {t'[i]} {
      if i < |t| {
        assert t'[i] == t[i] && c'[i] == c[i] && c'[i + 1] == c[i + 1];
      }
    }
  }

  lemma FaultsMore(t: seq<Page>, c: seq<set<Page>>, p: Page, next: set<Page>)
    requires |c| == |t| + 1
    ensures Faults(t + [p], c + [next]) == Faults(t, c) + if p in c[|t|] then 0 else 1
  {
    assert (t + [p])[..|t|] == t;
    FaultsPrefix(t, c, c + [next]);
  }

  /** One more access, after which the schedule holds `next`. */
  lemma RivalMore(h: nat, t: seq<Page>, c: seq<set<Page>>, faults: nat, held: set<Page>, p: Page, next: set<Page>)
    requires Rival(h, t, c, faults, held)
    requires p in next && next <= held + {p} && |next| <= h
    ensures Rival(h, t + [p], c + [next], faults + if p in held then 0 else 1, next)
  {
    hide Schedule, Faults;
    ScheduleMore(h, t, c, p, next);
    FaultsMore(t, c, p, next);
  }
}
