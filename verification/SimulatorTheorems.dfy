/** The theorems on page traces, read off the statistics that the simulator keeps. */
module SimulatorTheorems {
  import opened Sequences
  import opened Replacement
  import opened Machine
  import Competitiveness
  import ClockTheorems
  import PagingTheorems
  import PolicyLimits

  /**
   * Under FIFO and LRU with k frames the miss counter is bounded by what any schedule needs that
   * has h <= k frames and may know the future; with h == k, by k times as much.
   */
  lemma MissCountCompetitive(wb: WriteBack, policy: Policy, k: nat, h: nat, t: seq<Request>, c: seq<set<Page>>)
    requires PagingTheorems.IsQueue(policy) && 1 <= h <= k && Competitiveness.Schedule(h, Pages(t), c)
    ensures (k - h + 1) * RunAll(wb, policy, k, t).0.stats.misses <= k * (Competitiveness.Faults(Pages(t), c) + (k - h))
  {
    hide RunAll, Competitiveness.Schedule;
    FollowsPages(wb, policy, k, t);
    PagingTheorems.Competitive(policy, k, h, Pages(t), c);
  }

  /** Under CLOCK the same with 2k - 1 for k. */
  lemma ClockMissCountCompetitive(wb: WriteBack, k: nat, h: nat, t: seq<Request>, c: seq<set<Page>>)
    requires 1 <= h <= k && Competitiveness.Schedule(h, Pages(t), c)
    ensures (k - h + 1) * RunAll(wb, Clock, k, t).0.stats.misses
         <= (2 * k - 1) * (Competitiveness.Faults(Pages(t), c) + (k - h))
  {
    hide RunAll, Run, Misses, Wf, Competitiveness.Schedule, Competitiveness.Faults;
    FollowsPages(wb, Clock, k, t);
    ClockTheorems.ClockCompetitive(k, h, Pages(t), c);
  }

  /** Under LRU and ZERO more frames never lower the hit counter. */
  lemma HitCountGrows(policy: Policy, k: nat, k': nat, t: seq<Request>)
    requires 1 <= k <= k' && (policy.Lru? || policy.Zero?)
    ensures RunAll(Always, policy, k, t).0.stats.hits <= RunAll(Always, policy, k', t).0.stats.hits
  {
    hide RunAll, Wf;
    FollowsPages(Always, policy, k, t);
    FollowsPages(Always, policy, k', t);
    Accounting(policy, k, t);
    Accounting(policy, k', t);
    PolicyLimits.FewerMisses(policy, k, k', Pages(t));
  }

  /** A stretch of requests to at most k pages misses at most once per page, under FIFO and LRU. */
  lemma StretchMisses(wb: WriteBack, policy: Policy, k: nat, t: seq<Request>, w: seq<Request>)
    requires 1 <= k && PagingTheorems.IsQueue(policy) && |Elements(Pages(w))| <= k
    ensures RunAll(wb, policy, k, t + w).0.stats.misses
         <= RunAll(wb, policy, k, t).0.stats.misses + |Elements(Pages(w))|
  {
    hide RunAll, Wf, Run, Misses;
    FollowsPages(wb, policy, k, t);
    FollowsPages(wb, policy, k, t + w);
    assert Pages(t + w) == Pages(t) + Pages(w);
    RunConcat(policy, k, EMPTY, Pages(t), Pages(w));
    PagingTheorems.WindowCost(policy, k, Run(policy, k, EMPTY, Pages(t)), Pages(w));
  }
}
