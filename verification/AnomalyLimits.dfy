/** Belady's anomaly: for which policies, and from how many frames to how many, more frames can cost more misses. */
module AnomalyLimits {
  import opened Sequences
  import opened Replacement
  import opened Competitiveness
  import PolicyLimits
  import FifoFrames
  import ClockFrames

  /** On some trace K frames do worse than k. */
  ghost predicate Anomaly(policy: Policy, k: nat, K: nat)
    requires 1 <= k && 1 <= K
  {
    exists t: seq<Page> {:trigger Run(policy, k, EMPTY, t)} ::
      && Valid(policy, k, EMPTY) && Valid(policy, K, EMPTY)
      && Misses(policy, K, EMPTY, t) > Misses(policy, k, EMPTY, t)
  }

  lemma OnePage(s: seq<Page>, p: Page)
    requires |s| <= 1 && p in s
    ensures s == [p]
  {
  }

  /** A single frame holds the page accessed last, which every memory holds. */
  lemma {:induction false} OneFrameIsWorst(policy: Policy, policy': Policy, K: nat, t: seq<Page>)
    requires 1 <= K
    ensures Valid(policy, K, EMPTY) && Valid(policy', 1, EMPTY)
    ensures Misses(policy, K, EMPTY, t) <= Misses(policy', 1, EMPTY, t)
  {
    hide Valid, Touch;
    EmptyValid(policy, K);
    EmptyValid(policy', 1);
    if t == [] {
    } else {
      var n := |t| - 1;
      OneFrameIsWorst(policy, policy', K, t[..n]);
      if n > 0 {
        LastResident(policy, K, t[..n]);
        LastResident(policy', 1, t[..n]);
        FramesBound(policy', 1, Run(policy', 1, EMPTY, t[..n]));
        OnePage(Run(policy', 1, EMPTY, t[..n]).frames, t[n - 1]);
      }
    }
  }

  lemma LastResident(policy: Policy, k: nat, t: seq<Page>)
    requires 1 <= k && t != []
    ensures Valid(policy, k, EMPTY) && t[|t| - 1] in Run(policy, k, EMPTY, t).frames
  {
    EmptyValid(policy, k);
  }

  lemma FramesBound(policy: Policy, k: nat, c: Core)
    requires Valid(policy, k, c)
    ensures |c.frames| <= k
  {
  }

  lemma SameIsNoAnomaly(policy: Policy, k: nat)
    requires 1 <= k
    ensures !Anomaly(policy, k, k)
  {
  }

  lemma Witness(policy: Policy, k: nat, K: nat, t: seq<Page>)
    requires 1 <= k && 1 <= K && Valid(policy, k, EMPTY) && Valid(policy, K, EMPTY)
    requires Misses(policy, K, EMPTY, t) > Misses(policy, k, EMPTY, t)
    ensures Anomaly(policy, k, K)
  {
    assert Run(policy, k, EMPTY, t) == Run(policy, k, EMPTY, t);
  }

  /**
   * LRU and ZERO never do worse with more frames. FIFO does exactly between k and 2k - 1, CLOCK
   * from every memory of two frames or more to every larger one.
   */
  lemma AnomalyIff(policy: Policy, k: nat, K: nat)
    requires 1 <= k <= K
    ensures Anomaly(policy, k, K) <==>
      || (policy.Fifo? && k < K < 2 * k - 1)
      || (policy.Clock? && 2 <= k < K)
  {
    hide Anomaly, Misses, Run, Valid;
    if k == K {
      SameIsNoAnomaly(policy, k);
    } else if policy.Fifo? && K < 2 * k - 1 {
      FifoFrames.FewFrames(K, k);
      Witness(policy, k, K, FifoFrames.Trap(K, k));
    } else if policy.Clock? && 2 <= k {
      var t := ClockFrames.ClockAnomaly(K, k);
      Witness(policy, k, K, t);
    } else {
      EmptyValid(policy, k);
      EmptyValid(policy, K);
      forall t ensures Misses(policy, K, EMPTY, t) <= Misses(policy, k, EMPTY, t) {
        NeverWorse(policy, k, K, t);
      }
      NoWitness(policy, k, K);
    }
  }

  lemma NoWitness(policy: Policy, k: nat, K: nat)
    requires 1 <= k && 1 <= K && Valid(policy, k, EMPTY) && Valid(policy, K, EMPTY)
    requires forall t :: Misses(policy, K, EMPTY, t) <= Misses(policy, k, EMPTY, t)
    ensures !Anomaly(policy, k, K)
  {
  }

  lemma NeverWorse(policy: Policy, k: nat, K: nat, t: seq<Page>)
    requires 1 <= k <= K
    requires policy.Lru? || policy.Zero? || (policy.Fifo? && 2 * k - 1 <= K) || k == 1
    ensures Valid(policy, k, EMPTY) && Valid(policy, K, EMPTY)
    ensures Misses(policy, K, EMPTY, t) <= Misses(policy, k, EMPTY, t)
  {
    hide Misses, Run, Valid;
    if policy.Lru? || policy.Zero? {
      PolicyLimits.FewerMisses(policy, k, K, t);
    } else if policy.Fifo? {
      FifoFrames.EnoughFrames(policy, K, k, t);
    } else {
      OneFrameIsWorst(policy, policy, K, t);
    }
  }

  /** So adding a single frame is always safe for LRU and ZERO, for FIFO up to two frames, for CLOCK from one only. */
  lemma OneMoreFrameIff(policy: Policy, k: nat)
    requires 1 <= k
    ensures Anomaly(policy, k, k + 1) <==> (policy.Fifo? && 3 <= k) || (policy.Clock? && 2 <= k)
  {
    AnomalyIff(policy, k, k + 1);
  }

  /** A policy that never does worse with more frames is LRU or ZERO. */
  lemma NoAnomalyIff(policy: Policy)
    ensures (forall k: nat, K: nat | 1 <= k <= K :: !Anomaly(policy, k, K)) <==> (policy.Lru? || policy.Zero?)
  {
    hide Anomaly;
    if policy.Lru? || policy.Zero? {
      forall k: nat, K: nat | 1 <= k <= K ensures !Anomaly(policy, k, K) {
        AnomalyIff(policy, k, K);
      }
    } else {
      AnomalyIff(policy, 3, 4);
    }
  }
}
