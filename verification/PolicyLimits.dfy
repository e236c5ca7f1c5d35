/**
 * Which policies are conservative, exactly, and why LRU and ZERO are free of Belady's anomaly.
 */
module PolicyLimits {
  import opened Sequences
  import opened Replacement
  import opened QueuePaging
  import opened PagingTheorems

  function Numbered(n: nat): (t: seq<Page>)
    ensures |t| == n && forall i :: 0 <= i < n ==> t[i] == Page(0, i)
  {
    seq(n, (i: nat) => Page(0, i))
  }

  /** n entries, of which 1 to m have their bit set. */
  function Marked(n: nat, m: nat): (q: seq<Entry<nat>>)
    ensures |q| == n && forall i :: 0 <= i < n ==> q[i] == Entry(i, 1 <= i <= m)
  {
    seq(n, (i: nat) => Entry(i, 1 <= i <= m))
  }

  /** n frames filled with the first n pages, the reference bits of frames 1 to m set. */
  function Full(policy: Policy, n: nat, m: nat): Core {
    Core(Numbered(n), -1, [], if policy.Clock? then Marked(n, m) else [])
  }

  lemma FullValid(policy: Policy, k: nat, n: nat, m: nat)
    requires n <= k && 1 <= k && (policy.Zero? || policy.Clock?)
    ensures Valid(policy, k, Full(policy, n, m))
  {
    var l := Datas(Marked(n, m));
    forall f: nat | f < n ensures f in l {
      assert l[f] == f;
    }
  }

  lemma FillStep(policy: Policy, k: nat, n: nat)
    requires n < k && (policy.Zero? || policy.Clock?)
    ensures Valid(policy, k, Full(policy, n, 0))
    ensures Touch(policy, k, Full(policy, n, 0), Page(0, n)) == Full(policy, n + 1, 0)
  {
    FullValid(policy, k, n, 0);
    assert Numbered(n + 1) == Numbered(n) + [Page(0, n)];
    assert Marked(n + 1, 0) == Marked(n, 0) + [Entry(n, false)];
  }

  lemma {:induction false} Filled(policy: Policy, k: nat, n: nat)
    requires n <= k && 1 <= k && (policy.Zero? || policy.Clock?)
    ensures Valid(policy, k, EMPTY) && Run(policy, k, EMPTY, Numbered(n)) == Full(policy, n, 0)
  {
    if n == 0 {
      assert Full(policy, 0, 0) == EMPTY;
    } else {
      Filled(policy, k, n - 1);
      FillStep(policy, k, n - 1);
      hide Touch, Full;
      assert Numbered(n)[..n - 1] == Numbered(n - 1);
    }
  }

  /** The pages 1 to m, once each. */
  function Rereads(m: nat): (t: seq<Page>)
    ensures |t| == m && forall i :: 0 <= i < m ==> t[i] == Page(0, i + 1)
  {
    seq(m, (i: nat) => Page(0, i + 1))
  }

  lemma MarkStep(k: nat, m: nat)
    requires m + 1 < k
    ensures Valid(Clock, k, Full(Clock, k, m))
    ensures Touch(Clock, k, Full(Clock, k, m), Page(0, m + 1)) == Full(Clock, k, m + 1)
  {
    hide Valid;
    FullValid(Clock, k, k, m);
    assert Numbered(k)[m + 1] == Page(0, m + 1);
    IndexUnique(Numbered(k), m + 1);
    WithRefAt(Marked(k, m), m + 1, m + 1);
    assert Marked(k, m)[m + 1 := Entry(m + 1, true)] == Marked(k, m + 1);
  }

  lemma {:induction false} ClockMarked(k: nat, m: nat)
    requires m < k
    ensures Valid(Clock, k, Full(Clock, k, 0))
    ensures Run(Clock, k, Full(Clock, k, 0), Rereads(m)) == Full(Clock, k, m)
  {
    FullValid(Clock, k, k, 0);
    if m == 0 {
    } else {
      ClockMarked(k, m - 1);
      MarkStep(k, m - 1);
      hide Touch, Full;
      assert Rereads(m)[..m - 1] == Rereads(m - 1);
    }
  }

  /** The page after the first k, and the one after it. */
  function Fresh(k: nat): Page { Page(0, k) }

  function Fresher(k: nat): Page { Page(0, k + 1) }

  /**
   * From this state two new pages in turn throw each other out: ZERO has only one victim, and
   * CLOCK finds the reference bit of the page just loaded clear and all the others set.
   */
  function Trap(policy: Policy, k: nat): Core
    requires 2 <= k
  {
    Full(policy, k, if policy.Clock? then k - 1 else 0)
  }

  lemma TrapReached(policy: Policy, k: nat) returns (t: seq<Page>)
    requires 2 <= k && (policy.Zero? || policy.Clock?)
    ensures Valid(policy, k, EMPTY) && Run(policy, k, EMPTY, t) == Trap(policy, k)
  {
    Filled(policy, k, k);
    if policy.Zero? {
      t := Numbered(k);
    } else {
      ClockMarked(k, k - 1);
      t := Numbered(k) + Rereads(k - 1);
      RunConcat(policy, k, EMPTY, Numbered(k), Rereads(k - 1));
    }
  }

  /** The first new page replaces frame 0. */
  lemma FreshReplacesZero(policy: Policy, k: nat)
    requires 2 <= k && (policy.Zero? || policy.Clock?)
    ensures Valid(policy, k, Trap(policy, k)) && Fresh(k) !in Trap(policy, k).frames
    ensures Touch(policy, k, Trap(policy, k), Fresh(k))
            == Core(Numbered(k)[0 := Fresh(k)], -1, [],
                    if policy.Clock? then Marked(k, k - 1)[1..] + [Entry(0, false)] else [])
  {
    var c := Trap(policy, k);
    FullValid(policy, k, k, if policy.Clock? then k - 1 else 0);
    if policy.Clock? {
      assert Sweep(c.clock) == c.clock;
    }
  }

  /** And so does the second. */
  lemma FresherReplacesFresh(policy: Policy, k: nat)
    requires 2 <= k && (policy.Zero? || policy.Clock?)
    ensures Valid(policy, k, Trap(policy, k))
    ensures var c := Touch(policy, k, Trap(policy, k), Fresh(k));
            Fresh(k) !in Touch(policy, k, c, Fresher(k)).frames
  {
    FreshReplacesZero(policy, k);
    var c := Touch(policy, k, Trap(policy, k), Fresh(k));
    assert Fresher(k) !in c.frames;
    if policy.Clock? {
      var a := Marked(k, k - 1)[1..];
      SweepStopsAtFirstClear(a, Entry(0, false), []);
      assert a + [Entry(0, false)] + [] == c.clock;
      assert Evict(policy, k, c).0 == 0;
    }
    assert Touch(policy, k, c, Fresher(k)).frames == c.frames[0 := Fresher(k)];
  }

  lemma NotConservative(policy: Policy, k: nat)
    requires 2 <= k && (policy.Zero? || policy.Clock?)
    ensures !Conservative(policy, k)
  {
    hide Trap, Run, MissAt, Valid;
    var t := TrapReached(policy, k);
    TrapWindow(policy, k);
    var w := [Fresh(k), Fresher(k), Fresh(k)];
    assert Elements(w) == {Fresh(k), Fresher(k)};
    assert w[0] == w[2];
  }

  lemma TrapWindow(policy: Policy, k: nat)
    requires 2 <= k && (policy.Zero? || policy.Clock?)
    ensures Valid(policy, k, Trap(policy, k))
    ensures var w := [Fresh(k), Fresher(k), Fresh(k)];
      MissAt(policy, k, Trap(policy, k), w, 0) && MissAt(policy, k, Trap(policy, k), w, 2)
  {
    hide Touch, Valid, Trap, Fresh, Fresher, Run;
    FreshReplacesZero(policy, k);
    FresherReplacesFresh(policy, k);
    var c, x, y := Trap(policy, k), Fresh(k), Fresher(k);
    var w := [x, y, x];
    assert w[..0] == [] && w[..2] == [x, y];
    RunNothing(policy, k, c);
    RunSnoc(policy, k, c, [], x);
    RunSnoc(policy, k, c, [x], y);
    assert [] + [x] == [x] && [x] + [y] == [x, y];
  }

  /** A policy is conservative exactly when it is FIFO or LRU, or there is one frame only. */
  lemma ConservativeIff(policy: Policy, k: nat)
    requires 1 <= k
    ensures Conservative(policy, k) <==> (policy.Fifo? || policy.Lru? || k == 1)
  {
    if IsQueue(policy) || k == 1 {
      forall t: seq<Page>, w: seq<Page>, i, j | |Elements(w)| <= k && 0 <= i < j < |w| && w[i] == w[j]
        ensures var c := Run(policy, k, EMPTY, t); !(MissAt(policy, k, c, w, i) && MissAt(policy, k, c, w, j))
      {
        var c := Run(policy, k, EMPTY, t);
        if k == 1 {
          LastIsResident(policy, k, c, w, i, j);
        } else if MissAt(policy, k, c, w, i) {
          MissesOnce(policy, k, c, w, i, j);
        }
      }
    } else {
      NotConservative(policy, k);
    }
  }

  // ----- Belady's anomaly

  /** What ZERO holds with k frames: the static part is the same for every larger memory. */
  lemma {:induction false} ZeroInclusion(k: nat, k': nat, t: seq<Page>)
    requires 1 <= k <= k'
    ensures Valid(Zero, k, EMPTY) && Valid(Zero, k', EMPTY)
    ensures var f, f' := Run(Zero, k, EMPTY, t).frames, Run(Zero, k', EMPTY, t).frames;
            && (|f| < k ==> f == f')
            && (|f| == k ==> |f'| >= k && f[1..] == f'[1..k] && f[0] in f')
  {
    if t == [] {
    } else {
      var n := |t| - 1;
      ZeroInclusion(k, k', t[..n]);
      var c, c' := Run(Zero, k, EMPTY, t[..n]), Run(Zero, k', EMPTY, t[..n]);
      hide Run;
      ZeroStep(k, k', c, c', t[n]);
    }
  }

  lemma ZeroStep(k: nat, k': nat, c: Core, c': Core, p: Page)
    requires 1 <= k <= k' && Valid(Zero, k, c) && Valid(Zero, k', c')
    requires |c.frames| < k ==> c.frames == c'.frames
    requires |c.frames| == k ==> |c'.frames| >= k && c.frames[1..] == c'.frames[1..k] && c.frames[0] in c'.frames
    ensures var f, f' := Touch(Zero, k, c, p).frames, Touch(Zero, k', c', p).frames;
            && (|f| < k ==> f == f')
            && (|f| == k ==> |f'| >= k && f[1..] == f'[1..k] && f[0] in f')
  {
    var f, f' := Touch(Zero, k, c, p).frames, Touch(Zero, k', c', p).frames;
    if |c.frames| == k {
      forall i | 1 <= i < k ensures c.frames[i] == c'.frames[i] {
        assert c.frames[1..][i - 1] == c'.frames[1..k][i - 1];
      }
      if p in c'.frames && p !in c.frames {
        assert f' == c'.frames && f == c.frames[0 := p];
      }
    }
  }

  /** Everything LRU or ZERO holds with k frames it also holds with more. */
  lemma Inclusion(policy: Policy, k: nat, k': nat, t: seq<Page>)
    requires 1 <= k <= k' && (policy.Lru? || policy.Zero?)
    ensures Valid(policy, k, EMPTY) && Valid(policy, k', EMPTY)
    ensures Elements(Run(policy, k, EMPTY, t).frames) <= Elements(Run(policy, k', EMPTY, t).frames)
  {
    var c, c' := Run(policy, k, EMPTY, t), Run(policy, k', EMPTY, t);
    if policy.Lru? {
      LruStack(k, t);
      LruStack(k', t);
      QueueHolds(Lru, k, c);
      QueueHolds(Lru, k', c');
      SuffixGrows(Recency(t), k, k');
    } else {
      ZeroInclusion(k, k', t);
      forall p | p in c.frames ensures p in c'.frames {
        var i := IndexOf(c.frames, p);
        if |c.frames| == k && i > 0 {
          assert c.frames[1..][i - 1] == c'.frames[1..k][i - 1] == c'.frames[i];
        }
      }
    }
  }

  lemma SuffixGrows(s: seq<Page>, k: nat, k': nat)
    requires k <= k'
    ensures Elements(Suffix(s, k)) <= Elements(Suffix(s, k'))
  {
    if |s| > k {
      var a, b := Suffix(s, k), Suffix(s, k');
      assert a == b[|b| - k..];
    }
  }

  lemma {:induction false} FewerMisses(policy: Policy, k: nat, k': nat, t: seq<Page>)
    requires 1 <= k <= k' && (policy.Lru? || policy.Zero?)
    ensures Valid(policy, k, EMPTY) && Valid(policy, k', EMPTY)
    ensures Misses(policy, k', EMPTY, t) <= Misses(policy, k, EMPTY, t)
  {
    if t == [] {
    } else {
      var n := |t| - 1;
      FewerMisses(policy, k, k', t[..n]);
      Inclusion(policy, k, k', t[..n]);
      if t[n] in Run(policy, k, EMPTY, t[..n]).frames {
        assert t[n] in Elements(Run(policy, k', EMPTY, t[..n]).frames);
      }
    }
  }
}
