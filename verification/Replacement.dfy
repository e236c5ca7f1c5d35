/**
 * The page-replacement state of the virtual-memory simulator as a value: which page each frame
 * holds, the FIFO counter, the LRU list and the CLOCK list, and how one access changes them.
 * The bytes that travel with the pages are in module Machine.
 */
module Replacement {
  import opened Sequences

  datatype Policy = Zero | Fifo | Lru | Clock

  /** A virtual page: the page number vpn of process pid. */
  datatype Page = Page(pid: nat, vpn: nat)

  /** An element of the CLOCK list: what it stands for (a frame number) and its reference bit. */
  datatype Entry<T> = Entry(data: T, ref: bool)

  /**
   * frames[f] is the page that frame f holds; the frames from |frames| on are still free.
   * counter is the FIFO counter, -1 before the first replacement.
   * Only the policy in use touches its own structure.
   */
  datatype Core = Core(frames: seq<Page>, counter: int, lru: seq<nat>, clock: seq<Entry<nat>>)

  const EMPTY := Core([], -1, [], [])

  function Datas<T>(q: seq<Entry<T>>): (r: seq<T>)
    ensures |r| == |q| && forall i :: 0 <= i < |q| ==> r[i] == q[i].data
  {
    seq(|q|, i requires 0 <= i < |q| => q[i].data)
  }

  /** l lists each of the frames 0..n exactly once. */
  ghost predicate ListsFrames(l: seq<nat>, n: nat) {
    |l| == n && Distinct(l) && forall f :: f in l <==> 0 <= f < n
  }

  ghost predicate Valid(policy: Policy, k: nat, c: Core) {
    && 1 <= k
    && |c.frames| <= k
    && Distinct(c.frames)
    && -1 <= c.counter
    && (c.counter != -1 ==> policy.Fifo? && |c.frames| == k)
    && (policy.Lru? ==> ListsFrames(c.lru, |c.frames|))
    && (policy.Clock? ==> ListsFrames(Datas(c.clock), |c.frames|))
  }

  // ----- the CLOCK sweep

  function RefCount<T>(q: seq<Entry<T>>): nat {
    if q == [] then 0 else (if q[0].ref then 1 else 0) + RefCount(q[1..])
  }

  lemma {:induction false} RefCountConcat<T>(a: seq<Entry<T>>, b: seq<Entry<T>>)
    ensures RefCount(a + b) == RefCount(a) + RefCount(b)
  {
    if a == [] {
      assert a + b == b;
    } else {
      RefCountConcat(a[1..], b);
      assert (a + b)[1..] == a[1..] + b;
    }
  }

  /** The head goes to the tail with its bit cleared. */
  function Rotated<T>(q: seq<Entry<T>>): (r: seq<Entry<T>>)
    requires q != []
  {
    q[1..] + [Entry(q[0].data, false)]
  }

  lemma RotatedRefCount<T>(q: seq<Entry<T>>)
    requires q != [] && q[0].ref
    ensures RefCount(Rotated(q)) == RefCount(q) - 1
  {
    RefCountConcat(q[1..], [Entry(q[0].data, false)]);
    assert [Entry(q[0].data, false)][1..] == [];
  }

  /** Rotate until the bit of the head is clear. */
  function Sweep<T>(q: seq<Entry<T>>): seq<Entry<T>>
    decreases RefCount(q)
  {
    if q != [] && q[0].ref then
      RotatedRefCount(q);
      Sweep(Rotated(q))
    else q
  }

  function Cleared<T>(q: seq<Entry<T>>): (r: seq<Entry<T>>)
    ensures |r| == |q| && forall i :: 0 <= i < |q| ==> r[i] == Entry(q[i].data, false)
  {
    seq(|q|, i requires 0 <= i < |q| => Entry(q[i].data, false))
  }

  ghost predicate AllSet<T>(q: seq<Entry<T>>) {
    forall i :: 0 <= i < |q| ==> q[i].ref
  }

  /** The sweep stops at the first clear bit and moves what stood before it, cleared, to the end. */
  lemma {:induction false} SweepStopsAtFirstClear<T>(a: seq<Entry<T>>, v: Entry<T>, b: seq<Entry<T>>)
    requires AllSet(a) && !v.ref
    ensures Sweep(a + [v] + b) == [v] + b + Cleared(a)
    decreases |a|
  {
    var q := a + [v] + b;
    if a == [] {
      assert Cleared(a) == [];
      assert q == [v] + b + Cleared(a);
    } else {
      var b' := b + [Entry(a[0].data, false)];
      assert Rotated(q) == a[1..] + [v] + b';
      SweepStopsAtFirstClear(a[1..], v, b');
      assert [v] + b' + Cleared(a[1..]) == [v] + b + Cleared(a);
    }
  }

  /** With every bit set the sweep goes once round: the old head is the victim, all bits are clear. */
  lemma {:induction false} SweepAllSet<T>(q: seq<Entry<T>>)
    requires AllSet(q)
    ensures Sweep(q) == Cleared(q)
  {
    if q == [] {
    } else {
      var v := Entry(q[0].data, false);
      SweepStopsAtFirstClear(q[1..], v, []);
      assert Rotated(q) == q[1..] + [v] + [];
      assert [v] + [] + Cleared(q[1..]) == Cleared(q);
    }
  }

  /** q[..n] is the longest prefix with every bit set. */
  function SetPrefix<T>(q: seq<Entry<T>>): (n: nat)
    ensures n <= |q| && AllSet(q[..n]) && (n < |q| ==> !q[n].ref)
  {
    if q != [] && q[0].ref then
      var n := 1 + SetPrefix(q[1..]);
      assert forall i :: 0 < i < n ==> q[i] == q[1..][..n - 1][i - 1];
      n
    else 0
  }

  /** Both cases at once: the sweep rotates past the set prefix, clearing its bits. */
  lemma SweepShape<T>(q: seq<Entry<T>>)
    ensures q != [] && !AllSet(q) ==> var n := SetPrefix(q); n < |q| && Sweep(q) == q[n..] + Cleared(q[..n])
    ensures AllSet(q) ==> Sweep(q) == Cleared(q)
    ensures |Sweep(q)| == |q| && (q != [] ==> !Sweep(q)[0].ref)
  {
    var n := SetPrefix(q);
    if n == |q| {
      assert q[..n] == q;
      SweepAllSet(q);
    } else {
      SweepStopsAtFirstClear(q[..n], q[n], q[n + 1..]);
      assert q == q[..n] + [q[n]] + q[n + 1..];
      assert q[n..] == [q[n]] + q[n + 1..];
    }
  }

  /** The sweep keeps the frames: it only rotates them. */
  lemma SweepRotates<T>(q: seq<Entry<T>>)
    ensures var n := SetPrefix(q); |Sweep(q)| == |q| && Datas(Sweep(q)) == Datas(q)[n..] + Datas(q)[..n]
    ensures q != [] ==> !Sweep(q)[0].ref
  {
    hide Sweep, SetPrefix, AllSet;
    SweepShape(q);
    var n := SetPrefix(q);
    if AllSet(q) {
      SetPrefixAll(q);
      assert Datas(Cleared(q)) == Datas(q);
    } else {
      assert q != [] by { NotAllSet(q); }
      assert Datas(q[n..] + Cleared(q[..n])) == Datas(q)[n..] + Datas(q)[..n];
    }
  }

  lemma SetPrefixAll<T>(q: seq<Entry<T>>)
    requires AllSet(q)
    ensures SetPrefix(q) == |q|
  {
  }

  lemma NotAllSet<T>(q: seq<Entry<T>>)
    requires !AllSet(q)
    ensures q != []
  {
  }

  function WithRef<T(==)>(q: seq<Entry<T>>, x: T): (r: seq<Entry<T>>)
    ensures |r| == |q| && forall i :: 0 <= i < |q| ==> r[i].data == q[i].data
  {
    if q == [] then []
    else if q[0].data == x then [Entry(x, true)] + q[1..]
    else [q[0]] + WithRef(q[1..], x)
  }

  lemma {:induction false} WithRefAt<T>(q: seq<Entry<T>>, x: T, j: nat)
    requires j < |q| && forall i :: 0 <= i < |q| ==> (q[i].data == x <==> i == j)
    ensures WithRef(q, x) == q[j := Entry(x, true)]
  {
    if j == 0 {
    } else {
      assert q[0].data != x;
      WithRefAt(q[1..], x, j - 1);
    }
  }

  // ----- one access

  /** What a hit in the given frame does to the replacement structures. */
  function Hit(policy: Policy, c: Core, frame: nat): Core {
    match policy
    case Zero => c
    case Fifo => c
    case Lru => c.(lru := Remove(c.lru, frame) + [frame])
    case Clock => c.(clock := WithRef(c.clock, frame))
  }

  /** Linking a frame at the tail of the structure of the policy. */
  function Enqueue(policy: Policy, c: Core, frame: nat): (r: Core)
    ensures r.frames == c.frames
  {
    match policy
    case Zero => c
    case Fifo => c
    case Lru => c.(lru := c.lru + [frame])
    case Clock => c.(clock := c.clock + [Entry(frame, false)])
  }

  /** The frame to replace, and the structures once the victim is unlinked. */
  function Evict(policy: Policy, k: nat, c: Core): (r: (nat, Core))
    requires Valid(policy, k, c) && |c.frames| == k
    ensures r.0 < k && r.1.frames == c.frames
  {
    match policy
    case Zero => (0, c)
    case Fifo => ((c.counter + 1) % k, c.(counter := c.counter + 1))
    case Lru =>
      assert 0 in c.lru;
      assert c.lru[0] in c.lru;
      (c.lru[0], c.(lru := c.lru[1..]))
    case Clock =>
      SweepRotates(c.clock);
      var q := Sweep(c.clock);
      assert Datas(q)[0] in Datas(c.clock);
      (q[0].data, c.(clock := q[1..]))
  }

  /** What an eviction does to the structure of each policy. */
  lemma EvictLists(policy: Policy, k: nat, c: Core)
    requires Valid(policy, k, c) && |c.frames| == k
    ensures var r := Evict(policy, k, c).1;
      && (policy.Lru? ==> c.lru != []) && r.lru == (if policy.Lru? then c.lru[1..] else c.lru)
      && (policy.Clock? ==> Sweep(c.clock) != [])
      && r.clock == (if policy.Clock? then Sweep(c.clock)[1..] else c.clock)
      && r.counter == c.counter + if policy.Fifo? then 1 else 0
  {
    if policy.Lru? {
      assert 0 in c.lru;
    }
    SweepRotates(c.clock);
  }

  /** The frame that a missing page is loaded into, and the state afterwards. */
  function Miss(policy: Policy, k: nat, c: Core, p: Page): (r: (nat, Core))
    requires Valid(policy, k, c) && p !in c.frames
    ensures r.0 < |r.1.frames| && r.1.frames[r.0] == p
    ensures |c.frames| < k ==> r.0 == |c.frames| && r.1.frames == c.frames + [p]
    ensures |c.frames| == k ==> r.0 == Evict(policy, k, c).0 && r.1.frames == c.frames[r.0 := p]
  {
    if |c.frames| < k then
      var f := |c.frames|;
      (f, Enqueue(policy, c.(frames := c.frames + [p]), f))
    else
      var (f, c') := Evict(policy, k, c);
      (f, Enqueue(policy, c'.(frames := c.frames[f := p]), f))
  }

  function Touch(policy: Policy, k: nat, c: Core, p: Page): (r: Core)
    requires Valid(policy, k, c)
    ensures Valid(policy, k, r) && p in r.frames
  {
    if p in c.frames then
      var f := IndexOf(c.frames, p);
      HitValid(policy, k, c, f);
      assert Hit(policy, c, f).frames == c.frames;
      Hit(policy, c, f)
    else
      MissValid(policy, k, c, p);
      assert Miss(policy, k, c, p).1.frames[Miss(policy, k, c, p).0] == p;
      Miss(policy, k, c, p).1
  }

  lemma RequeueLists(l: seq<nat>, n: nat, f: nat)
    requires ListsFrames(l, n) && f < n
    ensures ListsFrames(Remove(l, f) + [f], n)
  {
    RemoveDistinct(l, f);
  }

  lemma RotationLists(l: seq<nat>, n: nat, m: nat)
    requires ListsFrames(l, n) && m <= n
    ensures ListsFrames(l[m..] + l[..m], n)
  {
    var r := l[m..] + l[..m];
    assert forall i :: 0 <= i < n ==> r[i] == l[if i < n - m then i + m else i + m - n];
    forall f ensures f in r <==> f in l {
      if f in l {
        var i := IndexOf(l, f);
        assert r[if m <= i then i - m else i + n - m] == f;
      }
    }
  }

  lemma AppendLists(l: seq<nat>, n: nat)
    requires ListsFrames(l, n)
    ensures ListsFrames(l + [n], n + 1)
  {
    assert n !in l;
  }

  /** Taking the head off and linking it again at the tail. */
  lemma HeadToTailLists(l: seq<nat>, n: nat)
    requires ListsFrames(l, n) && 0 < n
    ensures ListsFrames(l[1..] + [l[0]], n)
  {
    RotationLists(l, n, 1);
    assert l[1..] + [l[0]] == l[1..] + l[..1];
  }

  lemma HitValid(policy: Policy, k: nat, c: Core, f: nat)
    requires Valid(policy, k, c) && f < |c.frames|
    ensures Valid(policy, k, Hit(policy, c, f))
  {
    if policy.Lru? {
      RequeueLists(c.lru, |c.frames|, f);
    }
    if policy.Clock? {
      assert Datas(WithRef(c.clock, f)) == Datas(c.clock);
    }
  }

  lemma MissValid(policy: Policy, k: nat, c: Core, p: Page)
    requires Valid(policy, k, c) && p !in c.frames
    ensures Valid(policy, k, Miss(policy, k, c, p).1)
  {
    var (f, r) := Miss(policy, k, c, p);
    if |c.frames| < k {
      if policy.Lru? {
        AppendLists(c.lru, f);
      }
      if policy.Clock? {
        AppendLists(Datas(c.clock), f);
        assert Datas(r.clock) == Datas(c.clock) + [f];
      }
    } else {
      if policy.Lru? {
        HeadToTailLists(c.lru, k);
      }
      if policy.Clock? {
        SweepRotates(c.clock);
        var q := Sweep(c.clock);
        RotationLists(Datas(c.clock), k, SetPrefix(c.clock));
        HeadToTailLists(Datas(q), k);
        assert Datas(r.clock) == Datas(q)[1..] + [Datas(q)[0]];
      }
    }
  }

  // ----- runs

  /** The state after the accesses of trace t, in order. */
  function Run(policy: Policy, k: nat, c: Core, t: seq<Page>): (r: Core)
    requires Valid(policy, k, c)
    ensures Valid(policy, k, r)
  {
    if t == [] then c
    else Touch(policy, k, Run(policy, k, c, t[..|t| - 1]), t[|t| - 1])
  }

  /** Whether access j of trace t, started in state c, is a miss. */
  predicate MissAt(policy: Policy, k: nat, c: Core, t: seq<Page>, j: nat)
    requires Valid(policy, k, c) && j < |t|
  {
    t[j] !in Run(policy, k, c, t[..j]).frames
  }

  function Misses(policy: Policy, k: nat, c: Core, t: seq<Page>): nat
    requires Valid(policy, k, c)
  {
    if t == [] then 0
    else
      var n := |t| - 1;
      Misses(policy, k, c, t[..n]) + if MissAt(policy, k, c, t, n) then 1 else 0
  }

  lemma RunSnoc(policy: Policy, k: nat, c: Core, t: seq<Page>, p: Page)
    requires Valid(policy, k, c)
    ensures var r := Run(policy, k, c, t);
            Run(policy, k, c, t + [p]) == Touch(policy, k, r, p)
            && Misses(policy, k, c, t + [p]) == Misses(policy, k, c, t) + if p in r.frames then 0 else 1
  {
    assert (t + [p])[..|t|] == t;
  }

  /** Two traces one after the other. */
  lemma {:induction false} RunConcat(policy: Policy, k: nat, c: Core, t: seq<Page>, w: seq<Page>)
    requires Valid(policy, k, c)
    ensures Run(policy, k, c, t + w) == Run(policy, k, Run(policy, k, c, t), w)
    ensures Misses(policy, k, c, t + w) == Misses(policy, k, c, t) + Misses(policy, k, Run(policy, k, c, t), w)
    decreases |w|
  {
    hide Touch, Valid, Run, Misses;
    if w == [] {
      RunNothing(policy, k, Run(policy, k, c, t));
      assert t + w == t;
    } else {
      var v, p := w[..|w| - 1], w[|w| - 1];
      RunConcat(policy, k, c, t, v);
      RunSnoc(policy, k, c, t + v, p);
      RunSnoc(policy, k, Run(policy, k, c, t), v, p);
      assert t + w == t + v + [p] && w == v + [p];
    }
  }

  lemma RunNothing(policy: Policy, k: nat, c: Core)
    requires Valid(policy, k, c)
    ensures Run(policy, k, c, []) == c && Misses(policy, k, c, []) == 0
  {
  }
}
