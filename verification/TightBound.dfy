/**
 * No factor better than k / (k - h + 1) holds for FIFO and LRU against schedules with h of their k
 * frames: a trace that always asks for a page just replaced makes every access a miss, while a
 * schedule that knows the trace faults k - h + 1 times in k accesses.
 */
module TightBound {
  import opened Sequences
  import opened Replacement
  import opened QueuePaging
  import opened Competitiveness
  import opened PagingTheorems
  import PolicyLimits

  /** A trace on which every access missed, another schedule for it, and the queue that it leaves. */
  datatype Duel = Duel(t: seq<Page>, c: seq<set<Page>>, q: seq<Page>, faults: nat, held: set<Page>)

  ghost predicate Stands(recency: bool, k: nat, h: nat, d: Duel)
    requires 1 <= k
  {
    && Rival(h, d.t, d.c, d.faults, d.held)
    && QRun(recency, k, [], d.t) == d.q
    && QMisses(recency, k, [], d.t) == |d.t|
  }

  lemma MissMore(recency: bool, k: nat, t: seq<Page>, p: Page)
    requires 1 <= k && p !in QRun(recency, k, [], t)
    ensures QMisses(recency, k, [], t + [p]) == QMisses(recency, k, [], t) + 1
    ensures var q := QRun(recency, k, [], t); QRun(recency, k, [], t + [p]) == (if |q| < k then q else q[1..]) + [p]
  {
    assert (t + [p])[..|t|] == t;
    QSnoc(recency, k, [], t + [p]);
  }

  /** The duel after one more access, to a page that is missing. */
  function Extended(k: nat, d: Duel, p: Page, next: set<Page>): Duel {
    Duel(d.t + [p], d.c + [next], (if |d.q| < k then d.q else if d.q == [] then [] else d.q[1..]) + [p],
         d.faults + if p in d.held then 0 else 1, next)
  }

  lemma Extend(recency: bool, k: nat, h: nat, d: Duel, p: Page, next: set<Page>)
    requires 1 <= k && Stands(recency, k, h, d)
    requires p !in d.q && p in next && next <= d.held + {p} && |next| <= h
    ensures Stands(recency, k, h, Extended(k, d, p, next))
  {
    hide Rival, QRun, QMisses;
    RivalMore(h, d.t, d.c, d.faults, d.held, p, next);
    MissMore(recency, k, d.t, p);
  }

  /** The last n elements and one more. */
  lemma SuffixMore(s: seq<Page>, p: Page, n: nat)
    requires 1 <= n
    ensures p in Elements(Suffix(s + [p], n))
    ensures Elements(Suffix(s + [p], n)) <= Elements(Suffix(s, n)) + {p}
    ensures |Elements(Suffix(s + [p], n))| <= n
  {
    var a, b := Suffix(s, n), Suffix(s + [p], n);
    assert b[|b| - 1] == p;
    forall x | x in b ensures x in a || x == p {
      var i := IndexOf(b, x);
      assert i == |b| - 1 || b[i] == a[|a| - |b| + 1 + i];
    }
    FewElements(b);
  }

  /** The first n <= k pages fill the memory of both; the other schedule keeps the last h. */
  lemma {:induction false} Fill(recency: bool, k: nat, h: nat, n: nat) returns (d: Duel)
    requires 1 <= h <= k && n <= k
    ensures Stands(recency, k, h, d) && |d.t| == d.faults == n
    ensures d.q == PolicyLimits.Numbered(n) && d.held == Elements(Suffix(d.q, h))
  {
    hide Stands, Suffix, Elements, Extended;
    if n == 0 {
      d := NothingPlayed(recency, k, h);
    } else {
      var d0 := Fill(recency, k, h, n - 1);
      d := FillNext(recency, k, h, n - 1, d0);
    }
  }

  lemma NothingPlayed(recency: bool, k: nat, h: nat) returns (d: Duel)
    requires 1 <= h <= k
    ensures Stands(recency, k, h, d) && d.t == [] && d.faults == 0
    ensures d.q == PolicyLimits.Numbered(0) && d.held == Elements(Suffix(d.q, h))
  {
    NoRival(h);
    d := Duel([], [{}], [], 0, {});
  }

  lemma FillNext(recency: bool, k: nat, h: nat, n: nat, d: Duel) returns (d': Duel)
    requires 1 <= h <= k && n < k && Stands(recency, k, h, d) && |d.t| == d.faults == n
    requires d.q == PolicyLimits.Numbered(n) && d.held == Elements(Suffix(d.q, h))
    ensures Stands(recency, k, h, d') && |d'.t| == d'.faults == n + 1
    ensures d'.q == PolicyLimits.Numbered(n + 1) && d'.held == Elements(Suffix(d'.q, h))
  {
    hide Stands, Suffix, Elements;
    var p := Page(0, n);
    assert PolicyLimits.Numbered(n + 1) == d.q + [p];
    SuffixMore(d.q, p, h);
    NotHeld(d.q, p, h);
    Extend(recency, k, h, d, p, Elements(Suffix(d.q + [p], h)));
    d' := Extended(k, d, p, Elements(Suffix(d.q + [p], h)));
  }

  lemma NotHeld(s: seq<Page>, p: Page, n: nat)
    requires p !in s
    ensures p !in Elements(Suffix(s, n))
  {
  }

  /** The pages that the other schedule holds throughout a round. */
  function Kept(q: seq<Page>, h: nat): (r: seq<Page>)
    requires 1 <= h <= |q|
    ensures |r| == h - 1
  {
    q[|q| - h..|q| - 1]
  }

  /** What a round asks for: k - h + 1 pages that neither has, then those that the other schedule has kept. */
  function Round(q: seq<Page>, out: seq<Page>, h: nat): (w: seq<Page>)
    requires 1 <= h <= |q|
    ensures |w| == |out| + h - 1
  {
    out + Kept(q, h)
  }

  /** The pages that neither has after the round. */
  function Out(q: seq<Page>, h: nat): (r: seq<Page>)
    requires 1 <= h <= |q|
    ensures |r| == |q| - h + 1
  {
    q[..|q| - h] + [q[|q| - 1]]
  }

  /** A full queue, and pages outside it. */
  ghost predicate Ready(k: nat, h: nat, q: seq<Page>, out: seq<Page>) {
    1 <= h <= k && |q| == k && |out| == k - h + 1 && Distinct(q + out)
  }

  lemma RoundMisses(k: nat, h: nat, q: seq<Page>, out: seq<Page>, i: nat)
    requires Ready(k, h, q, out) && i < k
    ensures Round(q, out, h)[i] !in q[i..] + Round(q, out, h)[..i]
  {
    var w, n := Round(q, out, h), k - h + 1;
    assert forall j :: 0 <= j < k ==> w[j] == (q + out)[if j < n then k + j else j - n + (k - h)];
    assert forall j :: 0 <= j < k ==> q[j] == (q + out)[j];
  }

  lemma RoundReady(k: nat, h: nat, q: seq<Page>, out: seq<Page>)
    requires Ready(k, h, q, out)
    ensures Ready(k, h, Round(q, out, h), Out(q, h))
  {
    var w, n := Round(q, out, h), k - h + 1;
    var s := w + Out(q, h);
    assert forall j {:trigger s[j]} :: 0 <= j < |s| ==>
      s[j] == (q + out)[if j < n then k + j
                        else if j < k then j - n + (k - h)
                        else if j < |s| - 1 then j - k
                        else k - 1];
  }

  /** What the other schedule holds after m accesses of a round: what it keeps and the last of the new pages. */
  function HeldAfter(q: seq<Page>, out: seq<Page>, h: nat, m: nat): set<Page>
    requires 1 <= h <= |q| && out != []
  {
    if m == 0 then Elements(q[|q| - h..])
    else Elements(Kept(q, h)) + {out[if m <= |out| then m - 1 else |out| - 1]}
  }

  lemma HeldNext(k: nat, h: nat, q: seq<Page>, out: seq<Page>, m: nat)
    requires Ready(k, h, q, out) && 1 <= m <= k
    ensures var p, held, next := Round(q, out, h)[m - 1], HeldAfter(q, out, h, m - 1), HeldAfter(q, out, h, m);
      && p in next && next <= held + {p} && |next| <= h
      && (p in held <==> m > k - h + 1)
  {
    hide Distinct;
    FewElements(Kept(q, h));
    KeptApart(k, h, q, out);
    var n := k - h + 1;
    if m > n {
      assert Round(q, out, h)[m - 1] == Kept(q, h)[m - 1 - n];
    }
  }

  lemma KeptApart(k: nat, h: nat, q: seq<Page>, out: seq<Page>)
    requires Ready(k, h, q, out)
    ensures Elements(Kept(q, h)) <= Elements(q[k - h..])
    ensures forall i :: 0 <= i < |out| ==> out[i] !in q[k - h..] && out[i] !in Kept(q, h)
    ensures forall i, j :: 0 <= i < j < |out| ==> out[i] != out[j]
  {
    DistinctParts(q, out);
    assert forall i :: 0 <= i < |Kept(q, h)| ==> Kept(q, h)[i] == q[k - h..][i];
    assert forall i :: 0 <= i < |out| ==> out[i] in out;
  }

  /** Where a round that started from queue q stands after m accesses. */
  ghost predicate InRound(recency: bool, k: nat, h: nat, q: seq<Page>, out: seq<Page>, m: nat, d: Duel)
    requires Ready(k, h, q, out) && m <= k
  {
    && Stands(recency, k, h, d)
    && d.q == q[m..] + Round(q, out, h)[..m]
    && d.held == HeldAfter(q, out, h, m)
  }

  lemma RoundStarts(recency: bool, k: nat, h: nat, d: Duel, out: seq<Page>)
    requires Ready(k, h, d.q, out) && Stands(recency, k, h, d) && d.held == Elements(d.q[k - h..])
    ensures InRound(recency, k, h, d.q, out, 0, d)
  {
    hide Stands, Distinct;
    assert d.q[0..] + Round(d.q, out, h)[..0] == d.q;
  }

  lemma QueueNext(k: nat, q: seq<Page>, w: seq<Page>, m: nat)
    requires |q| == |w| == k && 1 <= m <= k
    ensures |q[m - 1..] + w[..m - 1]| == k && (q[m - 1..] + w[..m - 1])[1..] + [w[m - 1]] == q[m..] + w[..m]
  {
  }

  lemma RoundNext(recency: bool, k: nat, h: nat, q: seq<Page>, out: seq<Page>, m: nat, d: Duel) returns (d': Duel)
    requires Ready(k, h, q, out) && 1 <= m <= k && InRound(recency, k, h, q, out, m - 1, d)
    ensures InRound(recency, k, h, q, out, m, d')
    ensures |d'.t| == |d.t| + 1 && d'.faults == d.faults + if m > k - h + 1 then 0 else 1
  {
    hide Stands, Distinct, HeldAfter, Elements, Round, Kept;
    var w := Round(q, out, h);
    QueueNext(k, q, w, m);
    RoundMisses(k, h, q, out, m - 1);
    HeldNext(k, h, q, out, m);
    Extend(recency, k, h, d, w[m - 1], HeldAfter(q, out, h, m));
    d' := Extended(k, d, w[m - 1], HeldAfter(q, out, h, m));
  }

  /** The first m accesses of a round: all miss, and the other schedule faults on the new pages only. */
  lemma {:induction false} PlayRound(recency: bool, k: nat, h: nat, d: Duel, out: seq<Page>, m: nat) returns (d': Duel)
    requires 1 <= h <= k && Ready(k, h, d.q, out) && m <= k
    requires Stands(recency, k, h, d) && d.held == Elements(d.q[k - h..])
    ensures InRound(recency, k, h, d.q, out, m, d')
    ensures |d'.t| == |d.t| + m && d'.faults == d.faults + if m <= k - h + 1 then m else k - h + 1
  {
    hide InRound, Stands, Ready, Distinct, Elements, Round;
    if m == 0 {
      RoundStarts(recency, k, h, d, out);
      d' := d;
    } else {
      var d0 := PlayRound(recency, k, h, d, out, m - 1);
      d' := RoundNext(recency, k, h, d.q, out, m, d0);
    }
  }

  lemma HeldAtEnd(k: nat, h: nat, q: seq<Page>, out: seq<Page>)
    requires Ready(k, h, q, out)
    ensures HeldAfter(q, out, h, k) == Elements(Round(q, out, h)[k - h..])
  {
    var n := k - h + 1;
    assert Round(q, out, h)[k - h..] == [out[n - 1]] + Kept(q, h);
  }

  /** After any number of rounds the situation is the same again. */
  lemma {:induction false} Play(recency: bool, k: nat, h: nat, rounds: nat) returns (d: Duel, out: seq<Page>)
    requires 1 <= h <= k
    ensures Stands(recency, k, h, d) && |d.t| == k * (rounds + 1) && d.faults == k + rounds * (k - h + 1)
    ensures Ready(k, h, d.q, out) && d.held == Elements(d.q[k - h..])
  {
    hide Stands, Ready, HeldAfter, Elements;
    if rounds == 0 {
      d := Fill(recency, k, h, k);
      out := NumbersAfter(k, h);
    } else {
      var d0, out0 := Play(recency, k, h, rounds - 1);
      d := PlayRound(recency, k, h, d0, out0, k);
      RoundReady(k, h, d0.q, out0);
      HeldAtEnd(k, h, d0.q, out0);
      out := Out(d0.q, h);
      assert d.q == Round(d0.q, out0, h);
      OneMore(rounds + 1, k);
      OneMore(rounds, k - h + 1);
    }
  }

  /** The pages after the first k. */
  lemma NumbersAfter(k: nat, h: nat) returns (out: seq<Page>)
    requires 1 <= h <= k
    ensures Ready(k, h, PolicyLimits.Numbered(k), out)
    ensures Suffix(PolicyLimits.Numbered(k), h) == PolicyLimits.Numbered(k)[k - h..]
  {
    out := seq(k - h + 1, (i: nat) => Page(0, k + i));
  }

  /**
   * On these traces FIFO and LRU miss k times in each round, in which the other schedule faults
   * k - h + 1 times; before the first round both fill their memory.
   */
  lemma BoundIsReached(policy: Policy, k: nat, h: nat, rounds: nat) returns (t: seq<Page>, c: seq<set<Page>>)
    requires 1 <= h <= k && IsQueue(policy)
    ensures Valid(policy, k, EMPTY) && Schedule(h, t, c)
    ensures Misses(policy, k, EMPTY, t) == k * (rounds + 1)
    ensures Faults(t, c) == k + rounds * (k - h + 1)
  {
    EmptyIsEmptyQueue(policy, k);
    var d, out := Play(policy.Lru?, k, h, rounds);
    RunIsQueueRun(policy, k, EMPTY, d.t);
    t, c := d.t, d.c;
  }

  /** So in the bound for k against h frames k cannot be lowered, whatever constant is added. */
  lemma NoSmallerFactor(policy: Policy, k: nat, h: nat, a: nat, b: nat) returns (t: seq<Page>, c: seq<set<Page>>)
    requires a < k && 1 <= h <= k && IsQueue(policy)
    ensures Valid(policy, k, EMPTY) && Schedule(h, t, c)
    ensures (k - h + 1) * Misses(policy, k, EMPTY, t) > a * Faults(t, c) + b
  {
    hide *;
    var rounds := a * k + b;
    t, c := BoundIsReached(policy, k, h, rounds);
    Exceeds(k, k - h + 1, a, b, rounds);
  }

  lemma Exceeds(k: nat, d: nat, a: nat, b: nat, rounds: nat)
    requires a < k && 1 <= d && rounds == a * k + b
    ensures d * (k * (rounds + 1)) > a * (k + rounds * d) + b
  {
    Rearrange(d, rounds + 1, k);
    Distribute(d, rounds, 1);
    MulMonotone(1, d, rounds);
    ExceedsInAll(k, d, a, b, rounds, rounds * d, d * (rounds + 1));
  }

  /** r is what the other schedule faults in all rounds, x that and one round more. */
  lemma ExceedsInAll(k: nat, d: nat, a: nat, b: nat, rounds: nat, r: nat, x: nat)
    requires a < k && 1 <= d && rounds == a * k + b && r >= rounds && x == r + d
    ensures k * x > a * (k + r) + b
  {
    MulMonotone(a + 1, k, x);
    Distribute(a, r, d);
    Distribute(a, k, r);
    assert (a + 1) * x == a * x + x;
    assert a * d >= 0;
  }

  lemma Distribute(x: int, y: int, z: int)
    ensures x * (y + z) == x * y + x * z
  {
  }
}
