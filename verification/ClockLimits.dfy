/**
 * The bounds for CLOCK are exact: 2k - 1 misses in a window of k distinct pages do occur, and again
 * and again, while a schedule with as many frames faults only once each time.
 */
module ClockLimits {
  import opened Sequences
  import opened Replacement
  import opened Competitiveness
  import opened PagingTheorems
  import opened ClockTheorems
  import TightBound
  import PolicyLimits

  /** A trace, its CLOCK queue and misses, and how another schedule with k frames serves it. */
  datatype Game = Game(t: seq<Page>, c: seq<set<Page>>, q: seq<Entry<Page>>, misses: nat, faults: nat, held: set<Page>)

  ghost predicate Stands(k: nat, g: Game)
    requires 1 <= k
  {
    && Rival(k, g.t, g.c, g.faults, g.held)
    && At(k, g.t, g.q, g.misses)
  }

  /** The game after one more access, after which the other schedule holds `next`. */
  function Played(k: nat, g: Game, p: Page, next: set<Page>): Game
    requires 1 <= k
  {
    Game(g.t + [p], g.c + [next], ClockStep(k, g.q, p),
         g.misses + (if p in Datas(g.q) then 0 else 1), g.faults + (if p in g.held then 0 else 1), next)
  }

  lemma Play(k: nat, g: Game, p: Page, next: set<Page>)
    requires 1 <= k && Stands(k, g) && p in next && next <= g.held + {p} && |next| <= k
    ensures Stands(k, Played(k, g, p, next))
  {
    hide Rival, At, ClockStep;
    RivalMore(k, g.t, g.c, g.faults, g.held, p, next);
    AtNext(k, g.t, g.q, g.misses, p);
  }

  // ----- entries

  /** All bits clear but the last one. */
  function Armed(ps: seq<Page>): (q: seq<Entry<Page>>)
    requires ps != []
    ensures |q| == |ps| && Datas(q) == ps
  {
    Clears(ps[..|ps| - 1]) + [Entry(ps[|ps| - 1], true)]
  }

  /** Pages that are missing when their turn comes, m of them, on a queue whose first m bits are clear. */
  ghost predicate Fresh(k: nat, q: seq<Entry<Page>>, v: seq<Page>) {
    && |q| == k >= |v|
    && (forall i :: 0 <= i < |v| ==> !q[i].ref)
    && forall i :: 0 <= i < |v| ==> v[i] !in Datas(q)[i..] + v[..i]
  }

  /** The other schedule can hold all of `next` from the first of these accesses on. */
  ghost predicate Affords(k: nat, held: set<Page>, v: seq<Page>, next: set<Page>) {
    |next| <= k && Elements(v) <= next && (v != [] ==> next <= held + {v[0]})
  }

  lemma FreshNext(k: nat, q: seq<Entry<Page>>, v: seq<Page>, n: nat)
    requires 1 <= k && Fresh(k, q, v) && n < |v|
    ensures v[n] !in Datas(q[n..] + Clears(v[..n]))
    ensures ClockStep(k, q[n..] + Clears(v[..n]), v[n]) == q[n + 1..] + Clears(v[..n + 1])
  {
    hide ClockStep;
    var r := q[n..] + Clears(v[..n]);
    assert Datas(r) == Datas(q)[n..] + v[..n];
    HeadIsVictim(k, r, v[n]);
    assert Clears(v[..n + 1]) == Clears(v[..n]) + [Entry(v[n], false)];
  }

  /** They all miss, and replace the first entries. */
  lemma {:induction false} Replace(k: nat, g: Game, v: seq<Page>, next: set<Page>, n: nat) returns (g': Game)
    requires 1 <= k && Stands(k, g) && Fresh(k, g.q, v) && Affords(k, g.held, v, next) && n <= |v|
    ensures Stands(k, g') && g'.q == g.q[n..] + Clears(v[..n]) && g'.misses == g.misses + n
    ensures g'.held == if n == 0 then g.held else next
    ensures g'.faults == g.faults + if n == 0 || v[0] in g.held then 0 else 1
    ensures g'.t == g.t + v[..n]
  {
    hide Stands, ClockStep, Datas, Fresh;
    if n == 0 {
      g' := g;
      assert g.q[0..] + Clears(v[..0]) == g.q;
    } else {
      var g0 := Replace(k, g, v, next, n - 1);
      assert v[n - 1] in Elements(v);
      FreshNext(k, g.q, v, n - 1);
      Play(k, g0, v[n - 1], next);
      g' := Played(k, g0, v[n - 1], next);
      assert g.t + v[..n] == g.t + v[..n - 1] + [v[n - 1]];
    }
  }

  // ----- one round

  /** The page x that is out, then all but the last of the queue. */
  function Window(ps: seq<Page>, x: Page): (w: seq<Page>)
    requires ps != []
    ensures |w| == |ps|
  {
    [x] + ps[..|ps| - 1]
  }

  /** The queue of a full memory with a page outside. */
  ghost predicate Poised(k: nat, g: Game, ps: seq<Page>, x: Page)
    requires 1 <= k
  {
    && Stands(k, g)
    && |ps| == k && Distinct(ps + [x])
    && g.q == Armed(ps) && g.held == Elements(ps)
  }

  /** The last of the queue, whose bit is set, is passed, and the page behind it replaced. */
  function Passed(w: seq<Page>, last: Page): (z: seq<Page>)
    requires w != []
    ensures |z| == |w|
  {
    if |w| == 1 then w else w[1..|w| - 1] + [last, w[|w| - 1]]
  }

  lemma PassLast(k: nat, w: seq<Page>, last: Page)
    requires |w| == k >= 1 && Distinct(w + [last])
    ensures var q := [Entry(last, true)] + Clears(w[..k - 1]);
      w[k - 1] !in Datas(q) && ClockStep(k, q, w[k - 1]) == Clears(Passed(w, last))
  {
    var a, p := [Entry(last, true)], w[k - 1];
    var q := a + Clears(w[..k - 1]);
    assert Datas(q) == [last] + w[..k - 1];
    assert (w + [last])[k] == last && forall i :: 0 <= i < k ==> (w + [last])[i] == w[i];
    if k == 1 {
      SweepAllSet(q);
      assert Clears(Passed(w, last)) == [Entry(p, false)];
    } else {
      var b := Clears(w[1..k - 1]);
      SweepStopsAtFirstClear(a, Entry(w[0], false), b);
      assert q == a + [Entry(w[0], false)] + b;
      assert Cleared(a) == [Entry(last, false)];
      assert Clears(Passed(w, last)) == b + [Entry(last, false)] + [Entry(p, false)];
    }
  }

  lemma WindowParts(k: nat, ps: seq<Page>, x: Page)
    requires |ps| == k >= 1 && Distinct(ps + [x])
    ensures var w, last := Window(ps, x), ps[k - 1];
      && Distinct(w + [last])
      && Elements(w) <= Elements(ps) + {x} && |Elements(w)| == k && x !in ps
  {
    var w, last := Window(ps, x), ps[k - 1];
    var s := w + [last];
    assert forall i :: 0 <= i <= k ==> s[i] == (ps + [x])[if i == 0 then k else i - 1];
    DistinctParts(w, [last]);
    DistinctParts(ps, [x]);
    DistinctCount(w);
  }

  /** First the pages of the window come in, one for another. */
  lemma FirstPartFresh(k: nat, ps: seq<Page>, x: Page)
    requires |ps| == k >= 1 && Distinct(ps + [x])
    ensures Fresh(k, Armed(ps), Window(ps, x)[..k - 1])
    ensures Affords(k, Elements(ps), Window(ps, x)[..k - 1], Elements(Window(ps, x)))
  {
    hide Distinct;
    var w := Window(ps, x);
    var v := w[..k - 1];
    WindowParts(k, ps, x);
    forall i | 0 <= i < k - 1 ensures v[i] !in ps[i..] + v[..i] {
      assert w == TightBound.Round(ps, [x], k) && v[..i] == w[..i];
      TightBound.RoundMisses(k, k, ps, [x], i);
    }
  }

  lemma PassedAt(w: seq<Page>, last: Page, j: nat)
    requires j < |w|
    ensures Passed(w, last)[j] == (w + [last])[if j == |w| - 1 then j else if j == |w| - 2 then |w| else j + 1]
  {
  }

  lemma ReplacedBefore(k: nat, w: seq<Page>, last: Page, i: nat)
    requires |w| == k && Distinct(w + [last]) && i < k - 1
    ensures w[i] !in Passed(w, last)[i..] + w[..i]
  {
    hide Passed;
    var z, s := Passed(w, last), w + [last];
    assert s[i] == w[i];
    forall j | 0 <= j < k - i ensures z[i..][j] != w[i] {
      PassedAt(w, last, i + j);
      assert z[i..][j] == z[i + j];
    }
    forall j | 0 <= j < i ensures w[..i][j] != w[i] {
      assert w[..i][j] == s[j];
    }
  }

  /** And then again, because each was replaced before its turn. */
  lemma SecondPartFresh(k: nat, w: seq<Page>, last: Page)
    requires |w| == k >= 1 && Distinct(w + [last])
    ensures Fresh(k, Clears(Passed(w, last)), w[..k - 1])
    ensures |Elements(w)| <= k && Affords(k, Elements(w), w[..k - 1], Elements(w))
    ensures Clears(Passed(w, last))[k - 1..] + Clears(w[..k - 1]) == Clears([w[k - 1]] + w[..k - 1])
  {
    hide Distinct, Passed;
    var z, v := Passed(w, last), w[..k - 1];
    FewElements(w);
    forall i | 0 <= i < k - 1 ensures v[i] !in z[i..] + v[..i] {
      assert v[..i] == w[..i];
      ReplacedBefore(k, w, last, i);
    }
    PassedLast(w, last);
  }

  lemma PassedLast(w: seq<Page>, last: Page)
    requires w != []
    ensures Passed(w, last)[|w| - 1] == w[|w| - 1]
  {
  }

  /** At last a hit sets the bit of the page loaded last. */
  lemma Arm(k: nat, ps: seq<Page>)
    requires |ps| == k >= 1 && Distinct(ps)
    ensures ps[k - 1] in Datas(Clears(ps)) && ClockStep(k, Clears(ps), ps[k - 1]) == Armed(ps)
  {
    WithRefAt(Clears(ps), ps[k - 1], k - 1);
  }

  /** The window once: k misses, and one fault of the other schedule. */
  lemma PlayOnce(k: nat, g: Game, ps: seq<Page>, x: Page) returns (g': Game)
    requires 1 <= k && Poised(k, g, ps, x)
    ensures var w := Window(ps, x);
      && Stands(k, g') && g'.q == Clears(Passed(w, ps[k - 1])) && g'.held == Elements(w)
      && g'.misses == g.misses + k && g'.faults == g.faults + 1 && g'.t == g.t + w
  {
    hide Stands, Fresh, Affords, Distinct, Datas, ClockStep, Elements, Passed;
    var w, last := Window(ps, x), ps[k - 1];
    WindowParts(k, ps, x);
    FirstPartFresh(k, ps, x);
    var g1 := Replace(k, g, w[..k - 1], Elements(w), k - 1);
    assert w[..k - 1][..k - 1] == w[..k - 1] && w[..k - 1] + [w[k - 1]] == w;
    assert g1.q == [Entry(last, true)] + Clears(w[..k - 1]);
    PassLast(k, w, last);
    LastAffords(k, ps, x);
    Play(k, g1, w[k - 1], Elements(w));
    g' := Played(k, g1, w[k - 1], Elements(w));
  }

  /** A window of k distinct pages that costs 2k - 1 misses, for one fault of the other schedule. */
  lemma PlayWindow(k: nat, g: Game, ps: seq<Page>, x: Page) returns (g': Game)
    requires 1 <= k && Poised(k, g, ps, x)
    ensures var w := Window(ps, x);
      && Stands(k, g') && g'.q == Clears([w[k - 1]] + w[..k - 1])
      && g'.held == Elements(w) && g'.misses == g.misses + 2 * k - 1 && g'.faults == g.faults + 1
      && g'.t == g.t + (w + w[..k - 1])
  {
    hide Stands, Fresh, Affords, Distinct, Datas, Elements, Passed, Armed, Clears, Window;
    var w := Window(ps, x);
    WindowParts(k, ps, x);
    var g1 := PlayOnce(k, g, ps, x);
    SecondPartFresh(k, w, ps[k - 1]);
    g' := Replace(k, g1, w[..k - 1], Elements(w), k - 1);
    FirstIsHeld(w);
    assert w[..k - 1][..k - 1] == w[..k - 1];
    assert g'.t == g.t + w + w[..k - 1];
  }

  lemma LastAffords(k: nat, ps: seq<Page>, x: Page)
    requires |ps| == k >= 1 && Distinct(ps + [x])
    ensures var w := Window(ps, x);
      && w[k - 1] in Elements(w) && x !in Elements(ps)
      && (k == 1 ==> Elements(w) <= Elements(ps) + {w[k - 1]})
  {
    WindowParts(k, ps, x);
  }

  lemma FirstIsHeld(w: seq<Page>)
    requires w != []
    ensures w[0] in Elements(w)
  {
  }

  lemma PlayRound(k: nat, g: Game, ps: seq<Page>, x: Page) returns (g': Game, ps': seq<Page>, x': Page)
    requires 1 <= k && Poised(k, g, ps, x)
    ensures Poised(k, g', ps', x') && g'.misses == g.misses + 2 * k - 1 && g'.faults == g.faults + 1
  {
    hide Stands, Distinct, Datas, ClockStep, Elements;
    var w := Window(ps, x);
    var g1 := PlayWindow(k, g, ps, x);
    ps', x' := [w[k - 1]] + w[..k - 1], ps[k - 1];
    NextQueue(k, ps, x);
    Arm(k, ps');
    Play(k, g1, ps'[k - 1], Elements(w));
    g' := Played(k, g1, ps'[k - 1], Elements(w));
  }

  lemma NextQueue(k: nat, ps: seq<Page>, x: Page)
    requires |ps| == k >= 1 && Distinct(ps + [x])
    ensures var w := Window(ps, x); var ps' := [w[k - 1]] + w[..k - 1];
      && Distinct(ps' + [ps[k - 1]]) && Distinct(ps') && Elements(ps') == Elements(w)
      && ps'[k - 1] in Elements(w) && |Elements(w)| <= k
  {
    WindowParts(k, ps, x);
    var w := Window(ps, x);
    var ps' := [w[k - 1]] + w[..k - 1];
    var s, s' := w + [ps[k - 1]], ps' + [ps[k - 1]];
    assert forall i :: 0 <= i <= k ==> s'[i] == s[if i == k then k else if i == 0 then k - 1 else i - 1];
    DistinctParts(ps', [ps[k - 1]]);
    assert w == w[..k - 1] + [w[k - 1]];
  }

  // ----- whole traces

  /** The first n pages fill the frames. */
  lemma {:induction false} Filled(k: nat, n: nat) returns (g: Game)
    requires 1 <= k && n <= k
    ensures Stands(k, g) && g.q == Clears(PolicyLimits.Numbered(n)) && g.held == Elements(PolicyLimits.Numbered(n))
    ensures g.misses == g.faults == n
  {
    hide Stands;
    if n == 0 {
      g := NothingPlayed(k);
    } else {
      var g0 := Filled(k, n - 1);
      var p, ps := Page(0, n - 1), PolicyLimits.Numbered(n);
      assert ps == PolicyLimits.Numbered(n - 1) + [p];
      FewElements(ps);
      assert Clears(ps) == Clears(PolicyLimits.Numbered(n - 1)) + [Entry(p, false)];
      Play(k, g0, p, Elements(ps));
      g := Played(k, g0, p, Elements(ps));
    }
  }

  lemma NothingPlayed(k: nat) returns (g: Game)
    requires 1 <= k
    ensures Stands(k, g) && g.q == Clears(PolicyLimits.Numbered(0)) && g.held == Elements(PolicyLimits.Numbered(0))
    ensures g.misses == g.faults == 0
  {
    NoRival(k);
    AtFirst(k);
    g := Game([], [{}], [], 0, 0, {});
  }

  lemma Begin(k: nat) returns (g: Game, ps: seq<Page>, x: Page)
    requires 1 <= k
    ensures Poised(k, g, ps, x) && g.misses == g.faults == k
  {
    hide Stands, ClockStep;
    ps, x := PolicyLimits.Numbered(k), Page(0, k);
    var g0 := Filled(k, k);
    Arm(k, ps);
    FewElements(ps);
    Play(k, g0, ps[k - 1], Elements(ps));
    g := Played(k, g0, ps[k - 1], Elements(ps));
  }

  lemma {:induction false} Rounds(k: nat, rounds: nat) returns (g: Game, ps: seq<Page>, x: Page)
    requires 1 <= k
    ensures Poised(k, g, ps, x) && g.misses == k + rounds * (2 * k - 1) && g.faults == k + rounds
  {
    hide Poised;
    if rounds == 0 {
      g, ps, x := Begin(k);
    } else {
      var g0, ps0, x0 := Rounds(k, rounds - 1);
      g, ps, x := PlayRound(k, g0, ps0, x0);
      OneMore(rounds, 2 * k - 1);
    }
  }

  /** The bound on windows is reached, from a state that CLOCK can get into. */
  lemma ClockWindowReached(k: nat) returns (t: seq<Page>, w: seq<Page>)
    requires 1 <= k
    ensures Valid(Clock, k, EMPTY) && |Elements(w)| == k
    ensures Misses(Clock, k, Run(Clock, k, EMPTY, t), w) == 2 * k - 1
  {
    hide Run, Misses, Valid, Distinct, Rival, ClockQueue;
    var g, ps, x := Begin(k);
    var g' := PlayWindow(k, g, ps, x);
    t := g.t;
    w := Window(ps, x) + Window(ps, x)[..k - 1];
    WindowParts(k, ps, x);
    assert Elements(w) == Elements(Window(ps, x));
    RunConcat(Clock, k, EMPTY, t, w);
  }

  /** On these traces CLOCK misses 2k - 1 times for each fault of the other schedule. */
  lemma ClockBoundIsReached(k: nat, rounds: nat) returns (t: seq<Page>, c: seq<set<Page>>)
    requires 1 <= k
    ensures Valid(Clock, k, EMPTY) && Schedule(k, t, c)
    ensures Misses(Clock, k, EMPTY, t) == k + rounds * (2 * k - 1) && Faults(t, c) == k + rounds
  {
    hide Misses, Valid, Run, ClockQueue;
    var g, ps, x := Rounds(k, rounds);
    t, c := g.t, g.c;
  }

  /** So against as many frames the factor 2k - 1 cannot be lowered, whatever constant is added. */
  lemma ClockNoSmallerFactor(k: nat, a: nat, b: nat) returns (t: seq<Page>, c: seq<set<Page>>)
    requires 1 <= k && a < 2 * k - 1
    ensures Valid(Clock, k, EMPTY) && Schedule(k, t, c)
    ensures Misses(Clock, k, EMPTY, t) > a * Faults(t, c) + b
  {
    hide *;
    var rounds := a * k + b;
    t, c := ClockBoundIsReached(k, rounds);
    ClockExceeds(k, 2 * k - 1, a, b, rounds);
  }

  lemma ClockExceeds(k: nat, m: nat, a: nat, b: nat, rounds: nat)
    requires 1 <= k && a < m && rounds == a * k + b
    ensures k + rounds * m > a * (k + rounds) + b
  {
    MulMonotone(a + 1, m, rounds);
    TightBound.Distribute(rounds, a, 1);
    TightBound.Distribute(a, k, rounds);
  }
}
