/**
 * Which connections the request buffer delivers. As long as no two threads are between their wait
 * and their post at the same time it is a stack; in general a connection may be lost, served twice,
 * or made up, and two connections are enough for that.
 */
module RequestDelivery {
  import opened RequestBuffer

  // ----- the history of a run

  function AcceptedBy(e: Event): seq<int> {
    if e.Accept? then [e.s] else []
  }

  /** The connections accepted, in order. */
  function Accepted(es: seq<Event>): seq<int> {
    if es == [] then [] else AcceptedBy(es[0]) + Accepted(es[1..])
  }

  predicate Fetches(s: State, e: Event) {
    e.ConsumerStep? && e.n < |s.consumers| && s.consumers[e.n].Fetch?
  }

  /** What the step takes out of the array, if it does. */
  function FetchedBy(s: State, e: Event): seq<int>
    requires Enabled(s, e)
  {
    if Fetches(s, e) then [Next(s, e).consumers[e.n].req] else []
  }

  /** What the consumers took out of the array, in order. */
  function Fetched(s: State, es: seq<Event>): seq<int>
    requires Possible(s, es)
    decreases |es|
  {
    if es == [] then [] else FetchedBy(s, es[0]) + Fetched(Next(s, es[0]), es[1..])
  }

  lemma {:induction false} AcceptedConcat(a: seq<Event>, b: seq<Event>)
    ensures Accepted(a + b) == Accepted(a) + Accepted(b)
  {
    if a == [] {
      assert a + b == b;
    } else {
      assert (a + b)[1..] == a[1..] + b;
      AcceptedConcat(a[1..], b);
    }
  }

  predicate Serves(c: Consumer, req: int) {
    (c.Release? || c.PostEmpty? || c.Processing?) && c.req == req
  }

  /** What a consumer serves it has fetched. */
  lemma {:induction false} ServedWasFetched(s: State, es: seq<Event>, n: nat, req: int)
    requires Possible(s, es) && n < |s.consumers| && !Serves(s.consumers[n], req)
    requires n < |After(s, es).consumers| && Serves(After(s, es).consumers[n], req)
    ensures req in Fetched(s, es)
    decreases |es|
  {
    if es == [] {
      assert false;
    } else {
      var t := Next(s, es[0]);
      if Serves(t.consumers[n], req) {
        assert Fetches(s, es[0]) && FetchedBy(s, es[0]) == [req];
      } else {
        ServedWasFetched(t, es[1..], n, req);
      }
    }
  }

  // ----- the stack

  datatype Op = Push(c: int) | Pop

  /** A step of the listener that writes to the array pushes, a step of a consumer that reads pops. */
  function OpOf(s: State, e: Event): seq<Op>
    requires Enabled(s, e)
  {
    if e.ListenerStep? && s.listener.Store? then [Push(s.listener.s)]
    else if Fetches(s, e) then [Pop]
    else []
  }

  function Ops(s: State, es: seq<Event>): seq<Op>
    requires Possible(s, es)
    decreases |es|
  {
    if es == [] then [] else OpOf(s, es[0]) + Ops(Next(s, es[0]), es[1..])
  }

  function Apply(st: seq<int>, op: Op): seq<int> {
    match op
    case Push(c) => st + [c]
    case Pop => if st == [] then [] else st[..|st| - 1]
  }

  /** A stack after some operations. */
  function Stack(st: seq<int>, ops: seq<Op>): seq<int>
    decreases |ops|
  {
    if ops == [] then st else Stack(Apply(st, ops[0]), ops[1..])
  }

  /** What the operations pop; nothing comes off an empty stack. */
  function Popped(st: seq<int>, ops: seq<Op>): seq<int>
    decreases |ops|
  {
    if ops == [] then []
    else (if ops[0].Pop? && st != [] then [st[|st| - 1]] else []) + Popped(Apply(st, ops[0]), ops[1..])
  }

  /** One event is one operation at most. */
  lemma StackStep(st: seq<int>, s: State, es: seq<Event>)
    requires Possible(s, es) && es != []
    ensures var op, rest := OpOf(s, es[0]), Ops(Next(s, es[0]), es[1..]);
      && Stack(st, Ops(s, es)) == Stack(Stack(st, op), rest)
      && Popped(st, Ops(s, es)) == Popped(st, op) + Popped(Stack(st, op), rest)
  {
    var op, rest := OpOf(s, es[0]), Ops(Next(s, es[0]), es[1..]);
    assert Ops(s, es) == op + rest;
    if op == [] {
      assert op + rest == rest;
    } else {
      assert (op + rest)[0] == op[0] && (op + rest)[1..] == rest && op[1..] == [];
    }
  }

  // ----- runs in which one thread at a time is at work on the buffer

  /** Throughout the run at most one thread is between its wait and its post. */
  predicate Calm(s: State, es: seq<Event>)
    requires Possible(s, es)
    decreases |es|
  {
    InFlight(s) <= 1 && (es == [] || Calm(Next(s, es[0]), es[1..]))
  }

  /** A consumer that has waited and not yet fetched. */
  predicate Owed(c: Consumer) {
    c.WantMutex? || c.ReadValue? || c.Fetch?
  }

  /** Some thread has changed the array but not yet the semaphore, or the other way round. */
  ghost predicate OneMore(s: State) {
    s.listener.Unlock? || s.listener.PostFull? || exists n :: 0 <= n < |s.consumers| && Owed(s.consumers[n])
  }

  /** The array holds the stack, up to the semaphore value or one place beyond. */
  ghost predicate Holds(s: State, st: seq<int>) {
    && Inv(s)
    && |st| == s.full + (if OneMore(s) then 1 else 0) <= MAX_REQUEST
    && st == s.request[..|st|]
    && (s.listener.Store? ==> s.listener.i == s.full)
    && forall n :: 0 <= n < |s.consumers| && s.consumers[n].Fetch? ==> s.consumers[n].i == s.full
  }

  lemma {:induction false} HoldingTwo(cs: seq<Consumer>, n: nat, m: nat)
    requires n < m < |cs| && ConsumerHolds(cs[n]) && ConsumerHolds(cs[m])
    ensures Holding(cs) >= 2
  {
    if m == |cs| - 1 {
      HoldingOne(cs[..m], n);
    } else {
      HoldingTwo(cs[..|cs| - 1], n, m);
    }
  }

  /** In a calm state whoever holds a token is alone. */
  lemma Alone(s: State, n: nat)
    requires InFlight(s) <= 1 && n < |s.consumers| && ConsumerHolds(s.consumers[n])
    ensures !ListenerHolds(s.listener)
    ensures forall m :: 0 <= m < |s.consumers| && m != n ==> !ConsumerHolds(s.consumers[m])
  {
    HoldingOne(s.consumers, n);
    forall m | 0 <= m < |s.consumers| && m != n ensures !ConsumerHolds(s.consumers[m]) {
      if ConsumerHolds(s.consumers[m]) {
        HoldingTwo(s.consumers, if n < m then n else m, if n < m then m else n);
      }
    }
  }

  lemma ListenerAlone(s: State)
    requires InFlight(s) <= 1 && ListenerHolds(s.listener)
    ensures forall m :: 0 <= m < |s.consumers| ==> !ConsumerHolds(s.consumers[m])
  {
    forall m | 0 <= m < |s.consumers| ensures !ConsumerHolds(s.consumers[m]) {
      if ConsumerHolds(s.consumers[m]) {
        HoldingOne(s.consumers, m);
      }
    }
  }

  lemma ListenerOnStack(s: State, st: seq<int>)
    requires Holds(s, st) && Enabled(s, ListenerStep) && InFlight(s) <= 1 && InFlight(StepListener(s)) <= 1
    ensures Holds(StepListener(s), Stack(st, OpOf(s, ListenerStep)))
    ensures Popped(st, OpOf(s, ListenerStep)) == []
  {
    hide Holding;
    NextInv(s, ListenerStep);
    if ListenerHolds(s.listener) {
      ListenerAlone(s);
    } else {
      ListenerAlone(StepListener(s));
    }
  }

  lemma ConsumerOnStack(s: State, st: seq<int>, n: nat)
    requires Holds(s, st) && Enabled(s, ConsumerStep(n)) && InFlight(s) <= 1 && InFlight(StepConsumer(s, n)) <= 1
    ensures Holds(StepConsumer(s, n), Stack(st, OpOf(s, ConsumerStep(n))))
    ensures Popped(st, OpOf(s, ConsumerStep(n))) == FetchedBy(s, ConsumerStep(n))
  {
    hide Holding;
    var t := StepConsumer(s, n);
    NextInv(s, ConsumerStep(n));
    if ConsumerHolds(s.consumers[n]) {
      Alone(s, n);
    } else if ConsumerHolds(t.consumers[n]) {
      Alone(t, n);
      assert Owed(t.consumers[n]);
    }
  }

  lemma EventOnStack(s: State, st: seq<int>, e: Event)
    requires Holds(s, st) && Enabled(s, e) && InFlight(s) <= 1 && InFlight(Next(s, e)) <= 1
    ensures Holds(Next(s, e), Stack(st, OpOf(s, e))) && Popped(st, OpOf(s, e)) == FetchedBy(s, e)
  {
    match e
    case ListenerStep =>
      ListenerOnStack(s, st);
    case ConsumerStep(n) =>
      ConsumerOnStack(s, st, n);
    case _ =>
      NextInv(s, e);
      assert forall n :: 0 <= n < |s.consumers| ==> (Owed(s.consumers[n]) <==> Owed(Next(s, e).consumers[n]));
  }

  /** In a calm run the array is a stack: every write pushes, and every read pops what came last. */
  lemma {:induction false} CalmIsStack(s: State, st: seq<int>, es: seq<Event>)
    requires Holds(s, st) && Possible(s, es) && Calm(s, es)
    ensures Holds(After(s, es), Stack(st, Ops(s, es)))
    ensures Fetched(s, es) == Popped(st, Ops(s, es))
    decreases |es|
  {
    hide Holds, InFlight;
    if es == [] {
    } else {
      var t := Next(s, es[0]);
      assert InFlight(t) <= 1;
      EventOnStack(s, st, es[0]);
      CalmIsStack(t, Stack(st, OpOf(s, es[0])), es[1..]);
      StackStep(st, s, es);
    }
  }

  /** The connection that the listener has accepted and not yet written. */
  function InHand(l: Listener): seq<int> {
    if l.WantEmpty? || l.WantLock? || l.GetValue? || l.Store? then [l.s] else []
  }

  /** How often x occurs. */
  function Count(a: seq<int>, x: int): nat {
    multiset(a)[x]
  }

  lemma CountConcat(a: seq<int>, b: seq<int>, x: int)
    ensures Count(a + b, x) == Count(a, x) + Count(b, x)
  {
  }

  lemma CountNothing(x: int)
    ensures Count([], x) == 0
  {
  }

  function Pushed(op: seq<Op>): seq<int> {
    if op != [] && op[0].Push? then [op[0].c] else []
  }

  lemma OperationConserves(st: seq<int>, op: seq<Op>, x: int)
    requires |op| <= 1
    ensures Count(st, x) + Count(Pushed(op), x) == Count(Popped(st, op), x) + Count(Stack(st, op), x)
  {
    hide Count;
    CountNothing(x);
    if op == [] {
    } else {
      assert op[1..] == [] && Stack(st, op) == Apply(st, op[0]);
      if op[0].Push? {
        assert Popped(st, op) == [] && Pushed(op) == [op[0].c];
        CountConcat(st, [op[0].c], x);
      } else if st == [] {
        assert Popped(st, op) == [];
      } else {
        var n := |st| - 1;
        assert Popped(st, op) == [st[n]] + [] == [st[n]];
        CountConcat(st[..n], [st[n]], x);
        assert st == st[..n] + [st[n]];
      }
    }
  }

  /** What is accepted is in the listener's hand until it is pushed. */
  lemma HandConserves(s: State, e: Event)
    requires Enabled(s, e)
    ensures AcceptedBy(e) + InHand(s.listener) == Pushed(OpOf(s, e)) + InHand(Next(s, e).listener)
    ensures |OpOf(s, e)| <= 1
  {
  }

  lemma StackStepConserves(s: State, st: seq<int>, e: Event, x: int)
    requires Enabled(s, e)
    ensures Count(AcceptedBy(e), x) + Count(st, x) + Count(InHand(s.listener), x)
         == Count(Popped(st, OpOf(s, e)), x) + Count(Stack(st, OpOf(s, e)), x) + Count(InHand(Next(s, e).listener), x)
  {
    hide *;
    HandConserves(s, e);
    OperationConserves(st, OpOf(s, e), x);
    CountConcat(AcceptedBy(e), InHand(s.listener), x);
    CountConcat(Pushed(OpOf(s, e)), InHand(Next(s, e).listener), x);
  }

  /** A stack that the run pushes to and pops from neither loses nor repeats a connection. */
  lemma {:induction false} StackConserves(s: State, st: seq<int>, es: seq<Event>, x: int)
    requires Possible(s, es)
    ensures Count(Accepted(es), x) + Count(st, x) + Count(InHand(s.listener), x)
         == Count(Popped(st, Ops(s, es)), x) + Count(Stack(st, Ops(s, es)), x) + Count(InHand(After(s, es).listener), x)
    decreases |es|
  {
    hide Count, OpOf, InHand, Next;
    if es == [] {
      NothingHappens(s, st, x);
    } else {
      var e, t := es[0], Next(s, es[0]);
      var st' := Stack(st, OpOf(s, e));
      StackStepConserves(s, st, e, x);
      StackConserves(t, st', es[1..], x);
      StackStep(st, s, es);
      CountConcat(AcceptedBy(e), Accepted(es[1..]), x);
      CountConcat(Popped(st, OpOf(s, e)), Popped(st', Ops(t, es[1..])), x);
    }
  }

  lemma NothingHappens(s: State, st: seq<int>, x: int)
    ensures Count(Accepted([]), x) == Count(Popped(st, Ops(s, [])), x) == 0 && Stack(st, Ops(s, [])) == st
  {
  }

  lemma StartHolds(n: nat, garbage: seq<int>)
    requires |garbage| == MAX_REQUEST
    ensures Holds(Start(n, garbage), []) && InFlight(Start(n, garbage)) == 0
  {
    StartInv(n, garbage);
    HoldingZero(Start(n, garbage).consumers);
  }

  lemma StartConserves(n: nat, garbage: seq<int>, es: seq<Event>)
    requires Possible(Start(n, garbage), es)
    ensures var s := Start(n, garbage);
      multiset(Accepted(es))
        == multiset(Popped([], Ops(s, es))) + multiset(Stack([], Ops(s, es))) + multiset(InHand(After(s, es).listener))
  {
    hide Popped, Stack, Ops, Accepted, After, Possible;
    var s := Start(n, garbage);
    var a, b := multiset(Accepted(es)), multiset(Popped([], Ops(s, es)));
    var c, d := multiset(Stack([], Ops(s, es))), multiset(InHand(After(s, es).listener));
    forall x ensures a[x] == (b + c + d)[x] {
      StackConserves(s, [], es, x);
    }
    assert a == b + c + d;
  }

  /**
   * Every calm run from the start: the connections are fetched in the order of a stack, and each
   * accepted one was fetched once, or still is in the array or with the listener. Between two
   * operations the array holds the stack exactly.
   */
  lemma CalmRunDelivers(n: nat, garbage: seq<int>, es: seq<Event>)
    requires |garbage| == MAX_REQUEST && Possible(Start(n, garbage), es) && Calm(Start(n, garbage), es)
    ensures var s, t := Start(n, garbage), After(Start(n, garbage), es);
            var st := Stack([], Ops(s, es));
      && Fetched(s, es) == Popped([], Ops(s, es))
      && multiset(Accepted(es)) == multiset(Fetched(s, es)) + multiset(st) + multiset(InHand(t.listener))
      && |st| <= |t.request| && st == t.request[..|st|]
      && (InFlight(t) == 0 ==> |st| == t.full)
  {
    hide Fetched, Popped, Stack, Ops, Accepted, After, Possible, Calm;
    var s, t := Start(n, garbage), After(Start(n, garbage), es);
    StartHolds(n, garbage);
    CalmIsStack(s, [], es);
    StartConserves(n, garbage, es);
    if InFlight(t) == 0 && OneMore(t) {
      var m :| 0 <= m < |t.consumers| && Owed(t.consumers[m]);
      HoldingOne(t.consumers, m);
    }
  }

  // ----- how many connections are safe

  /** The tokens on their way through the server, and the connection in the listener's hand. */
  function Load(s: State): nat {
    s.full + Holding(s.consumers) + if s.listener.Accepting? || s.listener.Closed? then 0 else 1
  }

  lemma LoadStep(s: State, e: Event)
    requires Enabled(s, e)
    ensures Load(Next(s, e)) <= Load(s) + |AcceptedBy(e)|
  {
    hide Holding;
    if e.ConsumerStep? || e.Exit? {
      HoldingUpdate(s.consumers, e.n, Next(s, e).consumers[e.n]);
      assert Next(s, e).consumers == s.consumers[e.n := Next(s, e).consumers[e.n]];
    }
  }

  /** At no time are more than m connections between their acceptance and their processing. */
  predicate AtATime(s: State, es: seq<Event>, m: nat)
    requires Possible(s, es)
    decreases |es|
  {
    Load(s) <= m && (es == [] || AtATime(Next(s, es[0]), es[1..], m))
  }

  lemma {:induction false} AcceptedAtATime(s: State, es: seq<Event>, m: nat)
    requires Possible(s, es) && Load(s) + |Accepted(es)| <= m
    ensures AtATime(s, es, m)
    decreases |es|
  {
    hide Holding;
    if es == [] {
    } else {
      LoadStep(s, es[0]);
      AcceptedAtATime(Next(s, es[0]), es[1..], m);
    }
  }

  /** With one connection at a time no two threads ever meet. */
  lemma {:induction false} OneAtATimeIsCalm(s: State, es: seq<Event>)
    requires Possible(s, es) && AtATime(s, es, 1)
    ensures Calm(s, es)
    decreases |es|
  {
    hide Holding;
    if es == [] {
    } else {
      OneAtATimeIsCalm(Next(s, es[0]), es[1..]);
    }
  }

  /** Only accepted connections were fetched, each at most once. */
  ghost predicate Right(s: State, es: seq<Event>)
    requires Possible(s, es)
  {
    multiset(Fetched(s, es)) <= multiset(Accepted(es))
  }

  /** What accept can return while no connection has been closed: descriptors, all different. */
  ghost predicate Descriptors(cs: seq<int>) {
    (forall i :: 0 <= i < |cs| ==> cs[i] >= 0) && forall i, j :: 0 <= i < j < |cs| ==> cs[i] != cs[j]
  }

  /** Every run is right in which at most m connections are under way at a time. */
  ghost predicate DeliversAtATime(n: nat, garbage: seq<int>, m: nat) {
    forall es | Possible(Start(n, garbage), es) && Descriptors(Accepted(es)) && AtATime(Start(n, garbage), es, m) ::
      Right(Start(n, garbage), es)
  }

  /** Every run is right in which at most m connections are accepted at all. */
  ghost predicate Delivers(n: nat, garbage: seq<int>, m: nat) {
    forall es | Possible(Start(n, garbage), es) && Descriptors(Accepted(es)) && |Accepted(es)| <= m ::
      Right(Start(n, garbage), es)
  }

  lemma {:induction false} NoConsumers(s: State, es: seq<Event>)
    requires s.consumers == [] && Possible(s, es)
    ensures Fetched(s, es) == []
    decreases |es|
  {
    if es == [] {
    } else {
      NoConsumers(Next(s, es[0]), es[1..]);
    }
  }

  lemma {:induction false} ListeningAccepts(k: nat)
    ensures Accepted(Listening(k)) == []
  {
    if k == 0 {
    } else {
      ListeningAccepts(k - 1);
    }
  }

  lemma {:induction false} ConsumingAccepts(n: nat, k: nat)
    ensures Accepted(Consuming(n, k)) == []
  {
    if k == 0 {
    } else {
      ConsumingAccepts(n, k - 1);
    }
  }

  /** One connection in an undisturbed operation. */
  lemma Produced(s: State, c: int) returns (es: seq<Event>)
    requires Inv(s) && s.listener.Accepting? && s.mutex.Nobody? && s.empty > 0
    ensures Possible(s, es) && Accepted(es) == [c] && s.full < MAX_REQUEST
    ensures After(s, es) == s.(empty := s.empty - 1, full := s.full + 1, request := s.request[s.full := c])
    ensures Inv(After(s, es))
  {
    hide Inv, InFlight;
    es := [Accept(c)] + Listening(6);
    ProducePushes(s, c);
    RunInv(s, es);
    ListeningAccepts(6);
    AcceptedConcat([Accept(c)], Listening(6));
    assert Accepted([Accept(c)]) == [c];
  }

  /**
   * Even a single consumer goes wrong with two connections: it passes the semaphore for the first,
   * then the second overwrites the first, and the consumer reads the place above, never written.
   */
  lemma MadeUp(n: nat, garbage: seq<int>, a: int, b: int) returns (es: seq<Event>)
    requires 1 <= n && |garbage| == MAX_REQUEST
    ensures Possible(Start(n, garbage), es) && Accepted(es) == [a, b]
    ensures var t := After(Start(n, garbage), es);
      && t.consumers == Start(n, garbage).consumers[0 := Processing(garbage[1])]
      && t.request == garbage[0 := b] && t.full == 1 && t.mutex.Nobody? && t.listener.Accepting?
  {
    hide Possible, After, Accepted, Inv, Consuming;
    var s := Start(n, garbage);
    StartInv(n, garbage);
    var es1 := Produced(s, a);
    var s1 := After(s, es1);
    assert Enabled(s1, ConsumerStep(0));
    NextInv(s1, ConsumerStep(0));
    var s2 := Next(s1, ConsumerStep(0));
    var es2 := Produced(s2, b);
    var s3 := After(s2, es2);
    LockAndTake(s3, 0);
    var es3 := Consuming(0, 5);
    Concat(s2, es2, es3);
    Prepend(s1, ConsumerStep(0), es2 + es3);
    Concat(s, es1, [ConsumerStep(0)] + (es2 + es3));
    es := es1 + ([ConsumerStep(0)] + (es2 + es3));
    MadeUpAccepts(es1, es2, a, b);
    assert s.consumers[0 := WantMutex][0 := Processing(garbage[1])] == s.consumers[0 := Processing(garbage[1])];
    assert garbage[0 := a][0 := b] == garbage[0 := b];
  }

  lemma MadeUpAccepts(es1: seq<Event>, es2: seq<Event>, a: int, b: int)
    requires Accepted(es1) == [a] && Accepted(es2) == [b]
    ensures Accepted(es1 + ([ConsumerStep(0)] + (es2 + Consuming(0, 5)))) == [a, b]
  {
    hide Consuming;
    ConsumingAccepts(0, 5);
    AcceptedConcat(es2, Consuming(0, 5));
    AcceptedConcat([ConsumerStep(0)], es2 + Consuming(0, 5));
    AcceptedConcat(es1, [ConsumerStep(0)] + (es2 + Consuming(0, 5)));
    assert Accepted([ConsumerStep(0)]) == [];
  }

  /** Two different connections, neither of which is what the array contains in place 1. */
  lemma MadeUpIsWrong(n: nat, garbage: seq<int>) returns (es: seq<Event>)
    requires 1 <= n && |garbage| == MAX_REQUEST
    ensures Possible(Start(n, garbage), es) && Descriptors(Accepted(es)) && |Accepted(es)| == 2
    ensures !Right(Start(n, garbage), es)
  {
    hide Possible, After, Accepted, Fetched;
    var a, b := if garbage[1] == 3 then 5 else 3, if garbage[1] == 4 then 5 else 4;
    es := MadeUp(n, garbage, a, b);
    ServedWasFetched(Start(n, garbage), es, 0, garbage[1]);
    assert garbage[1] in multiset(Fetched(Start(n, garbage), es));
    assert garbage[1] !in multiset(Accepted(es));
  }

  lemma StartIsIdle(n: nat, garbage: seq<int>)
    ensures Load(Start(n, garbage)) == 0
  {
    HoldingZero(Start(n, garbage).consumers);
  }

  /** One connection at a time is right even when descriptors are used again. */
  lemma OneAtATimeIsRight(n: nat, garbage: seq<int>, es: seq<Event>)
    requires |garbage| == MAX_REQUEST && Possible(Start(n, garbage), es)
    requires n == 0 || AtATime(Start(n, garbage), es, 1)
    ensures Right(Start(n, garbage), es)
  {
    hide Possible, After, Accepted, Fetched, Calm, AtATime, InFlight, Stack, Popped;
    if n == 0 {
      NoConsumers(Start(n, garbage), es);
    } else {
      OneAtATimeIsCalm(Start(n, garbage), es);
      CalmRunDelivers(n, garbage, es);
    }
  }

  lemma {:induction false} AtATimeGrows(s: State, es: seq<Event>, m: nat, m': nat)
    requires Possible(s, es) && AtATime(s, es, m) && m <= m'
    ensures AtATime(s, es, m')
    decreases |es|
  {
    if es == [] {
    } else {
      AtATimeGrows(Next(s, es[0]), es[1..], m, m');
    }
  }

  /**
   * The server delivers right exactly when its clients come one at a time, each after the last one
   * is being processed (or when it has no consumers at all), whatever the array contains at first.
   */
  lemma DeliversAtATimeIff(n: nat, garbage: seq<int>, m: nat)
    requires |garbage| == MAX_REQUEST
    ensures DeliversAtATime(n, garbage, m) <==> n == 0 || m <= 1
  {
    hide Possible, Accepted, Right, AtATime;
    var s := Start(n, garbage);
    if n == 0 || m <= 1 {
      forall es | Possible(s, es) && Descriptors(Accepted(es)) && AtATime(s, es, m) ensures Right(s, es) {
        if m <= 1 {
          AtATimeGrows(s, es, m, 1);
        }
        OneAtATimeIsRight(n, garbage, es);
      }
    } else {
      var es := MadeUpIsWrong(n, garbage);
      StartIsIdle(n, garbage);
      AcceptedAtATime(s, es, m);
    }
  }

  /** Counted over the whole run, one connection is the most that it can be trusted with. */
  lemma DeliversIff(n: nat, garbage: seq<int>, m: nat)
    requires |garbage| == MAX_REQUEST
    ensures Delivers(n, garbage, m) <==> n == 0 || m <= 1
  {
    hide Possible, Accepted, Right, AtATime;
    var s := Start(n, garbage);
    if n == 0 || m <= 1 {
      forall es | Possible(s, es) && Descriptors(Accepted(es)) && |Accepted(es)| <= m ensures Right(s, es) {
        StartIsIdle(n, garbage);
        if m <= 1 {
          AcceptedAtATime(s, es, 1);
        }
        OneAtATimeIsRight(n, garbage, es);
      }
    } else {
      var es := MadeUpIsWrong(n, garbage);
    }
  }
}
