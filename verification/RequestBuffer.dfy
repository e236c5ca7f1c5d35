/**
 * The multi-threaded web server's request buffer as a transition system: one listener and any
 * number of consumers, each at some point of its code, over two semaphores, a mutex and the shared
 * array. Every event is one atomic step of one thread; any interleaving is a run.
 */
module RequestBuffer {

  const MAX_REQUEST := 100

  /** Where the listener is; s is the connection in hand, i the semaphore value it has read. */
  datatype Listener =
    | Accepting
    | WantEmpty(s: int)
    | WantLock(s: int)
    | GetValue(s: int)
    | Store(s: int, i: nat)
    | Unlock
    | PostFull
    | Closed

  /** Where a consumer is; a consumer may exit while it processes a request. */
  datatype Consumer =
    | WantFull
    | WantMutex
    | ReadValue
    | Fetch(i: nat)
    | Release(req: int)
    | PostEmpty(req: int)
    | Processing(req: int)
    | Dead

  datatype Holder = Nobody | TheListener | TheConsumer(n: nat)

  datatype State = State(empty: nat, full: nat, mutex: Holder, request: seq<int>, listener: Listener,
                         consumers: seq<Consumer>)

  datatype Event = Accept(s: int) | Close | ListenerStep | ConsumerStep(n: nat) | Exit(n: nat)

  function Start(n: nat, garbage: seq<int>): State {
    State(MAX_REQUEST, 0, Nobody, garbage, Accepting, seq(n, _ => WantFull))
  }

  /** Waiting for a semaphore needs a token, locking needs a free mutex; nothing else ever blocks. */
  predicate Enabled(s: State, e: Event) {
    match e
    case Accept(_) => s.listener.Accepting?
    case Close => s.listener.Accepting?
    case ListenerStep =>
      (match s.listener
       case Accepting => false
       case WantEmpty(_) => s.empty > 0
       case WantLock(_) => s.mutex.Nobody?
       case Closed => false
       case _ => true)
    case ConsumerStep(n) =>
      n < |s.consumers|
      && (match s.consumers[n]
          case WantFull => s.full > 0
          case WantMutex => s.mutex.Nobody?
          case Dead => false
          case _ => true)
    case Exit(n) => n < |s.consumers| && s.consumers[n].Processing?
  }

  function StepListener(s: State): State
    requires Enabled(s, ListenerStep)
  {
    match s.listener
    case WantEmpty(c) => s.(empty := s.empty - 1, listener := WantLock(c))
    case WantLock(c) => s.(mutex := TheListener, listener := GetValue(c))
    case GetValue(c) => s.(listener := Store(c, s.full))
    case Store(c, i) => s.(request := if i < |s.request| then s.request[i := c] else s.request, listener := Unlock)
    case Unlock => s.(mutex := Nobody, listener := PostFull)
    case PostFull => s.(full := s.full + 1, listener := Accepting)
  }

  function Move(s: State, n: nat, c: Consumer): State
    requires n < |s.consumers|
  {
    s.(consumers := s.consumers[n := c])
  }

  function StepConsumer(s: State, n: nat): State
    requires Enabled(s, ConsumerStep(n))
  {
    match s.consumers[n]
    case WantFull => Move(s.(full := s.full - 1), n, WantMutex)
    case WantMutex => Move(s.(mutex := TheConsumer(n)), n, ReadValue)
    case ReadValue => Move(s, n, Fetch(s.full))
    case Fetch(i) => Move(s, n, Release(if i < |s.request| then s.request[i] else 0))
    case Release(req) => Move(s.(mutex := Nobody), n, PostEmpty(req))
    case PostEmpty(req) => Move(s.(empty := s.empty + 1), n, Processing(req))
    case Processing(_) => Move(s, n, WantFull)
  }

  function Next(s: State, e: Event): State
    requires Enabled(s, e)
  {
    match e
    case Accept(c) => s.(listener := WantEmpty(c))
    case Close => s.(listener := Closed)
    case ListenerStep => StepListener(s)
    case ConsumerStep(n) => StepConsumer(s, n)
    case Exit(n) => Move(s, n, Dead)
  }

  /** The events can happen one after the other. */
  predicate Possible(s: State, es: seq<Event>)
    decreases |es|
  {
    es == [] || (Enabled(s, es[0]) && Possible(Next(s, es[0]), es[1..]))
  }

  function After(s: State, es: seq<Event>): State
    requires Possible(s, es)
    decreases |es|
  {
    if es == [] then s else After(Next(s, es[0]), es[1..])
  }

  // ----- the invariant

  /** Between its wait and its post a thread holds a token. */
  predicate ListenerHolds(l: Listener) {
    l.WantLock? || l.GetValue? || l.Store? || l.Unlock? || l.PostFull?
  }

  predicate ConsumerHolds(c: Consumer) {
    c.WantMutex? || c.ReadValue? || c.Fetch? || c.Release? || c.PostEmpty?
  }

  function Holding(cs: seq<Consumer>): nat {
    if cs == [] then 0 else Holding(cs[..|cs| - 1]) + if ConsumerHolds(cs[|cs| - 1]) then 1 else 0
  }

  function InFlight(s: State): nat {
    Holding(s.consumers) + if ListenerHolds(s.listener) then 1 else 0
  }

  /** The tokens add up, the mutex has one holder at most, and every index read is in bounds. */
  ghost predicate Inv(s: State) {
    && |s.request| == MAX_REQUEST
    && s.empty + s.full + InFlight(s) == MAX_REQUEST
    && (s.mutex.TheListener? <==> s.listener.GetValue? || s.listener.Store? || s.listener.Unlock?)
    && (forall n :: 0 <= n < |s.consumers| ==>
          (s.mutex == TheConsumer(n) <==>
            s.consumers[n].ReadValue? || s.consumers[n].Fetch? || s.consumers[n].Release?))
    && (s.mutex.TheConsumer? ==> s.mutex.n < |s.consumers|)
    && (s.listener.Store? ==> s.listener.i < MAX_REQUEST)
    && (forall n :: 0 <= n < |s.consumers| && s.consumers[n].Fetch? ==> s.consumers[n].i < MAX_REQUEST)
  }

  lemma {:induction false} HoldingUpdate(cs: seq<Consumer>, n: nat, c: Consumer)
    requires n < |cs|
    ensures Holding(cs[n := c])
         == Holding(cs) - (if ConsumerHolds(cs[n]) then 1 else 0) + if ConsumerHolds(c) then 1 else 0
  {
    var m := |cs| - 1;
    if n < m {
      HoldingUpdate(cs[..m], n, c);
      assert cs[n := c][..m] == cs[..m][n := c];
    } else {
      assert cs[n := c][..m] == cs[..m];
    }
  }

  lemma {:induction false} HoldingZero(cs: seq<Consumer>)
    requires forall n :: 0 <= n < |cs| ==> !ConsumerHolds(cs[n])
    ensures Holding(cs) == 0
  {
    if cs == [] {
    } else {
      HoldingZero(cs[..|cs| - 1]);
    }
  }

  lemma {:induction false} HoldingOne(cs: seq<Consumer>, n: nat)
    requires n < |cs| && ConsumerHolds(cs[n])
    ensures Holding(cs) >= 1
  {
    if n == |cs| - 1 {
    } else {
      HoldingOne(cs[..|cs| - 1], n);
    }
  }

  lemma StartInv(n: nat, garbage: seq<int>)
    requires |garbage| == MAX_REQUEST
    ensures Inv(Start(n, garbage))
  {
    HoldingZero(Start(n, garbage).consumers);
  }

  lemma ConsumerStepInv(s: State, n: nat)
    requires Inv(s) && Enabled(s, ConsumerStep(n))
    ensures Inv(StepConsumer(s, n))
  {
    var t := StepConsumer(s, n);
    HoldingUpdate(s.consumers, n, t.consumers[n]);
    assert t.consumers == s.consumers[n := t.consumers[n]];
    if ConsumerHolds(s.consumers[n]) {
      HoldingOne(s.consumers, n);
    }
  }

  /** Every step of every thread keeps the invariant. */
  lemma NextInv(s: State, e: Event)
    requires Inv(s) && Enabled(s, e)
    ensures Inv(Next(s, e))
  {
    match e
    case Accept(_) =>
    case Close =>
    case ListenerStep =>
    case ConsumerStep(n) =>
      ConsumerStepInv(s, n);
    case Exit(n) =>
      HoldingUpdate(s.consumers, n, Dead);
  }

  /** So it holds in every interleaving, whichever consumers exit on the way. */
  lemma {:induction false} RunInv(s: State, es: seq<Event>)
    requires Inv(s) && Possible(s, es)
    ensures Inv(After(s, es))
    decreases |es|
  {
    if es == [] {
    } else {
      NextInv(s, es[0]);
      RunInv(Next(s, es[0]), es[1..]);
    }
  }

  // ----- progress

  /** With a connection waiting, some thread can take a step (other than to close or exit). */
  ghost predicate CanMove(s: State) {
    s.listener.Accepting? || Enabled(s, ListenerStep) || exists n :: Enabled(s, ConsumerStep(n))
  }

  ghost predicate AllDead(s: State) {
    forall n :: 0 <= n < |s.consumers| ==> s.consumers[n].Dead?
  }

  /** Someone holding a token can move, or the holder of the mutex can. */
  lemma HolderMoves(s: State, n: nat)
    requires Inv(s) && n < |s.consumers| && ConsumerHolds(s.consumers[n])
    ensures CanMove(s)
  {
    if s.mutex.TheConsumer? {
      assert Enabled(s, ConsumerStep(s.mutex.n));
    } else if !s.mutex.TheListener? {
      assert Enabled(s, ConsumerStep(n));
    }
  }

  /**
   * The server stops exactly when every consumer has exited and the listener waits for room in a
   * full buffer; one live consumer is enough to keep it going.
   */
  lemma StuckIff(s: State)
    requires Inv(s) && !s.listener.Closed?
    ensures !CanMove(s) <==> AllDead(s) && s.listener.WantEmpty? && s.empty == 0
  {
    if AllDead(s) && s.listener.WantEmpty? && s.empty == 0 {
      assert forall n :: !Enabled(s, ConsumerStep(n));
    }
    if !CanMove(s) {
      forall n | 0 <= n < |s.consumers| ensures !ConsumerHolds(s.consumers[n]) {
        if ConsumerHolds(s.consumers[n]) {
          HolderMoves(s, n);
        }
      }
      HoldingZero(s.consumers);
      assert s.listener.WantEmpty? && s.full == MAX_REQUEST;
      forall n | 0 <= n < |s.consumers| ensures s.consumers[n].Dead? {
        assert !Enabled(s, ConsumerStep(n));
      }
    }
  }

  // ----- what the buffer delivers

  lemma Prepend(s: State, e: Event, es: seq<Event>)
    requires Enabled(s, e) && Possible(Next(s, e), es)
    ensures Possible(s, [e] + es) && After(s, [e] + es) == After(Next(s, e), es)
  {
    assert ([e] + es)[1..] == es;
  }

  /** The listener alone: k steps in a row. */
  function Listening(k: nat): seq<Event> {
    if k == 0 then [] else [ListenerStep] + Listening(k - 1)
  }

  /** Consumer n alone: k steps in a row. */
  function Consuming(n: nat, k: nat): seq<Event> {
    if k == 0 then [] else [ConsumerStep(n)] + Consuming(n, k - 1)
  }

  lemma ListenMore(s: State, k: nat)
    requires Enabled(s, ListenerStep) && Possible(StepListener(s), Listening(k))
    ensures Possible(s, Listening(k + 1)) && After(s, Listening(k + 1)) == After(StepListener(s), Listening(k))
  {
    Prepend(s, ListenerStep, Listening(k));
  }

  lemma ConsumeMore(s: State, n: nat, k: nat)
    requires Enabled(s, ConsumerStep(n)) && Possible(StepConsumer(s, n), Consuming(n, k))
    ensures Possible(s, Consuming(n, k + 1))
    ensures After(s, Consuming(n, k + 1)) == After(StepConsumer(s, n), Consuming(n, k))
  {
    Prepend(s, ConsumerStep(n), Consuming(n, k));
  }

  /** Undisturbed, the listener pushes: the connection goes on top of those waiting. */
  lemma ProducePushes(s: State, c: int)
    requires Inv(s) && s.listener.Accepting? && s.mutex.Nobody? && s.empty > 0
    ensures var es := [Accept(c)] + Listening(6);
      && s.full < MAX_REQUEST
      && Possible(s, es)
      && After(s, es) == s.(empty := s.empty - 1, full := s.full + 1, request := s.request[s.full := c])
  {
    var s1 := Next(s, Accept(c));
    var s2 := StepListener(s1);
    var s3 := StepListener(s2);
    var s4 := StepListener(s3);
    var s5 := StepListener(s4);
    var s6 := StepListener(s5);
    assert Possible(StepListener(s6), Listening(0));
    ListenMore(s6, 0);
    ListenMore(s5, 1);
    ListenMore(s4, 2);
    ListenMore(s3, 3);
    ListenMore(s2, 4);
    ListenMore(s1, 5);
    Prepend(s, Accept(c), Listening(6));
  }

  /** Undisturbed, a consumer pops: it gets the connection that came last. */
  lemma ConsumePops(s: State, n: nat)
    requires Inv(s) && n < |s.consumers| && s.consumers[n].WantFull? && s.mutex.Nobody? && s.full > 0
    ensures var es := Consuming(n, 6);
      && s.full <= MAX_REQUEST
      && Possible(s, es)
      && After(s, es) == Move(s.(empty := s.empty + 1, full := s.full - 1), n, Processing(s.request[s.full - 1]))
  {
    LockAndTake(StepConsumer(s, n), n);
    ConsumeMore(s, n, 5);
  }

  /** The same from the moment it wants the mutex. */
  lemma LockAndTake(s: State, n: nat)
    requires n < |s.consumers| && s.consumers[n].WantMutex? && s.mutex.Nobody?
    requires |s.request| == MAX_REQUEST && s.full < MAX_REQUEST
    ensures Possible(s, Consuming(n, 5))
    ensures After(s, Consuming(n, 5)) == Move(s.(empty := s.empty + 1), n, Processing(s.request[s.full]))
  {
    PopRest(StepConsumer(s, n), n);
    ConsumeMore(s, n, 4);
  }

  /** From the moment it holds the mutex a consumer takes whatever the semaphore value points at. */
  lemma PopRest(s: State, n: nat)
    requires n < |s.consumers| && s.consumers[n].ReadValue? && |s.request| == MAX_REQUEST && s.full < MAX_REQUEST
    ensures Possible(s, Consuming(n, 4))
    ensures After(s, Consuming(n, 4)) == Move(s.(empty := s.empty + 1, mutex := Nobody), n,
                                              Processing(s.request[s.full]))
  {
    var s1 := StepConsumer(s, n);
    var s2 := StepConsumer(s1, n);
    var s3 := StepConsumer(s2, n);
    assert Possible(StepConsumer(s3, n), Consuming(n, 0));
    ConsumeMore(s3, n, 0);
    ConsumeMore(s2, n, 1);
    ConsumeMore(s1, n, 2);
    ConsumeMore(s, n, 3);
  }

  lemma {:induction false} Concat(s: State, a: seq<Event>, b: seq<Event>)
    requires Possible(s, a) && Possible(After(s, a), b)
    ensures Possible(s, a + b) && After(s, a + b) == After(After(s, a), b)
    decreases |a|
  {
    if a == [] {
      assert a + b == b;
    } else {
      Concat(Next(s, a[0]), a[1..], b);
      assert (a + b)[1..] == a[1..] + b;
    }
  }

  /**
   * Two consumers that both pass the semaphore before either looks at its value read the same
   * place: one request is served twice and the one above it by nobody.
   */
  lemma SameRequestTwice(s: State, n: nat, m: nat) returns (es: seq<Event>)
    requires Inv(s) && s.full >= 2 && s.mutex.Nobody? && n != m
    requires n < |s.consumers| && s.consumers[n].WantFull? && m < |s.consumers| && s.consumers[m].WantFull?
    ensures s.full <= MAX_REQUEST && Possible(s, es)
    ensures var req := Processing(s.request[s.full - 2]);
      After(s, es) == s.(empty := s.empty + 2, full := s.full - 2, consumers := s.consumers[n := req][m := req])
  {
    hide Possible, After, Consuming;
    var t := BothWait(s, n, m);
    LockAndTake(t, n);
    var v := After(t, Consuming(n, 5));
    LockAndTake(v, m);
    Concat(t, Consuming(n, 5), Consuming(m, 5));
    Concat(s, [ConsumerStep(n), ConsumerStep(m)], Consuming(n, 5) + Consuming(m, 5));
    es := [ConsumerStep(n), ConsumerStep(m)] + (Consuming(n, 5) + Consuming(m, 5));
    Overwritten(s.consumers, n, m, Processing(s.request[s.full - 2]));
  }

  lemma BothWait(s: State, n: nat, m: nat) returns (t: State)
    requires s.full >= 2 && n != m
    requires n < |s.consumers| && s.consumers[n].WantFull? && m < |s.consumers| && s.consumers[m].WantFull?
    ensures Possible(s, [ConsumerStep(n), ConsumerStep(m)]) && After(s, [ConsumerStep(n), ConsumerStep(m)]) == t
    ensures t == s.(full := s.full - 2, consumers := s.consumers[n := WantMutex][m := WantMutex])
  {
    var t0 := StepConsumer(s, n);
    t := StepConsumer(t0, m);
    Prepend(t0, ConsumerStep(m), []);
    Prepend(s, ConsumerStep(n), [ConsumerStep(m)]);
    assert [ConsumerStep(n)] + [ConsumerStep(m)] == [ConsumerStep(n), ConsumerStep(m)];
    assert [ConsumerStep(m)] + [] == [ConsumerStep(m)];
  }

  lemma Overwritten(cs: seq<Consumer>, n: nat, m: nat, c: Consumer)
    requires n < |cs| && m < |cs| && n != m
    ensures cs[n := WantMutex][m := WantMutex][n := c][m := c] == cs[n := c][m := c]
  {
  }

  /** Such a run starts from the very beginning: connection a is served twice, b is lost. */
  lemma ServedTwice(garbage: seq<int>, a: int, b: int) returns (es: seq<Event>)
    requires |garbage| == MAX_REQUEST
    ensures Possible(Start(2, garbage), es)
    ensures var s := After(Start(2, garbage), es);
      s.consumers == [Processing(a), Processing(a)] && s.full == 0 && s.listener.Accepting?
  {
    var s0 := Start(2, garbage);
    StartInv(2, garbage);
    ProducePushes(s0, a);
    var es1 := [Accept(a)] + Listening(6);
    var s1 := After(s0, es1);
    RunInv(s0, es1);
    ProducePushes(s1, b);
    var es2 := [Accept(b)] + Listening(6);
    var s2 := After(s1, es2);
    RunInv(s1, es2);
    var es3 := SameRequestTwice(s2, 0, 1);
    Concat(s1, es2, es3);
    Concat(s0, es1, es2 + es3);
    es := es1 + (es2 + es3);
  }
}
