/**
 * Runs of the request buffer that do happen, and threads that are gone for good: a consumer comes
 * back for the next request, one that has exited does not, and the server can be brought to a halt.
 */
module RequestRuns {
  import opened RequestBuffer
  import opened RequestDelivery

  // ----- threads that are gone

  /** A consumer that has exited never takes a step again. */
  lemma {:induction false} ExitedIsGone(s: State, es: seq<Event>, n: nat)
    requires Possible(s, es) && n < |s.consumers| && s.consumers[n].Dead?
    ensures forall i :: 0 <= i < |es| ==> es[i] != ConsumerStep(n) && es[i] != Exit(n)
    ensures n < |After(s, es).consumers| && After(s, es).consumers[n].Dead?
    decreases |es|
  {
    if es == [] {
    } else {
      ExitedIsGone(Next(s, es[0]), es[1..], n);
      forall i | 0 <= i < |es| ensures es[i] != ConsumerStep(n) && es[i] != Exit(n) {
        assert i > 0 ==> es[i] == es[1..][i - 1];
      }
    }
  }

  /** So nothing follows an exit: only processing may end like that, and then the thread has ended. */
  lemma ExitIsFinal(s: State, es: seq<Event>, n: nat)
    requires Possible(s, [Exit(n)] + es)
    ensures n < |s.consumers| && s.consumers[n].Processing?
    ensures forall i :: 0 <= i < |es| ==> es[i] != ConsumerStep(n) && es[i] != Exit(n)
  {
    assert ([Exit(n)] + es)[1..] == es;
    ExitedIsGone(Next(s, Exit(n)), es, n);
  }

  /** Neither does the listener accept or write anything once it has closed the socket. */
  lemma {:induction false} ClosedIsGone(s: State, es: seq<Event>)
    requires Possible(s, es) && s.listener.Closed?
    ensures forall i :: 0 <= i < |es| ==> !es[i].Accept? && !es[i].Close? && !es[i].ListenerStep?
    ensures After(s, es).listener.Closed?
    decreases |es|
  {
    if es == [] {
    } else {
      ClosedIsGone(Next(s, es[0]), es[1..]);
      forall i | 0 <= i < |es| ensures !es[i].Accept? && !es[i].Close? && !es[i].ListenerStep? {
        assert i > 0 ==> es[i] == es[1..][i - 1];
      }
    }
  }

  lemma CloseIsFinal(s: State, es: seq<Event>)
    requires Possible(s, [Close] + es)
    ensures s.listener.Accepting?
    ensures forall i :: 0 <= i < |es| ==> !es[i].Accept? && !es[i].Close? && !es[i].ListenerStep?
  {
    assert ([Close] + es)[1..] == es;
    ClosedIsGone(Next(s, Close), es);
  }

  // ----- a consumer that serves one connection after the other

  lemma {:induction false} FetchedConcat(s: State, a: seq<Event>, b: seq<Event>)
    requires Possible(s, a) && Possible(After(s, a), b)
    ensures Possible(s, a + b) && Fetched(s, a + b) == Fetched(s, a) + Fetched(After(s, a), b)
    decreases |a|
  {
    Concat(s, a, b);
    if a == [] {
      assert a + b == b;
    } else {
      assert (a + b)[1..] == a[1..] + b;
      FetchedConcat(Next(s, a[0]), a[1..], b);
    }
  }

  lemma {:induction false} ListeningFetches(s: State, k: nat)
    requires Possible(s, Listening(k))
    ensures Fetched(s, Listening(k)) == []
    decreases k
  {
    if k == 0 {
    } else {
      assert Listening(k)[1..] == Listening(k - 1);
      ListeningFetches(Next(s, ListenerStep), k - 1);
    }
  }

  ghost predicate NoExit(es: seq<Event>) {
    forall e :: e in es ==> !e.Exit?
  }

  lemma {:induction false} GoOn(n: nat, k: nat)
    ensures NoExit(Listening(k)) && NoExit(Consuming(n, k))
  {
    if k == 0 {
    } else {
      GoOn(n, k - 1);
    }
  }

  lemma AllGoOn(n: nat)
    ensures NoExit(Listening(6)) && NoExit(Consuming(n, 6))
  {
    GoOn(n, 6);
  }

  /** Between connections: nothing is stored or held, and the listener accepts. */
  ghost predicate Idle(s: State) {
    Inv(s) && s.listener.Accepting? && s.mutex.Nobody? && s.full == 0 && s.empty > 0
  }

  /** What a consumer fetches when it takes a request undisturbed. */
  lemma PopFetches(s: State, n: nat)
    requires Inv(s) && n < |s.consumers| && s.consumers[n].WantFull? && s.mutex.Nobody? && s.full > 0
    ensures s.full <= MAX_REQUEST && Possible(s, Consuming(n, 6))
    ensures Fetched(s, Consuming(n, 6)) == [s.request[s.full - 1]]
  {
    hide Possible, Fetched, After, Consuming, InFlight;
    ConsumePops(s, n);
    var s1 := StepConsumer(s, n);
    var s2 := StepConsumer(s1, n);
    ConsumingNext(s, n, 6);
    ConsumingNext(s1, n, 5);
    ConsumingNext(s2, n, 4);
    FetchFetches(StepConsumer(s2, n), n);
  }

  lemma FetchFetches(s: State, n: nat)
    requires n < |s.consumers| && s.consumers[n].Fetch? && s.consumers[n].i < |s.request|
    requires Possible(s, Consuming(n, 3))
    ensures Fetched(s, Consuming(n, 3)) == [s.request[s.consumers[n].i]]
  {
    hide Possible, Fetched, Consuming;
    var s1 := StepConsumer(s, n);
    var s2 := StepConsumer(s1, n);
    ConsumingNext(s, n, 3);
    ConsumingNext(s1, n, 2);
    ConsumingNext(s2, n, 1);
    ConsumingNothing(StepConsumer(s2, n), n);
  }

  lemma ConsumingNothing(s: State, n: nat)
    ensures Possible(s, Consuming(n, 0)) && Fetched(s, Consuming(n, 0)) == []
  {
  }

  lemma ConsumingNext(s: State, n: nat, k: nat)
    requires 1 <= k && Enabled(s, ConsumerStep(n)) && Possible(s, Consuming(n, k))
    ensures Possible(StepConsumer(s, n), Consuming(n, k - 1))
    ensures Fetched(s, Consuming(n, k))
         == FetchedBy(s, ConsumerStep(n)) + Fetched(StepConsumer(s, n), Consuming(n, k - 1))
  {
    assert Consuming(n, k)[1..] == Consuming(n, k - 1);
  }

  /** From waiting for a request to processing the next connection. */
  lemma ServesNext(s: State, n: nat, c: int) returns (es: seq<Event>)
    requires Idle(s) && n < |s.consumers| && s.consumers[n].WantFull?
    ensures Possible(s, es) && NoExit(es) && Accepted(es) == Fetched(s, es) == [c]
    ensures |s.request| == MAX_REQUEST && Idle(After(s, es))
    ensures After(s, es) == s.(request := s.request[0 := c], consumers := s.consumers[n := Processing(c)])
  {
    hide Possible, After, Fetched, Accepted, Consuming, Listening, Inv, InFlight;
    var es1, es2 := [Accept(c)] + Listening(6), Consuming(n, 6);
    assert |s.request| == MAX_REQUEST by { InvLength(s); }
    ProducePushes(s, c);
    RunInv(s, es1);
    var t := After(s, es1);
    PopFetches(t, n);
    ConsumePops(t, n);
    RunInv(t, es2);
    ProduceHistory(s, c);
    ConsumingAccepts(n, 6);
    AcceptedConcat(es1, es2);
    FetchedConcat(s, es1, es2);
    Concat(s, es1, es2);
    AllGoOn(n);
    es := es1 + es2;
  }

  lemma InvLength(s: State)
    requires Inv(s)
    ensures |s.request| == MAX_REQUEST
  {
  }

  lemma ProduceHistory(s: State, c: int)
    requires Possible(s, [Accept(c)] + Listening(6))
    ensures Accepted([Accept(c)] + Listening(6)) == [c] && Fetched(s, [Accept(c)] + Listening(6)) == []
  {
    hide Listening;
    var es := [Accept(c)] + Listening(6);
    assert es[1..] == Listening(6);
    ListeningAccepts(6);
    ListeningFetches(Next(s, Accept(c)), 6);
  }

  /** A consumer that has processed a request comes back and serves the next connection. */
  lemma ComesBack(s: State, n: nat, c: int) returns (es: seq<Event>)
    requires Idle(s) && n < |s.consumers| && s.consumers[n].Processing?
    ensures Possible(s, es) && NoExit(es) && Accepted(es) == Fetched(s, es) == [c]
    ensures |s.request| == MAX_REQUEST && Idle(After(s, es))
    ensures After(s, es) == s.(request := s.request[0 := c], consumers := s.consumers[n := Processing(c)])
  {
    hide Possible, After, Fetched, Accepted, Inv, InFlight;
    var t := Next(s, ConsumerStep(n));
    NextInv(s, ConsumerStep(n));
    var rest := ServesNext(t, n, c);
    Prepend(s, ConsumerStep(n), rest);
    BackHistory(s, n, rest);
    es := [ConsumerStep(n)] + rest;
    assert s.consumers[n := WantFull][n := Processing(c)] == s.consumers[n := Processing(c)];
  }

  lemma BackHistory(s: State, n: nat, es: seq<Event>)
    requires n < |s.consumers| && s.consumers[n].Processing? && Possible(StepConsumer(s, n), es)
    ensures Accepted([ConsumerStep(n)] + es) == Accepted(es)
    ensures Possible(s, [ConsumerStep(n)] + es)
    ensures Fetched(s, [ConsumerStep(n)] + es) == Fetched(StepConsumer(s, n), es)
  {
    assert ([ConsumerStep(n)] + es)[1..] == es;
  }

  lemma NothingYet(s: State)
    ensures Possible(s, []) && After(s, []) == s && Accepted([]) == [] && Fetched(s, []) == []
  {
  }

  lemma StartIdle(n: nat, garbage: seq<int>)
    requires |garbage| == MAX_REQUEST
    ensures Idle(Start(n, garbage))
  {
    StartInv(n, garbage);
  }

  /** Any number of connections that come one at a time are all served, in order, and by one consumer alone. */
  lemma {:induction false} ServesAll(n: nat, garbage: seq<int>, cs: seq<int>) returns (es: seq<Event>)
    requires 1 <= n && |garbage| == MAX_REQUEST
    ensures Possible(Start(n, garbage), es) && NoExit(es)
    ensures Accepted(es) == Fetched(Start(n, garbage), es) == cs
    ensures Idle(After(Start(n, garbage), es)) && |After(Start(n, garbage), es).consumers| == n
    ensures After(Start(n, garbage), es).consumers[0] == if cs == [] then WantFull else Processing(cs[|cs| - 1])
  {
    hide Possible, After, Fetched, Accepted, Idle;
    var s := Start(n, garbage);
    if cs == [] {
      NothingYet(s);
      StartIdle(n, garbage);
      es := [];
    } else {
      var m := |cs| - 1;
      var es0 := ServesAll(n, garbage, cs[..m]);
      var t := After(s, es0);
      var es1;
      if m == 0 {
        es1 := ServesNext(t, 0, cs[m]);
      } else {
        es1 := ComesBack(t, 0, cs[m]);
      }
      Concat(s, es0, es1);
      FetchedConcat(s, es0, es1);
      AcceptedConcat(es0, es1);
      es := es0 + es1;
    }
  }

  // ----- bringing the server to a halt

  /** The first m consumers have exited, the others have done nothing yet. */
  ghost predicate Dying(s: State, n: nat, m: nat) {
    && Idle(s) && s.empty == 100 && |s.consumers| == n && m <= n
    && forall i :: 0 <= i < n ==> s.consumers[i] == if i < m then Dead else WantFull
  }

  lemma OneMoreDies(s: State, n: nat, m: nat) returns (es: seq<Event>)
    requires Dying(s, n, m) && m < n
    ensures Possible(s, es) && |Accepted(es)| == 1 && Dying(After(s, es), n, m + 1)
  {
    hide Possible, After, Fetched, Accepted, Inv, InFlight;
    var es0 := ServesNext(s, m, 0);
    var t := After(s, es0);
    NextInv(t, Exit(m));
    NothingYet(Next(t, Exit(m)));
    Prepend(t, Exit(m), []);
    Concat(s, es0, [Exit(m)] + []);
    AcceptedConcat(es0, [Exit(m)] + []);
    ExitAccepts(m);
    es := es0 + ([Exit(m)] + []);
  }

  lemma ExitAccepts(m: nat)
    ensures Accepted([Exit(m)] + []) == []
  {
    assert [Exit(m)] + [] == [Exit(m)];
  }

  lemma {:induction false} AllDie(n: nat, garbage: seq<int>, m: nat) returns (es: seq<Event>)
    requires |garbage| == MAX_REQUEST && m <= n
    ensures Possible(Start(n, garbage), es) && |Accepted(es)| == m && Dying(After(Start(n, garbage), es), n, m)
  {
    hide Possible, After, Accepted, Idle;
    var s := Start(n, garbage);
    if m == 0 {
      NothingYet(s);
      StartIdle(n, garbage);
      es := [];
    } else {
      var es0 := AllDie(n, garbage, m - 1);
      var es1 := OneMoreDies(After(s, es0), n, m - 1);
      Concat(s, es0, es1);
      AcceptedConcat(es0, es1);
      es := es0 + es1;
    }
  }

  /** The listener alone has filled m places. */
  ghost predicate Filling(s: State, m: nat) {
    && Inv(s) && s.listener.Accepting? && s.mutex.Nobody? && s.full == m <= 100 && s.empty == 100 - m
    && AllDead(s)
  }

  lemma {:induction false} FillUp(s: State, m: nat) returns (es: seq<Event>)
    requires Filling(s, 0) && m <= 100
    ensures Possible(s, es) && |Accepted(es)| == m && Filling(After(s, es), m)
  {
    hide Possible, After, Accepted, Inv, AllDead;
    if m == 0 {
      NothingYet(s);
      es := [];
    } else {
      var es0 := FillUp(s, m - 1);
      var t := After(s, es0);
      var es1 := Produced(t, 0);
      StillDead(t, After(t, es1));
      Concat(s, es0, es1);
      AcceptedConcat(es0, es1);
      es := es0 + es1;
    }
  }

  lemma StillDead(s: State, t: State)
    requires AllDead(s) && t.consumers == s.consumers
    ensures AllDead(t)
  {
  }

  /**
   * With any number of consumers the server can be brought to a halt: each consumer exits while it
   * processes a connection, 100 more fill the buffer, and the listener waits with one in hand.
   */
  lemma CanHalt(n: nat, garbage: seq<int>) returns (es: seq<Event>)
    requires |garbage| == MAX_REQUEST
    ensures Possible(Start(n, garbage), es) && |Accepted(es)| == n + 101
    ensures !CanMove(After(Start(n, garbage), es))
  {
    hide Possible, After, Accepted, Inv, CanMove, InFlight;
    var s := Start(n, garbage);
    var es0 := AllDie(n, garbage, n);
    var t := After(s, es0);
    var es1 := FillUp(t, 100);
    var u := After(t, es1);
    NextInv(u, Accept(0));
    NothingYet(Next(u, Accept(0)));
    Prepend(u, Accept(0), []);
    var es2 := [Accept(0)] + [];
    OneAccepted();
    Concat(t, es1, es2);
    Concat(s, es0, es1 + es2);
    AcceptedConcat(es1, es2);
    AcceptedConcat(es0, es1 + es2);
    StuckIff(Next(u, Accept(0)));
    es := es0 + (es1 + es2);
  }

  lemma OneAccepted()
    ensures Accepted([Accept(0)] + []) == [0]
  {
    assert [Accept(0)] + [] == [Accept(0)];
  }
}
