/**
 * The event queue between `mi_proc_async` and `event_thread`, which is also the one between `vimui::proc_event` and
 * `vimui::readline`: producers append under a mutex and signal, one consumer pops the first element, waiting for a
 * signal when the queue is empty. Waiting wakes up only when signalled.
 *
 * The queue is the intrusive list, whose `AddTail` and `Remove` at position 0 are `+ [e]` and `[1..]` here.
 */
module EventQueue {
  import opened Options

  type Tid = nat

  /** `Other` stands for the events that the producers drop. */
  datatype Kind = Exit | Stopped | Running | Other

  datatype Event = Event(kind: Kind, serial: nat)

  datatype Owner = Producer(tid: Tid) | ConsumerThread

  datatype Producing = Idle | Arriving(e: Event) | Adding(e: Event) | Added

  datatype Consumer =
    | Ready
    | Checking                 // holds the mutex, queue not yet looked at
    | Waiting
    | Woken
    | Popping                  // holds the mutex, about to take the first element
    | Popped(e: Event)         // holds the mutex
    | Handling(e: Event)
    | Ended                    // handled an exit event
    | Crashed                  // took the first element of an empty list

  datatype State = State(
    mtx: Option<Owner>,
    queue: seq<Event>,
    producers: map<Tid, Producing>,
    consumer: Consumer,
    accepted: seq<Event>,      // events appended so far
    handled: seq<Event>        // events handled so far
  )

  function Init(): State {
    State(None, [], map[], Ready, [], [])
  }

  function At(s: State, t: Tid): Producing {
    if t in s.producers then s.producers[t] else Idle
  }

  datatype Action =
    | Arrive(t: Tid, e: Event)
    | ProducerLocks(t: Tid)
    | Append(t: Tid)
    | ProducerUnlocks(t: Tid)
    | ConsumerLocks
    | Check
    | Reacquire
    | Pop
    | ConsumerUnlocks
    | Handled

  predicate Enabled(s: State, a: Action) {
    match a
    case Arrive(t, e) => At(s, t) == Idle
    case ProducerLocks(t) => At(s, t).Arriving? && s.mtx == None
    case Append(t) => At(s, t).Adding?
    case ProducerUnlocks(t) => At(s, t) == Added
    case ConsumerLocks => s.consumer == Ready && s.mtx == None
    case Check => s.consumer == Checking
    case Reacquire => s.consumer == Woken && s.mtx == None
    case Pop => s.consumer == Popping
    case ConsumerUnlocks => s.consumer.Popped?
    case Handled => s.consumer.Handling?
  }

  function Goto(s: State, t: Tid, p: Producing): State {
    s.(producers := s.producers[t := p])
  }

  function Apply(s: State, a: Action): State
    requires Enabled(s, a)
  {
    match a
    case Arrive(t, e) => Goto(s, t, Arriving(e))
    case ProducerLocks(t) => Goto(s, t, Adding(At(s, t).e)).(mtx := Some(Producer(t)))
    case Append(t) =>
      var e := At(s, t).e;
      var s1 := Goto(s, t, Added);
      if e.kind == Other then s1
      else s1.(queue := s.queue + [e], accepted := s.accepted + [e],
               consumer := if s.consumer == Waiting then Woken else s.consumer)
    case ProducerUnlocks(t) => Goto(s, t, Idle).(mtx := None)
    case ConsumerLocks => s.(consumer := Checking, mtx := Some(ConsumerThread))
    case Check => if s.queue == [] then s.(consumer := Waiting, mtx := None) else s.(consumer := Popping)
    case Reacquire => s.(consumer := Popping, mtx := Some(ConsumerThread))
    case Pop => if s.queue == [] then s.(consumer := Crashed) else s.(consumer := Popped(s.queue[0]), queue := s.queue[1..])
    case ConsumerUnlocks => s.(consumer := Handling(s.consumer.e), mtx := None)
    case Handled =>
      s.(consumer := if s.consumer.e.kind == Exit then Ended else Ready, handled := s.handled + [s.consumer.e])
  }

  /** The event the consumer has taken and not yet dealt with. */
  function InHand(c: Consumer): seq<Event> {
    if c.Popped? || c.Handling? then [c.e] else []
  }

  /** Mutual exclusion, and what the consumer's position says about the queue. */
  ghost predicate Locks(s: State) {
    && (forall t: Tid :: At(s, t).Adding? || At(s, t) == Added <==> s.mtx == Some(Producer(t)))
    && (s.consumer == Checking || s.consumer == Popping || s.consumer.Popped? <==> s.mtx == Some(ConsumerThread))
    && (s.consumer == Waiting ==> s.queue == [])
    && (s.consumer == Woken || s.consumer == Popping ==> s.queue != [])
    && s.consumer != Crashed
  }

  ghost predicate History(s: State) {
    && s.accepted == s.handled + InHand(s.consumer) + s.queue
    && (forall e <- s.accepted :: e.kind != Other)
  }

  ghost predicate ExitIsLast(s: State) {
    && (s.consumer == Ended <==> s.handled != [] && s.handled[|s.handled| - 1].kind == Exit)
    && (forall k | 0 <= k < |s.handled| - 1 :: s.handled[k].kind != Exit)
  }

  ghost predicate Inv(s: State) {
    Locks(s) && History(s) && ExitIsLast(s)
  }

  lemma StepLocks(s: State, a: Action)
    requires Locks(s) && Enabled(s, a)
    ensures Locks(Apply(s, a))
  {
    var n := Apply(s, a);
    forall t: Tid
      ensures At(n, t).Adding? || At(n, t) == Added <==> n.mtx == Some(Producer(t))
    {
      assert At(s, t).Adding? || At(s, t) == Added <==> s.mtx == Some(Producer(t));
    }
  }

  lemma StepHistory(s: State, a: Action)
    requires Locks(s) && History(s) && Enabled(s, a)
    ensures History(Apply(s, a))
  {
  }

  lemma StepExit(s: State, a: Action)
    requires Locks(s) && ExitIsLast(s) && Enabled(s, a)
    ensures ExitIsLast(Apply(s, a))
  {
  }

  lemma StepInv(s: State, a: Action)
    requires Inv(s) && Enabled(s, a)
    ensures Inv(Apply(s, a))
  {
    hide Locks, History, ExitIsLast, Enabled, Apply;
    StepLocks(s, a);
    StepHistory(s, a);
    StepExit(s, a);
  }

  ghost predicate IsRun(ss: seq<State>, actions: seq<Action>) {
    |ss| == |actions| + 1 && ss[0] == Init() &&
    forall i | 0 <= i < |actions| :: Enabled(ss[i], actions[i]) && ss[i + 1] == Apply(ss[i], actions[i])
  }

  lemma {:induction false} RunInv(ss: seq<State>, actions: seq<Action>, n: nat)
    requires IsRun(ss, actions) && n < |ss|
    ensures Inv(ss[n])
  {
    hide Inv, Apply, Enabled;
    if n == 0 {
      InitInv();
    } else {
      RunInv(ss, actions, n - 1);
      StepInv(ss[n - 1], actions[n - 1]);
    }
  }

  lemma InitInv()
    ensures Inv(Init())
  {
  }

  /** The event that the thread brought last among the first `n` actions. */
  function Brought(actions: seq<Action>, n: nat, t: Tid): Option<Event>
    requires n <= |actions|
  {
    if n == 0 then None
    else
      match actions[n - 1]
      case Arrive(u, e) => if u == t then Some(e) else Brought(actions, n - 1, t)
      case _ => Brought(actions, n - 1, t)
  }

  /** The events that producers have put in, in the order of the mutex: all exits, stops and starts, nothing else. */
  function PutIn(actions: seq<Action>, n: nat): seq<Event>
    requires n <= |actions|
  {
    if n == 0 then []
    else
      match actions[n - 1]
      case Append(t) =>
        var e := Brought(actions, n - 1, t);
        PutIn(actions, n - 1) + if e.Some? && e.value.kind in {Exit, Stopped, Running} then [e.value] else []
      case _ => PutIn(actions, n - 1)
  }

  /** What an action does to producers and accepted events. */
  lemma ProducersAfter(s: State, a: Action, t: Tid)
    requires Enabled(s, a)
    ensures At(Apply(s, a), t) ==
            match a
            case Arrive(u, e) => if u == t then Arriving(e) else At(s, t)
            case ProducerLocks(u) => if u == t then Adding(At(s, t).e) else At(s, t)
            case Append(u) => if u == t then Added else At(s, t)
            case ProducerUnlocks(u) => if u == t then Idle else At(s, t)
            case _ => At(s, t)
    ensures Apply(s, a).accepted ==
            s.accepted + if a.Append? && At(s, a.t).e.kind in {Exit, Stopped, Running} then [At(s, a.t).e] else []
    ensures a.ProducerLocks? ==> At(s, a.t).Arriving?
    ensures a.Append? ==> At(s, a.t).Adding?
  {
  }

  lemma {:induction false} AcceptedIsPutIn(ss: seq<State>, actions: seq<Action>, n: nat)
    requires IsRun(ss, actions) && n < |ss|
    ensures ss[n].accepted == PutIn(actions, n)
    ensures forall t: Tid | At(ss[n], t).Arriving? || At(ss[n], t).Adding? :: Brought(actions, n, t) == Some(At(ss[n], t).e)
  {
    hide Apply, Enabled;
    if n > 0 {
      var s, a := ss[n - 1], actions[n - 1];
      AcceptedIsPutIn(ss, actions, n - 1);
      assert Enabled(s, a) && ss[n] == Apply(s, a);
      ProducersAfter(s, a, 0);
      if a.Append? {
        assert Brought(actions, n - 1, a.t) == Some(At(s, a.t).e);
      }
      forall t: Tid | At(ss[n], t).Arriving? || At(ss[n], t).Adding?
        ensures Brought(actions, n, t) == Some(At(ss[n], t).e)
      {
        ProducersAfter(s, a, t);
      }
    }
  }

  /**
   * In every interleaving the consumer never takes from an empty list, and what it has handled, holds and has yet to
   * take is exactly the exits, stops and starts that producers have put in, in their order; nothing is handled after an
   * exit event.
   */
  lemma FirstInFirstOut(ss: seq<State>, actions: seq<Action>, n: nat)
    requires IsRun(ss, actions) && n < |ss|
    ensures ss[n].consumer != Crashed
    ensures ss[n].handled + InHand(ss[n].consumer) + ss[n].queue == ss[n].accepted == PutIn(actions, n)
    ensures ss[n].consumer == Waiting ==> ss[n].handled == PutIn(actions, n)
    ensures forall k | 0 <= k < |ss[n].handled| - 1 :: ss[n].handled[k].kind != Exit
  {
    hide Apply, Enabled, PutIn;
    RunInv(ss, actions, n);
    AcceptedIsPutIn(ss, actions, n);
  }

  // ----- what can happen -----

  ghost predicate Possible(s: State, actions: seq<Action>)
    decreases |actions|
  {
    actions == [] || (Enabled(s, actions[0]) && Possible(Apply(s, actions[0]), actions[1..]))
  }

  function Played(s: State, actions: seq<Action>): State
    requires Possible(s, actions)
    decreases |actions|
  {
    if actions == [] then s else Played(Apply(s, actions[0]), actions[1..])
  }

  lemma Next(s: State, a: Action, actions: seq<Action>)
    requires Enabled(s, a)
    ensures Possible(s, [a] + actions) <==> Possible(Apply(s, a), actions)
    ensures Possible(s, [a] + actions) ==> Played(s, [a] + actions) == Played(Apply(s, a), actions)
    ensures Possible(s, []) && Played(s, []) == s
  {
    hide Enabled, Apply;
    assert ([a] + actions)[1..] == actions;
  }

  /** An event of a kind that counts wakes the waiting consumer, who handles it. */
  lemma EventsAreHandled(ss: seq<State>, before: seq<Action>, n: nat, t: Tid, e: Event) returns (actions: seq<Action>)
    requires IsRun(ss, before) && n < |ss| && ss[n].mtx == None && ss[n].consumer == Waiting
    requires At(ss[n], t) == Idle && e.kind != Other
    ensures Possible(ss[n], actions)
    ensures var s, f := ss[n], Played(ss[n], actions);
            && f.handled == s.handled + [e] && f.queue == [] && f.mtx == None
            && f.consumer == if e.kind == Exit then Ended else Ready
  {
    hide Inv, Possible, Played;
    RunInv(ss, before, n);
    var s := ss[n];
    WaitsForEvents(s);
    var s1 := Apply(s, Arrive(t, e));
    var s2 := Apply(s1, ProducerLocks(t));
    var s3 := Apply(s2, Append(t));
    var s4 := Apply(s3, ProducerUnlocks(t));
    var s5 := Apply(s4, Reacquire);
    var s6 := Apply(s5, Pop);
    var s7 := Apply(s6, ConsumerUnlocks);
    var s8 := Apply(s7, Handled);
    Next(s7, Handled, []);
    Next(s6, ConsumerUnlocks, [Handled] + []);
    Next(s5, Pop, [ConsumerUnlocks] + ([Handled] + []));
    Next(s4, Reacquire, [Pop] + ([ConsumerUnlocks] + ([Handled] + [])));
    Next(s3, ProducerUnlocks(t), [Reacquire] + ([Pop] + ([ConsumerUnlocks] + ([Handled] + []))));
    Next(s2, Append(t), [ProducerUnlocks(t)] + ([Reacquire] + ([Pop] + ([ConsumerUnlocks] + ([Handled] + [])))));
    var rest := [Append(t)] + ([ProducerUnlocks(t)] + ([Reacquire] + ([Pop] + ([ConsumerUnlocks] + ([Handled] + [])))));
    Next(s1, ProducerLocks(t), rest);
    Next(s, Arrive(t, e), [ProducerLocks(t)] + rest);
    Nothing(s8);
    actions := [Arrive(t, e)] + ([ProducerLocks(t)] + rest);
  }

  lemma Nothing(s: State)
    ensures Possible(s, []) && Played(s, []) == s
  {
  }

  lemma WaitsForEvents(s: State)
    requires Inv(s) && s.consumer == Waiting
    ensures s.queue == []
  {
  }
}
