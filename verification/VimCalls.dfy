/**
 * `vimui::action` against `vimui::proc_reply`: threads send commands and function calls to vim while they hold the
 * interface lock, and a function call waits for its reply. Unlike `mi_issue_cmd`, the caller reads the reply after it
 * has given the reply lock back.
 *
 * vim answers every function call at most once; replies to anything else may arrive at any time.
 */
module VimCalls {
  import opened Options

  type Tid = nat

  /** A reply object, by the sequence number it answers. */
  datatype Reply = Null | Reply(number: nat)

  datatype Owner = Caller(tid: Tid) | ReaderThread

  datatype Pc =
    | Outside              // not in a window function
    | Inside               // holds `ui_mtx`, between two actions
    | Calling              // header and arguments of a function call sent
    | Locked               // holds `reply_mtx`
    | Sent                 // newline sent, about to wait
    | Waiting
    | Woken
    | Resumed              // holds `reply_mtx` again
    | Taking               // gave it back, reply not yet read

  datatype Reader =
    | Reading
    | Delivering(number: nat, reply: Reply)
    | Holding(number: nat, reply: Reply)

  datatype Completion = Completion(tid: Tid, number: nat, reply: Reply)

  datatype State = State(
    uiMtx: Option<Tid>,
    replyMtx: Option<Owner>,
    seqNum: nat,
    reply: Reply,
    pc: map<Tid, Pc>,
    calls: set<nat>,               // sequence numbers of all function calls
    wire: set<nat>,                // complete function calls without an answer
    reader: Reader,
    done: seq<Completion>
  )

  function Init(): State {
    State(None, None, 1, Null, map[], {}, {}, Reading, [])
  }

  function PcOf(s: State, t: Tid): Pc {
    if t in s.pc then s.pc[t] else Outside
  }

  function Goto(s: State, t: Tid, pc: Pc): State {
    s.(pc := s.pc[t := pc])
  }

  datatype Action =
    | Enter(t: Tid)
    | Leave(t: Tid)
    | Command(t: Tid)
    | Call(t: Tid)
    | LockReply(t: Tid)
    | Newline(t: Tid)
    | Wait(t: Tid)
    | Reacquire(t: Tid)
    | Unlock(t: Tid)
    | Take(t: Tid)
    | VimAnswers(number: nat)
    | Stray(number: nat)
    | ReaderLocks
    | ReaderDelivers(wake: Option<Tid>)

  ghost predicate MayWake(s: State, wake: Option<Tid>) {
    match wake
    case Some(t) => PcOf(s, t) == Waiting
    case None => forall t: Tid :: PcOf(s, t) != Waiting
  }

  ghost predicate Enabled(s: State, a: Action) {
    match a
    case Enter(t) => PcOf(s, t) == Outside && s.uiMtx == None
    case Leave(t) => PcOf(s, t) == Inside
    case Command(t) => PcOf(s, t) == Inside
    case Call(t) => PcOf(s, t) == Inside
    case LockReply(t) => PcOf(s, t) == Calling && s.replyMtx == None
    case Newline(t) => PcOf(s, t) == Locked
    case Wait(t) => PcOf(s, t) == Sent
    case Reacquire(t) => PcOf(s, t) == Woken && s.replyMtx == None
    case Unlock(t) => PcOf(s, t) == Resumed
    case Take(t) => PcOf(s, t) == Taking
    case VimAnswers(number) => s.reader == Reading && number in s.wire
    case Stray(number) => s.reader == Reading && number <= s.seqNum && number !in s.calls
    case ReaderLocks => s.reader.Delivering? && s.replyMtx == None
    case ReaderDelivers(wake) => s.reader.Holding? && (s.seqNum == s.reader.number ==> MayWake(s, wake))
  }

  function Apply(s: State, a: Action): State {
    match a
    case Enter(t) => Goto(s, t, Inside).(uiMtx := Some(t))
    case Leave(t) => Goto(s, t, Outside).(uiMtx := None)
    case Command(t) => s.(seqNum := s.seqNum + 1)
    case Call(t) => Goto(s, t, Calling).(seqNum := s.seqNum + 1, calls := s.calls + {s.seqNum + 1})
    case LockReply(t) => Goto(s, t, Locked).(replyMtx := Some(Caller(t)))
    case Newline(t) => Goto(s, t, Sent).(wire := s.wire + {s.seqNum})
    case Wait(t) => Goto(s, t, Waiting).(replyMtx := None)
    case Reacquire(t) => Goto(s, t, Resumed).(replyMtx := Some(Caller(t)))
    case Unlock(t) => Goto(s, t, Taking).(replyMtx := None)
    case Take(t) => Goto(s, t, Inside).(done := s.done + [Completion(t, s.seqNum, s.reply)])
    case VimAnswers(number) => s.(reader := Delivering(number, Reply(number)), wire := s.wire - {number})
    case Stray(number) => s.(reader := Delivering(number, Reply(number)))
    case ReaderLocks =>
      if s.reader.Delivering? then s.(reader := Holding(s.reader.number, s.reader.reply), replyMtx := Some(ReaderThread))
      else s
    case ReaderDelivers(wake) =>
      if !s.reader.Holding? then s
      else
        var s1 := s.(reader := Reading, replyMtx := None);
        if s.seqNum != s.reader.number then s1
        else
          var s2 := s1.(reply := s.reader.reply);
          if wake.Some? then Goto(s2, wake.value, Woken) else s2
  }

  // ----- invariant -----

  ghost predicate Locks(s: State) {
    (forall t: Tid :: PcOf(s, t) != Outside <==> s.uiMtx == Some(t)) &&
    (forall t: Tid :: PcOf(s, t) in {Locked, Sent, Resumed} <==> s.replyMtx == Some(Caller(t))) &&
    (s.reader.Holding? <==> s.replyMtx == Some(ReaderThread))
  }

  /** Nothing in the reader's hands answers a function call. */
  predicate Harmless(s: State) {
    (s.reader.Delivering? || s.reader.Holding?) ==> s.reader.number <= s.seqNum && s.reader.number !in s.calls
  }

  /** The reader holds the reply to the current call. */
  predicate AnswerInHand(s: State) {
    (s.reader.Delivering? || s.reader.Holding?) && s.reader.number == s.seqNum && s.reader.reply == Reply(s.seqNum)
  }

  ghost predicate Tracked(s: State, t: Tid) {
    match PcOf(s, t)
    case Outside => true
    case Inside => s.wire == {} && Harmless(s)
    case Calling => s.seqNum in s.calls && s.wire == {} && Harmless(s)
    case Locked => s.seqNum in s.calls && s.wire == {} && Harmless(s)
    case Sent => s.seqNum in s.calls && Outstanding(s) && !s.reader.Holding?
    case Waiting => s.seqNum in s.calls && Outstanding(s)
    case _ => s.seqNum in s.calls && s.reply == Reply(s.seqNum) && s.wire == {} && Harmless(s)
  }

  predicate Outstanding(s: State) {
    (s.wire == {s.seqNum} && Harmless(s)) || (s.wire == {} && AnswerInHand(s))
  }

  ghost predicate Quiet(s: State) {
    (s.uiMtx == None ==> s.wire == {} && Harmless(s)) && (forall n <- s.calls :: n <= s.seqNum)
  }

  ghost predicate Correct(s: State) {
    (forall c <- s.done :: c.reply == Reply(c.number) && c.number in s.calls && c.number <= s.seqNum) &&
    (forall k, l | 0 <= k < l < |s.done| :: s.done[k].number < s.done[l].number) &&
    (forall t: Tid :: PcOf(s, t) in {Calling, Locked, Sent, Waiting, Woken, Resumed, Taking} ==>
                        forall c <- s.done :: c.number < s.seqNum)
  }

  ghost predicate Inv(s: State) {
    Locks(s) && (forall t: Tid :: Tracked(s, t)) && Quiet(s) && Correct(s)
  }

  lemma InitInv()
    ensures Inv(Init())
  {
  }

  lemma PcAfter(s: State, a: Action, t: Tid)
    requires Locks(s) && Enabled(s, a)
    ensures var was, now := PcOf(s, t), PcOf(Apply(s, a), t);
            now == match a
                   case Enter(u) => if u == t then Inside else was
                   case Leave(u) => if u == t then Outside else was
                   case Call(u) => if u == t then Calling else was
                   case LockReply(u) => if u == t then Locked else was
                   case Newline(u) => if u == t then Sent else was
                   case Wait(u) => if u == t then Waiting else was
                   case Reacquire(u) => if u == t then Resumed else was
                   case Unlock(u) => if u == t then Taking else was
                   case Take(u) => if u == t then Inside else was
                   case ReaderDelivers(wake) => if s.seqNum == s.reader.number && was == Waiting then Woken else was
                   case _ => was
    ensures PcOf(s, t) != Outside <==> s.uiMtx == Some(t)
  {
    if a.ReaderDelivers? && a.wake.Some? {
      assert s.seqNum == s.reader.number ==> PcOf(s, a.wake.value) == Waiting;
    }
  }

  lemma StepLocks(s: State, a: Action)
    requires Inv(s) && Enabled(s, a)
    ensures Locks(Apply(s, a))
  {
    forall t: Tid
      ensures PcOf(Apply(s, a), t) != Outside <==> Apply(s, a).uiMtx == Some(t)
      ensures PcOf(Apply(s, a), t) in {Locked, Sent, Resumed} <==> Apply(s, a).replyMtx == Some(Caller(t))
    {
      PcAfter(s, a, t);
    }
  }

  lemma StepTracked(s: State, a: Action, t: Tid)
    requires Inv(s) && Enabled(s, a)
    ensures Tracked(Apply(s, a), t)
  {
    hide Correct;
    PcAfter(s, a, t);
    assert Tracked(s, t);
  }

  lemma StepQuiet(s: State, a: Action)
    requires Inv(s) && Enabled(s, a)
    ensures Quiet(Apply(s, a))
  {
    hide Correct;
    if a.Leave? {
      assert Tracked(s, a.t);
    }
  }

  lemma StepCorrect(s: State, a: Action)
    requires Inv(s) && Enabled(s, a)
    ensures Correct(Apply(s, a))
  {
    if a.Take? {
      assert Tracked(s, a.t);
    }
    forall t: Tid | PcOf(Apply(s, a), t) in {Calling, Locked, Sent, Waiting, Woken, Resumed, Taking}
      ensures forall c <- Apply(s, a).done :: c.number < Apply(s, a).seqNum
    {
      PcAfter(s, a, t);
    }
  }

  lemma StepInv(s: State, a: Action)
    requires Inv(s) && Enabled(s, a)
    ensures Inv(Apply(s, a))
  {
    hide Locks, Tracked, Quiet, Correct, Enabled, Apply;
    StepLocks(s, a);
    StepQuiet(s, a);
    StepCorrect(s, a);
    forall t: Tid
      ensures Tracked(Apply(s, a), t)
    {
      StepTracked(s, a, t);
    }
  }

  // ----- runs -----

  ghost predicate IsRun(ss: seq<State>, actions: seq<Action>) {
    |ss| == |actions| + 1 && ss[0] == Init() &&
    forall i | 0 <= i < |actions| :: Enabled(ss[i], actions[i]) && ss[i + 1] == Apply(ss[i], actions[i])
  }

  lemma {:induction false} RunInv(ss: seq<State>, actions: seq<Action>, n: nat)
    requires IsRun(ss, actions) && n < |ss|
    ensures Inv(ss[n])
  {
    hide Inv, Apply, Enabled;
    if n == 0 {
      InitInv();
    } else {
      RunInv(ss, actions, n - 1);
      StepInv(ss[n - 1], actions[n - 1]);
    }
  }

  /** The commands and calls among the first `n` actions. */
  function Numbered(actions: seq<Action>, n: nat): nat
    requires n <= |actions|
  {
    if n == 0 then 0 else Numbered(actions, n - 1) + if actions[n - 1].Command? || actions[n - 1].Call? then 1 else 0
  }

  /** The thread makes the call with this number before the `n`-th action. */
  ghost predicate CalledBy(actions: seq<Action>, n: nat, number: nat, t: Tid)
    requires n <= |actions|
  {
    exists i | 0 <= i < n :: actions[i] == Call(t) && Numbered(actions, i) + 2 == number
  }

  predicate InCall(pc: Pc) {
    pc != Outside && pc != Inside
  }

  lemma CalledLater(actions: seq<Action>, n: nat, number: nat, t: Tid)
    requires n < |actions|
    requires CalledBy(actions, n, number, t) || (actions[n] == Call(t) && Numbered(actions, n) + 2 == number)
    ensures CalledBy(actions, n + 1, number, t)
  {
  }

  /** What an action does to numbers and history. */
  lemma HistoryAfter(s: State, a: Action)
    ensures var n := Apply(s, a);
            && n.seqNum == (if a.Command? || a.Call? then s.seqNum + 1 else s.seqNum)
            && n.done == if a.Take? then s.done + [Completion(a.t, s.seqNum, s.reply)] else s.done
  {
    match a
    case Enter(t) =>
    case Leave(t) =>
    case Command(t) =>
    case Call(t) =>
    case LockReply(t) =>
    case Newline(t) =>
    case Wait(t) =>
    case Reacquire(t) =>
    case Unlock(t) =>
    case Take(t) =>
    case VimAnswers(number) =>
    case Stray(number) =>
    case ReaderLocks =>
    case ReaderDelivers(wake) =>
  }

  /** A number is taken by whoever holds the interface lock. */
  lemma OneCaller(s: State, a: Action, t: Tid)
    requires Inv(s) && Enabled(s, a) && InCall(PcOf(Apply(s, a), t))
    ensures a == Call(t) || (InCall(PcOf(s, t)) && !a.Command? && !a.Call?)
  {
    hide Tracked, Quiet, Correct, Apply;
    PcAfter(s, a, t);
  }

  lemma Takes(s: State, a: Action)
    requires Enabled(s, a)
    ensures a.Take? ==> PcOf(s, a.t) == Taking
  {
  }

  /** The numbers count commands and calls, and whoever is in a call made the one with the current number. */
  lemma {:induction false} Happened(ss: seq<State>, actions: seq<Action>, n: nat)
    requires IsRun(ss, actions) && n < |ss|
    ensures ss[n].seqNum == 1 + Numbered(actions, n)
    ensures forall t: Tid | InCall(PcOf(ss[n], t)) :: CalledBy(actions, n, ss[n].seqNum, t)
    ensures forall c <- ss[n].done :: CalledBy(actions, n, c.number, c.tid)
  {
    hide Apply, Enabled, Inv, CalledBy;
    if n > 0 {
      var s, a := ss[n - 1], actions[n - 1];
      Happened(ss, actions, n - 1);
      RunInv(ss, actions, n - 1);
      assert Enabled(s, a) && ss[n] == Apply(s, a);
      HistoryAfter(s, a);
      Takes(s, a);
      forall t: Tid | InCall(PcOf(ss[n], t))
        ensures CalledBy(actions, n, ss[n].seqNum, t)
      {
        OneCaller(s, a, t);
        CalledLater(actions, n - 1, ss[n].seqNum, t);
      }
      forall c <- ss[n].done
        ensures CalledBy(actions, n, c.number, c.tid)
      {
        CalledLater(actions, n - 1, c.number, c.tid);
      }
    }
  }

  /**
   * In every interleaving each completed function call was made by the thread itself and took the reply with its own
   * sequence number; numbers count all commands and calls.
   */
  lemma CallsGetTheirReplies(ss: seq<State>, actions: seq<Action>, n: nat)
    requires IsRun(ss, actions) && n < |ss|
    ensures ss[n].seqNum == 1 + Numbered(actions, n)
    ensures forall k | 0 <= k < |ss[n].done| :: ss[n].done[k].reply == Reply(ss[n].done[k].number)
    ensures forall k | 0 <= k < |ss[n].done| :: CalledBy(actions, n, ss[n].done[k].number, ss[n].done[k].tid)
    ensures forall k, l | 0 <= k < l < |ss[n].done| :: ss[n].done[k].number < ss[n].done[l].number
  {
    hide Apply, Enabled, Locks, Tracked, Quiet, CalledBy;
    RunInv(ss, actions, n);
    Happened(ss, actions, n);
  }

  /** Between the signal and the moment the caller reads it, nothing replaces the reply. */
  lemma ReplyIsStable(ss: seq<State>, actions: seq<Action>, n: nat, t: Tid)
    requires IsRun(ss, actions) && n < |actions|
    requires PcOf(ss[n], t) in {Woken, Resumed, Taking}
    ensures ss[n + 1].reply == ss[n].reply == Reply(ss[n].seqNum)
  {
    hide Correct;
    RunInv(ss, actions, n);
    var s := ss[n];
    assert Tracked(s, t);
    assert Enabled(s, actions[n]) && ss[n + 1] == Apply(s, actions[n]);
  }

  // ----- what can happen -----

  ghost predicate Possible(s: State, actions: seq<Action>)
    decreases |actions|
  {
    actions == [] || (Enabled(s, actions[0]) && Possible(Apply(s, actions[0]), actions[1..]))
  }

  function Played(s: State, actions: seq<Action>): State
    decreases |actions|
  {
    if actions == [] then s else Played(Apply(s, actions[0]), actions[1..])
  }

  lemma Next(s: State, a: Action, actions: seq<Action>)
    ensures Possible(s, [a] + actions) <==> Enabled(s, a) && Possible(Apply(s, a), actions)
    ensures Played(s, [a] + actions) == Played(Apply(s, a), actions)
    ensures Possible(s, []) && Played(s, []) == s
  {
    hide Enabled, Apply;
    assert ([a] + actions)[1..] == actions;
  }

  /** The thread makes a call and waits. */
  lemma CanCall(s: State, t: Tid, rest: seq<Action>)
    requires PcOf(s, t) == Inside && s.replyMtx == None
    ensures var w := Goto(s, t, Waiting).(seqNum := s.seqNum + 1, calls := s.calls + {s.seqNum + 1},
                                           wire := s.wire + {s.seqNum + 1}, replyMtx := None);
            Possible(w, rest) ==>
              var all := [Call(t)] + ([LockReply(t)] + ([Newline(t)] + ([Wait(t)] + rest)));
              Possible(s, all) && Played(s, all) == Played(w, rest)
  {
    hide Possible, Played;
    var s1 := Apply(s, Call(t));
    var s2 := Apply(s1, LockReply(t));
    var s3 := Apply(s2, Newline(t));
    assert s.pc[t := Calling][t := Locked][t := Sent][t := Waiting] == s.pc[t := Waiting];
    Next(s3, Wait(t), rest);
    Next(s2, Newline(t), [Wait(t)] + rest);
    Next(s1, LockReply(t), [Newline(t)] + ([Wait(t)] + rest));
    Next(s, Call(t), [LockReply(t)] + ([Newline(t)] + ([Wait(t)] + rest)));
  }

  /** vim answers, and the reader hands the reply in. */
  lemma CanReply(w: State, t: Tid, rest: seq<Action>)
    requires PcOf(w, t) == Waiting && w.replyMtx == None && w.reader == Reading && w.seqNum in w.wire
    ensures var n := w.seqNum;
            var d := Goto(w, t, Woken).(reply := Reply(n), wire := w.wire - {n});
            Possible(d, rest) ==>
              var all := [VimAnswers(n)] + ([ReaderLocks] + ([ReaderDelivers(Some(t))] + rest));
              Possible(w, all) && Played(w, all) == Played(d, rest)
  {
    hide Possible, Played;
    var n := w.seqNum;
    var s1 := Apply(w, VimAnswers(n));
    var s2 := Apply(s1, ReaderLocks);
    Next(s2, ReaderDelivers(Some(t)), rest);
    Next(s1, ReaderLocks, [ReaderDelivers(Some(t))] + rest);
    Next(w, VimAnswers(n), [ReaderLocks] + ([ReaderDelivers(Some(t))] + rest));
  }

  /** The thread takes it. */
  lemma CanTake(d: State, t: Tid, rest: seq<Action>)
    requires PcOf(d, t) == Woken && d.replyMtx == None
    ensures var f := Goto(d, t, Inside).(done := d.done + [Completion(t, d.seqNum, d.reply)]);
            Possible(f, rest) ==>
              var all := [Reacquire(t)] + ([Unlock(t)] + ([Take(t)] + rest));
              Possible(d, all) && Played(d, all) == Played(f, rest)
  {
    hide Possible, Played;
    var s1 := Apply(d, Reacquire(t));
    var s2 := Apply(s1, Unlock(t));
    assert d.pc[t := Resumed][t := Taking][t := Inside] == d.pc[t := Inside];
    Next(s2, Take(t), rest);
    Next(s1, Unlock(t), [Take(t)] + rest);
    Next(d, Reacquire(t), [Unlock(t)] + ([Take(t)] + rest));
  }

  /** Whenever nobody is in a window function and the reader is free, any thread can make a call and complete it. */
  lemma AnyoneCanCall(ss: seq<State>, before: seq<Action>, n: nat, t: Tid) returns (actions: seq<Action>)
    requires IsRun(ss, before) && n < |ss| && ss[n].uiMtx == None && ss[n].reader == Reading
    ensures Possible(ss[n], actions)
    ensures var s, f := ss[n], Played(ss[n], actions);
            && f.uiMtx == None && f.reader == Reading
            && f.done == s.done + [Completion(t, s.seqNum + 1, Reply(s.seqNum + 1))]
  {
    hide Inv, Apply, Enabled, Possible, Played;
    RunInv(ss, before, n);
    var s := ss[n];
    NobodyInside(s, t);
    var i := Goto(s, t, Inside).(uiMtx := Some(t));
    var w := Goto(i, t, Waiting).(seqNum := i.seqNum + 1, calls := i.calls + {i.seqNum + 1},
                                   wire := i.wire + {i.seqNum + 1}, replyMtx := None);
    var d := Goto(w, t, Woken).(reply := Reply(w.seqNum), wire := w.wire - {w.seqNum});
    var f := Goto(d, t, Inside).(done := d.done + [Completion(t, d.seqNum, d.reply)]);
    var third := [Reacquire(t)] + ([Unlock(t)] + ([Take(t)] + [Leave(t)]));
    var second := [VimAnswers(w.seqNum)] + ([ReaderLocks] + ([ReaderDelivers(Some(t))] + third));
    Leaves(f, t);
    CanTake(d, t, [Leave(t)]);
    CanReply(w, t, third);
    CanCall(i, t, second);
    var first := [Call(t)] + ([LockReply(t)] + ([Newline(t)] + ([Wait(t)] + second)));
    Next(s, Enter(t), first);
    Enters(s, t);
    actions := [Enter(t)] + first;
  }

  lemma NobodyInside(s: State, t: Tid)
    requires Inv(s) && s.uiMtx == None && s.reader == Reading
    ensures PcOf(s, t) == Outside && s.replyMtx == None
  {
    hide Tracked, Quiet, Correct;
    if s.replyMtx.Some? && s.replyMtx.value.Caller? {
      HolderInside(s, s.replyMtx.value.tid);
      assert false;
    }
  }

  lemma HolderInside(s: State, u: Tid)
    requires Locks(s) && s.replyMtx == Some(Caller(u))
    ensures s.uiMtx == Some(u)
  {
    assert PcOf(s, u) in {Locked, Sent, Resumed};
  }

  lemma Enters(s: State, t: Tid)
    requires PcOf(s, t) == Outside && s.uiMtx == None
    ensures Enabled(s, Enter(t)) && Apply(s, Enter(t)) == Goto(s, t, Inside).(uiMtx := Some(t))
  {
  }

  lemma Leaves(s: State, t: Tid)
    requires PcOf(s, t) == Inside
    ensures Possible(s, [Leave(t)]) && Played(s, [Leave(t)]) == Goto(s, t, Outside).(uiMtx := None)
  {
    hide Possible, Played;
    assert [Leave(t)] + [] == [Leave(t)];
    Next(s, Leave(t), []);
    Next(Apply(s, Leave(t)), Leave(t), []);
  }
}
