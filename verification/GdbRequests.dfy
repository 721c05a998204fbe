/**
 * `mi_issue_cmd` against `mi_proc_result`: any number of threads issue commands, one reader thread hands in what gdb
 * answers. Every step of a thread between two operations on shared state is one action; a run is any interleaving.
 *
 * gdb answers every complete request at most once, waiting threads wake up only when signalled, and the reader may
 * also hand in records that answer no request (with a token below the current one) and, once, the exit record.
 */
module GdbRequests {
  import opened Options

  type Tid = nat

  datatype Class = Done | Running | Error | Exit

  /** The result object; `request` is the number of the request it answers. */
  datatype Result = Null | Result(request: nat)

  datatype Record = Record(cls: Class, token: nat, result: Result)

  datatype Response = Response(cls: Class, result: Result)

  datatype Owner = Issuer(tid: Tid) | ReaderThread

  /** Program counter of a thread in `mi_issue_cmd`. */
  datatype Pc =
    | Idle
    | Writing              // holds `m`, writes token, command and arguments
    | Locked               // also holds `resp_mtx`, newline not yet written
    | Sent                 // newline written, about to wait
    | Waiting              // in `pthread_cond_wait`, `resp_mtx` released
    | Woken                // signalled, has to get `resp_mtx` back
    | Resumed              // holds `resp_mtx` again

  datatype Reader =
    | Reading
    | Delivering(record: Record)   // in `mi_proc_result`, before the lock
    | Holding(record: Record)      // holds `resp_mtx`
    | Gone                         // handed in the exit record

  /** What `mi_issue_cmd` knows when it has made its copy of the response, what it returns and what it hands out. */
  datatype Completion = Completion(tid: Tid, token: nat, request: nat, response: Response, status: int, handed: Option<Result>)

  datatype State = State(
    m: Option<Tid>,
    respMtx: Option<Owner>,
    token: nat,
    resp: Response,
    pc: map<Tid, Pc>,
    line: Option<nat>,             // token at the start of the unfinished line on gdb's terminal
    begun: nat,                    // commands begun on that line
    sent: nat,                     // number of complete requests
    merged: map<nat, nat>,         // commands begun on the line of each request
    issued: map<Tid, nat>,         // the last request of each thread
    wire: map<nat, nat>,           // unanswered requests and their tokens
    given: map<nat, Class>,        // the requests gdb has answered, and how
    reader: Reader,
    done: seq<Completion>
  )

  function PcOf(s: State, t: Tid): Pc {
    if t in s.pc then s.pc[t] else Idle
  }

  function Goto(s: State, t: Tid, pc: Pc): State {
    s.(pc := s.pc[t := pc])
  }

  function Init(): State {
    State(None, None, 1, Response(Done, Null), map[], None, 0, 0, map[], map[], map[], map[], Reading, [])
  }

  datatype Action =
    | Start(t: Tid)                            // lock `m`, write the token
    | BadFormat(t: Tid)                        // unknown conversion: unlock `m` and give up
    | LockResp(t: Tid)
    | Newline(t: Tid)
    | Wait(t: Tid)
    | Reacquire(t: Tid)
    | Finish(t: Tid)                           // copy the response, next token, unlock both
    | GdbAnswers(request: nat, cls: Class)
    | Stray(record: Record)                    // parse errors, records without a token
    | Shutdown                                 // the terminal is closed
    | ReaderLocks
    | ReaderDelivers(wake: Option<Tid>)

  predicate Accepts(s: State, r: Record) {
    s.token == r.token || r.cls == Exit
  }

  /** `pthread_cond_signal` wakes a waiting thread if there is one. */
  ghost predicate MayWake(s: State, wake: Option<Tid>) {
    match wake
    case Some(t) => PcOf(s, t) == Waiting
    case None => forall t: Tid :: PcOf(s, t) != Waiting
  }

  ghost predicate Enabled(s: State, a: Action) {
    match a
    case Start(t) => PcOf(s, t) == Idle && s.m == None
    case BadFormat(t) => PcOf(s, t) == Writing
    case LockResp(t) => PcOf(s, t) == Writing && s.respMtx == None
    case Newline(t) => PcOf(s, t) == Locked && s.line.Some?
    case Wait(t) => PcOf(s, t) == Sent
    case Reacquire(t) => PcOf(s, t) == Woken && s.respMtx == None
    case Finish(t) => PcOf(s, t) == Resumed && t in s.issued
    case GdbAnswers(request, cls) => s.reader == Reading && request in s.wire && cls != Exit
    case Stray(record) => s.reader == Reading && record.cls != Exit && record.token < s.token
    case Shutdown => s.reader == Reading
    case ReaderLocks => s.reader.Delivering? && s.respMtx == None
    case ReaderDelivers(wake) => s.reader.Holding? && (Accepts(s, s.reader.record) ==> MayWake(s, wake))
  }

  function Apply(s: State, a: Action): State {
    match a
    case Start(t) =>
      Goto(s, t, Writing).(m := Some(t), line := if s.line == None then Some(s.token) else s.line, begun := s.begun + 1)
    case BadFormat(t) =>
      Goto(s, t, Idle).(m := None)
    case LockResp(t) =>
      Goto(s, t, Locked).(respMtx := Some(Issuer(t)))
    case Newline(t) =>
      Goto(s, t, Sent).(line := None, begun := 0, sent := s.sent + 1, issued := s.issued[t := s.sent],
                        merged := s.merged[s.sent := s.begun],
                        wire := s.wire[s.sent := if s.line.Some? then s.line.value else 0])
    case Wait(t) =>
      Goto(s, t, Waiting).(respMtx := None)
    case Reacquire(t) =>
      Goto(s, t, Resumed).(respMtx := Some(Issuer(t)))
    case Finish(t) =>
      Goto(s, t, Idle).(token := s.token + 1, m := None, respMtx := None,
                        done := s.done + [Completion(t, s.token, if t in s.issued then s.issued[t] else 0, s.resp,
                                                     if s.resp.cls == Error || s.resp.cls == Exit then -1 else 0,
                                                     if s.resp.cls != Error then Some(s.resp.result) else None)])
    case GdbAnswers(request, cls) =>
      s.(reader := Delivering(Record(cls, if request in s.wire then s.wire[request] else 0, Result(request))),
         wire := s.wire - {request}, given := s.given[request := cls])
    case Stray(record) =>
      s.(reader := Delivering(record))
    case Shutdown =>
      s.(reader := Delivering(Record(Exit, 0, Null)))
    case ReaderLocks =>
      if s.reader.Delivering? then s.(reader := Holding(s.reader.record), respMtx := Some(ReaderThread)) else s
    case ReaderDelivers(wake) =>
      if !s.reader.Holding? then s
      else
        var r := s.reader.record;
        var s1 := s.(reader := if r.cls == Exit then Gone else Reading, respMtx := None);
        if !Accepts(s, r) then s1
        else
          var s2 := s1.(resp := Response(r.cls, r.result));
          if wake.Some? then Goto(s2, wake.value, Woken) else s2
  }

  // ----- invariant -----

  /** Mutual exclusion: what a thread's position says about the two mutexes. */
  ghost predicate Locks(s: State) {
    (forall t: Tid :: PcOf(s, t) != Idle <==> s.m == Some(t)) &&
    (forall t: Tid :: PcOf(s, t) in {Locked, Sent, Resumed} <==> s.respMtx == Some(Issuer(t))) &&
    (s.reader.Holding? <==> s.respMtx == Some(ReaderThread))
  }

  /** The unfinished line starts with the current token. */
  ghost predicate Line(s: State) {
    (s.line.Some? ==> s.line.value == s.token) && (s.line.Some? <==> s.begun > 0) &&
    (forall t: Tid :: PcOf(s, t) in {Writing, Locked} ==> s.line == Some(s.token)) &&
    (forall t: Tid :: PcOf(s, t) in {Sent, Waiting, Woken, Resumed} ==> s.line == None)
  }

  predicate Pending(r: Reader) {
    r.Delivering? || r.Holding?
  }

  /** The record in the reader's hands, if any, is the answer to request `n` under token `tok`. */
  predicate AnswerInHand(s: State, n: nat, tok: nat) {
    && Pending(s.reader) && s.reader.record.token == tok && s.reader.record.cls != Exit && s.reader.record.result == Result(n)
    && n in s.given && s.given[n] == s.reader.record.cls
  }

  /** A record that the token check will drop, or the exit record. */
  predicate Harmless(s: State) {
    Pending(s.reader) ==> s.reader.record.cls == Exit || s.reader.record.token < s.token
  }

  /** Where the answer to the request of thread `t` is. */
  ghost predicate Tracked(s: State, t: Tid) {
    match PcOf(s, t)
    case Idle => true
    case Writing => s.reader != Gone ==> s.wire == map[] && Harmless(s)
    case Locked => s.reader != Gone ==> s.wire == map[] && Harmless(s)
    case Sent => Outstanding(s, t) && !s.reader.Holding?
    case Waiting => Outstanding(s, t)
    case Woken => Answered(s, t)
    case Resumed => Answered(s, t)
  }

  /** The request is on the wire and nothing that would be accepted is in hand, or its answer is in hand. */
  ghost predicate Outstanding(s: State, t: Tid) {
    t in s.issued &&
    (s.reader != Gone ==>
       || (s.wire == map[s.issued[t] := s.token] && Harmless(s))
       || (s.wire == map[] && AnswerInHand(s, s.issued[t], s.token)))
  }

  ghost predicate Answered(s: State, t: Tid) {
    t in s.issued &&
    (s.resp.cls == Exit ==> s.reader == Gone) &&
    (s.resp.cls != Exit ==>
       s.resp.result == Result(s.issued[t]) && s.issued[t] in s.given && s.given[s.issued[t]] == s.resp.cls) &&
    (s.reader != Gone ==> s.wire == map[] && Harmless(s))
  }

  /** While nobody is in `mi_issue_cmd` nothing is outstanding. */
  ghost predicate Quiet(s: State) {
    s.m == None && s.reader != Gone ==> s.wire == map[] && Harmless(s)
  }

  /** gdb answers a request at most once, and only complete ones. */
  ghost predicate Unanswered(s: State) {
    (forall r <- s.given :: r < s.sent) && (forall r <- s.wire :: r < s.sent && r !in s.given)
  }

  /** The command that the exit record cut short is the last one to complete. */
  ghost predicate Ending(s: State) {
    && (forall k | 0 <= k < |s.done| - 1 :: s.done[k].response.cls != Exit)
    && (s.done != [] && s.done[|s.done| - 1].response.cls == Exit ==>
          s.reader == Gone && forall t: Tid :: PcOf(s, t) != Woken && PcOf(s, t) != Resumed)
  }

  /** Completed commands carry the answers to their own requests and used up the tokens 1, 2, 3, ... */
  ghost predicate Correct(s: State) {
    s.token == |s.done| + 1 &&
    (forall k | 0 <= k < |s.done| :: s.done[k].token == k + 1) &&
    (forall c <- s.done :: c.response.cls != Exit ==>
       c.response.result == Result(c.request) && c.request in s.given && s.given[c.request] == c.response.cls) &&
    (forall c <- s.done :: c.status == (if c.response.cls in {Error, Exit} then -1 else 0)) &&
    (forall c <- s.done :: c.handed == if c.response.cls == Error then None else Some(c.response.result))
  }

  /** Requests are numbered in the order in which they are completed. */
  ghost predicate Numbered(s: State) {
    (forall k, l | 0 <= k < l < |s.done| :: s.done[k].request < s.done[l].request) &&
    (forall c <- s.done :: c.request < s.sent) &&
    (forall t: Tid :: PcOf(s, t) in {Sent, Waiting, Woken, Resumed} ==>
                        t in s.issued && s.issued[t] == s.sent - 1 && forall c <- s.done :: c.request < s.issued[t])
  }

  ghost predicate Inv(s: State) {
    && Locks(s) && Line(s) && (forall t: Tid :: Tracked(s, t)) && Quiet(s) && Correct(s) && Numbered(s)
    && Unanswered(s) && Ending(s)
  }

  lemma InitInv()
    ensures Inv(Init())
  {
  }

  /** What an action does to the position of one thread, and to whom it can happen. */
  lemma PcAfter(s: State, a: Action, t: Tid)
    requires Locks(s) && Enabled(s, a)
    ensures var was, now := PcOf(s, t), PcOf(Apply(s, a), t);
            now == match a
                   case Start(u) => if u == t then Writing else was
                   case BadFormat(u) => if u == t then Idle else was
                   case LockResp(u) => if u == t then Locked else was
                   case Newline(u) => if u == t then Sent else was
                   case Wait(u) => if u == t then Waiting else was
                   case Reacquire(u) => if u == t then Resumed else was
                   case Finish(u) => if u == t then Idle else was
                   case ReaderDelivers(wake) => if Accepts(s, s.reader.record) && was == Waiting then Woken else was
                   case _ => was
    ensures PcOf(s, t) != Idle <==> s.m == Some(t)
  {
    if a.ReaderDelivers? && a.wake.Some? {
      assert Accepts(s, s.reader.record) ==> PcOf(s, a.wake.value) == Waiting;
    }
  }

  /** What an action does to the history of requests and completions. */
  lemma HistoryAfter(s: State, a: Action)
    requires Enabled(s, a)
    ensures var n := Apply(s, a);
            && n.token == (if a.Finish? then s.token + 1 else s.token)
            && n.sent == (if a.Newline? then s.sent + 1 else s.sent)
            && n.issued == (if a.Newline? then s.issued[a.t := s.sent] else s.issued)
            && n.given == (if a.GdbAnswers? then s.given[a.request := a.cls] else s.given)
            && n.done == if !a.Finish? then s.done
                         else s.done + [Completion(a.t, s.token, s.issued[a.t], s.resp,
                                                   if s.resp.cls == Error || s.resp.cls == Exit then -1 else 0,
                                                   if s.resp.cls != Error then Some(s.resp.result) else None)]
  {
    hide Apply, MayWake, Accepts;
    RequestsAfter(s, a);
    GivenAfter(s, a);
    DoneAfter(s, a);
  }

  lemma RequestsAfter(s: State, a: Action)
    ensures var n := Apply(s, a);
            && n.sent == (if a.Newline? then s.sent + 1 else s.sent)
            && n.issued == (if a.Newline? then s.issued[a.t := s.sent] else s.issued)
  {
    match a
    case Start(t) =>
    case BadFormat(t) =>
    case LockResp(t) =>
    case Newline(t) =>
    case Wait(t) =>
    case Reacquire(t) =>
    case Finish(t) =>
    case GdbAnswers(request, cls) =>
    case Stray(record) =>
    case Shutdown =>
    case ReaderLocks =>
    case ReaderDelivers(wake) =>
  }

  lemma GivenAfter(s: State, a: Action)
    ensures Apply(s, a).given == if a.GdbAnswers? then s.given[a.request := a.cls] else s.given
  {
    match a
    case Start(t) =>
    case BadFormat(t) =>
    case LockResp(t) =>
    case Newline(t) =>
    case Wait(t) =>
    case Reacquire(t) =>
    case Finish(t) =>
    case GdbAnswers(request, cls) =>
    case Stray(record) =>
    case Shutdown =>
    case ReaderLocks =>
    case ReaderDelivers(wake) =>
  }

  lemma DoneAfter(s: State, a: Action)
    requires a.Finish? ==> a.t in s.issued
    ensures var n := Apply(s, a);
            && n.token == (if a.Finish? then s.token + 1 else s.token)
            && n.done == if !a.Finish? then s.done
                         else s.done + [Completion(a.t, s.token, s.issued[a.t], s.resp,
                                                   if s.resp.cls == Error || s.resp.cls == Exit then -1 else 0,
                                                   if s.resp.cls != Error then Some(s.resp.result) else None)]
  {
    match a
    case Start(t) =>
    case BadFormat(t) =>
    case LockResp(t) =>
    case Newline(t) =>
    case Wait(t) =>
    case Reacquire(t) =>
    case Finish(t) =>
    case GdbAnswers(request, cls) =>
    case Stray(record) =>
    case Shutdown =>
    case ReaderLocks =>
    case ReaderDelivers(wake) =>
  }

  /** What it does to the unfinished line, the wire, the reader and the response. */
  lemma TrafficAfter(s: State, a: Action)
    requires Enabled(s, a)
    ensures var n := Apply(s, a);
            && n.m == (match a case Start(t) => Some(t) case BadFormat(_) => None case Finish(_) => None case _ => s.m)
            && n.line == (match a
                          case Start(_) => if s.line == None then Some(s.token) else s.line
                          case Newline(_) => None
                          case _ => s.line)
            && n.begun == (match a case Start(_) => s.begun + 1 case Newline(_) => 0 case _ => s.begun)
            && n.wire == (match a
                          case Newline(_) => s.wire[s.sent := s.line.value]
                          case GdbAnswers(request, _) => s.wire - {request}
                          case _ => s.wire)
            && n.reader == (match a
                            case GdbAnswers(request, cls) => Delivering(Record(cls, s.wire[request], Result(request)))
                            case Stray(record) => Delivering(record)
                            case Shutdown => Delivering(Record(Exit, 0, Null))
                            case ReaderLocks => Holding(s.reader.record)
                            case ReaderDelivers(_) => if s.reader.record.cls == Exit then Gone else Reading
                            case _ => s.reader)
            && n.resp == if a.ReaderDelivers? && Accepts(s, s.reader.record) then
                           Response(s.reader.record.cls, s.reader.record.result)
                         else s.resp
  {
    hide Apply, MayWake, Accepts;
    MutexAfter(s, a);
    LineAfter(s, a);
    WireAfter(s, a);
    ReaderAfter(s, a);
  }

  lemma MutexAfter(s: State, a: Action)
    ensures Apply(s, a).m ==
            match a case Start(t) => Some(t) case BadFormat(_) => None case Finish(_) => None case _ => s.m
  {
    match a
    case Start(t) =>
    case BadFormat(t) =>
    case LockResp(t) =>
    case Newline(t) =>
    case Wait(t) =>
    case Reacquire(t) =>
    case Finish(t) =>
    case GdbAnswers(request, cls) =>
    case Stray(record) =>
    case Shutdown =>
    case ReaderLocks =>
    case ReaderDelivers(wake) =>
  }

  lemma LineAfter(s: State, a: Action)
    ensures var n := Apply(s, a);
            && n.line == (match a
                          case Start(_) => if s.line == None then Some(s.token) else s.line
                          case Newline(_) => None
                          case _ => s.line)
            && n.begun == match a case Start(_) => s.begun + 1 case Newline(_) => 0 case _ => s.begun
  {
    match a
    case Start(t) =>
    case BadFormat(t) =>
    case LockResp(t) =>
    case Newline(t) =>
    case Wait(t) =>
    case Reacquire(t) =>
    case Finish(t) =>
    case GdbAnswers(request, cls) =>
    case Stray(record) =>
    case Shutdown =>
    case ReaderLocks =>
    case ReaderDelivers(wake) =>
  }

  lemma MergedAfter(s: State, a: Action)
    ensures Apply(s, a).merged == if a.Newline? then s.merged[s.sent := s.begun] else s.merged
  {
    match a
    case Start(t) =>
    case BadFormat(t) =>
    case LockResp(t) =>
    case Newline(t) =>
    case Wait(t) =>
    case Reacquire(t) =>
    case Finish(t) =>
    case GdbAnswers(request, cls) =>
    case Stray(record) =>
    case Shutdown =>
    case ReaderLocks =>
    case ReaderDelivers(wake) =>
  }

  lemma WireAfter(s: State, a: Action)
    requires a.Newline? ==> s.line.Some?
    ensures Apply(s, a).wire == match a
                                case Newline(_) => s.wire[s.sent := s.line.value]
                                case GdbAnswers(request, _) => s.wire - {request}
                                case _ => s.wire
  {
    match a
    case Start(t) =>
    case BadFormat(t) =>
    case LockResp(t) =>
    case Newline(t) =>
    case Wait(t) =>
    case Reacquire(t) =>
    case Finish(t) =>
    case GdbAnswers(request, cls) =>
    case Stray(record) =>
    case Shutdown =>
    case ReaderLocks =>
    case ReaderDelivers(wake) =>
  }

  lemma ReaderAfter(s: State, a: Action)
    requires a.GdbAnswers? ==> a.request in s.wire
    requires (a.ReaderLocks? ==> s.reader.Delivering?) && (a.ReaderDelivers? ==> s.reader.Holding?)
    ensures var n := Apply(s, a);
            && n.reader == (match a
                            case GdbAnswers(request, cls) => Delivering(Record(cls, s.wire[request], Result(request)))
                            case Stray(record) => Delivering(record)
                            case Shutdown => Delivering(Record(Exit, 0, Null))
                            case ReaderLocks => Holding(s.reader.record)
                            case ReaderDelivers(_) => if s.reader.record.cls == Exit then Gone else Reading
                            case _ => s.reader)
            && n.resp == if a.ReaderDelivers? && Accepts(s, s.reader.record) then
                           Response(s.reader.record.cls, s.reader.record.result)
                         else s.resp
  {
    match a
    case Start(t) =>
    case BadFormat(t) =>
    case LockResp(t) =>
    case Newline(t) =>
    case Wait(t) =>
    case Reacquire(t) =>
    case Finish(t) =>
    case GdbAnswers(request, cls) =>
    case Stray(record) =>
    case Shutdown =>
    case ReaderLocks =>
    case ReaderDelivers(wake) =>
  }

  lemma StepLocks(s: State, a: Action)
    requires Inv(s) && Enabled(s, a)
    ensures Locks(Apply(s, a))
  {
    hide Tracked, Line, Quiet, Correct, Numbered, Unanswered, Ending;
    forall t: Tid
      ensures PcOf(Apply(s, a), t) != Idle <==> Apply(s, a).m == Some(t)
      ensures PcOf(Apply(s, a), t) in {Locked, Sent, Resumed} <==> Apply(s, a).respMtx == Some(Issuer(t))
    {
      PcAfter(s, a, t);
    }
  }

  lemma StepLine(s: State, a: Action)
    requires Inv(s) && Enabled(s, a)
    ensures Line(Apply(s, a))
  {
    hide Apply, Accepts, MayWake, Tracked, Quiet, Correct, Numbered, Unanswered, Ending;
    HistoryAfter(s, a);
    TrafficAfter(s, a);
    forall t: Tid
      ensures PcOf(Apply(s, a), t) in {Writing, Locked} ==> Apply(s, a).line == Some(Apply(s, a).token)
      ensures PcOf(Apply(s, a), t) in {Sent, Waiting, Woken, Resumed} ==> Apply(s, a).line == None
    {
      PcAfter(s, a, t);
    }
  }

  lemma StepTracked(s: State, a: Action, t: Tid)
    requires Inv(s) && Enabled(s, a)
    ensures Tracked(Apply(s, a), t)
  {
    hide Apply, MayWake, Correct, Numbered, Ending;
    HistoryAfter(s, a);
    TrafficAfter(s, a);
    PcAfter(s, a, t);
    assert Tracked(s, t);
  }

  lemma StepQuiet(s: State, a: Action)
    requires Inv(s) && Enabled(s, a)
    ensures Quiet(Apply(s, a))
  {
    hide Apply, MayWake, Correct, Numbered, Unanswered, Ending;
    HistoryAfter(s, a);
    TrafficAfter(s, a);
    match a
    case BadFormat(t) => assert Tracked(s, t);
    case Finish(t) => assert Tracked(s, t);
    case _ =>
  }

  lemma StepCorrect(s: State, a: Action)
    requires Inv(s) && Enabled(s, a)
    ensures Correct(Apply(s, a))
  {
    hide Apply, MayWake, Numbered, Ending, Line, Quiet;
    HistoryAfter(s, a);
    if a.Finish? {
      assert Tracked(s, a.t);
    }
  }

  lemma StepUnanswered(s: State, a: Action)
    requires Unanswered(s) && Enabled(s, a)
    ensures Unanswered(Apply(s, a))
  {
    hide Apply, MayWake;
    HistoryAfter(s, a);
    TrafficAfter(s, a);
  }

  lemma StepEnding(s: State, a: Action)
    requires Inv(s) && Enabled(s, a)
    ensures Ending(Apply(s, a))
  {
    hide Apply, MayWake, Correct, Numbered, Line, Quiet, Unanswered;
    HistoryAfter(s, a);
    TrafficAfter(s, a);
    if a.Finish? {
      assert Tracked(s, a.t);
      assert PcOf(s, a.t) == Resumed;
    }
    forall t: Tid
      ensures var was, now := PcOf(s, t), PcOf(Apply(s, a), t);
              s.reader == Gone && was != Woken && was != Resumed ==> now != Woken && now != Resumed
      ensures a.Finish? ==> PcOf(Apply(s, a), t) != Woken && PcOf(Apply(s, a), t) != Resumed
    {
      PcAfter(s, a, t);
    }
  }

  lemma StepOrdered(s: State, a: Action)
    requires Numbered(s) && Locks(s) && Enabled(s, a)
    ensures var n := Apply(s, a);
            (forall k, l | 0 <= k < l < |n.done| :: n.done[k].request < n.done[l].request) &&
            (forall c <- n.done :: c.request < n.sent)
  {
    hide Apply, MayWake;
    HistoryAfter(s, a);
    if a.Finish? {
      PcAfter(s, a, a.t);
    }
  }

  /** The last request is that of the thread in `mi_issue_cmd`, and later than all completed ones. */
  lemma StepLatest(s: State, a: Action, t: Tid)
    requires Numbered(s) && Locks(s) && Enabled(s, a)
    requires PcOf(Apply(s, a), t) in {Sent, Waiting, Woken, Resumed}
    ensures var n := Apply(s, a);
            t in n.issued && n.issued[t] == n.sent - 1 && forall c <- n.done :: c.request < n.issued[t]
  {
    hide Apply, MayWake;
    HistoryAfter(s, a);
    PcAfter(s, a, t);
  }

  lemma StepNumbered(s: State, a: Action)
    requires Inv(s) && Enabled(s, a)
    ensures Numbered(Apply(s, a))
  {
    hide Tracked, Line, Quiet, Correct, Locks, Enabled, Apply;
    StepOrdered(s, a);
    forall t: Tid | PcOf(Apply(s, a), t) in {Sent, Waiting, Woken, Resumed}
      ensures var n := Apply(s, a);
              t in n.issued && n.issued[t] == n.sent - 1 && forall c <- n.done :: c.request < n.issued[t]
    {
      StepLatest(s, a, t);
    }
  }

  lemma StepInv(s: State, a: Action)
    requires Inv(s) && Enabled(s, a)
    ensures Inv(Apply(s, a))
  {
    hide Locks, Line, Tracked, Quiet, Correct, Numbered, Unanswered, Ending, Enabled, Apply;
    StepLocks(s, a);
    StepUnanswered(s, a);
    StepEnding(s, a);
    StepLine(s, a);
    StepQuiet(s, a);
    StepCorrect(s, a);
    StepNumbered(s, a);
    forall t: Tid
      ensures Tracked(Apply(s, a), t)
    {
      StepTracked(s, a, t);
    }
  }

  // ----- runs -----

  /** Any interleaving: `ss[i]` is the state before the `i`-th action. */
  ghost predicate IsRun(ss: seq<State>, actions: seq<Action>) {
    |ss| == |actions| + 1 && ss[0] == Init() &&
    forall i | 0 <= i < |actions| :: Enabled(ss[i], actions[i]) && ss[i + 1] == Apply(ss[i], actions[i])
  }

  lemma {:induction false} RunInv(ss: seq<State>, actions: seq<Action>, n: nat)
    requires IsRun(ss, actions) && n < |ss|
    ensures Inv(ss[n])
  {
    hide Inv, Apply, Enabled;
    if n == 0 {
      InitInv();
    } else {
      RunInv(ss, actions, n - 1);
      StepInv(ss[n - 1], actions[n - 1]);
    }
  }

  /** gdb answers the request with this class before the `n`-th action. */
  ghost predicate AnsweredBy(actions: seq<Action>, n: nat, request: nat, cls: Class)
    requires n <= |actions|
  {
    exists i | 0 <= i < n :: actions[i] == GdbAnswers(request, cls)
  }

  /** The thread completes the request before the `n`-th action. */
  ghost predicate SentBy(ss: seq<State>, actions: seq<Action>, n: nat, request: nat, t: Tid)
    requires n <= |actions| < |ss|
  {
    exists i | 0 <= i < n :: actions[i] == Newline(t) && ss[i].sent == request
  }

  /** Commands begun since the last complete request. */
  function Begun(actions: seq<Action>, n: nat): nat
    requires n <= |actions|
  {
    if n == 0 then 0
    else match actions[n - 1] case Start(_) => Begun(actions, n - 1) + 1 case Newline(_) => 0 case _ => Begun(actions, n - 1)
  }

  lemma AnsweredLater(actions: seq<Action>, n: nat, request: nat, cls: Class)
    requires n < |actions| && (AnsweredBy(actions, n, request, cls) || actions[n] == GdbAnswers(request, cls))
    ensures AnsweredBy(actions, n + 1, request, cls)
  {
  }

  lemma SentLater(ss: seq<State>, actions: seq<Action>, n: nat, request: nat, t: Tid)
    requires n < |actions| < |ss|
    requires SentBy(ss, actions, n, request, t) || (actions[n] == Newline(t) && ss[n].sent == request)
    ensures SentBy(ss, actions, n + 1, request, t)
  {
  }

  /** What the state remembers of requests, answers and threads did happen. */
  lemma {:induction false} Happened(ss: seq<State>, actions: seq<Action>, n: nat)
    requires IsRun(ss, actions) && n < |ss|
    ensures forall r <- ss[n].given :: AnsweredBy(actions, n, r, ss[n].given[r])
    ensures forall t <- ss[n].issued :: SentBy(ss, actions, n, ss[n].issued[t], t)
    ensures forall c <- ss[n].done :: SentBy(ss, actions, n, c.request, c.tid)
    ensures ss[n].begun == Begun(actions, n)
  {
    hide Apply, Enabled, AnsweredBy, SentBy;
    if n > 0 {
      var s, a := ss[n - 1], actions[n - 1];
      Happened(ss, actions, n - 1);
      assert Enabled(s, a) && ss[n] == Apply(s, a);
      Steps(s, a);
      LineAfter(s, a);
      HistoryAfter(s, a);
      forall r <- ss[n].given
        ensures AnsweredBy(actions, n, r, ss[n].given[r])
      {
        AnsweredLater(actions, n - 1, r, ss[n].given[r]);
      }
      forall t <- ss[n].issued
        ensures SentBy(ss, actions, n, ss[n].issued[t], t)
      {
        SentLater(ss, actions, n - 1, ss[n].issued[t], t);
      }
      forall c <- ss[n].done
        ensures SentBy(ss, actions, n, c.request, c.tid)
      {
        SentLater(ss, actions, n - 1, c.request, c.tid);
      }
    }
  }

  lemma Steps(s: State, a: Action)
    requires Enabled(s, a)
    ensures a.Finish? ==> a.t in s.issued
    ensures a.Newline? ==> s.line.Some?
  {
  }

  /**
   * In every interleaving, the commands that have completed used the tokens 1, 2, 3, ... in turn, no two of them the
   * same request. Each one that was not cut short by the exit record sent its request itself and holds the result and the
   * class that gdb answered this request with; it returns -1, and hands nothing out, exactly if that was an error.
   */
  lemma CommandsGetTheirAnswers(ss: seq<State>, actions: seq<Action>, n: nat)
    requires IsRun(ss, actions) && n < |ss|
    ensures var done := ss[n].done;
            && (forall k | 0 <= k < |done| :: done[k].token == k + 1)
            && (forall k, l | 0 <= k < l < |done| :: done[k].request != done[l].request)
            && (forall k | 0 <= k < |done| :: SentBy(ss, actions, n, done[k].request, done[k].tid))
            && (forall k | 0 <= k < |done| && done[k].response.cls != Exit ::
                  && done[k].response.result == Result(done[k].request)
                  && AnsweredBy(actions, n, done[k].request, done[k].response.cls)
                  && (done[k].status == -1 <==> AnsweredBy(actions, n, done[k].request, Error))
                  && done[k].status in {-1, 0}
                  && done[k].handed == if done[k].status == 0 then Some(Result(done[k].request)) else None)
            && (forall k | 0 <= k < |done| && done[k].response.cls == Exit :: done[k].status == -1)
  {
    hide Apply, Enabled, Locks, Line, Tracked, Quiet, Ending, AnsweredBy, SentBy;
    RunInv(ss, actions, n);
    Happened(ss, actions, n);
    forall k | 0 <= k < |ss[n].done| && AnsweredBy(actions, n, ss[n].done[k].request, Error)
      ensures ss[n].done[k].response.cls != Exit ==> ss[n].done[k].response.cls == Error
    {
      var c := ss[n].done[k];
      if c.response.cls != Exit {
        AnsweredOnce(ss, actions, n, c.request, Error);
      }
    }
  }

  /** gdb's answer to a request is the one that is remembered. */
  lemma {:induction false} AnsweredOnce(ss: seq<State>, actions: seq<Action>, n: nat, request: nat, cls: Class)
    requires IsRun(ss, actions) && n < |ss| && AnsweredBy(actions, n, request, cls)
    ensures request in ss[n].given && ss[n].given[request] == cls
  {
    hide Apply, Enabled, Locks, Line, Tracked, Quiet, Ending, Correct, Numbered;
    var s, a := ss[n - 1], actions[n - 1];
    assert Enabled(s, a) && ss[n] == Apply(s, a);
    RunInv(ss, actions, n - 1);
    GivenAfter(s, a);
    AnswersWire(s, a);
    if a != GdbAnswers(request, cls) {
      assert AnsweredBy(actions, n - 1, request, cls);
      AnsweredOnce(ss, actions, n - 1, request, cls);
    }
  }

  lemma AnswersWire(s: State, a: Action)
    requires Enabled(s, a)
    ensures a.GdbAnswers? ==> a.request in s.wire
  {
  }

  /** At most one command is cut short by the exit record, and it is the last to complete. */
  lemma OnlyTheLastIsCutShort(ss: seq<State>, actions: seq<Action>, n: nat)
    requires IsRun(ss, actions) && n < |ss|
    ensures forall k | 0 <= k < |ss[n].done| - 1 :: ss[n].done[k].response.cls != Exit
  {
    hide Apply, Enabled, Locks, Line, Tracked, Quiet, Correct, Numbered, Unanswered;
    RunInv(ss, actions, n);
  }

  /** The exit record wakes the thread that waits, whatever token it waits for. */
  lemma ExitWakes(s: State, wake: Option<Tid>, t: Tid)
    requires Enabled(s, ReaderDelivers(wake)) && s.reader.record.cls == Exit && PcOf(s, t) == Waiting
    requires Inv(s)
    ensures var n := Apply(s, ReaderDelivers(wake));
            PcOf(n, t) == Woken && n.resp.cls == Exit && n.reader == Gone && n.respMtx == None
  {
    hide Line, Tracked, Quiet, Correct, Numbered, Unanswered, Ending, Apply;
    PcAfter(s, ReaderDelivers(wake), t);
    ReaderAfter(s, ReaderDelivers(wake));
    assert Apply(s, ReaderDelivers(wake)).respMtx == None by {
      Released(s, wake);
    }
  }

  lemma Released(s: State, wake: Option<Tid>)
    requires s.reader.Holding?
    ensures Apply(s, ReaderDelivers(wake)).respMtx == None
  {
  }

  /** But whoever waits once gdb is gone waits forever: nothing can happen any more, and only then nothing can. */
  lemma WaitsForever(ss: seq<State>, actions: seq<Action>, n: nat)
    requires IsRun(ss, actions) && n < |ss|
    ensures (forall a: Action :: !Enabled(ss[n], a)) <==> ss[n].reader == Gone && exists t: Tid :: PcOf(ss[n], t) == Waiting
  {
    hide Inv, Enabled;
    RunInv(ss, actions, n);
    if a: Action :| Enabled(ss[n], a) {
      NoActionLeft(ss[n], a);
    } else if !(ss[n].reader == Gone && exists t: Tid :: PcOf(ss[n], t) == Waiting) {
      var a := NextAction(ss[n]);
    }
  }

  lemma NoActionLeft(s: State, a: Action)
    requires Inv(s) && Enabled(s, a)
    ensures s.reader != Gone || forall t: Tid :: PcOf(s, t) != Waiting
  {
    hide Line, Tracked, Quiet, Correct, Numbered, Unanswered, Ending;
  }

  /** Who can go on: the owner of the response's mutex if it is locked, then the reader, then the owner of `m`. */
  lemma NextAction(s: State) returns (a: Action)
    requires Inv(s) && !(s.reader == Gone && exists t: Tid :: PcOf(s, t) == Waiting)
    ensures Enabled(s, a)
  {
    hide Quiet, Correct, Numbered, Unanswered, Ending;
    match s.respMtx
    case Some(Issuer(t)) =>
      assert Tracked(s, t);
      a := if PcOf(s, t) == Locked then Newline(t) else if PcOf(s, t) == Sent then Wait(t) else Finish(t);
    case Some(ReaderThread) =>
      if t: Tid :| PcOf(s, t) == Waiting {
        a := ReaderDelivers(Some(t));
      } else {
        a := ReaderDelivers(None);
      }
    case None =>
      if s.reader != Gone {
        a := if s.reader == Reading then Shutdown else ReaderLocks;
      } else {
        match s.m
        case Some(t) => a := if PcOf(s, t) == Writing then BadFormat(t) else Reacquire(t);
        case None => a := Start(0);
      }
  }

  /**
   * A command with a format that is refused leaves its beginning on gdb's terminal, so that the next complete request
   * begins with it.
   */
  lemma {:induction false} RefusedFormatSpoils(ss: seq<State>, actions: seq<Action>, i: nat, j: nat)
    requires IsRun(ss, actions) && i < j < |actions| && actions[i].BadFormat? && actions[j].Newline?
    requires forall k | i < k < j :: !actions[k].Newline?
    ensures ss[j + 1].merged == ss[j].merged[ss[j].sent := ss[j].begun] && ss[j].begun >= 2
  {
    hide Apply, Inv;
    assert Enabled(ss[j], actions[j]) && ss[j + 1] == Apply(ss[j], actions[j]);
    MergedAfter(ss[j], actions[j]);
    BegunStays(ss, actions, i, j);
    RunInv(ss, actions, j);
    HoldsMutex(ss[j], actions[j].t);
  }

  lemma HoldsMutex(s: State, t: Tid)
    requires Inv(s)
    ensures PcOf(s, t) != Idle <==> s.m == Some(t)
    ensures PcOf(s, t) == Writing ==> s.begun > 0
  {
    hide Tracked, Quiet, Correct, Numbered, Unanswered, Ending;
  }

  lemma {:induction false} BegunStays(ss: seq<State>, actions: seq<Action>, i: nat, j: nat)
    requires IsRun(ss, actions) && i < j <= |actions| && actions[i].BadFormat?
    requires forall k | i < k < j :: !actions[k].Newline?
    ensures ss[j].begun >= 1 && (ss[j].m.Some? ==> ss[j].begun >= 2)
    decreases j
  {
    hide Apply, Inv;
    var s, a := ss[j - 1], actions[j - 1];
    assert Enabled(s, a) && ss[j] == Apply(s, a);
    MutexAfter(s, a);
    LineAfter(s, a);
    if j - 1 == i {
      RunInv(ss, actions, i);
      HoldsMutex(s, a.t);
    } else {
      BegunStays(ss, actions, i, j - 1);
    }
  }

  /** An answer that passes the token test always finds its issuer waiting, so its signal is never lost. */
  lemma AnswersFindTheirIssuer(ss: seq<State>, actions: seq<Action>, n: nat) returns (t: Tid)
    requires IsRun(ss, actions) && n < |ss|
    requires ss[n].reader.Holding? && Accepts(ss[n], ss[n].reader.record) && ss[n].reader.record.cls != Exit
    ensures PcOf(ss[n], t) == Waiting && t in ss[n].issued
    ensures ss[n].reader.record.result == Result(ss[n].issued[t])
    ensures forall u: Tid :: PcOf(ss[n], u) == Waiting ==> u == t
  {
    hide Apply, Enabled;
    RunInv(ss, actions, n);
    var s := ss[n];
    assert Quiet(s);
    t := s.m.value;
    assert Tracked(s, t);
    assert PcOf(s, t) != Idle;
  }

  /** At most one thread is between locking and unlocking `m`, and it alone can hold `resp_mtx` besides the reader. */
  lemma OneIssuerAtATime(ss: seq<State>, actions: seq<Action>, n: nat, t: Tid, u: Tid)
    requires IsRun(ss, actions) && n < |ss|
    ensures PcOf(ss[n], t) != Idle && PcOf(ss[n], u) != Idle ==> t == u
  {
    hide Apply, Enabled, Line, Tracked, Quiet, Correct;
    RunInv(ss, actions, n);
  }

  // ----- what can happen -----

  ghost predicate Possible(s: State, actions: seq<Action>)
    decreases |actions|
  {
    actions == [] || (Enabled(s, actions[0]) && Possible(Apply(s, actions[0]), actions[1..]))
  }

  function Played(s: State, actions: seq<Action>): State
    decreases |actions|
  {
    if actions == [] then s else Played(Apply(s, actions[0]), actions[1..])
  }

  lemma Next(s: State, a: Action, actions: seq<Action>)
    ensures Possible(s, [a] + actions) <==> Enabled(s, a) && Possible(Apply(s, a), actions)
    ensures Played(s, [a] + actions) == Played(Apply(s, a), actions)
    ensures Possible(s, []) && Played(s, []) == s
  {
    hide Enabled, Apply;
    assert ([a] + actions)[1..] == actions;
  }

  /** The thread begins its request. */
  lemma CanBegin(s: State, t: Tid, rest: seq<Action>)
    requires PcOf(s, t) == Idle && s.m == None && s.respMtx == None && (s.line.Some? ==> s.line.value == s.token)
    ensures var b := Goto(s, t, Locked).(m := Some(t), line := Some(s.token), begun := s.begun + 1, respMtx := Some(Issuer(t)));
            Possible(b, rest) ==>
              var all := [Start(t)] + ([LockResp(t)] + rest);
              Possible(s, all) && Played(s, all) == Played(b, rest)
  {
    hide Possible, Played;
    var s1 := Apply(s, Start(t));
    assert s1.pc[t := Locked] == s.pc[t := Locked];
    Next(s1, LockResp(t), rest);
    Next(s, Start(t), [LockResp(t)] + rest);
  }

  /** It sends the request and waits. */
  lemma CanSend(b: State, t: Tid, rest: seq<Action>)
    requires PcOf(b, t) == Locked && b.line == Some(b.token)
    ensures var w := Goto(b, t, Waiting).(line := None, begun := 0, sent := b.sent + 1, issued := b.issued[t := b.sent],
                                           merged := b.merged[b.sent := b.begun], wire := b.wire[b.sent := b.token],
                                           respMtx := None);
            Possible(w, rest) ==>
              var all := [Newline(t)] + ([Wait(t)] + rest);
              Possible(b, all) && Played(b, all) == Played(w, rest)
  {
    hide Possible, Played;
    var s1 := Apply(b, Newline(t));
    assert s1.pc[t := Waiting] == b.pc[t := Waiting];
    Next(s1, Wait(t), rest);
    Next(b, Newline(t), [Wait(t)] + rest);
  }

  lemma NobodyInside(s: State, t: Tid)
    requires Locks(s) && s.m == None && s.reader == Reading
    ensures PcOf(s, t) == Idle && s.respMtx == None
  {
    if s.respMtx.Some? && s.respMtx.value.Issuer? {
      HolderInside(s, s.respMtx.value.tid);
      assert false;
    }
  }

  lemma HolderInside(s: State, u: Tid)
    requires Locks(s) && s.respMtx == Some(Issuer(u))
    ensures s.m == Some(u)
  {
    assert PcOf(s, u) in {Locked, Sent, Resumed};
  }

  /** gdb answers the request, and the reader hands the answer in. */
  lemma CanAnswer(w: State, t: Tid, cls: Class, rest: seq<Action>)
    requires PcOf(w, t) == Waiting && w.respMtx == None && w.reader == Reading && cls != Exit
    requires t in w.issued && w.issued[t] in w.wire && w.wire[w.issued[t]] == w.token
    ensures var r := w.issued[t];
            var d := Goto(w, t, Woken).(resp := Response(cls, Result(r)), wire := w.wire - {r}, given := w.given[r := cls]);
            Possible(d, rest) ==>
              var all := [GdbAnswers(r, cls)] + ([ReaderLocks] + ([ReaderDelivers(Some(t))] + rest));
              Possible(w, all) && Played(w, all) == Played(d, rest)
  {
    hide Possible, Played;
    var r := w.issued[t];
    var s1 := Apply(w, GdbAnswers(r, cls));
    var s2 := Apply(s1, ReaderLocks);
    Next(s2, ReaderDelivers(Some(t)), rest);
    Next(s1, ReaderLocks, [ReaderDelivers(Some(t))] + rest);
    Next(w, GdbAnswers(r, cls), [ReaderLocks] + ([ReaderDelivers(Some(t))] + rest));
  }

  /** The thread takes it. */
  lemma CanFinish(d: State, t: Tid, rest: seq<Action>)
    requires PcOf(d, t) == Woken && d.respMtx == None && t in d.issued && d.resp.cls != Exit
    ensures var f := Goto(d, t, Idle).(m := None, token := d.token + 1,
                                         done := d.done + [Completion(t, d.token, d.issued[t], d.resp,
                                                                      if d.resp.cls == Error then -1 else 0,
                                                                      if d.resp.cls == Error then None
                                                                      else Some(d.resp.result))]);
            Possible(f, rest) ==>
              var all := [Reacquire(t)] + ([Finish(t)] + rest);
              Possible(d, all) && Played(d, all) == Played(f, rest)
  {
    hide Possible, Played;
    var s1 := Apply(d, Reacquire(t));
    assert d.pc[t := Resumed][t := Idle] == d.pc[t := Idle];
    Next(s1, Finish(t), rest);
    Next(d, Reacquire(t), [Finish(t)] + rest);
  }

  /**
   * Nothing is ruled out: whenever nobody is in `mi_issue_cmd` and gdb is there, any thread can issue a command and
   * complete it with any answer.
   */
  lemma AnyAnswerIsPossible(ss: seq<State>, before: seq<Action>, n: nat, t: Tid, cls: Class) returns (actions: seq<Action>)
    requires IsRun(ss, before) && n < |ss| && ss[n].m == None && ss[n].reader == Reading && cls != Exit
    ensures Possible(ss[n], actions)
    ensures var s, f := ss[n], Played(ss[n], actions);
            && f.m == None && f.reader == Reading
            && f.done == s.done + [Completion(t, s.token, s.sent, Response(cls, Result(s.sent)), if cls == Error then -1 else 0,
                                                if cls == Error then None else Some(Result(s.sent)))]
  {
    hide Inv, Apply, Enabled, Possible, Played;
    RunInv(ss, before, n);
    var s := ss[n];
    Outside(s, t);
    var b := Goto(s, t, Locked).(m := Some(t), line := Some(s.token), begun := s.begun + 1, respMtx := Some(Issuer(t)));
    var w := Goto(b, t, Waiting).(line := None, begun := 0, sent := b.sent + 1, issued := b.issued[t := b.sent],
                                   merged := b.merged[b.sent := b.begun], wire := b.wire[b.sent := b.token], respMtx := None);
    var r := w.issued[t];
    var d := Goto(w, t, Woken).(resp := Response(cls, Result(r)), wire := w.wire - {r}, given := w.given[r := cls]);
    var f := Goto(d, t, Idle).(m := None, token := d.token + 1,
                                 done := d.done + [Completion(t, d.token, d.issued[t], d.resp,
                                                              if d.resp.cls == Error then -1 else 0,
                                                              if d.resp.cls == Error then None else Some(d.resp.result))]);
    Next(f, Shutdown, []);
    CanFinish(d, t, []);
    var fourth := [Reacquire(t)] + ([Finish(t)] + []);
    CanAnswer(w, t, cls, fourth);
    var third := [GdbAnswers(r, cls)] + ([ReaderLocks] + ([ReaderDelivers(Some(t))] + fourth));
    CanSend(b, t, third);
    CanBegin(s, t, [Newline(t)] + ([Wait(t)] + third));
    actions := [Start(t)] + ([LockResp(t)] + ([Newline(t)] + ([Wait(t)] + third)));
  }

  lemma Outside(s: State, t: Tid)
    requires Inv(s) && s.m == None && s.reader == Reading
    ensures PcOf(s, t) == Idle && s.respMtx == None && (s.line.Some? ==> s.line.value == s.token)
  {
    hide Tracked, Quiet, Correct, Numbered, Unanswered, Ending;
    NobodyInside(s, t);
  }
}
