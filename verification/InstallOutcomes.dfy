/**
 How `os/install` ends: for each way out of the handler's loop, the outcome of every continuation,
 whatever the sender and the device do in the meantime.
 */
module InstallOutcomes {
  import opened Wrappers
  import opened ImageStream
  import opened InstallProtocol
  import opened InstallInvariant
  import opened InstallTheorems

  // ---------------------------------------------------------------- a status code

  /** What is settled once the stream has ended with `code`; `ended` is as it was at that moment. */
  ghost predicate ErrorPath(code: Code, ended: bool, s: State) {
    match s.hand.pc
    case AskEnded(c) => c == code && (ended ==> s.send.ended)
    case AskBytes(c) => c == code && s.send.ended
    case Reporting(c) => c == code && s.send.ended && Recoverable(code)
    case Leaving(o) => ErrorOutcome(code, ended, s.send.ended, o)
    case Finished(o) => ErrorOutcome(code, ended, s.send.ended, o)
    case _ => false
  }

  ghost predicate ErrorOutcome(code: Code, ended: bool, endedNow: bool, o: Outcome) {
    if o.Recovered? then o.code == code && Recoverable(code) && endedNow
    else o == Raised(RpcFailed(code)) && !(ended && Recoverable(code))
  }

  lemma ErrorPathStep(cfg: Config, s: State, a: Action, code: Code, ended: bool)
    requires Inv(cfg, s) && Enabled(cfg, s, a) && ErrorPath(code, ended, s)
    ensures ErrorPath(code, ended, Do(cfg, s, a))
  {
    match a
    case HandlerStep =>
    case SenderStep => SenderMonotone(cfg, s.send);
    case _ =>
  }

  lemma {:induction false} ErrorPathRun(cfg: Config, s: State, acts: seq<Action>, code: Code, ended: bool)
    requires Inv(cfg, s) && ErrorPath(code, ended, s) && After(cfg, s, acts).Some?
    ensures ErrorPath(code, ended, After(cfg, s, acts).value)
    decreases |acts|
  {
    if acts != [] {
      ErrorPathStep(cfg, s, acts[0], code, ended);
      StepKeepsInv(cfg, s, acts[0]);
      ErrorPathRun(cfg, Do(cfg, s, acts[0]), acts[1..], code, ended);
    }
  }

  /**
   When the response stream ends with a status code, for every code and every continuation, the
   outcome is a recovered success that keeps the code or the error with that code. It is a success
   for a deadline or a cancellation if the transfer was marked complete when the code arrived, and
   only if it is so in the end.
   */
  lemma AfterRpcError(cfg: Config, before: seq<Action>, s: State, code: Code, after: seq<Action>, t: State)
    requires Reaches(cfg, before, s) && After(cfg, s, [RpcError(code)] + after) == Some(t)
    requires t.hand.pc.Finished?
    ensures (t.hand.pc.outcome.Recovered? && t.hand.pc.outcome.code == code)
      || t.hand.pc.outcome == Raised(RpcFailed(code))
    ensures s.send.ended && (code == DeadlineExceeded || code == Cancelled) ==> t.hand.pc.outcome.Recovered?
    ensures t.hand.pc.outcome.Recovered? ==> t.send.ended && (code == DeadlineExceeded || code == Cancelled)
  {
    ReachableInv(cfg, before, s);
    RunSplits(cfg, s, RpcError(code), after);
    StepKeepsInv(cfg, s, RpcError(code));
    ErrorPathRun(cfg, Do(cfg, s, RpcError(code)), after, code, s.send.ended);
  }

  // ---------------------------------------------------------------- an InstallError

  lemma {:induction false} LeavingRun(cfg: Config, s: State, acts: seq<Action>, o: Outcome)
    requires s.hand.pc == Leaving(o) || s.hand.pc == Finished(o)
    requires After(cfg, s, acts).Some?
    ensures var pc := After(cfg, s, acts).value.hand.pc; pc == Leaving(o) || pc == Finished(o)
    decreases |acts|
  {
    if acts != [] {
      LeavingRun(cfg, Do(cfg, s, acts[0]), acts[1..], o);
    }
  }

  /**
   When the handler hears an InstallError, every continuation that finishes ends in the idempotent
   report if the error says that the image is the running package, and in a failure naming the
   error otherwise.
   */
  lemma AfterInstallError(cfg: Config, before: seq<Action>, s: State, name: string, after: seq<Action>, t: State)
    requires Reaches(cfg, before, s) && After(cfg, s, [Receive] + after) == Some(t)
    requires s.device.inbox != [] && s.device.inbox[0] == InstallError(name) && t.hand.pc.Finished?
    ensures t.hand.pc.outcome == Reported(Report(false, cfg.version, AlreadyRunning, None, None, None, None))
      <==> name == "INSTALL_RUN_PACKAGE"
    ensures name != "INSTALL_RUN_PACKAGE" <==> t.hand.pc.outcome == Raised(InstallFailed(name))
  {
    RunSplits(cfg, s, Receive, after);
    var s' := Do(cfg, s, Receive);
    LeavingRun(cfg, s', after, s'.hand.pc.pending);
  }

  // ---------------------------------------------------------------- a clean close

  /** What is settled after a clean close; `error` is as it was at some moment before the check. */
  ghost predicate ClosePath(error: Option<SendError>, s: State) {
    match s.hand.pc
    case StreamClosed => error.Some? ==> s.send.error == error
    case AskError => error.Some? ==> s.send.error == error
    case AskCount => error.None?
    case Finished(Raised(SendFailed(e))) => s.send.error == Some(e) && (error.Some? ==> error == Some(e))
    case Finished(Reported(r)) => error.None? && !r.installState.AlreadyRunning?
    case _ => false
  }

  lemma ClosePathStep(cfg: Config, s: State, a: Action, error: Option<SendError>)
    requires Inv(cfg, s) && Enabled(cfg, s, a) && ClosePath(error, s)
    ensures ClosePath(error, Do(cfg, s, a))
  {
    match a
    case HandlerStep =>
    case _ =>
  }

  lemma {:induction false} ClosePathRun(cfg: Config, s: State, acts: seq<Action>, error: Option<SendError>)
    requires Inv(cfg, s) && ClosePath(error, s) && After(cfg, s, acts).Some?
    ensures ClosePath(error, After(cfg, s, acts).value)
    decreases |acts|
  {
    if acts != [] {
      ClosePathStep(cfg, s, acts[0], error);
      StepKeepsInv(cfg, s, acts[0]);
      ClosePathRun(cfg, Do(cfg, s, acts[0]), acts[1..], error);
    }
  }

  /**
   When the response stream closes cleanly, every continuation that finishes ends in a report or
   in the sender's error. An error noted by then is always raised, and no error is raised that the
   sender has not noted.
   */
  lemma AfterCleanClose(cfg: Config, before: seq<Action>, s: State, after: seq<Action>, t: State)
    requires Reaches(cfg, before, s) && After(cfg, s, [CloseClean] + after) == Some(t)
    requires t.hand.pc.Finished?
    ensures var o := t.hand.pc.outcome;
      (o.Reported? && !o.report.installState.AlreadyRunning?) || (o.Raised? && o.failure.SendFailed?)
    ensures forall e | s.send.error == Some(e) :: t.hand.pc.outcome == Raised(SendFailed(e))
    ensures forall e | t.hand.pc.outcome == Raised(SendFailed(e)) :: t.send.error == Some(e)
  {
    ReachableInv(cfg, before, s);
    RunSplits(cfg, s, CloseClean, after);
    StepKeepsInv(cfg, s, CloseClean);
    ClosePathRun(cfg, Do(cfg, s, CloseClean), after, s.send.error);
  }

  lemma {:induction false} FinishedRun(cfg: Config, s: State, acts: seq<Action>)
    requires s.hand.pc.Finished? && After(cfg, s, acts).Some?
    ensures After(cfg, s, acts).value.hand.pc == s.hand.pc
    decreases |acts|
  {
    if acts != [] {
      FinishedRun(cfg, Do(cfg, s, acts[0]), acts[1..]);
    }
  }

  /**
   The exact rule, over all continuations: from the step that reads the sender's error on, the
   outcome is that error if and only if one was noted then, and a report otherwise.
   */
  lemma DecidedByError(cfg: Config, before: seq<Action>, s: State, after: seq<Action>, t: State)
    requires Reaches(cfg, before, s) && s.hand.pc.AskError?
    requires After(cfg, s, [HandlerStep] + after) == Some(t) && t.hand.pc.Finished?
    ensures forall e :: t.hand.pc.outcome == Raised(SendFailed(e)) <==> s.send.error == Some(e)
    ensures s.send.error.None? <==> t.hand.pc.outcome.Reported?
  {
    ReachableInv(cfg, before, s);
    RunSplits(cfg, s, HandlerStep, after);
    var s' := Do(cfg, s, HandlerStep);
    if s.send.error.Some? {
      FinishedRun(cfg, s', after);
    } else {
      CountedRun(cfg, s', after);
    }
  }

  lemma {:induction false} CountedRun(cfg: Config, s: State, acts: seq<Action>)
    requires s.hand.pc.AskCount? || (s.hand.pc.Finished? && s.hand.pc.outcome.Reported?)
    requires After(cfg, s, acts).Some?
    ensures var pc := After(cfg, s, acts).value.hand.pc; pc.AskCount? || (pc.Finished? && pc.outcome.Reported?)
    decreases |acts|
  {
    if acts != [] {
      CountedRun(cfg, Do(cfg, s, acts[0]), acts[1..]);
    }
  }

  /**
   And from the step that reads the byte count on the whole report is settled, by the last
   Validated and the last progress heard and by the count read.
   */
  lemma DecidedByCount(cfg: Config, before: seq<Action>, s: State, after: seq<Action>, t: State)
    requires Reaches(cfg, before, s) && s.hand.pc.AskCount?
    requires After(cfg, s, [HandlerStep] + after) == Some(t)
    ensures t.hand.pc.Finished? && t.hand.pc.outcome.Reported?
    ensures var r := t.hand.pc.outcome.report;
      var heard, sent := s.hand.heard, s.send.bytesSent;
      && r.bytesTransferred == Some(sent) && r.bytesAcknowledged == Some(LastProgress(heard))
      && (r.changed <==> LastValidated(heard).None? || sent > 0)
      && (forall version, text | LastValidated(heard) == Some(Validated(version, text)) ::
            r.version == version && r.installState == if sent == 0 then AlreadyPresent else ValidatedImage)
      && (LastValidated(heard).None? ==> r.version == cfg.version && r.installState == Transferred)
  {
    ReachableInv(cfg, before, s);
    LastValidatedIsHeard(s.hand.heard);
    RunSplits(cfg, s, HandlerStep, after);
    FinishedRun(cfg, Do(cfg, s, HandlerStep), after);
  }

  // ---------------------------------------------------------------- all exits together

  /** What the way out of the loop, taken in `s`, says about the outcome of a run that ends in `t`. */
  ghost predicate ExitOutcome(cfg: Config, s: State, a: Action, t: State)
    requires t.hand.pc.Finished?
  {
    var o := t.hand.pc.outcome;
    match a
    case CloseClean =>
      && ((o.Reported? && !o.report.installState.AlreadyRunning?) || (o.Raised? && o.failure.SendFailed?))
      && (forall e | s.send.error == Some(e) :: o == Raised(SendFailed(e)))
      && (forall e | o == Raised(SendFailed(e)) :: t.send.error == Some(e))
    case RpcError(code) =>
      && ((o.Recovered? && o.code == code) || o == Raised(RpcFailed(code)))
      && (s.send.ended && (code == DeadlineExceeded || code == Cancelled) ==> o.Recovered?)
      && (o.Recovered? ==> t.send.ended && (code == DeadlineExceeded || code == Cancelled))
    case Receive =>
      && s.device.inbox != [] && s.device.inbox[0].InstallError?
      && var name := s.device.inbox[0].name;
         && (name == "INSTALL_RUN_PACKAGE" <==>
               o == Reported(Report(false, cfg.version, AlreadyRunning, None, None, None, None)))
         && (name != "INSTALL_RUN_PACKAGE" <==> o == Raised(InstallFailed(name)))
    case _ => false
  }

  /** A run that leaves the loop leaves it at one of its actions. */
  lemma {:induction false} LeavesLoop(cfg: Config, s: State, acts: seq<Action>) returns (k: nat, u: State)
    requires After(cfg, s, acts).Some? && s.hand.pc.Listening? && !After(cfg, s, acts).value.hand.pc.Listening?
    ensures k < |acts| && After(cfg, s, acts[..k]) == Some(u) && u.hand.pc.Listening?
    ensures Enabled(cfg, u, acts[k]) && !Do(cfg, u, acts[k]).hand.pc.Listening?
    ensures After(cfg, u, acts[k..]) == After(cfg, s, acts)
    decreases |acts|
  {
    var s' := Do(cfg, s, acts[0]);
    if s'.hand.pc.Listening? {
      var j, v := LeavesLoop(cfg, s', acts[1..]);
      k, u := j + 1, v;
      assert acts[..k][1..] == acts[1..][..j] && acts[k..] == acts[1..][j..];
    } else {
      k, u := 0, s;
      assert acts[..0] == [] && acts[0..] == acts;
    }
  }

  /**
   Every finished run of every interleaving has left the loop in one of three ways, a clean close, a
   status code or an InstallError, and ends in the outcome that belongs to it.
   */
  lemma EveryOutcome(cfg: Config, acts: seq<Action>, t: State) returns (k: nat, s: State)
    requires Reaches(cfg, acts, t) && t.hand.pc.Finished?
    ensures k < |acts| && Reaches(cfg, acts[..k], s) && s.hand.pc.Listening?
    ensures ExitOutcome(cfg, s, acts[k], t)
  {
    k, s := LeavesLoop(cfg, Init(), acts);
    var a, after := acts[k], acts[k + 1..];
    assert acts[k..] == [a] + after;
    match a
    case CloseClean => AfterCleanClose(cfg, acts[..k], s, after, t);
    case RpcError(code) => AfterRpcError(cfg, acts[..k], s, code, after, t);
    case Receive => AfterInstallError(cfg, acts[..k], s, s.device.inbox[0].name, after, t);
  }

  // ---------------------------------------------------------------- the handler gets out

  /** How many steps the handler needs from where it is. */
  function HandlerRank(pc: Handler): nat {
    match pc
    case Listening => 5
    case AskEnded(_) => 4
    case AskBytes(_) => 3
    case Reporting(_) => 2
    case Leaving(_) => 1
    case StreamClosed => 3
    case AskError => 2
    case AskCount => 1
    case Finished(_) => 0
  }

  /** Once out of its loop the handler needs at most four steps of its own and waits for nobody. */
  lemma {:induction false} HandlerFinishes(cfg: Config, before: seq<Action>, s: State)
    returns (acts: seq<Action>, t: State)
    requires Reaches(cfg, before, s) && !s.hand.pc.Listening?
    ensures Reaches(cfg, before + acts, t) && t.hand.pc.Finished? && t.send == s.send && t.device == s.device
    ensures |acts| <= 4 && forall i | 0 <= i < |acts| :: acts[i] == HandlerStep
    ensures |acts| <= HandlerRank(s.hand.pc)
    decreases HandlerRank(s.hand.pc)
  {
    if s.hand.pc.Finished? {
      acts, t := [], s;
      assert before + acts == before;
    } else {
      var before', s' := Extend(cfg, before, s, HandlerStep);
      var rest, u := HandlerFinishes(cfg, before', s');
      acts, t := [HandlerStep] + rest, u;
      assert before + acts == before' + rest;
    }
  }

  // ---------------------------------------------------------------- the last of several responses

  /** `LastProgress` is the count of the last progress message, and zero without one. */
  lemma {:induction false} LastProgressAt(heard: seq<Response>, i: nat)
    requires i < |heard| && heard[i].TransferProgress?
    requires forall j | i < j < |heard| :: !heard[j].TransferProgress?
    ensures LastProgress(heard) == heard[i].received
  {
    if i < |heard| - 1 {
      LastProgressAt(heard[..|heard| - 1], i);
    }
  }

  lemma {:induction false} NoProgress(heard: seq<Response>)
    requires forall i | 0 <= i < |heard| :: !heard[i].TransferProgress?
    ensures LastProgress(heard) == 0
  {
    if heard != [] {
      NoProgress(heard[..|heard| - 1]);
    }
  }

  /** `LastValidated` is the last Validated message; `LastValidatedIsHeard` covers the case of none. */
  lemma {:induction false} LastValidatedAt(heard: seq<Response>, i: nat)
    requires i < |heard| && heard[i].Validated?
    requires forall j | i < j < |heard| :: !heard[j].Validated?
    ensures LastValidated(heard) == Some(heard[i])
  {
    if i < |heard| - 1 {
      LastValidatedAt(heard[..|heard| - 1], i);
    }
  }
}
