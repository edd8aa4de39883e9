/** What `os/install` guarantees in every run, and the runs that show where it guarantees no more. */
module InstallTheorems {
  import opened Wrappers
  import opened ImageStream
  import opened InstallProtocol
  import opened InstallInvariant

  // ---------------------------------------------------------------- what the device is sent

  /** The plan: announcement, chunks, TransferEnd. */
  lemma PlanShape(cfg: Config)
    ensures var chunks := Chunks(cfg.image, 0, cfg.chunk);
      && |Plan(cfg)| == |chunks| + 2
      && Plan(cfg)[0] == Announcement(cfg)
      && (forall i | 0 <= i < |chunks| :: Plan(cfg)[i + 1] == TransferContent(chunks[i]))
      && Plan(cfg)[|chunks| + 1] == TransferEnd
  {
  }

  /** A handed-over message in its place: announcement, well-sized content, or the end. */
  ghost predicate InPlace(cfg: Config, emitted: seq<InstallRequest>, i: nat)
    requires i < |emitted|
  {
    match emitted[i]
    case TransferRequest(version, size, standby) =>
      i == 0 && version == cfg.version && size == |cfg.image| && standby == cfg.standby
    case TransferContent(chunk) =>
      && 0 < i && chunk != []
      && (cfg.chunk > 0 ==> |chunk| <= cfg.chunk)
      && (cfg.chunk > 0 && |chunk| < cfg.chunk && i + 1 < |emitted| ==> emitted[i + 1] == TransferEnd)
    case TransferEnd => 0 < i == |emitted| - 1
  }

  lemma PlanInPlace(cfg: Config)
    ensures forall i | 0 <= i < |Plan(cfg)| :: InPlace(cfg, Plan(cfg), i)
  {
    PlanShape(cfg);
    ChunkSizes(cfg.image, 0, cfg.chunk);
    var chunks := Chunks(cfg.image, 0, cfg.chunk);
    forall i | 0 <= i < |Plan(cfg)| ensures InPlace(cfg, Plan(cfg), i) {
      if 0 < i <= |chunks| {
        assert Plan(cfg)[(i - 1) + 1] == TransferContent(chunks[i - 1]);
      }
    }
  }

  /** TransferEnd can only be out when the sender has marked the transfer complete. */
  lemma EndMeansEnded(cfg: Config, x: SendSide)
    requires SendInv(cfg, x) && TransferEnd in x.emitted
    ensures x.ended && x.pc.Stopped? && x.emitted == Plan(cfg)
  {
    PlanInPlace(cfg);
    var i :| 0 <= i < |x.emitted| && x.emitted[i] == TransferEnd;
    assert Plan(cfg)[i] == x.emitted[i];
    assert InPlace(cfg, Plan(cfg), i);
    assert ToSend(cfg, x) == [];
    assert x.emitted + [] == x.emitted;
  }

  lemma EmittedInPlace(cfg: Config, x: SendSide)
    requires SendInv(cfg, x)
    ensures x.emitted <= Plan(cfg) && forall i | 0 <= i < |x.emitted| :: InPlace(cfg, x.emitted, i)
  {
    var plan := Plan(cfg);
    assert x.emitted <= plan;
    PlanInPlace(cfg);
    assert forall i | 0 <= i < |x.emitted| :: x.emitted[i] == plan[i];
    forall i | 0 <= i < |x.emitted| ensures InPlace(cfg, x.emitted, i) {
      assert InPlace(cfg, plan, i);
    }
  }

  /**
   In every state of every interleaving: the messages are a prefix of the plan, each in its
   place; their bytes are a prefix of the image, and the whole image once TransferEnd is out.
   */
  lemma HandedOverIsPrefix(cfg: Config, acts: seq<Action>, s: State)
    requires Reaches(cfg, acts, s)
    ensures s.send.emitted <= Plan(cfg)
    ensures forall i | 0 <= i < |s.send.emitted| :: InPlace(cfg, s.send.emitted, i)
    ensures Payload(s.send.emitted) <= cfg.image
    ensures TransferEnd in s.send.emitted ==> Payload(s.send.emitted) == cfg.image
  {
    ReachableInv(cfg, acts, s);
    EmittedInPlace(cfg, s.send);
    if TransferEnd in s.send.emitted {
      EndMeansEnded(cfg, s.send);
      assert cfg.image[..|cfg.image|] == cfg.image;
    }
  }

  // ---------------------------------------------------------------- recovered success

  /**
   An RPC error is turned into success only for a deadline or a cancellation, after TransferReady,
   with no send error, and with every byte of the image handed over. Its `validated` field is right if
   and only if no Validated was heard.
   */
  lemma RecoveredIsSound(cfg: Config, acts: seq<Action>, s: State, code: Code, r: Report)
    requires Reaches(cfg, acts, s) && s.hand.pc == Finished(Recovered(code, r))
    ensures code == DeadlineExceeded || code == Cancelled
    ensures TransferReady in s.hand.heard && s.send.error.None?
    ensures Payload(s.send.emitted) == cfg.image
    ensures r == Report(true, cfg.version, Transferred, Some(Completed), Some(|cfg.image|),
                        Some(LastProgress(s.hand.heard)), Some(false))
    ensures r.validated == Some(LastValidated(s.hand.heard).Some?) <==> LastValidated(s.hand.heard).None?
  {
    ReachableInv(cfg, acts, s);
    assert Held(s.send.pc) == [] && cfg.image[..|cfg.image|] == cfg.image;
  }

  /** Where the handler can be once it has read `ended` after an RPC error. */
  ghost predicate Committed(recover: bool, code: Code, pc: Handler) {
    match pc
    case AskBytes(c) => c == code && (recover ==> Recoverable(code)) && (!recover ==> !Recoverable(code))
    case Reporting(c) => recover && c == code
    case Leaving(o) => (if recover then o.Recovered? && o.code == code else o == Raised(RpcFailed(code)))
    case Finished(o) => (if recover then o.Recovered? && o.code == code else o == Raised(RpcFailed(code)))
    case _ => false
  }

  lemma CommittedStep(cfg: Config, s: State, a: Action, recover: bool, code: Code)
    requires Inv(cfg, s) && Enabled(cfg, s, a) && Committed(recover, code, s.hand.pc)
    ensures Committed(recover, code, Do(cfg, s, a).hand.pc)
  {
    match a
    case HandlerStep =>
    case SenderStep =>
    case _ =>
  }

  lemma {:induction false} CommittedRun(cfg: Config, s: State, acts: seq<Action>, recover: bool, code: Code)
    requires Inv(cfg, s) && Committed(recover, code, s.hand.pc) && After(cfg, s, acts).Some?
    ensures Committed(recover, code, After(cfg, s, acts).value.hand.pc)
    decreases |acts|
  {
    if acts != [] {
      CommittedStep(cfg, s, acts[0], recover, code);
      StepKeepsInv(cfg, s, acts[0]);
      CommittedRun(cfg, Do(cfg, s, acts[0]), acts[1..], recover, code);
    }
  }

  lemma RunSplits(cfg: Config, s: State, a: Action, after: seq<Action>)
    requires After(cfg, s, [a] + after).Some?
    ensures Enabled(cfg, s, a) && After(cfg, Do(cfg, s, a), after) == After(cfg, s, [a] + after)
  {
    assert ([a] + after)[1..] == after;
  }

  lemma EndedIsRead(cfg: Config, s: State)
    requires s.hand.pc.AskEnded?
    ensures var code := s.hand.pc.code;
      Committed(s.send.ended && Recoverable(code), code, Do(cfg, s, HandlerStep).hand.pc)
  {
  }

  lemma CommittedFrom(cfg: Config, s: State, after: seq<Action>)
    requires Inv(cfg, s) && s.hand.pc.AskEnded? && After(cfg, s, [HandlerStep] + after).Some?
    ensures var code := s.hand.pc.code;
      Committed(s.send.ended && Recoverable(code), code, After(cfg, s, [HandlerStep] + after).value.hand.pc)
  {
    RunSplits(cfg, s, HandlerStep, after);
    EndedIsRead(cfg, s);
    var recover := s.send.ended && Recoverable(s.hand.pc.code);
    StepKeepsInv(cfg, s, HandlerStep);
    CommittedRun(cfg, Do(cfg, s, HandlerStep), after, recover, s.hand.pc.code);
  }

  /**
   The exact recovery rule, over all continuations: whatever the other threads do from the step
   that reads `ended` on, the error becomes a success if and only if `ended` was set then and the
   code is a deadline or a cancellation. The byte count that is compared afterwards never changes the verdict.
   */
  lemma DecidedByEnded(cfg: Config, before: seq<Action>, s: State, after: seq<Action>, t: State)
    requires Reaches(cfg, before, s) && s.hand.pc.AskEnded?
    requires After(cfg, s, [HandlerStep] + after) == Some(t) && t.hand.pc.Finished?
    ensures t.hand.pc.outcome.Recovered? <==>
      s.send.ended && (s.hand.pc.code == DeadlineExceeded || s.hand.pc.code == Cancelled)
    ensures !t.hand.pc.outcome.Recovered? ==> t.hand.pc.outcome == Raised(RpcFailed(s.hand.pc.code))
  {
    ReachableInv(cfg, before, s);
    CommittedFrom(cfg, s, after);
  }

  // ---------------------------------------------------------------- completed transfers

  /** A chunk in the sender's hands is never empty. */
  lemma HeldNonempty(cfg: Config, x: SendSide)
    requires SendInv(cfg, x) && (x.pc.HasRead? || x.pc.Counted?)
    ensures Held(x.pc) != []
  {
    PlanInPlace(cfg);
    var i := |x.emitted|;
    assert ToSend(cfg, x)[0] == TransferContent(Held(x.pc));
    assert Plan(cfg)[i] == (x.emitted + ToSend(cfg, x))[i] == TransferContent(Held(x.pc));
    assert InPlace(cfg, Plan(cfg), i);
  }

  /** The bytes handed over are the image exactly if all are counted and none is still held. */
  lemma WholeImageOut(cfg: Config, x: SendSide)
    requires SendInv(cfg, x)
    ensures Payload(x.emitted) == cfg.image <==> x.bytesSent == |cfg.image| && !x.pc.Counted?
  {
    if x.pc.HasRead? || x.pc.Counted? {
      HeldNonempty(cfg, x);
      assert |Payload(x.emitted)| < |cfg.image|;
    } else {
      assert x.pos == |cfg.image| ==> cfg.image[..x.pos] == cfg.image;
    }
  }

  /** Such a report is made at the step that reads the count, and quotes it. */
  lemma CompletedStep(cfg: Config, s: State, a: Action, r: Report)
    requires EndInv(cfg, s.send, s.hand) && Enabled(cfg, s, a) && !s.hand.pc.Finished?
    requires Do(cfg, s, a).hand.pc == Finished(Reported(r)) && r.transferState == Some(Completed)
    ensures r.bytesTransferred == Some(s.send.bytesSent) && r.bytesAcknowledged == Some(s.hand.lastProgress)
  {
    match a
    case HandlerStep =>
    case _ =>
  }

  lemma AcknowledgedIsOut(cfg: Config, s: State)
    requires Inv(cfg, s) && cfg.honest
    ensures s.hand.lastProgress <= |Payload(s.send.emitted)| && Payload(s.send.emitted) <= cfg.image
  {
    LastProgressBound(s.hand.heard, Arrived(s));
    PayloadPrefix(s.send.emitted, s.device.delivered, |s.send.emitted|);
    assert s.send.emitted[..|s.send.emitted|] == s.send.emitted;
  }

  /**
   Exactly when a `completed` report made after a clean close is true: the whole image has been
   handed over if and only if the reported count is the image's size and the sender is not
   between counting a chunk and handing it over. Nothing else in the report matters, in particular
   not whether the device has validated; but an honest device's acknowledgement of every byte is
   enough.
   */
  lemma CompletedMeans(cfg: Config, acts: seq<Action>, s: State, a: Action, r: Report)
    requires Reaches(cfg, acts, s) && Enabled(cfg, s, a) && !s.hand.pc.Finished?
    requires Do(cfg, s, a).hand.pc == Finished(Reported(r)) && r.transferState == Some(Completed)
    ensures Payload(s.send.emitted) == cfg.image
       <==> r.bytesTransferred == Some(|cfg.image|) && !s.send.pc.Counted?
    ensures cfg.honest && r.bytesAcknowledged == Some(|cfg.image|) ==> Payload(s.send.emitted) == cfg.image
  {
    ReachableInv(cfg, acts, s);
    CompletedStep(cfg, s, a, r);
    WholeImageOut(cfg, s.send);
    if cfg.honest {
      AcknowledgedIsOut(cfg, s);
    }
  }

  // ---------------------------------------------------------------- the idempotent verdict

  lemma {:induction false} NoContent(msgs: seq<InstallRequest>)
    requires Payload(msgs) == [] && forall i | 0 <= i < |msgs| && msgs[i].TransferContent? :: msgs[i].chunk != []
    ensures forall i | 0 <= i < |msgs| :: !msgs[i].TransferContent?
  {
    if msgs != [] {
      NoContent(msgs[..|msgs| - 1]);
    }
  }

  /**
   Every step that ends a run with `already_present` finds a Validated among the responses heard
   and no content message among those handed over; and after a Validated, reading the byte count
   gives `changed: false` if and only if the count is zero.
   */
  lemma AlreadyPresentIsSound(cfg: Config, acts: seq<Action>, s: State, a: Action, r: Report)
    requires Reaches(cfg, acts, s) && Enabled(cfg, s, a) && !s.hand.pc.Finished?
    requires Do(cfg, s, a).hand.pc == Finished(Reported(r))
    ensures r.installState.AlreadyPresent? ==>
      && LastValidated(s.hand.heard).Some? && LastValidated(s.hand.heard).value in s.hand.heard
      && !r.changed
      && forall i | 0 <= i < |s.send.emitted| :: !s.send.emitted[i].TransferContent?
    ensures s.hand.pc.AskCount? && LastValidated(s.hand.heard).Some? ==> (!r.changed <==> s.send.bytesSent == 0)
  {
    ReachableInv(cfg, acts, s);
    LastValidatedIsHeard(s.hand.heard);
    VerdictStep(cfg, s, a, r);
    if r.installState.AlreadyPresent? {
      NothingCounted(cfg, s.send);
    }
  }

  lemma VerdictStep(cfg: Config, s: State, a: Action, r: Report)
    requires EndInv(cfg, s.send, s.hand) && Enabled(cfg, s, a) && !s.hand.pc.Finished?
    requires Do(cfg, s, a).hand.pc == Finished(Reported(r))
    requires s.hand.validated.Some? ==> s.hand.validated.value.Validated?
    ensures r.installState.AlreadyPresent? ==> s.send.bytesSent == 0 && s.hand.validated.Some? && !r.changed
    ensures s.hand.pc.AskCount? && s.hand.validated.Some? ==> (!r.changed <==> s.send.bytesSent == 0)
  {
    match a
    case HandlerStep =>
    case _ =>
  }

  /** Nothing counted means that no content message has been handed over. */
  lemma NothingCounted(cfg: Config, x: SendSide)
    requires SendInv(cfg, x) && x.bytesSent == 0
    ensures forall i | 0 <= i < |x.emitted| :: !x.emitted[i].TransferContent?
  {
    assert Payload(x.emitted) == [];
    EmittedInPlace(cfg, x);
    forall i | 0 <= i < |x.emitted| && x.emitted[i].TransferContent? ensures x.emitted[i].chunk != [] {
      assert InPlace(cfg, x.emitted, i);
    }
    NoContent(x.emitted);
  }

  /** Before TransferReady, and before the `finally` clause, nothing has been counted. */
  lemma NothingBeforeReady(cfg: Config, acts: seq<Action>, s: State)
    requires Reaches(cfg, acts, s)
    ensures !BehindFinally(s.hand.pc) && (s.send.bytesSent > 0 || Payload(s.send.emitted) != []) ==>
      TransferReady in s.hand.heard
  {
    ReachableInv(cfg, acts, s);
  }

  ghost predicate ClosingUnchanged(h: HandSide) {
    match h.pc
    case StreamClosed => true
    case AskError => true
    case AskCount => true
    case Finished(o) => o.Reported? && !o.report.changed && o.report.installState.AlreadyPresent?
    case _ => false
  }

  lemma {:induction false} QuietRun(cfg: Config, s: State, acts: seq<Action>)
    requires ClosingUnchanged(s.hand) && s.hand.validated.Some? && s.hand.validated.value.Validated?
    requires s.send.error.None? && s.send.bytesSent == 0
    requires forall i | 0 <= i < |acts| :: !SenderAction(acts[i])
    requires After(cfg, s, acts).Some?
    ensures ClosingUnchanged(After(cfg, s, acts).value.hand)
    decreases |acts|
  {
    if acts != [] {
      QuietRun(cfg, Do(cfg, s, acts[0]), acts[1..]);
    }
  }

  /**
   Validated without TransferReady, a clean close and no send error report `changed: false` in
   every run in which the sender does not move between the close and the verdict.
   */
  lemma QuietSenderGivesUnchanged(cfg: Config, before: seq<Action>, s: State, after: seq<Action>, t: State)
    requires Reaches(cfg, before, s) && s.hand.pc.StreamClosed? && s.send.error.None?
    requires LastValidated(s.hand.heard).Some? && TransferReady !in s.hand.heard
    requires forall i | 0 <= i < |after| :: !SenderAction(after[i])
    requires After(cfg, s, after) == Some(t) && t.hand.pc.Finished?
    ensures t.hand.pc.outcome.Reported?
    ensures !t.hand.pc.outcome.report.changed && t.hand.pc.outcome.report.installState.AlreadyPresent?
  {
    ReachableInv(cfg, before, s);
    LastValidatedIsHeard(s.hand.heard);
    QuietRun(cfg, s, after);
  }

  // ---------------------------------------------------------------- concrete runs

  lemma {:induction false} AfterSnoc(cfg: Config, s: State, acts: seq<Action>, a: Action)
    requires After(cfg, s, acts).Some? && Enabled(cfg, After(cfg, s, acts).value, a)
    ensures After(cfg, s, acts + [a]) == Some(Do(cfg, After(cfg, s, acts).value, a))
    decreases |acts|
  {
    if acts == [] {
      assert [a][1..] == [] && acts + [a] == [a];
    } else {
      assert (acts + [a])[1..] == acts[1..] + [a];
      AfterSnoc(cfg, Do(cfg, s, acts[0]), acts[1..], a);
    }
  }

  lemma Extend(cfg: Config, acts: seq<Action>, s: State, a: Action) returns (acts': seq<Action>, t: State)
    requires Reaches(cfg, acts, s) && Enabled(cfg, s, a)
    ensures Reaches(cfg, acts', t) && t == Do(cfg, s, a) && acts' == acts + [a]
  {
    AfterSnoc(cfg, Init(), acts, a);
    acts', t := acts + [a], Do(cfg, s, a);
  }

  const ONE_BYTE := Config([7], 1, "v", false, true)

  /** Announce, hear a Validated, close cleanly, run the `finally` clause. */
  lemma ValidatedThenClosed(cfg: Config) returns (acts: seq<Action>, s: State)
    ensures Reaches(cfg, acts, s) && TransferReady !in s.hand.heard
    ensures s.hand == HandSide(AskError, true, [Validated("v", "")], Some(Validated("v", "")), 0)
    ensures s.send == SendSide(Waiting, 0, [Announcement(cfg)], 0, false, None)
  {
    acts, s := [], Init();
    acts, s := Extend(cfg, acts, s, SenderStep);
    acts, s := Extend(cfg, acts, s, Reply(Validated("v", "")));
    acts, s := Extend(cfg, acts, s, Receive);
    acts, s := Extend(cfg, acts, s, CloseClean);
    acts, s := Extend(cfg, acts, s, HandlerStep);
  }

  /** The event is set: the sender wakes, reads its first chunk and counts it. */
  lemma SenderWakes(cfg: Config, acts: seq<Action>, s: State) returns (acts': seq<Action>, t: State)
    requires Reaches(cfg, acts, s) && cfg.image != [] && s.hand.readySet
    requires s.send == SendSide(Waiting, 0, [Announcement(cfg)], 0, false, None)
    ensures Reaches(cfg, acts', t) && t.hand == s.hand && t.device == s.device
    ensures t.send.bytesSent > 0 && t.send.error == None
  {
    acts', t := Extend(cfg, acts, s, SenderStep);
    acts', t := Extend(cfg, acts', t, SenderStep);
    assert t.send.pc.HasRead? && t.send.pc.chunk != [];
    acts', t := Extend(cfg, acts', t, SenderStep);
  }

  /** TransferReady never came and a Validated did, and still the result is a change. */
  ghost predicate Flipped(s: State) {
    && TransferReady !in s.hand.heard && LastValidated(s.hand.heard).Some?
    && s.hand.pc.Finished? && s.hand.pc.outcome.Reported? && s.hand.pc.outcome.report.changed
  }

  /**
   The delicate ordering, for every nonempty image and every chunk size: the event set in
   `finally` wakes the sender, which counts its first chunk before the handler reads the count.
   TransferReady never came, yet the run ends with `changed: true` and `validated`.
   */
  lemma LateSenderFlipsVerdict(cfg: Config) returns (acts: seq<Action>, s: State)
    requires cfg.image != []
    ensures Reaches(cfg, acts, s) && Flipped(s) && s.hand.pc.outcome.report.installState.ValidatedImage?
  {
    acts, s := ValidatedThenClosed(cfg);
    acts, s := SenderWakes(cfg, acts, s);
    acts, s := Extend(cfg, acts, s, HandlerStep);
    acts, s := Extend(cfg, acts, s, HandlerStep);
  }

  /** The verdict can flip if and only if there is a byte to send. */
  lemma VerdictCanFlip(cfg: Config)
    ensures (exists acts, s :: Reaches(cfg, acts, s) && Flipped(s)) <==> cfg.image != []
  {
    if cfg.image != [] {
      var acts, s := LateSenderFlipsVerdict(cfg);
    } else {
      forall acts, s | Reaches(cfg, acts, s) ensures !Flipped(s) {
        ReachableInv(cfg, acts, s);
      }
    }
  }

  /** A clean close at once reports a completed transfer although no byte was sent. */
  lemma CleanCloseWithoutTransfer(cfg: Config) returns (acts: seq<Action>, s: State)
    requires cfg.image != []
    ensures Reaches(cfg, acts, s) && Payload(s.send.emitted) != cfg.image
    ensures s.hand.pc.Finished? && s.hand.pc.outcome.Reported?
    ensures s.hand.pc.outcome.report.transferState == Some(Completed)
    ensures s.hand.pc.outcome.report.bytesTransferred == Some(0) && s.hand.pc.outcome.report.changed
  {
    acts, s := [], Init();
    acts, s := Extend(cfg, acts, s, CloseClean);
    acts, s := Extend(cfg, acts, s, HandlerStep);
    acts, s := Extend(cfg, acts, s, HandlerStep);
    acts, s := Extend(cfg, acts, s, HandlerStep);
  }

  /** Why `ended` is needed next to the byte count: all bytes counted, the last chunk not out. */
  lemma CountedButNotHandedOver() returns (acts: seq<Action>, s: State)
    ensures Reaches(ONE_BYTE, acts, s) && s.hand == HandSide(Listening, true, [TransferReady], None, 0)
    ensures s.send == SendSide(Counted([7]), 1, [Announcement(ONE_BYTE)], 1, false, None)
    ensures s.device == DeviceSide(0, [])
    ensures s.send.bytesSent == |ONE_BYTE.image| && Payload(s.send.emitted) != ONE_BYTE.image
  {
    acts, s := [], Init();
    acts, s := Extend(ONE_BYTE, acts, s, SenderStep);
    acts, s := Extend(ONE_BYTE, acts, s, Reply(TransferReady));
    acts, s := Extend(ONE_BYTE, acts, s, Receive);
    acts, s := Extend(ONE_BYTE, acts, s, SenderStep);
    acts, s := Extend(ONE_BYTE, acts, s, SenderStep);
    acts, s := Extend(ONE_BYTE, acts, s, SenderStep);
    assert ONE_BYTE.image[0..1] == [7];
  }

  /** A clean close in that state: a completed transfer of every byte, with no content handed over. */
  lemma CountedThenClosed() returns (acts: seq<Action>, s: State)
    ensures Reaches(ONE_BYTE, acts, s) && Payload(s.send.emitted) == []
    ensures s.hand.pc == Finished(Reported(
      Report(true, "v", Transferred, Some(Completed), Some(|ONE_BYTE.image|), Some(0), Some(false))))
  {
    acts, s := CountedButNotHandedOver();
    acts, s := Extend(ONE_BYTE, acts, s, CloseClean);
    acts, s := Extend(ONE_BYTE, acts, s, HandlerStep);
    acts, s := Extend(ONE_BYTE, acts, s, HandlerStep);
    acts, s := Extend(ONE_BYTE, acts, s, HandlerStep);
  }

  /** A Validated in front of the close changes nothing about it, except that it is reported too. */
  lemma CountedThenValidated() returns (acts: seq<Action>, s: State)
    ensures Reaches(ONE_BYTE, acts, s) && Payload(s.send.emitted) == []
    ensures s.hand.pc == Finished(Reported(
      Report(true, "w", ValidatedImage, Some(Completed), Some(|ONE_BYTE.image|), Some(0), Some(true))))
  {
    acts, s := CountedButNotHandedOver();
    acts, s := Extend(ONE_BYTE, acts, s, Reply(Validated("w", "")));
    acts, s := Extend(ONE_BYTE, acts, s, Receive);
    acts, s := Extend(ONE_BYTE, acts, s, CloseClean);
    acts, s := Extend(ONE_BYTE, acts, s, HandlerStep);
    acts, s := Extend(ONE_BYTE, acts, s, HandlerStep);
    acts, s := Extend(ONE_BYTE, acts, s, HandlerStep);
  }

  // ---------------------------------------------------------------- the sender gets out

  /** Once the handler is behind its `finally` clause the sender is finished or can move. */
  lemma SenderNeverBlocked(cfg: Config, acts: seq<Action>, s: State)
    requires Reaches(cfg, acts, s) && BehindFinally(s.hand.pc)
    ensures s.send.pc.Stopped? || Enabled(cfg, s, SenderStep)
  {
    ReachableInv(cfg, acts, s);
  }

  /** An upper bound on the sender's remaining steps. */
  function SenderRank(cfg: Config, x: SendSide): nat {
    (if x.pos <= |cfg.image| then 3 * (|cfg.image| - x.pos) else 0) + Remaining(x.pc)
  }

  function Remaining(pc: Sender): nat {
    match pc
    case Announcing => 6
    case Waiting => 5
    case TimingOut => 1
    case Reading => 4
    case HasRead(_) => 6
    case Counted(_) => 5
    case AtEof => 2
    case MarkedEnd => 1
    case ReadFailing => 1
    case Stopped => 0
  }

  lemma SenderStepRank(cfg: Config, x: SendSide)
    requires x.pos <= |cfg.image| && !x.pc.Stopped?
    ensures SenderRank(cfg, DoSender(cfg, x)) < SenderRank(cfg, x)
  {
    var y := DoSender(cfg, x);
    if x.pc.Reading? && x.pos < |cfg.image| {
      assert x.pos < y.pos <= |cfg.image| && y.pc.HasRead?;
    } else {
      assert y.pos == x.pos && Remaining(y.pc) < Remaining(x.pc);
    }
  }

  /** Every sender step, faults included, uses up rank; no other step touches the sender. */
  lemma RankDecreases(cfg: Config, s: State, a: Action)
    requires s.send.pos <= |cfg.image| && Enabled(cfg, s, a)
    ensures SenderAction(a) ==> SenderRank(cfg, Do(cfg, s, a).send) < SenderRank(cfg, s.send)
    ensures !SenderAction(a) ==> Do(cfg, s, a).send == s.send
  {
    if a.SenderStep? {
      SenderStepRank(cfg, s.send);
    }
  }

  function SenderSteps(acts: seq<Action>): nat {
    if acts == [] then 0 else (if SenderAction(acts[0]) then 1 else 0) + SenderSteps(acts[1..])
  }

  /** However the threads interleave, the sender takes a bounded number of steps. */
  lemma {:induction false} SenderStepsBounded(cfg: Config, s: State, acts: seq<Action>)
    requires Inv(cfg, s) && After(cfg, s, acts).Some?
    ensures SenderSteps(acts) <= SenderRank(cfg, s.send)
    decreases |acts|
  {
    if acts != [] {
      RankDecreases(cfg, s, acts[0]);
      StepKeepsInv(cfg, s, acts[0]);
      SenderStepsBounded(cfg, Do(cfg, s, acts[0]), acts[1..]);
    }
  }

  /** Neither failed nor about to. */
  predicate Sound(x: SendSide) {
    x.error.None? && !x.pc.TimingOut? && !x.pc.ReadFailing?
  }

  /** A sender that has stopped with nothing gone wrong has handed over the whole plan. */
  lemma StoppedSound(cfg: Config, x: SendSide)
    requires SendInv(cfg, x) && x.pc.Stopped? && Sound(x)
    ensures x.ended && x.emitted == Plan(cfg)
  {
    assert x.emitted + [] == x.emitted;
  }

  /** One step of the sender on its own: it is possible, uses up rank and stays sound. */
  lemma SenderMoves(cfg: Config, before: seq<Action>, s: State) returns (before': seq<Action>, t: State)
    requires Reaches(cfg, before, s) && !s.send.pc.Stopped? && (s.hand.readySet || BehindFinally(s.hand.pc))
    ensures Reaches(cfg, before', t) && before' == before + [SenderStep]
    ensures t.hand == s.hand && t.device == s.device
    ensures SenderRank(cfg, t.send) < SenderRank(cfg, s.send) && (Sound(s.send) ==> Sound(t.send))
  {
    ReachableInv(cfg, before, s);
    RankDecreases(cfg, s, SenderStep);
    before', t := Extend(cfg, before, s, SenderStep);
  }

  /**
   Once the event is set, in particular from behind the `finally` clause, the sender alone runs to
   its end; with nothing gone wrong before, it hands over the whole plan.
   */
  lemma {:induction false} SenderFinishes(cfg: Config, before: seq<Action>, s: State)
    returns (acts: seq<Action>, t: State)
    requires Reaches(cfg, before, s) && (s.hand.readySet || BehindFinally(s.hand.pc))
    ensures Reaches(cfg, before + acts, t) && t.send.pc.Stopped? && t.hand == s.hand && t.device == s.device
    ensures |acts| <= SenderRank(cfg, s.send) && forall i | 0 <= i < |acts| :: acts[i] == SenderStep
    ensures Sound(s.send) ==> t.send.ended && t.send.emitted == Plan(cfg)
    decreases SenderRank(cfg, s.send)
  {
    if s.send.pc.Stopped? {
      acts, t := [], s;
      assert before + acts == before;
      if Sound(s.send) {
        ReachableInv(cfg, before, s);
        StoppedSound(cfg, s.send);
      }
    } else {
      var before', s' := SenderMoves(cfg, before, s);
      var rest, u := SenderFinishes(cfg, before', s');
      acts, t := [SenderStep] + rest, u;
      assert before + acts == before' + rest;
    }
  }

  /** For every image: the whole plan is out and the device has sent Validated. */
  lemma TransferredAndValidated(cfg: Config) returns (acts: seq<Action>, s: State)
    ensures Reaches(cfg, acts, s) && s.send.ended && s.send.emitted == Plan(cfg)
    ensures s.hand == HandSide(Listening, true, [TransferReady, Validated("v", "")], Some(Validated("v", "")), 0)
  {
    acts, s := [], Init();
    acts, s := Extend(cfg, acts, s, Reply(TransferReady));
    acts, s := Extend(cfg, acts, s, Receive);
    var steps, t := SenderFinishes(cfg, acts, s);
    acts, s := Extend(cfg, acts + steps, t, Reply(Validated("v", "")));
    acts, s := Extend(cfg, acts, s, Receive);
  }

  /**
   The recovery path forgets a Validated: for every image, a deadline or a cancellation that comes
   after it ends in a report that denies it.
   */
  lemma RecoveredForgetsValidated(cfg: Config, code: Code) returns (acts: seq<Action>, s: State)
    requires Recoverable(code)
    ensures Reaches(cfg, acts, s) && LastValidated(s.hand.heard).Some?
    ensures s.hand.pc.Finished? && s.hand.pc.outcome.Recovered? && s.hand.pc.outcome.report.validated == Some(false)
  {
    acts, s := TransferredAndValidated(cfg);
    ReachableInv(cfg, acts, s);
    acts, s := Extend(cfg, acts, s, RpcError(code));
    acts, s := Extend(cfg, acts, s, HandlerStep);
    acts, s := Extend(cfg, acts, s, HandlerStep);
    acts, s := Extend(cfg, acts, s, HandlerStep);
    acts, s := Extend(cfg, acts, s, HandlerStep);
    ReachableInv(cfg, acts, s);
  }

  /**
   A transfer that was completed consists of exactly ceil(size / chunk) + 2 messages, or of at
   most three when the file is read in one piece.
   */
  lemma CompletedCount(cfg: Config, acts: seq<Action>, s: State)
    requires Reaches(cfg, acts, s) && s.send.pc.Stopped? && s.send.error.None?
    ensures s.send.emitted == Plan(cfg) && TransferEnd in s.send.emitted
    ensures cfg.chunk > 0 ==> |s.send.emitted| == CeilDiv(|cfg.image|, cfg.chunk) + 2
    ensures cfg.chunk == -1 ==> |s.send.emitted| == (if cfg.image == [] then 2 else 3)
  {
    ReachableInv(cfg, acts, s);
    PlanShape(cfg);
    assert s.send.emitted + [] == s.send.emitted;
    if cfg.chunk == -1 {
      assert Chunks(cfg.image, |cfg.image|, cfg.chunk) == [];
    } else {
      ChunkCount(cfg.image, 0, cfg.chunk);
    }
  }

  // ---------------------------------------------------------------- byte accounting

  /**
   Against a device that acknowledges only what it received, every result that carries both
   byte fields has acknowledged <= transferred <= announced size.
   */
  lemma ByteAccounting(cfg: Config, acts: seq<Action>, s: State, r: Report)
    requires Reaches(cfg, acts, s) && s.hand.pc.Finished? && cfg.honest
    requires s.hand.pc.outcome.Reported? || s.hand.pc.outcome.Recovered?
    requires r == s.hand.pc.outcome.report && r.bytesTransferred.Some? && r.bytesAcknowledged.Some?
    ensures r.bytesAcknowledged.value <= r.bytesTransferred.value <= |cfg.image|
  {
    ReachableInv(cfg, acts, s);
  }

  /** Every report is accounted for, field by field, by the responses the handler had heard. */
  lemma ReportExplained(cfg: Config, acts: seq<Action>, s: State)
    requires Reaches(cfg, acts, s) && s.hand.pc.Finished? && s.hand.pc.outcome.Reported?
    ensures Explained(cfg, s.hand.heard, s.hand.pc.outcome.report)
  {
    ReachableInv(cfg, acts, s);
  }

  lemma {:induction false} NoErrorIndex(responses: seq<Response>)
    requires forall i | 0 <= i < |responses| :: !responses[i].InstallError?
    ensures ErrorIndex(responses) == |responses|
  {
    if responses != [] {
      NoErrorIndex(responses[1..]);
    }
  }

  /** While it listens, the handler's variables are those of the plain loop over what it heard. */
  lemma ListeningIsTheLoop(cfg: Config, acts: seq<Action>, s: State)
    requires Reaches(cfg, acts, s) && s.hand.pc.Listening?
    ensures ErrorIndex(s.hand.heard) == |s.hand.heard|
    ensures s.hand.readySet <==> TransferReady in s.hand.heard
    ensures s.hand.validated == LastValidated(s.hand.heard) && s.hand.lastProgress == LastProgress(s.hand.heard)
  {
    ReachableInv(cfg, acts, s);
    NoErrorIndex(s.hand.heard);
  }
}
