/** What every step of every interleaving of `os/install` keeps. */
module InstallInvariant {
  import opened Wrappers
  import opened Bytes
  import opened ImageStream
  import opened InstallProtocol

  // ---------------------------------------------------------------- the sender against its plan

  /** The chunks still to be read, then TransferEnd. */
  function Rest(cfg: Config, pos: nat): seq<InstallRequest>
    requires pos <= |cfg.image|
  {
    ContentOf(Chunks(cfg.image, pos, cfg.chunk)) + [TransferEnd]
  }

  /** Everything an undisturbed sender hands over. */
  function Plan(cfg: Config): seq<InstallRequest> {
    [Announcement(cfg)] + Rest(cfg, 0)
  }

  /** What the sender has still to hand over from where it is. */
  function ToSend(cfg: Config, x: SendSide): seq<InstallRequest>
    requires x.pos <= |cfg.image|
  {
    match x.pc
    case Announcing => [Announcement(cfg)] + Rest(cfg, x.pos)
    case HasRead(chunk) => [TransferContent(chunk)] + Rest(cfg, x.pos)
    case Counted(chunk) => [TransferContent(chunk)] + Rest(cfg, x.pos)
    case AtEof => [TransferEnd]
    case MarkedEnd => [TransferEnd]
    case Stopped => if x.ended then [] else Rest(cfg, x.pos)
    case _ => Rest(cfg, x.pos)
  }

  /** The chunk in the sender's hands: read, not yet handed over. */
  function Held(pc: Sender): seq<byte> {
    match pc
    case HasRead(chunk) => chunk
    case Counted(chunk) => chunk
    case _ => []
  }

  predicate PastWait(pc: Sender) {
    !pc.Announcing? && !pc.Waiting? && !pc.TimingOut?
  }

  /** Where the sender is in the file, what it holds, and what it has told the handler. */
  ghost predicate CountInv(cfg: Config, x: SendSide) {
    && x.pos <= |cfg.image|
    && |Held(x.pc)| <= x.pos && Held(x.pc) == cfg.image[x.pos - |Held(x.pc)|..x.pos]
    && x.bytesSent == (if x.pc.HasRead? then x.pos - |Held(x.pc)| else x.pos)
    && (!PastWait(x.pc) ==> x.pos == 0)
    && (x.pc.AtEof? || x.ended ==> x.pos == |cfg.image|)
    && (x.error.Some? ==> x.pc.Stopped?)
    && (x.error == Some(WaitTimedOut) ==> x.pos == 0)
    && (x.ended <==> x.pc.MarkedEnd? || (x.pc.Stopped? && x.error.None?))
  }

  /** Handed over so far and still to come add up to the plan. */
  ghost predicate PlanInv(cfg: Config, x: SendSide) {
    x.pos <= |cfg.image| && x.emitted + ToSend(cfg, x) == Plan(cfg)
  }

  /** The bytes handed over are the file up to the held chunk. */
  ghost predicate PayloadInv(cfg: Config, x: SendSide) {
    && |Held(x.pc)| <= x.pos <= |cfg.image|
    && Payload(x.emitted) == cfg.image[..x.pos - |Held(x.pc)|]
  }

  // ---------------------------------------------------------------- the handler

  predicate BehindFinally(pc: Handler) {
    pc.AskError? || pc.AskCount? || pc.Finished?
  }

  ghost predicate HandlerInv(h: HandSide) {
    && (h.readySet ==> TransferReady in h.heard || BehindFinally(h.pc))
    && (TransferReady in h.heard || BehindFinally(h.pc) ==> h.readySet)
    && h.validated == LastValidated(h.heard)
    && h.lastProgress == LastProgress(h.heard)
    && (h.pc.Listening? ==> forall i | 0 <= i < |h.heard| :: !h.heard[i].InstallError?)
  }

  /** What the two threads know of each other. */
  ghost predicate SharedInv(x: SendSide, h: HandSide) {
    && (PastWait(x.pc) && x.error != Some(WaitTimedOut) ==> h.readySet)
    && (h.pc.AskBytes? ==> x.ended)
    && (h.pc.Reporting? ==> x.ended && Recoverable(h.pc.code))
  }

  // ---------------------------------------------------------------- an honest device

  ghost predicate Acknowledged(rs: seq<Response>, bytes: nat) {
    forall i | 0 <= i < |rs| && rs[i].TransferProgress? :: rs[i].received <= bytes
  }

  ghost predicate DeviceInv(cfg: Config, s: State) {
    && s.device.delivered <= |s.send.emitted|
    && (cfg.honest ==> Acknowledged(s.device.inbox, Arrived(s)) && Acknowledged(s.hand.heard, Arrived(s)))
  }

  // ---------------------------------------------------------------- the outcome

  /** Both byte fields, where present, are in order and within the announced size. */
  ghost predicate Accounted(cfg: Config, r: Report) {
    r.bytesTransferred.Some? ==>
      && r.bytesTransferred.value <= |cfg.image|
      && (cfg.honest && r.bytesAcknowledged.Some? ==> r.bytesAcknowledged.value <= r.bytesTransferred.value)
  }

  /** What the handler heard accounts for every field of the report except a positive byte count. */
  ghost predicate Explained(cfg: Config, heard: seq<Response>, r: Report) {
    var v := LastValidated(heard);
    match r.installState
    case AlreadyRunning =>
      && InstallError(ALREADY_RUNNING) in heard
      && r == Report(false, cfg.version, AlreadyRunning, None, None, None, None)
    case AlreadyPresent =>
      && v.Some? && v.value.Validated? && r.bytesTransferred == Some(0)
      && r == Report(false, v.value.version, AlreadyPresent, Some(Skipped), Some(0), Some(LastProgress(heard)), None)
    case ValidatedImage =>
      && v.Some? && v.value.Validated? && r.bytesTransferred.Some? && r.bytesTransferred.value > 0
      && r == Report(true, v.value.version, ValidatedImage, Some(Completed), r.bytesTransferred,
                     Some(LastProgress(heard)), Some(true))
    case Transferred =>
      && v.None?
      && r == Report(true, cfg.version, Transferred, Some(Completed), r.bytesTransferred,
                     Some(LastProgress(heard)), Some(false))
  }

  ghost predicate OutcomeInv(cfg: Config, x: SendSide, h: HandSide, o: Outcome) {
    match o
    case Reported(r) => Accounted(cfg, r) && Explained(cfg, h.heard, r)
    case Recovered(code, r) =>
      && Accounted(cfg, r)
      && Recoverable(code) && x.ended && TransferReady in h.heard
      && r == Report(true, cfg.version, Transferred, Some(Completed), Some(|cfg.image|),
                     Some(LastProgress(h.heard)), Some(false))
    case Raised(_) => true
  }

  ghost predicate EndInv(cfg: Config, x: SendSide, h: HandSide) {
    match h.pc
    case Leaving(o) => OutcomeInv(cfg, x, h, o) && (o.Reported? ==> o.report.installState.AlreadyRunning?)
    case Finished(o) => OutcomeInv(cfg, x, h, o)
    case _ => true
  }

  ghost predicate SendInv(cfg: Config, x: SendSide) {
    CountInv(cfg, x) && PlanInv(cfg, x) && PayloadInv(cfg, x)
  }

  ghost predicate Inv(cfg: Config, s: State) {
    && SendInv(cfg, s.send) && HandlerInv(s.hand) && SharedInv(s.send, s.hand)
    && DeviceInv(cfg, s) && EndInv(cfg, s.send, s.hand)
  }

  // ---------------------------------------------------------------- facts about payloads

  lemma PayloadSnoc(msgs: seq<InstallRequest>, msg: InstallRequest)
    ensures Payload(msgs + [msg]) == Payload(msgs) + (if msg.TransferContent? then msg.chunk else [])
  {
    assert (msgs + [msg])[..|msgs|] == msgs;
  }

  lemma {:induction false} PayloadPrefix(msgs: seq<InstallRequest>, a: nat, b: nat)
    requires a <= b <= |msgs|
    ensures Payload(msgs[..a]) <= Payload(msgs[..b])
  {
    if a < b {
      PayloadPrefix(msgs, a, b - 1);
      assert msgs[..b] == msgs[..b - 1] + [msgs[b - 1]];
      PayloadSnoc(msgs[..b - 1], msgs[b - 1]);
    }
  }

  lemma HeardSnoc(heard: seq<Response>, r: Response)
    ensures LastValidated(heard + [r]) == (if r.Validated? then Some(r) else LastValidated(heard))
    ensures LastProgress(heard + [r]) == (if r.TransferProgress? then r.received else LastProgress(heard))
  {
    assert (heard + [r])[..|heard|] == heard;
  }

  lemma {:induction false} LastValidatedIsHeard(heard: seq<Response>)
    ensures LastValidated(heard).Some? ==> LastValidated(heard).value in heard && LastValidated(heard).value.Validated?
    ensures LastValidated(heard).None? ==> forall r | r in heard :: !r.Validated?
  {
    if heard != [] {
      var n := |heard| - 1;
      LastValidatedIsHeard(heard[..n]);
      assert heard == heard[..n] + [heard[n]];
    }
  }

  lemma {:induction false} LastProgressBound(heard: seq<Response>, bytes: nat)
    requires Acknowledged(heard, bytes)
    ensures LastProgress(heard) <= bytes
  {
    if heard != [] {
      LastProgressBound(heard[..|heard| - 1], bytes);
    }
  }

  /** What has arrived is at most what was handed over, and that at most what was counted. */
  lemma ArrivedBound(cfg: Config, s: State)
    requires CountInv(cfg, s.send) && PayloadInv(cfg, s.send) && s.device.delivered <= |s.send.emitted|
    ensures Arrived(s) <= s.send.bytesSent <= |cfg.image|
  {
    PayloadPrefix(s.send.emitted, s.device.delivered, |s.send.emitted|);
    assert s.send.emitted[..|s.send.emitted|] == s.send.emitted;
  }

  /** An honest device has never acknowledged more than the sender has counted. */
  lemma ProgressBound(cfg: Config, s: State)
    requires Inv(cfg, s) && cfg.honest
    ensures s.hand.lastProgress <= s.send.bytesSent <= |cfg.image|
  {
    LastProgressBound(s.hand.heard, Arrived(s));
    ArrivedBound(cfg, s);
  }

  // ---------------------------------------------------------------- preservation

  lemma InitPlan(cfg: Config)
    ensures PlanInv(cfg, Init().send)
  {
    NothingSent(Plan(cfg));
  }

  lemma NothingSent(plan: seq<InstallRequest>)
    ensures [] + plan == plan
  {
  }

  lemma InitPayload(cfg: Config)
    ensures PayloadInv(cfg, Init().send)
  {
    assert cfg.image[..0] == [];
  }

  lemma InitCount(cfg: Config)
    ensures CountInv(cfg, Init().send)
  {
  }

  lemma InitHand()
    ensures HandlerInv(Init().hand)
  {
  }

  lemma InitDevice(cfg: Config)
    ensures DeviceInv(cfg, Init())
  {
  }

  lemma InitInv(cfg: Config)
    ensures Inv(cfg, Init())
  {
    InitPlan(cfg);
    InitPayload(cfg);
    InitCount(cfg);
    InitHand();
    InitDevice(cfg);
  }

  /** A read takes the first chunk off the plan. */
  lemma ReadStep(cfg: Config, pos: nat)
    requires pos < |cfg.image|
    ensures var end := ReadEnd(|cfg.image|, pos, cfg.chunk);
      Rest(cfg, pos) == [TransferContent(cfg.image[pos..end])] + Rest(cfg, end)
  {
    var end := ReadEnd(|cfg.image|, pos, cfg.chunk);
    var rest := Chunks(cfg.image, end, cfg.chunk);
    assert ContentOf([cfg.image[pos..end]] + rest) == [TransferContent(cfg.image[pos..end])] + ContentOf(rest);
  }

  lemma RestAtEnd(cfg: Config)
    ensures Rest(cfg, |cfg.image|) == [TransferEnd]
  {
    assert ContentOf([]) == [];
  }

  lemma MoveOne(sent: seq<InstallRequest>, msg: InstallRequest, rest: seq<InstallRequest>)
    ensures sent + ([msg] + rest) == sent + [msg] + rest
  {
  }

  lemma SenderKeepsPlan(cfg: Config, x: SendSide)
    requires CountInv(cfg, x) && PlanInv(cfg, x)
    ensures PlanInv(cfg, DoSender(cfg, x))
  {
    match x.pc
    case Reading =>
      RestAtEnd(cfg);
      if x.pos < |cfg.image| {
        ReadStep(cfg, x.pos);
      }
    case Announcing => MoveOne(x.emitted, Announcement(cfg), Rest(cfg, x.pos));
    case Counted(chunk) => MoveOne(x.emitted, TransferContent(chunk), Rest(cfg, x.pos));
    case MarkedEnd => MoveOne(x.emitted, TransferEnd, []);
    case _ => RestAtEnd(cfg);
  }

  lemma SenderKeepsCount(cfg: Config, x: SendSide)
    requires CountInv(cfg, x)
    ensures CountInv(cfg, DoSender(cfg, x))
  {
    var y := DoSender(cfg, x);
    if x.pc.Reading? {
      assert y.pos - |Held(y.pc)| == x.pos;
    } else {
      assert y.pos == x.pos;
      assert Held(y.pc) == [] || Held(y.pc) == Held(x.pc);
    }
  }

  lemma EmitKeepsPayload(cfg: Config, x: SendSide, msg: InstallRequest, next: Sender)
    requires CountInv(cfg, x) && PayloadInv(cfg, x)
    requires Held(next) == []
    requires msg.TransferContent? ==> msg.chunk == Held(x.pc)
    requires !msg.TransferContent? ==> Held(x.pc) == []
    ensures PayloadInv(cfg, Emit(x, msg, next))
  {
    PayloadSnoc(x.emitted, msg);
    var from := x.pos - |Held(x.pc)|;
    assert cfg.image[..from] + cfg.image[from..x.pos] == cfg.image[..x.pos];
  }

  lemma SenderKeepsPayload(cfg: Config, x: SendSide)
    requires CountInv(cfg, x) && PayloadInv(cfg, x)
    ensures PayloadInv(cfg, DoSender(cfg, x))
  {
    match x.pc
    case Announcing => EmitKeepsPayload(cfg, x, Announcement(cfg), Waiting);
    case Counted(chunk) => EmitKeepsPayload(cfg, x, TransferContent(chunk), Reading);
    case MarkedEnd => EmitKeepsPayload(cfg, x, TransferEnd, Stopped);
    case Reading =>
      var y := DoSender(cfg, x);
      assert y.emitted == x.emitted && y.pos - |Held(y.pc)| == x.pos;
    case _ =>
      var y := DoSender(cfg, x);
      assert y.emitted == x.emitted && y.pos == x.pos && Held(y.pc) == Held(x.pc);
  }

  lemma SenderMonotone(cfg: Config, x: SendSide)
    requires x.error.Some? ==> x.pc.Stopped?
    ensures var y := DoSender(cfg, x);
      && (x.ended ==> y.ended) && x.emitted <= y.emitted
      && (PastWait(y.pc) && y.error != Some(WaitTimedOut) ==>
            x.pc.Waiting? || (PastWait(x.pc) && x.error != Some(WaitTimedOut)))
  {
    match x.pc
    case Announcing =>
    case Counted(_) =>
    case MarkedEnd =>
    case Reading =>
    case _ =>
  }

  lemma SenderKeepsDevice(cfg: Config, s: State)
    requires DeviceInv(cfg, s) && CountInv(cfg, s.send)
    ensures DeviceInv(cfg, s.(send := DoSender(cfg, s.send)))
  {
    SenderMonotone(cfg, s.send);
    assert DoSender(cfg, s.send).emitted[..s.device.delivered] == s.send.emitted[..s.device.delivered];
  }

  lemma SenderKeepsInv(cfg: Config, s: State)
    requires Inv(cfg, s) && Enabled(cfg, s, SenderStep)
    ensures Inv(cfg, Do(cfg, s, SenderStep))
  {
    SenderKeepsCount(cfg, s.send);
    SenderKeepsPlan(cfg, s.send);
    SenderKeepsPayload(cfg, s.send);
    SenderMonotone(cfg, s.send);
    SenderKeepsDevice(cfg, s);
  }

  lemma FaultKeepsSend(cfg: Config, x: SendSide)
    requires SendInv(cfg, x) && (x.pc.Waiting? || x.pc.Reading?)
    ensures SendInv(cfg, DoFault(x))
  {
    FaultHolds(cfg, x);
    var y := DoFault(x);
    assert y.pos == x.pos && y.emitted == x.emitted && y.bytesSent == x.bytesSent && y.ended == x.ended;
    assert PlanInv(cfg, y) && PayloadInv(cfg, y);
  }

  lemma FaultHolds(cfg: Config, x: SendSide)
    requires x.pos <= |cfg.image| && (x.pc.Waiting? || x.pc.Reading?)
    ensures Held(DoFault(x).pc) == Held(x.pc) == []
    ensures ToSend(cfg, DoFault(x)) == ToSend(cfg, x)
  {
  }

  lemma FaultKeepsShared(x: SendSide, h: HandSide)
    requires SharedInv(x, h) && (x.pc.Waiting? || x.pc.Reading?)
    ensures SharedInv(DoFault(x), h)
  {
  }

  lemma FaultKeepsInv(cfg: Config, s: State)
    requires Inv(cfg, s) && Enabled(cfg, s, SenderFault)
    ensures Inv(cfg, Do(cfg, s, SenderFault))
  {
    FaultKeepsSend(cfg, s.send);
    FaultKeepsShared(s.send, s.hand);
    var t := Do(cfg, s, SenderFault);
    assert t.send.emitted == s.send.emitted && t.send.ended == s.send.ended;
    assert t.hand == s.hand && t.device == s.device && Arrived(t) == Arrived(s);
  }

  lemma HearKeepsHandler(cfg: Config, h: HandSide, r: Response)
    requires HandlerInv(h) && h.pc.Listening?
    ensures HandlerInv(Hear(cfg, h, r))
  {
    HeardSnoc(h.heard, r);
    var t := Hear(cfg, h, r);
    assert t.heard == h.heard + [r];
    assert TransferReady in t.heard <==> TransferReady in h.heard || r == TransferReady;
    match r
    case TransferReady =>
    case TransferProgress(_) =>
    case OtherResponse =>
    case Validated(_, _) =>
    case InstallError(_) =>
  }

  lemma HearShape(cfg: Config, h: HandSide, r: Response)
    ensures var t := Hear(cfg, h, r);
      && t.heard == h.heard + [r] && (h.readySet ==> t.readySet)
      && (t.pc == h.pc || (t.pc.Leaving? && (t.pc.pending.Raised?
            || (t.pc.pending.Reported? && Explained(cfg, t.heard, t.pc.pending.report)
                && t.pc.pending.report.bytesTransferred == None
                && t.pc.pending.report.installState.AlreadyRunning?))))
  {
  }

  lemma ReceiveKeepsDevice(cfg: Config, s: State)
    requires DeviceInv(cfg, s) && Enabled(cfg, s, Receive)
    ensures DeviceInv(cfg, Do(cfg, s, Receive))
  {
    HearShape(cfg, s.hand, s.device.inbox[0]);
    var t := Do(cfg, s, Receive);
    assert Arrived(t) == Arrived(s);
    if cfg.honest {
      assert forall i | 0 <= i < |t.device.inbox| :: t.device.inbox[i] == s.device.inbox[i + 1];
    }
  }

  lemma ReceiveKeepsInv(cfg: Config, s: State)
    requires Inv(cfg, s) && Enabled(cfg, s, Receive)
    ensures Inv(cfg, Do(cfg, s, Receive))
  {
    HearKeepsHandler(cfg, s.hand, s.device.inbox[0]);
    HearShape(cfg, s.hand, s.device.inbox[0]);
    ReceiveKeepsDevice(cfg, s);
    assert Do(cfg, s, Receive).send == s.send;
  }

  lemma HandlerKeepsHandler(cfg: Config, h: HandSide, x: SendSide)
    requires HandlerInv(h) && !h.pc.Listening? && !h.pc.Finished?
    ensures HandlerInv(DoHandler(cfg, h, x))
    ensures DoHandler(cfg, h, x).heard == h.heard && (h.readySet ==> DoHandler(cfg, h, x).readySet)
  {
  }

  lemma HandlerKeepsEnd(cfg: Config, x: SendSide, h: HandSide)
    requires x.bytesSent <= |cfg.image| && (cfg.honest ==> h.lastProgress <= x.bytesSent)
    requires x.ended ==> x.bytesSent == |cfg.image| && (TransferReady in h.heard || BehindFinally(h.pc))
    requires SharedInv(x, h) && EndInv(cfg, x, h) && !h.pc.Finished?
    requires h.validated == LastValidated(h.heard) && (h.validated.Some? ==> h.validated.value.Validated?)
    requires h.lastProgress == LastProgress(h.heard)
    ensures EndInv(cfg, x, DoHandler(cfg, h, x))
  {
  }

  lemma HandlerKeepsInv(cfg: Config, s: State)
    requires Inv(cfg, s) && Enabled(cfg, s, HandlerStep)
    ensures Inv(cfg, Do(cfg, s, HandlerStep))
  {
    HandlerKeepsHandler(cfg, s.hand, s.send);
    if cfg.honest {
      ProgressBound(cfg, s);
    }
    LastValidatedIsHeard(s.hand.heard);
    HandlerKeepsEnd(cfg, s.send, s.hand);
  }

  lemma DeliverKeepsInv(cfg: Config, s: State)
    requires Inv(cfg, s) && Enabled(cfg, s, Deliver)
    ensures Inv(cfg, Do(cfg, s, Deliver))
  {
    PayloadPrefix(s.send.emitted, s.device.delivered, s.device.delivered + 1);
  }

  lemma EndOfStreamKeepsInv(cfg: Config, s: State, pc: Handler)
    requires Inv(cfg, s) && s.hand.pc.Listening? && (pc.StreamClosed? || pc.AskEnded?)
    ensures Inv(cfg, s.(hand := s.hand.(pc := pc)))
  {
    var t := s.(hand := s.hand.(pc := pc));
    assert t.send == s.send && Arrived(t) == Arrived(s);
  }

  lemma ReplyKeepsInv(cfg: Config, s: State, r: Response)
    requires Inv(cfg, s) && Enabled(cfg, s, Reply(r))
    ensures Inv(cfg, Do(cfg, s, Reply(r)))
  {
    var t := Do(cfg, s, Reply(r));
    assert t.send == s.send && t.hand == s.hand && Arrived(t) == Arrived(s);
  }

  /** Every possible step of any participant keeps the invariant. */
  lemma StepKeepsInv(cfg: Config, s: State, a: Action)
    requires Inv(cfg, s) && Enabled(cfg, s, a)
    ensures Inv(cfg, Do(cfg, s, a))
  {
    match a
    case SenderStep => SenderKeepsInv(cfg, s);
    case SenderFault => FaultKeepsInv(cfg, s);
    case Receive => ReceiveKeepsInv(cfg, s);
    case HandlerStep => HandlerKeepsInv(cfg, s);
    case Deliver => DeliverKeepsInv(cfg, s);
    case CloseClean => EndOfStreamKeepsInv(cfg, s, StreamClosed);
    case RpcError(code) => EndOfStreamKeepsInv(cfg, s, AskEnded(code));
    case Reply(r) => ReplyKeepsInv(cfg, s, r);
  }

  lemma {:induction false} RunKeepsInv(cfg: Config, s: State, acts: seq<Action>)
    requires Inv(cfg, s) && After(cfg, s, acts).Some?
    ensures Inv(cfg, After(cfg, s, acts).value)
    decreases |acts|
  {
    if acts != [] {
      StepKeepsInv(cfg, s, acts[0]);
      RunKeepsInv(cfg, Do(cfg, s, acts[0]), acts[1..]);
    }
  }

  /** The invariant holds in every state that any interleaving reaches. */
  lemma ReachableInv(cfg: Config, acts: seq<Action>, s: State)
    requires Reaches(cfg, acts, s)
    ensures Inv(cfg, s)
  {
    InitInv(cfg);
    RunKeepsInv(cfg, Init(), acts);
  }
}
