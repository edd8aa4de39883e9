/**
 `os/install` as interleaved steps: the request generator on gRPC's sender thread, the response
 handler, and the device at the other end. Every access to the shared `send_state` and
 `ready_event` is a step of its own.
 */
module InstallProtocol {
  import opened Wrappers
  import opened Bytes
  import opened ImageStream

  // ---------------------------------------------------------------- messages and results

  datatype Response =
    | TransferReady
    | TransferProgress(received: nat)
    | OtherResponse
    | Validated(version: string, description: string)
    | InstallError(name: string)

  const ALREADY_RUNNING := "INSTALL_RUN_PACKAGE"

  datatype Code = DeadlineExceeded | Cancelled | OtherCode(code: nat)

  predicate Recoverable(code: Code) {
    code.DeadlineExceeded? || code.Cancelled?
  }

  datatype InstallState = AlreadyRunning | AlreadyPresent | Transferred | ValidatedImage

  datatype TransferState = Skipped | Completed

  /** The result dictionary; a field the source leaves out of it is `None`. */
  datatype Report = Report(
    changed: bool, version: string, installState: InstallState, transferState: Option<TransferState>,
    bytesTransferred: Option<nat>, bytesAcknowledged: Option<nat>, validated: Option<bool>)

  datatype Failure = InstallFailed(name: string) | RpcFailed(code: Code) | SendFailed(error: SendError)

  /** How the handler ends; a report made from an RPC error keeps the error's code. */
  datatype Outcome = Reported(report: Report) | Recovered(code: Code, report: Report) | Raised(failure: Failure)

  // ---------------------------------------------------------------- the state

  /** The generator's position. A chunk is read, then counted, then handed over. */
  datatype Sender =
    | Announcing
    | Waiting
    | TimingOut
    | Reading
    | HasRead(chunk: seq<byte>)
    | Counted(chunk: seq<byte>)
    | AtEof
    | MarkedEnd
    | ReadFailing
    | Stopped

  /** The handler's position; the positions behind the `finally` clause are the last three. */
  datatype Handler =
    | Listening
    | AskEnded(code: Code)
    | AskBytes(code: Code)
    | Reporting(code: Code)
    | Leaving(pending: Outcome)
    | StreamClosed
    | AskError
    | AskCount
    | Finished(outcome: Outcome)

  datatype Config = Config(image: seq<byte>, chunk: ReadSize, version: string, standby: bool, honest: bool)

  /** The generator with the part of `send_state` that only it writes. */
  datatype SendSide = SendSide(
    pc: Sender, pos: nat, emitted: seq<InstallRequest>, bytesSent: nat, ended: bool, error: Option<SendError>)

  /** The handler with its variables and the event that only it sets; `heard` is history. */
  datatype HandSide = HandSide(
    pc: Handler, readySet: bool, heard: seq<Response>, validated: Option<Response>, lastProgress: nat)

  /** The device: how many messages it received, and its replies still on their way. */
  datatype DeviceSide = DeviceSide(delivered: nat, inbox: seq<Response>)

  datatype State = State(send: SendSide, hand: HandSide, device: DeviceSide)

  function Announcement(cfg: Config): InstallRequest {
    TransferRequest(cfg.version, |cfg.image|, cfg.standby)
  }

  function Init(): State {
    State(
      SendSide(Announcing, 0, [], 0, false, None),
      HandSide(Listening, false, [], None, 0),
      DeviceSide(0, []))
  }

  // ---------------------------------------------------------------- what messages amount to

  /** The image bytes a list of messages carries, in order. */
  function Payload(msgs: seq<InstallRequest>): seq<byte> {
    if msgs == [] then []
    else
      var last := msgs[|msgs| - 1];
      Payload(msgs[..|msgs| - 1]) + (if last.TransferContent? then last.chunk else [])
  }

  function LastValidated(heard: seq<Response>): Option<Response> {
    if heard == [] then None
    else
      var last := heard[|heard| - 1];
      if last.Validated? then Some(last) else LastValidated(heard[..|heard| - 1])
  }

  function LastProgress(heard: seq<Response>): nat {
    if heard == [] then 0
    else
      var last := heard[|heard| - 1];
      if last.TransferProgress? then last.received else LastProgress(heard[..|heard| - 1])
  }

  // ---------------------------------------------------------------- steps

  datatype Action =
    | SenderStep              // gRPC pulls, or the generator runs on to its next shared access
    | SenderFault             // the wait times out, or the file cannot be opened or read
    | Receive                 // the handler takes the next response off the stream
    | CloseClean              // the response stream ends without an error
    | RpcError(code: Code)    // the response stream ends with a status code
    | HandlerStep             // the handler runs on to its next shared access
    | Deliver                 // the device receives the next message
    | Reply(response: Response)

  predicate SenderAction(a: Action) {
    a.SenderStep? || a.SenderFault?
  }

  predicate Enabled(cfg: Config, s: State, a: Action) {
    match a
    case SenderStep => !s.send.pc.Stopped? && (s.send.pc.Waiting? ==> s.hand.readySet)
    case SenderFault => s.send.pc.Reading? || (s.send.pc.Waiting? && !s.hand.readySet)
    case Receive => s.hand.pc.Listening? && s.device.inbox != []
    case CloseClean => s.hand.pc.Listening?
    case RpcError(_) => s.hand.pc.Listening?
    case HandlerStep => !s.hand.pc.Listening? && !s.hand.pc.Finished?
    case Deliver => s.device.delivered < |s.send.emitted|
    case Reply(r) => cfg.honest && r.TransferProgress? ==> r.received <= Arrived(s)
  }

  /** How many image bytes the device has received. */
  function Arrived(s: State): nat {
    if s.device.delivered <= |s.send.emitted| then |Payload(s.send.emitted[..s.device.delivered])| else 0
  }

  function Emit(x: SendSide, msg: InstallRequest, next: Sender): SendSide {
    x.(emitted := x.emitted + [msg], pc := next)
  }

  function DoSender(cfg: Config, x: SendSide): SendSide {
    match x.pc
    case Announcing => Emit(x, Announcement(cfg), Waiting)
    case Waiting => x.(pc := Reading)
    case TimingOut => x.(error := Some(WaitTimedOut), pc := Stopped)
    case Reading =>
      if x.pos >= |cfg.image| then x.(pc := AtEof)
      else
        var end := ReadEnd(|cfg.image|, x.pos, cfg.chunk);
        x.(pos := end, pc := HasRead(cfg.image[x.pos..end]))
    case HasRead(chunk) => x.(bytesSent := x.bytesSent + |chunk|, pc := Counted(chunk))
    case Counted(chunk) => Emit(x, TransferContent(chunk), Reading)
    case AtEof => x.(ended := true, pc := MarkedEnd)
    case MarkedEnd => Emit(x, TransferEnd, Stopped)
    case ReadFailing => x.(error := Some(ReadFailed), pc := Stopped)
    case Stopped => x
  }

  function DoFault(x: SendSide): SendSide {
    x.(pc := if x.pc.Waiting? then TimingOut else ReadFailing)
  }

  function Hear(cfg: Config, h: HandSide, r: Response): HandSide {
    var t := h.(heard := h.heard + [r]);
    match r
    case TransferReady => t.(readySet := true)
    case TransferProgress(n) => t.(lastProgress := n)
    case OtherResponse => t
    case Validated(_, _) => t.(validated := Some(r))
    case InstallError(name) =>
      if name == ALREADY_RUNNING then
        t.(pc := Leaving(Reported(Report(false, cfg.version, AlreadyRunning, None, None, None, None))))
      else t.(pc := Leaving(Raised(InstallFailed(name))))
  }

  /** The result after the stream closed cleanly, from the byte count just read. */
  function Classify(cfg: Config, h: HandSide, bytesSent: nat): Report {
    if h.validated.Some? && h.validated.value.Validated? then
      var version := h.validated.value.version;
      if bytesSent == 0 then
        Report(false, version, AlreadyPresent, Some(Skipped), Some(0), Some(h.lastProgress), None)
      else
        Report(true, version, ValidatedImage, Some(Completed), Some(bytesSent), Some(h.lastProgress), Some(true))
    else
      Report(true, cfg.version, Transferred, Some(Completed), Some(bytesSent), Some(h.lastProgress), Some(false))
  }

  /** One step of the handler behind its loop; each case reads at most one shared variable. */
  function DoHandler(cfg: Config, h: HandSide, x: SendSide): HandSide {
    match h.pc
    case AskEnded(code) =>
      h.(pc := if x.ended then AskBytes(code) else Leaving(Raised(RpcFailed(code))))
    case AskBytes(code) =>
      h.(pc := if x.bytesSent == |cfg.image| && Recoverable(code) then Reporting(code)
               else Leaving(Raised(RpcFailed(code))))
    case Reporting(code) =>
      h.(pc := Leaving(Recovered(code,
           Report(true, cfg.version, Transferred, Some(Completed),
                  Some(x.bytesSent), Some(h.lastProgress), Some(false)))))
    case Leaving(o) => h.(readySet := true, pc := Finished(o))
    case StreamClosed => h.(readySet := true, pc := AskError)
    case AskError =>
      h.(pc := if x.error.Some? then Finished(Raised(SendFailed(x.error.value))) else AskCount)
    case AskCount => h.(pc := Finished(Reported(Classify(cfg, h, x.bytesSent))))
    case Listening => h
    case Finished(_) => h
  }

  function Do(cfg: Config, s: State, a: Action): State
    requires Enabled(cfg, s, a)
  {
    match a
    case SenderStep => s.(send := DoSender(cfg, s.send))
    case SenderFault => s.(send := DoFault(s.send))
    case Receive =>
      s.(device := s.device.(inbox := s.device.inbox[1..]), hand := Hear(cfg, s.hand, s.device.inbox[0]))
    case CloseClean => s.(hand := s.hand.(pc := StreamClosed))
    case RpcError(code) => s.(hand := s.hand.(pc := AskEnded(code)))
    case HandlerStep => s.(hand := DoHandler(cfg, s.hand, s.send))
    case Deliver => s.(device := s.device.(delivered := s.device.delivered + 1))
    case Reply(r) => s.(device := s.device.(inbox := s.device.inbox + [r]))
  }

  /** The state after a run of actions, if every one of them was possible. */
  function After(cfg: Config, s: State, acts: seq<Action>): Option<State>
    decreases |acts|
  {
    if acts == [] then Some(s)
    else if Enabled(cfg, s, acts[0]) then After(cfg, Do(cfg, s, acts[0]), acts[1..])
    else None
  }

  ghost predicate Reaches(cfg: Config, acts: seq<Action>, s: State) {
    After(cfg, Init(), acts) == Some(s)
  }

  // ---------------------------------------------------------------- the handler's loop

  /** The index of the first InstallError, where the loop is left; the length if there is none. */
  function ErrorIndex(responses: seq<Response>): (k: nat)
    ensures k <= |responses|
    ensures k < |responses| ==> responses[k].InstallError?
    ensures forall i | 0 <= i < k :: !responses[i].InstallError?
  {
    if responses == [] || responses[0].InstallError? then 0 else 1 + ErrorIndex(responses[1..])
  }

  /** The source's loop over the responses, on the handler's own variables. */
  method ListenLoop(responses: seq<Response>)
    returns (readySet: bool, validated: Option<Response>, lastProgress: nat, error: Option<string>)
    ensures var k := ErrorIndex(responses);
      && (readySet <==> TransferReady in responses[..k])
      && validated == LastValidated(responses[..k])
      && lastProgress == LastProgress(responses[..k])
      && error == (if k < |responses| then Some(responses[k].name) else None)
  {
    readySet, validated, lastProgress, error := false, None, 0, None;
    for n := 0 to |responses|
      invariant n <= ErrorIndex(responses)
      invariant readySet <==> TransferReady in responses[..n]
      invariant validated == LastValidated(responses[..n])
      invariant lastProgress == LastProgress(responses[..n])
      invariant error == None
    {
      assert responses[..n + 1] == responses[..n] + [responses[n]];
      match responses[n] {
        case TransferReady => readySet := true;
        case TransferProgress(received) => lastProgress := received;
        case OtherResponse =>
        case Validated(_, _) => validated := Some(responses[n]);
        case InstallError(name) =>
          error := Some(name);
          return;
      }
    }
  }
}
