/**
 The gNOI dispatcher over whole runs. A device is any state with a reaction to RPCs; every RPC a
 handler issues goes into a log together with the number of its Ansible task.
 */
module GnoiDispatch {
  import opened Wrappers
  import opened ImageVersion
  import opened GnoiRegistry

  // ---------------------------------------------------------------- RPCs and devices

  datatype Rpc =
    | Verify
    | GetCertificates
    | CanGenerateCsr
    | InstallOs(version: string)
    | Activate(version: string, noReboot: bool)
    | InstallCertificate
    | RotateCertificate
    | RevokeCertificates
    | StartReset

  predicate ReadOnly(rpc: Rpc) {
    rpc.Verify? || rpc.GetCertificates? || rpc.CanGenerateCsr?
  }

  predicate NeedsConfirm(rpc: Rpc) {
    rpc.Activate? || rpc.StartReset?
  }

  /** `Unchanged` is an accepted request that had nothing to do; `RpcError` is a gRPC status. */
  datatype Reply = Running(version: string) | Accepted | Unchanged | Refused | RpcError

  type Reaction<!D> = (D, Rpc) -> (D, Reply)

  /** Anything but an error answer makes a handler report success. */
  predicate Positive(reply: Reply) {
    !reply.RpcError? && !reply.Refused?
  }

  datatype Entry = Entry(task: nat, rpc: Rpc, reply: Reply)

  datatype World<D> = World(state: D, log: seq<Entry>)

  // ---------------------------------------------------------------- requests and results

  datatype Args = Args(
    version: Option<string>, imagePath: Option<string>, noReboot: bool,
    certificateId: Option<string>, certificate: Option<string>, privateKey: Option<string>,
    certificateIds: seq<string>)

  datatype Task = Task(
    service: string, operation: string, args: Args, checkMode: bool, platform: string, confirm: bool)

  datatype DispatchError = UnknownService | UnknownOperation | UnsupportedPlatform | NotConfirmed

  /** A result dictionary: who produced it, whether it changed anything, whether an RPC was skipped. */
  datatype Outcome =
    | Done(service: string, operation: string, changed: bool, skippedRpc: bool)
    | Rejected(error: DispatchError)
    | Failed

  /** What a handler hands back to the dispatcher. */
  datatype HandlerResult = Success(changed: bool) | Error

  type Files = map<string, ImageFile>

  /** The version a task is about: given, or read from the header of its image. */
  function ResolveVersion(args: Args, files: Files): Option<string> {
    if HasText(args.version) then args.version
    else if !HasText(args.imagePath) || args.imagePath.value !in files then None
    else
      match ExtractVersion(files[args.imagePath.value])
      case Ok(v) => Some(v)
      case Err(_) => None
  }

  // ---------------------------------------------------------------- handlers

  function Call<D>(task: nat, rpc: Rpc, w: World<D>, react: Reaction<D>): (World<D>, Reply) {
    var (state, reply) := react(w.state, rpc);
    (World(state, w.log + [Entry(task, rpc, reply)]), reply)
  }

  /** A handler that issues one RPC and reports from its reply. */
  function SingleCall<D>(task: nat, rpc: Rpc, w: World<D>, react: Reaction<D>): (HandlerResult, World<D>) {
    var (w', reply) := Call(task, rpc, w, react);
    if Positive(reply) then (Success(!ReadOnly(rpc) && !reply.Unchanged?), w') else (Error, w')
  }

  /** `os/activate`: Verify first, and Activate only if another version runs or Verify fails. */
  function RunActivate<D>(task: nat, args: Args, files: Files, w: World<D>, react: Reaction<D>):
    (HandlerResult, World<D>)
  {
    var version := ResolveVersion(args, files);
    if version.None? then (Error, w)
    else
      var (w1, running) := Call(task, Verify, w, react);
      if running == Running(version.value) then (Success(false), w1)
      else
        var (w2, reply) := Call(task, Activate(version.value, args.noReboot), w1, react);
        if Positive(reply) then (Success(true), w2) else (Error, w2)
  }

  /** The arguments `_build_load_request` insists on. */
  predicate HasCertificate(args: Args) {
    HasText(args.certificateId) && HasText(args.certificate) && HasText(args.privateKey)
  }

  function RunHandler<D>(handler: HandlerName, task: nat, args: Args, files: Files, w: World<D>, react: Reaction<D>):
    (HandlerResult, World<D>)
  {
    match handler
    case CertInstall => if HasCertificate(args) then SingleCall(task, InstallCertificate, w, react) else (Error, w)
    case CertRotate => if HasCertificate(args) then SingleCall(task, RotateCertificate, w, react) else (Error, w)
    case CertRevoke =>
      if args.certificateIds != [] || HasText(args.certificateId)
      then SingleCall(task, RevokeCertificates, w, react) else (Error, w)
    case CertGet => SingleCall(task, GetCertificates, w, react)
    case CertCanGenerateCsr => SingleCall(task, CanGenerateCsr, w, react)
    case OsInstall =>
      var version := ResolveVersion(args, files);
      if !HasText(args.imagePath) || args.imagePath.value !in files || version.None? then (Error, w)
      else SingleCall(task, InstallOs(version.value), w, react)
    case OsActivate => RunActivate(task, args, files, w, react)
    case OsVerify => SingleCall(task, Verify, w, react)
    case ResetStart => SingleCall(task, StartReset, w, react)
  }

  // ---------------------------------------------------------------- dispatch

  /** The first gate that stops a task, in the order the source tests them. */
  function Gate(t: Task): Option<DispatchError> {
    if (t.service, t.operation) !in REGISTERED then
      if exists k | k in REGISTERED :: k.0 == t.service then Some(UnknownOperation) else Some(UnknownService)
    else if !PlatformSupports(t.platform, t.service, t.operation) then Some(UnsupportedPlatform)
    else if REGISTERED[(t.service, t.operation)].destructive && !t.confirm then Some(NotConfirmed)
    else None
  }

  /** `dispatch`: gates, check-mode short circuit, handler, stamping. */
  function Dispatch<D>(n: nat, t: Task, files: Files, w: World<D>, react: Reaction<D>): (Outcome, World<D>) {
    var stop := Gate(t);
    if stop.Some? then (Rejected(stop.value), w)
    else if t.checkMode && REGISTERED[(t.service, t.operation)].mutating then
      (Done(t.service, t.operation, true, true), w)
    else
      var (result, w') := RunHandler(REGISTERED[(t.service, t.operation)].handler, n, t.args, files, w, react);
      match result
      case Success(changed) => (Done(t.service, t.operation, changed, false), w')
      case Error => (Failed, w')
  }

  /** The outcomes and the world after a sequence of tasks. */
  function RunTasks<D>(tasks: seq<Task>, files: Files, w: World<D>, react: Reaction<D>): (r: (seq<Outcome>, World<D>))
    ensures |r.0| == |tasks|
  {
    if tasks == [] then ([], w)
    else
      var n := |tasks| - 1;
      var (before, w1) := RunTasks(tasks[..n], files, w, react);
      var (outcome, w2) := Dispatch(n, tasks[n], files, w1, react);
      (before + [outcome], w2)
  }

  /** A run as the module executes it: one task after the other against one device. */
  class Session<!D> {
    const files: Files
    const react: Reaction<D>
    var world: World<D>
    var outcomes: seq<Outcome>

    constructor (files: Files, react: Reaction<D>, state: D)
      ensures this.files == files && this.react == react && world == World(state, []) && outcomes == []
    {
      this.files, this.react := files, react;
      world, outcomes := World(state, []), [];
    }

    /** One task: the gates as early exits, then the handler, then the stamped result. */
    method Execute(t: Task, registry: Registry) returns (outcome: Outcome)
      requires registry.operations == REGISTERED
      modifies this
      ensures (outcome, world) == Dispatch(|old(outcomes)|, t, files, old(world), react)
      ensures outcomes == old(outcomes) + [outcome]
    {
      var spec := registry.GetOperation(t.service, t.operation);
      var n := |outcomes|;
      if spec.None? {
        outcome := Rejected(if registry.KnowsService(t.service) then UnknownOperation else UnknownService);
      } else if !PlatformSupports(t.platform, t.service, t.operation) {
        outcome := Rejected(UnsupportedPlatform);
      } else if spec.value.destructive && !t.confirm {
        outcome := Rejected(NotConfirmed);
      } else if t.checkMode && spec.value.mutating {
        outcome := Done(t.service, t.operation, true, true);
      } else {
        var (result, world') := RunHandler(spec.value.handler, n, t.args, files, world, react);
        world := world';
        outcome := if result.Success? then Done(t.service, t.operation, result.changed, false) else Failed;
      }
      outcomes := outcomes + [outcome];
    }

    method ExecuteAll(tasks: seq<Task>, registry: Registry)
      requires registry.operations == REGISTERED
      requires outcomes == []
      modifies this
      ensures (outcomes, world) == RunTasks(tasks, files, old(world), react)
    {
      for n := 0 to |tasks|
        invariant |outcomes| == n
        invariant (outcomes, world) == RunTasks(tasks[..n], files, old(world), react)
      {
        var _ := Execute(tasks[n], registry);
        assert tasks[..n + 1][..n] == tasks[..n];
      }
      assert tasks[..|tasks|] == tasks;
    }
  }

  // ---------------------------------------------------------------- what a run may do

  /** The operations a task may name to cause this RPC. */
  function Causes(rpc: Rpc): set<(string, string)> {
    match rpc
    case Verify => {("os", "verify"), ("os", "activate")}
    case GetCertificates => {("cert", "get")}
    case CanGenerateCsr => {("cert", "can_generate_csr")}
    case InstallOs(_) => {("os", "install")}
    case Activate(_, _) => {("os", "activate")}
    case InstallCertificate => {("cert", "install")}
    case RotateCertificate => {("cert", "rotate")}
    case RevokeCertificates => {("cert", "revoke")}
    case StartReset => {("factory_reset", "start")}
  }

  /** What one task may add to the log: its own RPCs, read-only in check mode, confirmed if they must. */
  ghost predicate Licensed(t: Task, rpc: Rpc) {
    && (t.service, t.operation) in Causes(rpc)
    && (t.checkMode ==> ReadOnly(rpc))
    && (NeedsConfirm(rpc) ==> t.confirm)
  }

  ghost predicate Extends(n: nat, t: Task, log: seq<Entry>, log': seq<Entry>) {
    && log <= log'
    && forall i | |log| <= i < |log'| :: log'[i].task == n && Licensed(t, log'[i].rpc)
  }

  lemma SingleCallIsLicensed<D>(n: nat, t: Task, rpc: Rpc, w: World<D>, react: Reaction<D>)
    requires Licensed(t, rpc)
    ensures Extends(n, t, w.log, SingleCall(n, rpc, w, react).1.log)
  {
  }

  lemma ActivateIsLicensed<D>(n: nat, t: Task, files: Files, w: World<D>, react: Reaction<D>)
    requires t.service == "os" && t.operation == "activate" && t.confirm && !t.checkMode
    ensures Extends(n, t, w.log, RunActivate(n, t.args, files, w, react).1.log)
  {
  }

  lemma HandlerIsLicensed<D>(n: nat, t: Task, files: Files, w: World<D>, react: Reaction<D>)
    requires (t.service, t.operation) in REGISTERED
    requires var spec := REGISTERED[(t.service, t.operation)];
      (spec.destructive ==> t.confirm) && (spec.mutating ==> !t.checkMode)
    ensures var (_, w') := RunHandler(REGISTERED[(t.service, t.operation)].handler, n, t.args, files, w, react);
      Extends(n, t, w.log, w'.log)
  {
    match REGISTERED[(t.service, t.operation)].handler
    case CertInstall => SingleCallIsLicensed(n, t, InstallCertificate, w, react);
    case CertRotate => SingleCallIsLicensed(n, t, RotateCertificate, w, react);
    case CertRevoke => SingleCallIsLicensed(n, t, RevokeCertificates, w, react);
    case CertGet => SingleCallIsLicensed(n, t, GetCertificates, w, react);
    case CertCanGenerateCsr => SingleCallIsLicensed(n, t, CanGenerateCsr, w, react);
    case OsInstall => SingleCallIsLicensed(n, t, InstallOs(ResolveVersion(t.args, files).GetOr("")), w, react);
    case OsActivate => ActivateIsLicensed(n, t, files, w, react);
    case OsVerify => SingleCallIsLicensed(n, t, Verify, w, react);
    case ResetStart => SingleCallIsLicensed(n, t, StartReset, w, react);
  }

  lemma DispatchIsLicensed<D>(n: nat, t: Task, files: Files, w: World<D>, react: Reaction<D>)
    ensures Extends(n, t, w.log, Dispatch(n, t, files, w, react).1.log)
  {
    if Gate(t).None? && !(t.checkMode && REGISTERED[(t.service, t.operation)].mutating) {
      HandlerIsLicensed(n, t, files, w, react);
    }
  }

  /**
   Over any finite sequence of tasks on any device: every RPC in the log was caused by one of the
   tasks and by the operation it names; a check-mode task causes only Verify, GetCertificates and
   CanGenerateCSR; every Activate and every factory-reset Start was caused by a task with
   `confirm: true`.
   */
  lemma {:induction false} WholeRunGating<D>(tasks: seq<Task>, files: Files, w: World<D>, react: Reaction<D>)
    ensures var log := RunTasks(tasks, files, w, react).1.log;
      && w.log <= log
      && forall i | |w.log| <= i < |log| :: log[i].task < |tasks| && Licensed(tasks[log[i].task], log[i].rpc)
  {
    if tasks != [] {
      var n := |tasks| - 1;
      WholeRunGating(tasks[..n], files, w, react);
      var w1 := RunTasks(tasks[..n], files, w, react).1;
      DispatchIsLicensed(n, tasks[n], files, w1, react);
      var log := RunTasks(tasks, files, w, react).1.log;
      assert forall i | |w.log| <= i < |w1.log| :: log[i] == w1.log[i];
    }
  }

  /** A device on which the three queries change nothing. */
  ghost predicate QueriesAreReadOnly<D(!new)>(react: Reaction<D>) {
    forall d: D, rpc: Rpc | ReadOnly(rpc) :: react(d, rpc).0 == d
  }

  /** The device state before task `n`. */
  function StateBefore<D>(tasks: seq<Task>, n: nat, files: Files, w: World<D>, react: Reaction<D>): D
    requires n <= |tasks|
  {
    RunTasks(tasks[..n], files, w, react).1.state
  }

  /** Wherever it stands in a run, a check-mode task leaves the device state as it found it. */
  lemma CheckModeChangesNothing<D(!new)>(tasks: seq<Task>, n: nat, files: Files, w: World<D>, react: Reaction<D>)
    requires QueriesAreReadOnly(react) && n < |tasks| && tasks[n].checkMode
    ensures StateBefore(tasks, n + 1, files, w, react) == StateBefore(tasks, n, files, w, react)
  {
    assert tasks[..n + 1][..n] == tasks[..n];
    var w1 := RunTasks(tasks[..n], files, w, react).1;
    CheckModeStep(n, tasks[n], files, w1, react);
  }

  lemma CheckModeStep<D(!new)>(n: nat, t: Task, files: Files, w: World<D>, react: Reaction<D>)
    requires QueriesAreReadOnly(react) && t.checkMode
    ensures Dispatch(n, t, files, w, react).1.state == w.state
  {
  }

  /**
   A task reaches its handler exactly when it is registered, supported, confirmed if destructive,
   and not a mutation in check mode; otherwise the world is untouched.
   */
  lemma HandlerRunsExactlyWhen<D>(n: nat, t: Task, files: Files, w: World<D>, react: Reaction<D>)
    ensures var (outcome, w') := Dispatch(n, t, files, w, react);
      var known := (t.service, t.operation) in REGISTERED;
      && (outcome.Rejected? <==> !known || (t.operation in {"activate", "start"} && !t.confirm))
      && (outcome.Rejected? || (outcome.Done? && outcome.skippedRpc) ==> w' == w)
      && (outcome.Done? && outcome.skippedRpc <==>
            !outcome.Rejected? && t.checkMode && t.operation !in {"get", "can_generate_csr", "verify"})
      && (outcome.Done? ==> outcome.service == t.service && outcome.operation == t.operation)
  {
    GatingIsRegistration(t.platform, t.service, t.operation);
  }
}
