/**
 What each task of a run makes of the device's answers: which RPC it issues, which reply fails it,
 and whether it reports a change.
 */
module GnoiOutcomes {
  import opened Wrappers
  import opened ImageVersion
  import opened GnoiRegistry
  import opened GnoiDispatch

  // ---------------------------------------------------------------- what a task asks for

  /** A text argument that is there and not empty. */
  ghost predicate Given(o: Option<string>) {
    o.Some? && |o.value| > 0
  }

  ghost predicate HasImage(args: Args, files: Files) {
    Given(args.imagePath) && args.imagePath.value in files
  }

  /** A version given outright is the task's version; only without one the image header names it. */
  ghost predicate NamesVersion(args: Args, files: Files, v: string) {
    if Given(args.version) then v == args.version.value
    else HasImage(args, files) && ExtractVersion(files[args.imagePath.value]) == Ok(v)
  }

  lemma ResolvedExactly(args: Args, files: Files, v: string)
    ensures ResolveVersion(args, files) == Some(v) <==> NamesVersion(args, files, v)
  {
    if HasImage(args, files) {
      assert ExtractVersion(files[args.imagePath.value]).Ok? || ExtractVersion(files[args.imagePath.value]).Err?;
    }
  }

  /** The one RPC of a task, if it has every argument that its operation insists on. */
  ghost predicate Asks(t: Task, files: Files, rpc: Rpc) {
    var certificate := Given(t.args.certificateId) && Given(t.args.certificate) && Given(t.args.privateKey);
    || (t.service == "cert" && t.operation == "install" && certificate && rpc == InstallCertificate)
    || (t.service == "cert" && t.operation == "rotate" && certificate && rpc == RotateCertificate)
    || (t.service == "cert" && t.operation == "revoke" && rpc == RevokeCertificates
          && (t.args.certificateIds != [] || Given(t.args.certificateId)))
    || (t.service == "cert" && t.operation == "get" && rpc == GetCertificates)
    || (t.service == "cert" && t.operation == "can_generate_csr" && rpc == CanGenerateCsr)
    || (t.service == "os" && t.operation == "install" && HasImage(t.args, files)
          && rpc.InstallOs? && NamesVersion(t.args, files, rpc.version))
    || (t.service == "os" && t.operation == "verify" && rpc == Verify)
    || (t.service == "factory_reset" && t.operation == "start" && rpc == StartReset)
  }

  ghost predicate Activating(t: Task) {
    t.service == "os" && t.operation == "activate"
  }

  ghost predicate Known(t: Task) {
    || (t.service == "cert" && t.operation in {"install", "rotate", "revoke", "get", "can_generate_csr"})
    || (t.service == "os" && t.operation in {"install", "activate", "verify"})
    || (t.service == "factory_reset" && t.operation == "start")
  }

  ghost predicate Mutates(t: Task) {
    t.operation !in {"get", "can_generate_csr", "verify"}
  }

  /** A registered operation, confirmed if it activates or resets; the platform never stops one. */
  ghost predicate PassesGates(t: Task) {
    Known(t) && (t.operation == "activate" || t.operation == "start" ==> t.confirm)
  }

  ghost predicate Executes(t: Task) {
    PassesGates(t) && !(t.checkMode && Mutates(t))
  }

  // ---------------------------------------------------------------- the gates

  lemma KnownIsRegistered(t: Task)
    ensures Known(t) <==> (t.service, t.operation) in REGISTERED
    ensures Known(t) ==> (REGISTERED[(t.service, t.operation)].mutating <==> Mutates(t))
    ensures Known(t) ==>
      (REGISTERED[(t.service, t.operation)].destructive <==> t.operation == "activate" || t.operation == "start")
  {
  }

  lemma GateOpens(t: Task)
    ensures Gate(t).None? <==> PassesGates(t)
  {
    KnownIsRegistered(t);
    GatingIsRegistration(t.platform, t.service, t.operation);
  }

  lemma ServicesRegistered(service: string)
    ensures (exists k | k in REGISTERED :: k.0 == service)
       <==> service == "cert" || service == "os" || service == "factory_reset"
  {
    assert ("cert", "get") in REGISTERED && ("os", "verify") in REGISTERED;
    assert ("factory_reset", "start") in REGISTERED;
    assert ("cert", "get").0 == "cert" && ("os", "verify").0 == "os";
    assert ("factory_reset", "start").0 == "factory_reset";
  }

  /** Why a task is rejected; no registered operation is ever rejected for its platform. */
  lemma RejectedBecause<D>(n: nat, t: Task, files: Files, w: World<D>, react: Reaction<D>)
    ensures var (outcome, w') := Dispatch(n, t, files, w, react);
      && (outcome.Rejected? <==> !PassesGates(t)) && (outcome.Rejected? ==> w' == w)
      && (outcome == Rejected(UnknownService) <==> t.service !in {"cert", "os", "factory_reset"})
      && (outcome == Rejected(UnknownOperation) <==> t.service in {"cert", "os", "factory_reset"} && !Known(t))
      && (outcome == Rejected(NotConfirmed) <==> Known(t) && !PassesGates(t))
  {
    KnownIsRegistered(t);
    GatingIsRegistration(t.platform, t.service, t.operation);
    ServicesRegistered(t.service);
  }

  /** A mutation in check mode reports the change it would make and issues nothing. */
  lemma SkippedInCheckMode<D>(n: nat, t: Task, files: Files, w: World<D>, react: Reaction<D>)
    requires PassesGates(t) && t.checkMode && Mutates(t)
    ensures Dispatch(n, t, files, w, react) == (Done(t.service, t.operation, true, true), w)
  {
    GateOpens(t);
    KnownIsRegistered(t);
  }

  // ---------------------------------------------------------------- one task

  lemma ReachesHandler<D>(n: nat, t: Task, files: Files, w: World<D>, react: Reaction<D>)
    requires Executes(t)
    ensures (t.service, t.operation) in REGISTERED
    ensures var (result, w') := RunHandler(REGISTERED[(t.service, t.operation)].handler, n, t.args, files, w, react);
      Dispatch(n, t, files, w, react)
        == (if result.Success? then Done(t.service, t.operation, result.changed, false) else Failed, w')
  {
    GateOpens(t);
    KnownIsRegistered(t);
  }

  lemma HandlerCalls<D>(n: nat, t: Task, files: Files, w: World<D>, react: Reaction<D>, rpc: Rpc)
    requires Known(t) && Asks(t, files, rpc)
    ensures (t.service, t.operation) in REGISTERED
    ensures RunHandler(REGISTERED[(t.service, t.operation)].handler, n, t.args, files, w, react)
         == SingleCall(n, rpc, w, react)
    ensures ReadOnly(rpc) <==> !Mutates(t)
  {
    KnownIsRegistered(t);
    if rpc.InstallOs? {
      ResolvedExactly(t.args, files, rpc.version);
    }
  }

  /**
   A task that reaches its handler with its arguments issues exactly one RPC, its operation's. It
   fails if and only if the device answers with an error or not at all; otherwise it reports a
   change if and only if the operation mutates and the device had something to do.
   */
  lemma OneRpc<D>(n: nat, t: Task, files: Files, w: World<D>, react: Reaction<D>, rpc: Rpc)
    requires Executes(t) && Asks(t, files, rpc)
    ensures var (outcome, w') := Dispatch(n, t, files, w, react);
      var (state, reply) := react(w.state, rpc);
      && w' == World(state, w.log + [Entry(n, rpc, reply)])
      && (outcome == Failed <==> reply == Refused || reply == RpcError)
      && (outcome != Failed ==>
            outcome == Done(t.service, t.operation, Mutates(t) && reply != Unchanged, false))
  {
    ReachesHandler(n, t, files, w, react);
    HandlerCalls(n, t, files, w, react, rpc);
  }

  /** Without them it fails and the device never hears of it. */
  lemma MissingArguments<D>(n: nat, t: Task, files: Files, w: World<D>, react: Reaction<D>)
    requires Executes(t) && (forall rpc :: !Asks(t, files, rpc))
    requires Activating(t) ==> forall v :: !NamesVersion(t.args, files, v)
    ensures Dispatch(n, t, files, w, react) == (Failed, w)
  {
    ReachesHandler(n, t, files, w, react);
    KnownIsRegistered(t);
    var version := ResolveVersion(t.args, files);
    if version.Some? {
      ResolvedExactly(t.args, files, version.value);
    }
    assert !Asks(t, files, InstallCertificate) && !Asks(t, files, RotateCertificate);
    assert !Asks(t, files, RevokeCertificates) && !Asks(t, files, InstallOs(version.GetOr("")));
    assert !Asks(t, files, GetCertificates) && !Asks(t, files, CanGenerateCsr);
    assert !Asks(t, files, Verify) && !Asks(t, files, StartReset);
  }

  lemma HandlerActivates<D>(n: nat, args: Args, files: Files, w: World<D>, react: Reaction<D>, v: string)
    requires ResolveVersion(args, files) == Some(v)
    ensures var activate := Activate(v, args.noReboot);
      var (verified, answer) := react(w.state, Verify);
      var (activated, reply) := react(verified, activate);
      var w1 := World(verified, w.log + [Entry(n, Verify, answer)]);
      RunActivate(n, args, files, w, react) ==
        if answer == Running(v) then (Success(false), w1)
        else (if reply == Refused || reply == RpcError then Error else Success(true),
              World(activated, w1.log + [Entry(n, activate, reply)]))
  {
  }

  /**
   An activation always verifies; it activates, with the flag it was given, unless the answer is
   the very version. Only the answer to Activate can fail it.
   */
  lemma ActivationRpcs<D>(n: nat, t: Task, files: Files, w: World<D>, react: Reaction<D>, v: string)
    requires Executes(t) && Activating(t) && NamesVersion(t.args, files, v)
    ensures var (outcome, w') := Dispatch(n, t, files, w, react);
      var activate := Activate(v, t.args.noReboot);
      var (verified, answer) := react(w.state, Verify);
      var (activated, reply) := react(verified, activate);
      if answer == Running(v) then
        outcome == Done("os", "activate", false, false)
        && w' == World(verified, w.log + [Entry(n, Verify, answer)])
      else
        && w' == World(activated, w.log + [Entry(n, Verify, answer)] + [Entry(n, activate, reply)])
        && (outcome == Failed <==> reply == Refused || reply == RpcError)
        && (outcome != Failed ==> outcome == Done("os", "activate", true, false))
  {
    ReachesHandler(n, t, files, w, react);
    ResolvedExactly(t.args, files, v);
    HandlerActivates(n, t.args, files, w, react, v);
    assert REGISTERED[("os", "activate")].handler == OsActivate;
  }

  // ---------------------------------------------------------------- whole runs

  lemma LastTask<D>(tasks: seq<Task>, files: Files, w: World<D>, react: Reaction<D>)
    requires tasks != []
    ensures var n := |tasks| - 1;
      var (before, w1) := RunTasks(tasks[..n], files, w, react);
      var (outcome, w2) := Dispatch(n, tasks[n], files, w1, react);
      && RunTasks(tasks, files, w, react) == (before + [outcome], w2)
      && w1.log <= w2.log && forall i | |w1.log| <= i < |w2.log| :: w2.log[i].task == n
  {
    var n := |tasks| - 1;
    DispatchIsLicensed(n, tasks[n], files, RunTasks(tasks[..n], files, w, react).1, react);
  }

  /** The outcomes and the log only grow, and entries name the task that caused them. */
  ghost predicate Continues<D>(n: nat, r: (seq<Outcome>, World<D>), r': (seq<Outcome>, World<D>)) {
    r.0 <= r'.0 && r.1.log <= r'.1.log && forall i | |r.1.log| <= i < |r'.1.log| :: r'.1.log[i].task >= n
  }

  lemma {:induction false} RunContinues<D>(tasks: seq<Task>, n: nat, files: Files, w: World<D>, react: Reaction<D>)
    requires n <= |tasks|
    ensures Continues(n, RunTasks(tasks[..n], files, w, react), RunTasks(tasks, files, w, react))
  {
    if n == |tasks| {
      assert tasks[..n] == tasks;
    } else {
      var m := |tasks| - 1;
      RunContinues(tasks[..m], n, files, w, react);
      assert tasks[..m][..n] == tasks[..n];
      LastTask(tasks, files, w, react);
      ContinuesOn(n, m, RunTasks(tasks[..n], files, w, react), RunTasks(tasks[..m], files, w, react),
                  RunTasks(tasks, files, w, react));
    }
  }

  lemma ContinuesOn<D>(n: nat, m: nat, r: (seq<Outcome>, World<D>), r': (seq<Outcome>, World<D>),
                       r'': (seq<Outcome>, World<D>))
    requires n <= m && Continues(n, r, r') && Continues(m, r', r'')
    ensures Continues(n, r, r'')
  {
    assert forall i | 0 <= i < |r'.1.log| :: r''.1.log[i] == r'.1.log[i];
  }

  /** Task `n` of a run meets the world that the tasks before it have left. */
  lemma RunAt<D>(tasks: seq<Task>, n: nat, files: Files, w: World<D>, react: Reaction<D>)
    requires n < |tasks|
    ensures var w1 := RunTasks(tasks[..n], files, w, react).1;
      var (outcome, w2) := Dispatch(n, tasks[n], files, w1, react);
      && RunTasks(tasks, files, w, react).0[n] == outcome
      && w2.log <= RunTasks(tasks, files, w, react).1.log
      && forall i | |w2.log| <= i < |RunTasks(tasks, files, w, react).1.log| ::
           RunTasks(tasks, files, w, react).1.log[i].task > n
  {
    RunContinues(tasks, n + 1, files, w, react);
    LastTask(tasks[..n + 1], files, w, react);
    assert tasks[..n + 1][..n] == tasks[..n];
    assert RunTasks(tasks[..n + 1], files, w, react).0[n] == RunTasks(tasks, files, w, react).0[n];
  }

  lemma EarlierTasks<D>(tasks: seq<Task>, files: Files, state: D, react: Reaction<D>)
    ensures forall i | 0 <= i < |RunTasks(tasks, files, World(state, []), react).1.log| ::
      RunTasks(tasks, files, World(state, []), react).1.log[i].task < |tasks|
  {
    WholeRunGating(tasks, files, World(state, []), react);
  }

  /**
   In any run, from any device state: a task that reaches its handler with its arguments has exactly
   one entry in the log, its operation's RPC, and the reply in that entry decides what it reports.
   */
  lemma LogDecidesOutcome<D>(tasks: seq<Task>, n: nat, files: Files, state: D, react: Reaction<D>, rpc: Rpc)
    returns (k: nat)
    requires n < |tasks| && Executes(tasks[n]) && Asks(tasks[n], files, rpc)
    ensures var (outcomes, w) := RunTasks(tasks, files, World(state, []), react);
      && k < |w.log| && w.log[k].rpc == rpc
      && (forall i | 0 <= i < |w.log| :: w.log[i].task == n <==> i == k)
      && (outcomes[n] == Failed <==> w.log[k].reply == Refused || w.log[k].reply == RpcError)
      && (outcomes[n] != Failed ==>
            outcomes[n]
              == Done(tasks[n].service, tasks[n].operation, Mutates(tasks[n]) && w.log[k].reply != Unchanged, false))
  {
    var w1 := RunTasks(tasks[..n], files, World(state, []), react).1;
    k := |w1.log|;
    RunAt(tasks, n, files, World(state, []), react);
    OneRpc(n, tasks[n], files, w1, react, rpc);
    EarlierTasks(tasks[..n], files, state, react);
    var log := RunTasks(tasks, files, World(state, []), react).1.log;
    var w2 := Dispatch(n, tasks[n], files, w1, react).1;
    assert forall i | 0 <= i <= k :: log[i] == w2.log[i];
    assert forall i | 0 <= i < k :: log[i] == w1.log[i];
  }
}
