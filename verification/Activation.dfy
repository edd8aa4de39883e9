/** Repeated activation tasks: how many Activate RPCs they cause, with and without the reboot. */
module Activation {
  import opened Wrappers
  import opened ImageVersion
  import opened GnoiRegistry
  import opened GnoiDispatch

  /** A device on which Verify is reachable and tells the running version. */
  ghost predicate TellsRunning<D(!new)>(react: Reaction<D>, running: D -> string) {
    forall d: D :: react(d, Verify).1 == Running(running(d)) && running(react(d, Verify).0) == running(d)
  }

  /** On top of that, an accepted rebooting Activate boots the requested version. */
  ghost predicate BootsWhatItAccepts<D(!new)>(react: Reaction<D>, running: D -> string) {
    && TellsRunning(react, running)
    && (forall d: D, v: string {:trigger react(d, Activate(v, false))} ::
          Positive(react(d, Activate(v, false)).1) ==> running(react(d, Activate(v, false)).0) == v)
  }

  /** An Activate without the reboot leaves the running version alone. */
  ghost predicate WaitsForReboot<D(!new)>(react: Reaction<D>, running: D -> string) {
    forall d: D, v: string {:trigger react(d, Activate(v, true))} ::
      running(react(d, Activate(v, true)).0) == running(d)
  }

  /** So does one that the device does not accept. */
  ghost predicate RefusalKeeps<D(!new)>(react: Reaction<D>, running: D -> string) {
    forall d: D, v: string {:trigger react(d, Activate(v, false))} ::
      !Positive(react(d, Activate(v, false)).1) ==> running(react(d, Activate(v, false)).0) == running(d)
  }

  /** A confirmed activation of version `v`, given or read from an image header. */
  ghost predicate Activates(t: Task, files: Files, v: string) {
    && t.service == "os" && t.operation == "activate" && t.confirm && !t.checkMode
    && ResolveVersion(t.args, files) == Some(v)
  }

  ghost predicate RebootingActivate(t: Task, files: Files, v: string) {
    Activates(t, files, v) && !t.args.noReboot
  }

  /** How many Activate RPCs a log holds. */
  function Activations(log: seq<Entry>): nat {
    if log == [] then 0
    else Activations(log[..|log| - 1]) + (if log[|log| - 1].rpc.Activate? then 1 else 0)
  }

  predicate AcceptedActivate(e: Entry) {
    e.rpc.Activate? && Positive(e.reply)
  }

  /** How many of them the device accepted. */
  function Acceptances(log: seq<Entry>): nat {
    if log == [] then 0
    else Acceptances(log[..|log| - 1]) + (if AcceptedActivate(log[|log| - 1]) then 1 else 0)
  }

  lemma CountsSnoc(log: seq<Entry>, e: Entry)
    ensures Activations(log + [e]) == Activations(log) + (if e.rpc.Activate? then 1 else 0)
    ensures Acceptances(log + [e]) == Acceptances(log) + (if AcceptedActivate(e) then 1 else 0)
  {
    assert (log + [e])[..|log|] == log;
  }

  lemma PassesGates(t: Task, files: Files, v: string)
    requires Activates(t, files, v)
    ensures Gate(t) == None && REGISTERED[(t.service, t.operation)] == OperationSpec(OsActivate, true, true)
  {
    GatingIsRegistration(t.platform, t.service, t.operation);
  }

  const UNCHANGED := Done("os", "activate", false, false)
  const CHANGED := Done("os", "activate", true, false)

  // ---------------------------------------------------------------- one task

  /** With the version already running, a task only verifies. */
  lemma AlreadyActiveStep<D(!new)>(n: nat, t: Task, files: Files, v: string, w: World<D>,
                                   react: Reaction<D>, running: D -> string)
    requires TellsRunning(react, running) && Activates(t, files, v)
    requires running(w.state) == v
    ensures var (outcome, w') := Dispatch(n, t, files, w, react);
      && outcome == UNCHANGED && running(w'.state) == v
      && Activations(w'.log) == Activations(w.log) && Acceptances(w'.log) == Acceptances(w.log)
  {
    PassesGates(t, files, v);
    CountsSnoc(w.log, Entry(n, Verify, Running(v)));
  }

  /** The state and the reply after the Activate that a task issues from this world. */
  function ActivateFrom<D>(w: World<D>, v: string, noReboot: bool, react: Reaction<D>): (D, Reply) {
    react(react(w.state, Verify).0, Activate(v, noReboot))
  }

  /** With another version running, a task activates once, and the reply decides what it reports. */
  lemma ActivateStep<D(!new)>(n: nat, t: Task, files: Files, v: string, w: World<D>,
                              react: Reaction<D>, running: D -> string)
    requires TellsRunning(react, running) && Activates(t, files, v)
    requires running(w.state) != v
    ensures var (outcome, w') := Dispatch(n, t, files, w, react);
      var (state, reply) := ActivateFrom(w, v, t.args.noReboot, react);
      && Activations(w'.log) == Activations(w.log) + 1
      && Acceptances(w'.log) == Acceptances(w.log) + (if Positive(reply) then 1 else 0)
      && outcome == (if Positive(reply) then CHANGED else Failed)
      && w'.state == state
  {
    PassesGates(t, files, v);
    var verified := Entry(n, Verify, Running(running(w.state)));
    CountsSnoc(w.log, verified);
    CountsSnoc(w.log + [verified],
               Entry(n, Activate(v, t.args.noReboot), ActivateFrom(w, v, t.args.noReboot, react).1));
  }

  // ---------------------------------------------------------------- with the reboot

  /** With another version running, a task activates once; if accepted, `v` runs afterwards. */
  lemma FirstActivation<D(!new)>(n: nat, t: Task, files: Files, v: string, w: World<D>,
                                 react: Reaction<D>, running: D -> string)
    requires BootsWhatItAccepts(react, running) && RebootingActivate(t, files, v)
    requires running(w.state) != v
    ensures var (outcome, w') := Dispatch(n, t, files, w, react);
      var accepted := Positive(ActivateFrom(w, v, false, react).1);
      && Activations(w'.log) == Activations(w.log) + 1
      && Acceptances(w'.log) == Acceptances(w.log) + (if accepted then 1 else 0)
      && outcome == (if accepted then CHANGED else Failed)
      && (accepted ==> running(w'.state) == v)
  {
    ActivateStep(n, t, files, v, w, react, running);
  }

  /** One task of a repetition: nothing to do once the version runs, otherwise the first activation. */
  lemma RebootingTask<D(!new)>(n: nat, t: Task, files: Files, v: string, w: World<D>,
                               react: Reaction<D>, running: D -> string)
    requires BootsWhatItAccepts(react, running) && RebootingActivate(t, files, v)
    ensures var (outcome, w') := Dispatch(n, t, files, w, react);
      var accepted := Positive(ActivateFrom(w, v, false, react).1);
      if running(w.state) == v then
        && outcome == UNCHANGED && running(w'.state) == v
        && Activations(w'.log) == Activations(w.log) && Acceptances(w'.log) == Acceptances(w.log)
      else
        && Activations(w'.log) == Activations(w.log) + 1
        && Acceptances(w'.log) == Acceptances(w.log) + (if accepted then 1 else 0)
        && outcome == (if accepted then CHANGED else Failed)
        && (accepted ==> running(w'.state) == v)
  {
    if running(w.state) == v {
      AlreadyActiveStep(n, t, files, v, w, react, running);
    } else {
      FirstActivation(n, t, files, v, w, react, running);
    }
  }

  /** What one task does to the running version, the counts and the report, as plain data. */
  ghost predicate Stepped(runs: bool, issued: int, accepted: int, outcome: Outcome,
                          runs': bool, issued': int, accepted': int)
  {
    if runs then outcome == UNCHANGED && issued' == issued && accepted' == accepted && runs'
    else issued' == issued + 1 && if outcome == CHANGED then accepted' == accepted + 1 && runs'
                                  else outcome == Failed && accepted' == accepted
  }

  /** The last task of a repetition, between the run before it and the whole run. */
  lemma RebootingLast<D(!new)>(tasks: seq<Task>, files: Files, v: string, w: World<D>, react: Reaction<D>,
                               running: D -> string)
    returns (before: seq<Outcome>, w1: World<D>, outcome: Outcome, w2: World<D>)
    requires BootsWhatItAccepts(react, running) && tasks != []
    requires RebootingActivate(tasks[|tasks| - 1], files, v)
    ensures RunTasks(tasks[..|tasks| - 1], files, w, react) == (before, w1)
    ensures RunTasks(tasks, files, w, react) == (before + [outcome], w2)
    ensures Stepped(running(w1.state) == v, Activations(w1.log), Acceptances(w1.log), outcome,
                    running(w2.state) == v, Activations(w2.log), Acceptances(w2.log))
    ensures FirstAccepted(w1, v, react, running) ==> outcome != Failed
  {
    var n := |tasks| - 1;
    var r := RunTasks(tasks[..n], files, w, react);
    before, w1 := r.0, r.1;
    var d := Dispatch(n, tasks[n], files, w1, react);
    outcome, w2 := d.0, d.1;
    RebootingTask(n, tasks[n], files, v, w1, react, running);
  }

  /** The device accepts the Activate that the first task would issue, if it has to issue one. */
  ghost predicate FirstAccepted<D(!new)>(w: World<D>, v: string, react: Reaction<D>, running: D -> string) {
    running(w.state) == v || Positive(ActivateFrom(w, v, false, react).1)
  }

  /** One Activate for the first task if it was needed, and nothing to do for any later one. */
  ghost predicate OnlyFirst(needed: bool, outcomes: seq<Outcome>, issued: int, runs: bool) {
    && issued == (if needed && outcomes != [] then 1 else 0)
    && (outcomes != [] ==> runs)
    && (forall i | 0 <= i < |outcomes| :: outcomes[i] == if i == 0 && needed then CHANGED else UNCHANGED)
  }

  lemma OnlyFirstStep(needed: bool, before: seq<Outcome>, start: int, issued: int, accepted: int, runs: bool,
                      outcome: Outcome, issued': int, accepted': int, runs': bool)
    requires OnlyFirst(needed, before, issued - start, runs) && (before == [] ==> (needed <==> !runs))
    requires Stepped(runs, issued, accepted, outcome, runs', issued', accepted') && outcome != Failed
    ensures OnlyFirst(needed, before + [outcome], issued' - start, runs')
  {
  }

  lemma {:induction false} OneActivationRun<D(!new)>(
      tasks: seq<Task>, files: Files, v: string, w: World<D>, react: Reaction<D>, running: D -> string)
    requires BootsWhatItAccepts(react, running) && FirstAccepted(w, v, react, running)
    requires forall i | 0 <= i < |tasks| :: RebootingActivate(tasks[i], files, v)
    ensures var (outcomes, w') := RunTasks(tasks, files, w, react);
      var issued := Activations(w'.log) - Activations(w.log);
      OnlyFirst(running(w.state) != v, outcomes, issued, running(w'.state) == v)
  {
    if tasks != [] {
      var n := |tasks| - 1;
      OneActivationRun(tasks[..n], files, v, w, react, running);
      var before, w1, outcome, w2 := RebootingLast(tasks, files, v, w, react, running);
      assert n == 0 ==> w1 == w;
      assert n > 0 ==> running(w1.state) == v;
      OnlyFirstStep(running(w.state) != v, before, Activations(w.log),
                    Activations(w1.log), Acceptances(w1.log), running(w1.state) == v,
                    outcome, Activations(w2.log), Acceptances(w2.log), running(w2.state) == v);
    }
  }

  /**
   Any number of repeated rebooting activation tasks for one version issues exactly one Activate
   RPC, or none if the version already runs; only the first task can report a change.
   */
  lemma OneActivationIsEnough<D(!new)>(
      tasks: seq<Task>, files: Files, v: string, w: World<D>, react: Reaction<D>, running: D -> string)
    requires BootsWhatItAccepts(react, running) && FirstAccepted(w, v, react, running)
    requires forall i | 0 <= i < |tasks| :: RebootingActivate(tasks[i], files, v)
    ensures var (outcomes, w') := RunTasks(tasks, files, w, react);
      var needed := running(w.state) != v && tasks != [];
      && Activations(w'.log) == Activations(w.log) + (if needed then 1 else 0)
      && (tasks != [] ==> running(w'.state) == v)
      && (forall i | 0 <= i < |tasks| :: outcomes[i] == (if i == 0 && needed then CHANGED else UNCHANGED))
  {
    OneActivationRun(tasks, files, v, w, react, running);
  }

  /** At most one acceptance, and from the first task that is done on the version runs. */
  ghost predicate AcceptedOnce(outcomes: seq<Outcome>, accepted: int, runs: bool) {
    && accepted <= 1 && (accepted > 0 ==> runs)
    && (forall i, j | 0 <= i < j < |outcomes| && outcomes[i].Done? :: outcomes[j] == UNCHANGED)
    && (forall i | 0 <= i < |outcomes| && outcomes[i].Done? :: runs)
  }

  lemma AcceptedOnceStep(before: seq<Outcome>, start: int, issued: int, accepted: int, runs: bool,
                         outcome: Outcome, issued': int, accepted': int, runs': bool)
    requires AcceptedOnce(before, accepted - start, runs)
    requires Stepped(runs, issued, accepted, outcome, runs', issued', accepted')
    ensures AcceptedOnce(before + [outcome], accepted' - start, runs')
  {
    var all := before + [outcome];
    assert forall i | 0 <= i < |before| :: all[i] == before[i];
  }

  lemma {:induction false} AcceptedRun<D(!new)>(
      tasks: seq<Task>, files: Files, v: string, w: World<D>, react: Reaction<D>, running: D -> string)
    requires BootsWhatItAccepts(react, running)
    requires forall i | 0 <= i < |tasks| :: RebootingActivate(tasks[i], files, v)
    ensures var (outcomes, w') := RunTasks(tasks, files, w, react);
      AcceptedOnce(outcomes, Acceptances(w'.log) - Acceptances(w.log), running(w'.state) == v)
  {
    if tasks != [] {
      var n := |tasks| - 1;
      var before, w1, outcome, w2 := RebootingLast(tasks, files, v, w, react, running);
      assert AcceptedOnce(before, Acceptances(w1.log) - Acceptances(w.log), running(w1.state) == v) by {
        AcceptedRun(tasks[..n], files, v, w, react, running);
      }
      AcceptedOnceStep(before, Acceptances(w.log), Activations(w1.log), Acceptances(w1.log), running(w1.state) == v,
                       outcome, Activations(w2.log), Acceptances(w2.log), running(w2.state) == v);
    }
  }

  /**
   Whatever the device answers, it accepts at most one Activate over any number of such tasks: once
   one is accepted the version runs, and every later task reports no change.
   */
  lemma AtMostOneAccepted<D(!new)>(
      tasks: seq<Task>, files: Files, v: string, w: World<D>, react: Reaction<D>, running: D -> string)
    requires BootsWhatItAccepts(react, running)
    requires forall i | 0 <= i < |tasks| :: RebootingActivate(tasks[i], files, v)
    ensures var (outcomes, w') := RunTasks(tasks, files, w, react);
      && Acceptances(w'.log) <= Acceptances(w.log) + 1
      && (Acceptances(w'.log) > Acceptances(w.log) ==> running(w'.state) == v)
      && (forall i, j | 0 <= i < j < |tasks| && outcomes[i].Done? :: outcomes[j] == UNCHANGED)
      && (forall i | 0 <= i < |tasks| && outcomes[i].Done? :: running(w'.state) == v)
  {
    AcceptedRun(tasks, files, v, w, react, running);
  }

  // ---------------------------------------------------------------- without the reboot

  lemma NoRebootTask<D(!new)>(n: nat, t: Task, files: Files, v: string, w: World<D>,
                              react: Reaction<D>, running: D -> string)
    requires TellsRunning(react, running) && WaitsForReboot(react, running)
    requires Activates(t, files, v) && t.args.noReboot
    ensures var (outcome, w') := Dispatch(n, t, files, w, react);
      && running(w'.state) == running(w.state)
      && Activations(w'.log) == Activations(w.log) + (if running(w.state) == v then 0 else 1)
      && (outcome == UNCHANGED <==> running(w.state) == v)
  {
    if running(w.state) == v {
      AlreadyActiveStep(n, t, files, v, w, react, running);
    } else {
      ActivateStep(n, t, files, v, w, react, running);
    }
  }

  /**
   With `no_reboot` the guarantee is gone, on every device that waits for its reboot: unless the
   version already runs, every repetition activates again and none reports that nothing was to do.
   At most one Activate is issued if and only if the version runs or there is at most one task.
   */
  lemma {:induction false} NoRebootCount<D(!new)>(
      tasks: seq<Task>, files: Files, v: string, w: World<D>, react: Reaction<D>, running: D -> string)
    requires TellsRunning(react, running) && WaitsForReboot(react, running)
    requires forall i | 0 <= i < |tasks| :: Activates(tasks[i], files, v) && tasks[i].args.noReboot
    ensures var (outcomes, w') := RunTasks(tasks, files, w, react);
      && running(w'.state) == running(w.state)
      && Activations(w'.log) == Activations(w.log) + (if running(w.state) == v then 0 else |tasks|)
      && (Activations(w'.log) <= Activations(w.log) + 1 <==> running(w.state) == v || |tasks| <= 1)
      && (forall i | 0 <= i < |tasks| :: outcomes[i] == UNCHANGED <==> running(w.state) == v)
  {
    if tasks != [] {
      var n := |tasks| - 1;
      NoRebootCount(tasks[..n], files, v, w, react, running);
      var (before, w1) := RunTasks(tasks[..n], files, w, react);
      NoRebootTask(n, tasks[n], files, v, w1, react, running);
      var (outcome, w2) := Dispatch(n, tasks[n], files, w1, react);
      assert RunTasks(tasks, files, w, react) == (before + [outcome], w2);
    }
  }

  // ---------------------------------------------------------------- both kinds mixed

  /** A task that was told to reboot and whose Activate was accepted. */
  predicate Boots(t: Task, outcome: Outcome) {
    !t.args.noReboot && outcome == CHANGED
  }

  /** The index of the first such task; the number of tasks if there is none. */
  function FirstBoot(tasks: seq<Task>, outcomes: seq<Outcome>): (k: nat)
    requires |outcomes| == |tasks|
    ensures k <= |tasks| && (k < |tasks| ==> Boots(tasks[k], outcomes[k]))
    ensures forall i | 0 <= i < k :: !Boots(tasks[i], outcomes[i])
  {
    if tasks == [] then 0
    else
      var n := |tasks| - 1;
      var k := FirstBoot(tasks[..n], outcomes[..n]);
      if k < n || Boots(tasks[n], outcomes[n]) then k else n + 1
  }

  /** The number of Activate RPCs, the outcomes and the running version agree with the first boot. */
  ghost predicate UpToFirstBoot(tasks: seq<Task>, outcomes: seq<Outcome>, issued: int, runs: bool)
    requires |outcomes| == |tasks|
  {
    var k := FirstBoot(tasks, outcomes);
    && issued == (if k < |tasks| then k + 1 else |tasks|)
    && (runs <==> k < |tasks|)
    && (forall i | 0 <= i < |tasks| :: outcomes[i] == UNCHANGED <==> i > k)
  }

  /** One more task: nothing to do once the version runs, an Activate and perhaps the boot before. */
  lemma UpToFirstBootStep(tasks: seq<Task>, outcomes: seq<Outcome>, issued: int, runs: bool,
                          issued': int, runs': bool)
    requires tasks != [] && |outcomes| == |tasks|
    requires UpToFirstBoot(tasks[..|tasks| - 1], outcomes[..|tasks| - 1], issued, runs)
    requires var t, outcome := tasks[|tasks| - 1], outcomes[|tasks| - 1];
      if runs then outcome == UNCHANGED && issued' == issued && runs'
      else outcome != UNCHANGED && issued' == issued + 1 && (runs' <==> Boots(t, outcome))
    ensures UpToFirstBoot(tasks, outcomes, issued', runs')
  {
    var n := |tasks| - 1;
    assert forall i | 0 <= i < n :: outcomes[i] == outcomes[..n][i];
  }

  /** One task of a mixed run: it boots the version exactly if it reboots and is accepted. */
  lemma MixedStep<D(!new)>(n: nat, t: Task, files: Files, v: string, w: World<D>,
                           react: Reaction<D>, running: D -> string)
    requires BootsWhatItAccepts(react, running) && WaitsForReboot(react, running) && RefusalKeeps(react, running)
    requires Activates(t, files, v) && running(w.state) != v
    ensures var (outcome, w') := Dispatch(n, t, files, w, react);
      && Activations(w'.log) == Activations(w.log) + 1
      && outcome != UNCHANGED && (running(w'.state) == v <==> Boots(t, outcome))
  {
    ActivateStep(n, t, files, v, w, react, running);
  }

  lemma MixedTask<D(!new)>(n: nat, t: Task, files: Files, v: string, w: World<D>,
                           react: Reaction<D>, running: D -> string)
    requires BootsWhatItAccepts(react, running) && WaitsForReboot(react, running) && RefusalKeeps(react, running)
    requires Activates(t, files, v)
    ensures var (outcome, w') := Dispatch(n, t, files, w, react);
      if running(w.state) == v
      then outcome == UNCHANGED && Activations(w'.log) == Activations(w.log) && running(w'.state) == v
      else
        && outcome != UNCHANGED && Activations(w'.log) == Activations(w.log) + 1
        && (running(w'.state) == v <==> Boots(t, outcome))
  {
    if running(w.state) == v {
      AlreadyActiveStep(n, t, files, v, w, react, running);
    } else {
      MixedStep(n, t, files, v, w, react, running);
    }
  }

  lemma {:induction false} MixedRun<D(!new)>(
      tasks: seq<Task>, files: Files, v: string, w: World<D>, react: Reaction<D>, running: D -> string)
    requires BootsWhatItAccepts(react, running) && WaitsForReboot(react, running) && RefusalKeeps(react, running)
    requires forall i | 0 <= i < |tasks| :: Activates(tasks[i], files, v)
    requires running(w.state) != v
    ensures var (outcomes, w') := RunTasks(tasks, files, w, react);
      UpToFirstBoot(tasks, outcomes, Activations(w'.log) - Activations(w.log), running(w'.state) == v)
  {
    if tasks != [] {
      var n := |tasks| - 1;
      MixedRun(tasks[..n], files, v, w, react, running);
      var (before, w1) := RunTasks(tasks[..n], files, w, react);
      var (outcome, w2) := Dispatch(n, tasks[n], files, w1, react);
      MixedTask(n, tasks[n], files, v, w1, react, running);
      var outcomes := before + [outcome];
      assert RunTasks(tasks, files, w, react) == (outcomes, w2) && outcomes[..n] == before;
      var issued, issued' := Activations(w1.log) - Activations(w.log), Activations(w2.log) - Activations(w.log);
      UpToFirstBootStep(tasks, outcomes, issued, running(w1.state) == v, issued', running(w2.state) == v);
    }
  }

  /**
   Rebooting and non-rebooting tasks in any mixture, accepted or refused in any pattern, from a
   device that runs something else: every task up to and including the first accepted rebooting one
   issues an Activate and no later task does; the version runs in the end if and only if there is
   such a task. At most one Activate is issued if and only if that task comes first or there is at
   most one task.
   */
  lemma MixedCount<D(!new)>(
      tasks: seq<Task>, files: Files, v: string, w: World<D>, react: Reaction<D>, running: D -> string)
    requires BootsWhatItAccepts(react, running) && WaitsForReboot(react, running) && RefusalKeeps(react, running)
    requires forall i | 0 <= i < |tasks| :: Activates(tasks[i], files, v)
    requires running(w.state) != v
    ensures var (outcomes, w') := RunTasks(tasks, files, w, react);
      var k := FirstBoot(tasks, outcomes);
      && Activations(w'.log) == Activations(w.log) + (if k < |tasks| then k + 1 else |tasks|)
      && (Activations(w'.log) <= Activations(w.log) + 1 <==> k == 0 || |tasks| <= 1)
      && (running(w'.state) == v <==> k < |tasks|)
      && (forall i | 0 <= i < |tasks| :: outcomes[i] == UNCHANGED <==> i > k)
  {
    MixedRun(tasks, files, v, w, react, running);
  }

  // ---------------------------------------------------------------- a device that waits for its reboot

  /** A device that boots an accepted version only when it is told to reboot. */
  function LazyDevice(version: string, rpc: Rpc): (string, Reply) {
    match rpc
    case Verify => (version, Running(version))
    case Activate(v, noReboot) => (if noReboot then version else v, Accepted)
    case _ => (version, Accepted)
  }

  const NO_REBOOT :=
    Task("os", "activate", Args(Some("new"), None, true, None, None, None, []), false, "auto", true)

  lemma NoRebootStep(n: nat, w: World<string>)
    requires w.state == "old"
    ensures var (outcome, w') := Dispatch(n, NO_REBOOT, map[], w, LazyDevice);
      outcome == CHANGED && w'.state == "old" && Activations(w'.log) == Activations(w.log) + 1
  {
    assert "old"[0] != "new"[0];
    ActivateStep(n, NO_REBOOT, map[], "new", w, LazyDevice, (d: string) => d);
  }

  lemma NoRebootLast(tasks: seq<Task>)
    returns (before: seq<Outcome>, w1: World<string>, outcome: Outcome, w2: World<string>)
    requires tasks != [] && tasks[|tasks| - 1] == NO_REBOOT
    ensures RunTasks(tasks[..|tasks| - 1], map[], World("old", []), LazyDevice) == (before, w1)
    ensures RunTasks(tasks, map[], World("old", []), LazyDevice) == (before + [outcome], w2)
    ensures w1.state == "old" ==>
      outcome == CHANGED && w2.state == "old" && Activations(w2.log) == Activations(w1.log) + 1
  {
    var n := |tasks| - 1;
    var r := RunTasks(tasks[..n], map[], World("old", []), LazyDevice);
    before, w1 := r.0, r.1;
    var d := Dispatch(n, tasks[n], map[], w1, LazyDevice);
    outcome, w2 := d.0, d.1;
    if w1.state == "old" {
      NoRebootStep(n, w1);
    }
  }

  /** There are such devices, and on this one every repetition also reports a change. */
  lemma {:induction false} NoRebootRepeats(tasks: seq<Task>)
    requires forall i | 0 <= i < |tasks| :: tasks[i] == NO_REBOOT
    ensures var (outcomes, w) := RunTasks(tasks, map[], World("old", []), LazyDevice);
      w.state == "old" && Activations(w.log) == |tasks| && forall i | 0 <= i < |tasks| :: outcomes[i] == CHANGED
  {
    if tasks != [] {
      var n := |tasks| - 1;
      NoRebootRepeats(tasks[..n]);
      var before, w1, outcome, w2 := NoRebootLast(tasks);
    }
  }
}
