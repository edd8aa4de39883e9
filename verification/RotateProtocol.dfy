/**
 `cert/rotate` as interleaved steps: the handler, the generator on gRPC's sender thread, and a
 device that keeps a new certificate only after Finalize and rolls back otherwise.
 */
module RotateProtocol {
  import opened Wrappers
  import opened RotateQueue

  datatype Result = Rotated | RotateFailed(code: nat)

  datatype Handler =
    | Starting
    | AwaitFirst
    | PutFinalize
    | PutSentinel
    | Draining
    | Exhausted
    | Failing(code: nat)
    | Done(result: Result)

  /** The certificate on the device: the old one, or the new one at some stage of the rotation. */
  datatype Cert = Old | Loaded | FinalizeSeen | KeptNew | RolledBack

  /**
   History: `puts` is everything put into the queue, `heard` counts responses taken, `inOrder`
   says that the RPC ended in order for the device.
   */
  datatype State = State(
    handler: Handler, heard: nat, puts: seq<Item>, queue: seq<Item>,
    returned: bool, yielded: seq<RotateRequest>,
    received: nat, replies: nat, cert: Cert, inOrder: bool)

  function Init(): State {
    State(Starting, 0, [], [], false, [], 0, 0, Old, false)
  }

  datatype Action =
    | HandlerPut             // the handler puts the item its position calls for
    | TakeResponse           // the handler takes a response off the stream
    | StreamEnds             // the response stream ends without an error
    | RpcError(code: nat)    // the response stream ends with a status code
    | Generate               // the generator takes the next item of the queue
    | DeviceReceives         // the device receives the next message
    | DeviceReplies
    | DeviceConcludes(ok: bool)  // the RPC is over for the device, in order or broken

  predicate Listening(h: Handler) {
    h.AwaitFirst? || h.Draining?
  }

  predicate Enabled(s: State, a: Action) {
    match a
    case HandlerPut => !Listening(s.handler) && !s.handler.Done?
    case TakeResponse => Listening(s.handler) && s.replies > 0
    case StreamEnds => Listening(s.handler)
    case RpcError(_) => Listening(s.handler)
    case Generate => !s.returned && s.queue != []
    case DeviceReceives => s.received < |s.yielded| && (s.cert.Old? || s.cert.Loaded?)
    case DeviceReplies => true
    case DeviceConcludes(_) => !s.cert.KeptNew? && !s.cert.RolledBack?
  }

  function Put(s: State, item: Item, next: Handler): State {
    s.(puts := s.puts + [item], queue := s.queue + [item], handler := next)
  }

  function DoPut(s: State): State {
    match s.handler
    case Starting => Put(s, Some(LoadCertificate), AwaitFirst)
    case PutFinalize => Put(s, Some(FinalizeRotation), PutSentinel)
    case PutSentinel => Put(s, None, Draining)
    case Exhausted => Put(s, None, Done(Rotated))
    case Failing(code) => Put(s, None, Done(RotateFailed(code)))
    case _ => s
  }

  function DeviceTakes(cert: Cert, msg: RotateRequest): Cert {
    match msg
    case LoadCertificate => if cert.Old? then Loaded else cert
    case FinalizeRotation => if cert.Loaded? then FinalizeSeen else cert
  }

  function Do(s: State, a: Action): State
    requires Enabled(s, a)
  {
    match a
    case HandlerPut => DoPut(s)
    case TakeResponse =>
      s.(heard := s.heard + 1, replies := s.replies - 1,
         handler := if s.handler.AwaitFirst? then PutFinalize else Draining)
    case StreamEnds => s.(handler := if s.handler.AwaitFirst? then Exhausted else Done(Rotated))
    case RpcError(code) => s.(handler := Failing(code))
    case Generate =>
      var item := s.queue[0];
      if item.None? then s.(queue := s.queue[1..], returned := true)
      else s.(queue := s.queue[1..], yielded := s.yielded + [item.value])
    case DeviceReceives => s.(received := s.received + 1, cert := DeviceTakes(s.cert, s.yielded[s.received]))
    case DeviceReplies => s.(replies := s.replies + 1)
    case DeviceConcludes(ok) =>
      s.(cert := if s.cert.FinalizeSeen? && ok then KeptNew else RolledBack, inOrder := ok)
  }

  function After(s: State, acts: seq<Action>): Option<State>
    decreases |acts|
  {
    if acts == [] then Some(s)
    else if Enabled(s, acts[0]) then After(Do(s, acts[0]), acts[1..])
    else None
  }

  ghost predicate Reaches(acts: seq<Action>, s: State) {
    After(Init(), acts) == Some(s)
  }

  // ---------------------------------------------------------------- the invariant

  const LOAD: Item := Some(LoadCertificate)
  const FINALIZE: Item := Some(FinalizeRotation)

  /** What the handler has put into the queue, by position and by whether it heard anything. */
  function PutsAt(h: Handler, heard: bool): seq<Item> {
    match h
    case Starting => []
    case AwaitFirst => [LOAD]
    case PutFinalize => [LOAD]
    case PutSentinel => [LOAD, FINALIZE]
    case Draining => [LOAD, FINALIZE, None]
    case Exhausted => [LOAD]
    case Failing(_) => if heard then [LOAD, FINALIZE, None] else [LOAD]
    case Done(Rotated) => if heard then [LOAD, FINALIZE, None] else [LOAD, None]
    case Done(RotateFailed(_)) => if heard then [LOAD, FINALIZE, None, None] else [LOAD, None]
  }

  ghost predicate HandlerInv(s: State) {
    && s.puts == PutsAt(s.handler, s.heard > 0)
    && (s.handler.Starting? || s.handler.AwaitFirst? || s.handler.Exhausted? ==> s.heard == 0)
    && (s.handler.PutFinalize? || s.handler.PutSentinel? || s.handler.Draining? ==> s.heard > 0)
  }

  /** Taken and waiting items are together everything ever put, in order. */
  ghost predicate QueueInv(s: State) {
    s.puts == Wrapped(s.yielded) + (if s.returned then [None] else []) + s.queue
  }

  /** The certificate by what the device has received and how the RPC ended for it. */
  ghost predicate DeviceInv(s: State) {
    && s.received <= |s.yielded|
    && (s.cert.FinalizeSeen? || s.cert.KeptNew? ==> FinalizeRotation in s.yielded)
    && match s.cert
       case Old => s.received == 0 && !s.inOrder
       case Loaded => s.received == 1 && !s.inOrder
       case FinalizeSeen => s.received == 2 && !s.inOrder
       case KeptNew => s.received == 2 && s.inOrder
       case RolledBack => !(s.received == 2 && s.inOrder)
  }

  ghost predicate Inv(s: State) {
    HandlerInv(s) && QueueInv(s) && DeviceInv(s)
  }

  /** In front of everything else, the items taken by the generator are the messages it yielded. */
  lemma YieldedWerePut(s: State)
    requires Inv(s)
    ensures |s.yielded| <= |s.puts| && forall i | 0 <= i < |s.yielded| :: s.puts[i] == Some(s.yielded[i])
  {
    assert forall i | 0 <= i < |s.yielded| :: s.puts[i] == Wrapped(s.yielded)[i];
  }

  lemma GenerateKeepsQueue(s: State)
    requires QueueInv(s) && Enabled(s, Generate)
    ensures QueueInv(Do(s, Generate))
  {
    var item := s.queue[0];
    assert s.queue == [item] + s.queue[1..];
    if item.Some? {
      assert Wrapped(s.yielded + [item.value]) == Wrapped(s.yielded) + [item];
    }
  }

  lemma PutKeepsQueue(s: State, item: Item, next: Handler)
    requires QueueInv(s)
    ensures QueueInv(Put(s, item, next))
  {
    var taken := Wrapped(s.yielded) + (if s.returned then [None] else []);
    assert taken + s.queue + [item] == taken + (s.queue + [item]);
  }

  lemma PutKeepsHandler(s: State)
    requires HandlerInv(s) && Enabled(s, HandlerPut)
    ensures HandlerInv(DoPut(s))
  {
  }

  lemma PutKeepsOrder(s: State)
    requires QueueInv(s) && Enabled(s, HandlerPut)
    ensures QueueInv(DoPut(s))
  {
    match s.handler
    case Starting => PutKeepsQueue(s, LOAD, AwaitFirst);
    case PutFinalize => PutKeepsQueue(s, FINALIZE, PutSentinel);
    case PutSentinel => PutKeepsQueue(s, None, Draining);
    case Exhausted => PutKeepsQueue(s, None, Done(Rotated));
    case Failing(code) => PutKeepsQueue(s, None, Done(RotateFailed(code)));
  }

  lemma HandlerPutKeepsInv(s: State)
    requires Inv(s) && Enabled(s, HandlerPut)
    ensures Inv(Do(s, HandlerPut))
  {
    PutKeepsHandler(s);
    PutKeepsOrder(s);
  }

  lemma ReceiveKeepsInv(s: State)
    requires Inv(s) && Enabled(s, DeviceReceives)
    ensures Inv(Do(s, DeviceReceives))
  {
    YieldedWerePut(s);
    assert s.puts[s.received] == Some(s.yielded[s.received]);
  }

  lemma StreamKeepsHandler(s: State, a: Action)
    requires HandlerInv(s) && Enabled(s, a) && (a.TakeResponse? || a.StreamEnds? || a.RpcError?)
    ensures HandlerInv(Do(s, a))
  {
  }

  lemma StreamKeepsInv(s: State, a: Action)
    requires Inv(s) && Enabled(s, a) && (a.TakeResponse? || a.StreamEnds? || a.RpcError?)
    ensures Inv(Do(s, a))
  {
    StreamKeepsHandler(s, a);
    var t := Do(s, a);
    assert t.puts == s.puts && t.queue == s.queue && t.yielded == s.yielded && t.returned == s.returned;
  }

  lemma StepKeepsInv(s: State, a: Action)
    requires Inv(s) && Enabled(s, a)
    ensures Inv(Do(s, a))
  {
    match a
    case HandlerPut => HandlerPutKeepsInv(s);
    case Generate => GenerateKeepsQueue(s);
    case DeviceReceives => ReceiveKeepsInv(s);
    case DeviceReplies =>
    case DeviceConcludes(_) =>
    case _ => StreamKeepsInv(s, a);
  }

  lemma {:induction false} RunKeepsInv(s: State, acts: seq<Action>)
    requires Inv(s) && After(s, acts).Some?
    ensures Inv(After(s, acts).value)
    decreases |acts|
  {
    if acts != [] {
      StepKeepsInv(s, acts[0]);
      RunKeepsInv(Do(s, acts[0]), acts[1..]);
    }
  }

  lemma ReachableInv(acts: seq<Action>, s: State)
    requires Reaches(acts, s)
    ensures Inv(s)
  {
    assert Wrapped([]) == [];
    RunKeepsInv(Init(), acts);
  }

  // ---------------------------------------------------------------- commit safety

  /** The generator only ever yields a prefix of load, finalize. */
  lemma YieldsInOrder(acts: seq<Action>, s: State)
    requires Reaches(acts, s)
    ensures s.yielded <= [LoadCertificate, FinalizeRotation]
  {
    ReachableInv(acts, s);
    YieldedWerePut(s);
    assert |s.puts| > 2 ==> s.puts[2] == None;
    assert |s.puts| > 1 ==> s.puts[1] == None || s.puts[1] == FINALIZE;
    assert |s.yielded| <= 2;
  }

  /**
   In every interleaving, against any device that needs Finalize to commit: the new certificate
   is kept only if the handler had received a response on the stream.
   */
  lemma CommitNeedsResponse(acts: seq<Action>, s: State)
    requires Reaches(acts, s)
    ensures s.cert.KeptNew? || s.cert.FinalizeSeen? ==> s.heard > 0
    ensures FinalizeRotation in s.yielded ==> s.heard > 0
  {
    ReachableInv(acts, s);
    YieldedWerePut(s);
  }

  /**
   Exactly when the device keeps the new certificate, in every state of every interleaving: it has
   received both messages and the RPC ended in order for it.
   */
  lemma KeptExactlyWhen(acts: seq<Action>, s: State)
    requires Reaches(acts, s)
    ensures s.cert.KeptNew? <==> s.inOrder && s.received == 2
  {
    ReachableInv(acts, s);
  }

  // ---------------------------------------------------------------- an orderly device

  /**
   An orderly device ends the RPC in order only after it has received everything, the end of the
   requests included, and ends the response stream without an error only after that.
   */
  ghost predicate Orderly(s: State, a: Action) {
    match a
    case DeviceConcludes(ok) => ok ==> s.returned && s.received == |s.yielded|
    case StreamEnds => s.inOrder
    case _ => true
  }

  ghost predicate OrderlyRun(s: State, acts: seq<Action>)
    decreases |acts|
  {
    acts == [] || (Enabled(s, acts[0]) && Orderly(s, acts[0]) && OrderlyRun(Do(s, acts[0]), acts[1..]))
  }

  ghost predicate OrderlyInv(s: State) {
    && (s.inOrder ==> s.returned && s.received == |s.yielded|)
    && !s.handler.Exhausted?
    && (s.handler == Done(Rotated) ==> s.inOrder && s.heard > 0)
  }

  /** A generator that has returned has yielded all messages; before a response there is no sentinel. */
  lemma ReturnedMeans(s: State)
    requires Inv(s) && s.returned
    ensures s.heard > 0 ==> |s.yielded| == 2
    ensures !s.handler.AwaitFirst?
  {
    YieldedWerePut(s);
    assert |s.yielded| < |s.puts| && s.puts[|s.yielded|] == None;
    assert s.heard > 0 ==> s.puts[0].Some? && (|s.puts| > 1 ==> s.puts[1].Some?);
    assert s.heard > 0 && |s.puts| > 2 ==> s.puts[2].None?;
  }

  lemma OrderlyStep(s: State, a: Action)
    requires Inv(s) && OrderlyInv(s) && Enabled(s, a) && Orderly(s, a)
    ensures OrderlyInv(Do(s, a))
  {
    if s.returned {
      ReturnedMeans(s);
    }
    match a
    case HandlerPut =>
    case StreamEnds =>
    case _ =>
  }

  lemma {:induction false} OrderlyRunKeepsInv(s: State, acts: seq<Action>)
    requires Inv(s) && OrderlyInv(s) && OrderlyRun(s, acts)
    ensures After(s, acts).Some? && Inv(After(s, acts).value) && OrderlyInv(After(s, acts).value)
    decreases |acts|
  {
    if acts != [] {
      StepKeepsInv(s, acts[0]);
      OrderlyStep(s, acts[0]);
      OrderlyRunKeepsInv(Do(s, acts[0]), acts[1..]);
    }
  }

  /**
   Against an orderly device success means commit: in every interleaving, once the handler has
   returned the success result the device keeps the new certificate.
   */
  lemma OrderlySuccessIsCommit(acts: seq<Action>, s: State)
    requires Reaches(acts, s) && OrderlyRun(Init(), acts)
    ensures s.handler == Done(Rotated) ==> s.cert.KeptNew?
  {
    ReachableInv([], Init());
    OrderlyRunKeepsInv(Init(), acts);
    if s.handler == Done(Rotated) {
      ReturnedMeans(s);
    }
  }

  // ---------------------------------------------------------------- termination and outcome

  /** Messages first, then one or two sentinels and nothing else. */
  ghost predicate Sealed(puts: seq<Item>, k: nat) {
    && k < |puts| <= k + 2
    && forall i | 0 <= i < |puts| :: puts[i].Some? <==> i < k
  }

  /**
   On every exit of the handler a sentinel stands behind all real messages; the generator can
   always move until it returns, and then at most one sentinel is left over.
   */
  lemma ExitSealsQueue(acts: seq<Action>, s: State)
    requires Reaches(acts, s) && s.handler.Done?
    ensures Sealed(s.puts, if s.heard > 0 then 2 else 1)
    ensures s.returned || Enabled(s, Generate)
    ensures s.returned ==> |s.queue| <= 1 && forall i | 0 <= i < |s.queue| :: s.queue[i].None?
  {
    ReachableInv(acts, s);
    ExitPuts(s);
    if s.returned {
      SpareSentinels(s);
    } else {
      StillQueued(s);
    }
  }

  lemma ExitPuts(s: State)
    requires HandlerInv(s) && s.handler.Done?
    ensures Sealed(s.puts, if s.heard > 0 then 2 else 1)
  {
    var puts := s.puts;
    if s.heard > 0 {
      assert |puts| >= 3 && puts[0] == LOAD && puts[1] == FINALIZE && puts[2] == None;
    } else {
      assert |puts| == 2 && puts[0] == LOAD && puts[1] == None;
    }
  }

  /** A generator that has returned has taken the first sentinel; what is left stands behind it. */
  lemma SpareSentinels(s: State)
    requires Inv(s) && s.returned && Sealed(s.puts, if s.heard > 0 then 2 else 1)
    ensures |s.queue| <= 1 && forall i | 0 <= i < |s.queue| :: s.queue[i].None?
  {
    var k := if s.heard > 0 then 2 else 1;
    YieldedWerePut(s);
    var n := |s.yielded|;
    assert s.puts[k].None? && s.puts[n] == None;
    assert n == k;
    assert forall i | 0 <= i < |s.queue| :: s.queue[i] == s.puts[n + 1 + i];
  }

  lemma StillQueued(s: State)
    requires Inv(s) && !s.returned && Sealed(s.puts, if s.heard > 0 then 2 else 1)
    ensures s.queue != []
  {
    YieldedWerePut(s);
    var k := if s.heard > 0 then 2 else 1;
    assert s.puts[k].None?;
  }

  /** After the handler's exit the generator returns within as many steps as the queue is long. */
  lemma {:induction false} GeneratorReturns(acts: seq<Action>, s: State) returns (more: seq<Action>, t: State)
    requires Reaches(acts, s) && s.handler.Done?
    ensures Reaches(acts + more, t) && t.returned && t.handler == s.handler
    ensures |more| <= |s.queue| && forall i | 0 <= i < |more| :: more[i] == Generate
    decreases |s.queue|
  {
    if s.returned {
      more, t := [], s;
      assert acts + [] == acts;
    } else {
      ExitSealsQueue(acts, s);
      var acts', s' := Extend(acts, s, Generate);
      var rest, u := GeneratorReturns(acts', s');
      more, t := [Generate] + rest, u;
      assert acts + more == acts' + rest;
    }
  }

  /**
   What a success result means: Finalize was enqueued if and only if a response had arrived. An
   empty response stream is reported as a rotation although Finalize is never sent.
   */
  lemma SuccessMeans(acts: seq<Action>, s: State)
    requires Reaches(acts, s) && s.handler.Done?
    ensures FINALIZE in s.puts <==> s.heard > 0
    ensures s.heard == 0 ==> FinalizeRotation !in s.yielded && FINALIZE !in s.queue && !s.cert.KeptNew?
    ensures s.handler.result.Rotated? ==> s.puts == (if s.heard > 0 then [LOAD, FINALIZE, None] else [LOAD, None])
  {
    ReachableInv(acts, s);
    YieldedWerePut(s);
    var taken := |s.yielded| + (if s.returned then 1 else 0);
    assert forall i | 0 <= i < |s.queue| :: s.queue[i] == s.puts[taken + i];
  }

  /** The result is settled once the response stream has ended. */
  predicate Settled(result: Result, h: Handler) {
    match h
    case Exhausted => result.Rotated?
    case Failing(code) => result == RotateFailed(code)
    case Done(r) => r == result
    case _ => false
  }

  lemma {:induction false} SettledRun(s: State, acts: seq<Action>, result: Result)
    requires Settled(result, s.handler) && After(s, acts).Some?
    ensures Settled(result, After(s, acts).value.handler)
    decreases |acts|
  {
    if acts != [] {
      SettledRun(Do(s, acts[0]), acts[1..], result);
    }
  }

  /**
   How the response stream ends decides the result of every continuation: success for an end without
   an error, and for every status code the failure with that code, responses or no responses.
   */
  lemma StreamDecides(s: State, a: Action, after: seq<Action>, t: State)
    requires a.StreamEnds? || a.RpcError?
    requires After(s, [a] + after) == Some(t) && t.handler.Done?
    ensures t.handler.result == Rotated <==> a.StreamEnds?
    ensures forall code | a == RpcError(code) :: t.handler.result == RotateFailed(code)
  {
    assert ([a] + after)[1..] == after;
    SettledRun(Do(s, a), after, if a.StreamEnds? then Rotated else RotateFailed(a.code));
  }

  /** Interleaved or not, the handler enqueues what its plain loop does on the stream that it met. */
  lemma InterleavedIsTheLoop(acts: seq<Action>, s: State)
    requires Reaches(acts, s) && s.handler.Done?
    ensures var error := if s.handler.result.Rotated? then None else Some(s.handler.result.code);
      s.puts == Puts(Stream(s.heard, error))
  {
    ReachableInv(acts, s);
  }

  // ---------------------------------------------------------------- concrete runs

  lemma {:induction false} AfterSnoc(s: State, acts: seq<Action>, a: Action)
    requires After(s, acts).Some? && Enabled(After(s, acts).value, a)
    ensures After(s, acts + [a]) == Some(Do(After(s, acts).value, a))
    decreases |acts|
  {
    if acts == [] {
      assert [a][1..] == [] && acts + [a] == [a];
    } else {
      assert (acts + [a])[1..] == acts[1..] + [a];
      AfterSnoc(Do(s, acts[0]), acts[1..], a);
    }
  }

  lemma Extend(acts: seq<Action>, s: State, a: Action) returns (acts': seq<Action>, t: State)
    requires Reaches(acts, s) && Enabled(s, a)
    ensures Reaches(acts', t) && t == Do(s, a) && acts' == acts + [a]
  {
    AfterSnoc(Init(), acts, a);
    acts', t := acts + [a], Do(s, a);
  }

  lemma {:induction false} OrderlySnoc(s: State, acts: seq<Action>, a: Action)
    requires After(s, acts).Some? && OrderlyRun(s, acts)
    requires Enabled(After(s, acts).value, a) && Orderly(After(s, acts).value, a)
    ensures OrderlyRun(s, acts + [a])
    decreases |acts|
  {
    if acts == [] {
      assert [a][1..] == [] && acts + [a] == [a];
    } else {
      assert (acts + [a])[1..] == acts[1..] + [a];
      OrderlySnoc(Do(s, acts[0]), acts[1..], a);
    }
  }

  lemma ExtendOrderly(acts: seq<Action>, s: State, a: Action) returns (acts': seq<Action>, t: State)
    requires Reaches(acts, s) && OrderlyRun(Init(), acts) && Enabled(s, a) && Orderly(s, a)
    ensures Reaches(acts', t) && OrderlyRun(Init(), acts') && t == Do(s, a)
  {
    OrderlySnoc(Init(), acts, a);
    acts', t := Extend(acts, s, a);
  }

  /** Success without a commit: the stream ends before any response and the device rolls back. */
  lemma RotatedWithoutCommit() returns (acts: seq<Action>, s: State)
    ensures Reaches(acts, s) && s.handler == Done(Rotated) && s.cert.RolledBack?
  {
    acts, s := [], Init();
    acts, s := Extend(acts, s, HandlerPut);
    acts, s := Extend(acts, s, Generate);
    acts, s := Extend(acts, s, DeviceReceives);
    acts, s := Extend(acts, s, DeviceConcludes(true));
    acts, s := Extend(acts, s, StreamEnds);
    acts, s := Extend(acts, s, HandlerPut);
  }

  /** The same after a response: the device ends the RPC and the stream before Finalize goes out. */
  lemma RotatedWithoutFinalize() returns (acts: seq<Action>, s: State)
    ensures Reaches(acts, s) && s.handler == Done(Rotated) && s.heard == 1 && FINALIZE in s.puts
    ensures s.cert.RolledBack?
  {
    acts, s := FirstResponse();
    acts, s := Extend(acts, s, DeviceConcludes(true));
    acts, s := Extend(acts, s, HandlerPut);
    acts, s := Extend(acts, s, HandlerPut);
    acts, s := Extend(acts, s, StreamEnds);
    assert s.puts[1] == FINALIZE;
  }

  /** The device has loaded the certificate, answered, and the handler has taken the answer. */
  lemma FirstResponse() returns (acts: seq<Action>, s: State)
    ensures Reaches(acts, s) && OrderlyRun(Init(), acts)
    ensures s == State(PutFinalize, 1, [LOAD], [], false, [LoadCertificate], 1, 0, Loaded, false)
  {
    acts, s := [], Init();
    acts, s := ExtendOrderly(acts, s, HandlerPut);
    acts, s := ExtendOrderly(acts, s, Generate);
    acts, s := ExtendOrderly(acts, s, DeviceReceives);
    acts, s := ExtendOrderly(acts, s, DeviceReplies);
    acts, s := ExtendOrderly(acts, s, TakeResponse);
  }

  /** From there both messages and the sentinel go out, and an orderly device commits. */
  lemma Committed() returns (acts: seq<Action>, s: State)
    ensures Reaches(acts, s) && OrderlyRun(Init(), acts)
    ensures s.handler == Draining && s.heard == 1 && s.cert.KeptNew? && s.inOrder
  {
    acts, s := FirstResponse();
    acts, s := ExtendOrderly(acts, s, HandlerPut);
    acts, s := ExtendOrderly(acts, s, HandlerPut);
    acts, s := ExtendOrderly(acts, s, Generate);
    acts, s := ExtendOrderly(acts, s, DeviceReceives);
    acts, s := ExtendOrderly(acts, s, Generate);
    acts, s := ExtendOrderly(acts, s, DeviceConcludes(true));
  }

  /** An orderly run that succeeds, so the guarantee against orderly devices is not empty. */
  lemma OrderlyRotation() returns (acts: seq<Action>, s: State)
    ensures Reaches(acts, s) && OrderlyRun(Init(), acts) && s.handler == Done(Rotated) && s.cert.KeptNew?
  {
    acts, s := Committed();
    acts, s := ExtendOrderly(acts, s, StreamEnds);
  }

  /** Failure with a commit, even with an orderly device: a status code ends the drained stream. */
  lemma FailedAfterCommit(code: nat) returns (acts: seq<Action>, s: State)
    ensures Reaches(acts, s) && OrderlyRun(Init(), acts)
    ensures s.handler == Done(RotateFailed(code)) && s.cert.KeptNew?
  {
    acts, s := Committed();
    acts, s := ExtendOrderly(acts, s, RpcError(code));
    acts, s := ExtendOrderly(acts, s, HandlerPut);
  }
}
