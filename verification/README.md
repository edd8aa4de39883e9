# Verified model of the cisco.gnmi collection's transfer, path and dispatch logic

This project models three parts of the Ansible collection in Dafny 4.11 and proves properties of
them for all inputs, all runs and all interleavings.

1. **Streaming transfers.** `os/install` is a protocol between a response handler, a request
   generator that gRPC drives from its own thread, and a device. Each access to the shared
   `send_state` and `ready_event` is one step (`InstallProtocol`); a step-inductive invariant
   (`InstallInvariant`) carries the theorems of `InstallTheorems` and, for each way the handler can
   end, of `InstallOutcomes`. `ImageStream` holds the file read
   loop and the plan of chunks it follows. `cert/rotate` is treated the same way: `RotateQueue` is
   the FIFO queue with its sentinel run without interruption, `RotateProtocol` the interleaved
   protocol with a device that commits only on Finalize.
2. **The gNMI path language.** `PyStr` gives Python's `find`, `split`, `join` and `strip` with their
   laws, `GnmiPath` the parser and the printer, `PathLaws` what they preserve, `PathDomain` the exact
   set of paths they preserve, `Namespaces` the origin a path gets from its namespace, `GnmiClient` the Get and Set requests and the Get result,
   `ModuleHelper` the per-item origins of a Set.
3. **Dispatch and activation over whole runs.** `GnoiRegistry` and `GnoiDispatch` run sequences of
   tasks against an arbitrary device and keep a log of every RPC; `GnoiOutcomes` proves which RPC a
   task issues and what it makes of the reply, `Activation` what repeated activation tasks do.
   `ImageVersion` is the version scan of an image header, `ImageBytes` states it on raw bytes.

`dafny verify dfyconfig.toml` checks everything.

## Reading the model

- Loops and objects of the source are methods and classes (`BuildPath`, `ReadKeys`, `PathToString`,
  `ParseGetResponse`, `NormaliseSetItems`, `StreamImage`, `ListenLoop`, `RotateHandler`, `Generate`,
  `Registry`, `Session`), each proved against a function; the lemmas are about those functions.
- The interleaved protocols are state machines on values, one record per participant; the shared
  fields stand in the record of the only participant that writes them.
- Key maps have no order of their own. A printed element is a *listing* of its keys (`ListedElem`),
  and every statement about printing holds for every listing; `ListingExists` shows there is one.
- `Alnum` stands for `str.isalnum`: any test that agrees with it on ASCII.
- A run is a sequence of actions. gRPC may pull the next request at any time, may stop pulling, and
  may end the response stream at any time, cleanly or with a status code. The device may send any
  response at any time; `honest` only means that it acknowledges no byte it has not received.
- A device of `cert/rotate` keeps the new certificate only if it has received Finalize and the RPC
  ends in order for it; `OrderlyRun` describes one that ends the RPC and the response stream in the
  order that gRPC prescribes for a server which reads all requests.
- The image file does not change during a run. A `chunk_size` of -1 reads the file in one piece, as
  `read` does, so sizes are bounded by the chunk size only when it is positive.

## Where the code differs from its documentation, or stops short of it

- An explicit module-level `origin` beats a per-item origin and an in-path origin
  (`gnmi_client.py:625`), although `plugins/modules/config.py:118-120` says the opposite. The model
  follows the code. The documentation's rule holds if and only if the two origins are the same
  (`ModuleOriginDecides`, `ModuleOriginBeatsInPath`); `ItemOriginOverruled` is an item whose `native`
  becomes `openconfig`. The elements never depend on the module-level origin (`WirePath`).
- The helper trusts any `name:/` prefix, the parser only identifiers. An item's origin on a path such
  as `a.b:/x` is lost (`DottedOriginDropped`); such a path can only get the origin that its first
  element's namespace stands for (`TrustedLosesBoth`).
- The printer joins several keys with a comma, which the parser reads as one key. On texts without
  delimiters the round trip holds exactly for elements with at most one key (`RoundTrip`), and over
  all paths exactly on the domain `Readable` (`RoundTripDomain`). Off it two paths can print the same
  (`TwoKeyCollision`); the text of a delimiter-free path is still stable (`PrintedIsFixedPoint`).
- A Get `prefix` that is a bare `name:` does not name the nodes of the joined path
  (`JoinNamesSameNodes` gives the exact condition, `BareOriginExample` concrete ones).
- The event set in the `finally` clause can let the sender count a chunk before the handler reads the
  count; a run without TransferReady then reports `changed: true` (`LateSenderFlipsVerdict`). That
  can happen if and only if the image is not empty (`VerdictCanFlip`), and never while the sender
  stays still (`QuietSenderGivesUnchanged`).
- A `completed` report made after a clean close does not mean that the image was handed over, with or
  without a Validated: the byte count may be short (`CleanCloseWithoutTransfer`), and it may be full
  while the last chunk is still in the sender's hands (`CountedThenClosed`, `CountedThenValidated`).
  `CompletedMeans` gives the exact condition.
- A deadline that passes after a Validated was received still reports `validated: false`, with a
  message that the device did not send one (`RecoveredForgetsValidated`). That field of a recovered
  report is right if and only if no Validated was heard (`RecoveredIsSound`).
- `cert/rotate` can report success while the device rolls back: on an empty response stream, for which
  Finalize is never sent (`RotatedWithoutCommit`), and after a response, when the stream ends before
  Finalize goes out (`RotatedWithoutFinalize`). The device keeps the new certificate if and only if it
  has received both messages and the RPC ended in order for it (`KeptExactlyWhen`); against an orderly
  device success always means commit (`OrderlySuccessIsCommit`). Failure can be reported after the
  commit even then (`FailedAfterCommit`).
- The platform table never rejects a registered operation: the one populated platform supports all of
  them and an empty table gates nothing (`RejectedBecause`).
- The byte count that is compared after an RPC error never changes the verdict: where `ended` is set it
  is the image's size in every reachable state (`DecidedByEnded`).
- With `no_reboot` repeated activations are not idempotent: at most one Activate is issued if and only
  if the version already runs or there is at most one task (`NoRebootCount`, `NoRebootRepeats`); for
  mixed tasks the count runs up to the first accepted rebooting one (`MixedCount`).

## Model

| member | source | states |
|---|---|---|
| PyStr.JoinSplit | plugins/module_utils/gnmi_client.py:607 | splitting at a separator and joining again gives the text back |
| PyStr.SplitJoin | plugins/module_utils/gnmi_client.py:616 | joining parts that cannot start a separator and splitting again gives the parts back |
| PyStr.SplitLeavesNone | plugins/module_utils/gnmi_client.py:616 | split cuts at every separator, so no part contains one |
| PyStr.SplitAppend | plugins/module_utils/gnmi_client.py:607 | splitting at a character turns concatenation over that character into concatenation of parts |
| PyStr.StripCore | plugins/module_utils/gnmi_client.py:613 | strip returns exactly the core between two runs of strippable characters |
| GnmiPath.ReadKeys | plugins/module_utils/gnmi_client.py:615-619 | the inner loop fills the dictionary that the pieces determine, later keys overwriting earlier ones |
| GnmiPath.BuildPath | plugins/module_utils/gnmi_client.py:580-626 | the loop returns the path whose laws are proved in PathLaws |
| GnmiPath.PathToString | plugins/module_utils/gnmi_client.py:650-659 | the loop returns the text whose laws are proved in PathLaws, for the listing it was given |
| PathLaws.ParseBracketed | plugins/module_utils/gnmi_client.py:611-623 | one element with any number of bracketed keys in any order is read as exactly that name and key map |
| PathLaws.PieceWithoutKey | plugins/module_utils/gnmi_client.py:615-619 | a bracketed piece without `=` behind any number of keys adds no key and changes neither name nor keys |
| PathLaws.LastValueWins | plugins/module_utils/gnmi_client.py:617-619 | in the key map of a list of pairs a repeated key has the value of its last pair |
| PathLaws.ParseAfterBracketPrint | plugins/module_utils/gnmi_client.py:607-623 | a whole path written with one bracket pair per key is read back as exactly its elements, for key maps of any size and any listing order |
| PathLaws.ListingExists | plugins/module_utils/gnmi_client.py:655 | every key map has a listing, so statements over all listings are not empty |
| PathLaws.PrintThenParse | plugins/module_utils/gnmi_client.py:590-659 | reading a printed path gives, element by element, the comma-collapsed keys, and collapsing does not change the text |
| PathLaws.RoundTrip | plugins/module_utils/gnmi_client.py:590-659 | on delimiter-free texts printing and rebuilding is the identity if and only if there is no target and at most one key per element |
| PathLaws.OriginTextRoundTrip | plugins/module_utils/gnmi_client.py:583-659 | the same equivalence for the text `origin:/path` without an origin argument, for identifier origins |
| PathLaws.PrintInjective | plugins/module_utils/gnmi_client.py:650-659 | on that domain paths with equal origin and target that print the same are equal |
| PathLaws.TwoKeyCollision | plugins/module_utils/gnmi_client.py:654-656 | a two-key element and a different one-key element print the same |
| PathLaws.PrintedIsFixedPoint | plugins/module_utils/gnmi_client.py:590-659 | printing the parse of a printed path returns the same text, for any number of keys and any key order |
| PathLaws.PrintedHasNoOriginPrefix | plugins/module_utils/gnmi_client.py:638-659 | a printed path is never read as carrying an `origin:/` prefix |
| PathLaws.JoinNamesSameNodes | plugins/module_utils/gnmi_client.py:583-623 | the elements of `a/b` are those of `a` followed by those of `b` if and only if `a` is not a bare `origin:`, for `b` without an origin prefix |
| PathLaws.BareOriginExample | plugins/module_utils/gnmi_client.py:583-623 | an origin and a name for which prefix and path name two elements and the joined text one |
| PathLaws.RootedJoin | plugins/module_utils/gnmi_client.py:590-623 | for `a` starting with a slash the joining law holds whatever slashes are repeated or trailing |
| PathLaws.IdentifierSplits | plugins/module_utils/gnmi_client.py:638-648 | an identifier in front of a rooted path is split off again with the path intact |
| PathLaws.PrefixExactly | plugins/module_utils/gnmi_client.py:638-648 | for every text: it is split into `o` and `rest` if and only if it is `o`, a colon and a `rest` from a slash on, and `o` is a nonempty name of letters, digits, `-` and `_` |
| PathLaws.AsciiPrefix | plugins/module_utils/gnmi_client.py:645-648 | for colon-free ASCII `o` the text `o:/x` is split at that colon if and only if `o` is such a name |
| PathLaws.DetectsNamespace | plugins/module_utils/gnmi_client.py:595-605 | the namespace before the first colon alone decides the auto-detected origin |
| Namespaces.SlashKeepsOrigin | plugins/module_utils/gnmi_client.py:590-605 | a leading slash makes no difference to the origin of a path without a prefix |
| Namespaces.NamespaceDecides | plugins/module_utils/gnmi_client.py:590-605 | with or without a leading slash the namespace before the first colon gives `openconfig` for itself, `rfc7951` for the four Cisco and three standards-body prefixes, and nothing for any other |
| Namespaces.NoNamespaceNoOrigin | plugins/module_utils/gnmi_client.py:595-605 | where the first element ends or a bracket opens before any colon, no origin is detected |
| PathDomain.KeysNeedRoom | plugins/module_utils/gnmi_client.py:611-619 | every key that the parser reads takes a piece of the text of its own, at least as long as key and value |
| PathDomain.ElementReadBack | plugins/module_utils/gnmi_client.py:606-659 | a printed element is read back as itself if and only if it is readable: no bracket can be mistaken for the printer's own and there is at most one key |
| PathDomain.RoundTripDomain | plugins/module_utils/gnmi_client.py:590-659 | for every path and every listing, printing and rebuilding is the identity if and only if there is no target and every element is readable |
| PathDomain.ReadableInjective | plugins/module_utils/gnmi_client.py:638-659 | on that domain equal texts mean equal paths |
| PathDomain.OpenBracketSurvives | plugins/module_utils/gnmi_client.py:611-614 | the domain is larger than delimiter-free texts: an opening bracket inside a value does no harm |
| GnmiClient.BuildGetRequest | plugins/module_utils/gnmi_client.py:805-815 | a prefix is sent only if nonempty, and prefix plus path name the nodes of the one absolute path exactly when the prefix is not a bare origin |
| GnmiClient.BuildSetRequest | plugins/module_utils/gnmi_client.py:862-883 | message `i` of each list is operation `i` of that list, on its built path with its value |
| GnmiClient.ParseGetResponse | plugins/module_utils/gnmi_client.py:831-838 | the dictionary's keys are exactly the printed paths, and each holds the value of the last update that prints to it, the last in its notification and in no later one |
| GnmiClient.LastWinsUnique | plugins/module_utils/gnmi_client.py:831-838 | that description determines the dictionary |
| GnmiClient.OneEntryPerPath | plugins/module_utils/gnmi_client.py:831-838 | on the domain of readable paths the dictionary has one entry per distinct path |
| ModuleHelper.ItemOriginSurvives | plugins/module_utils/module_helper.py:371-386 | for an untrusted path, the encoded text keeps the bare path's elements if and only if the origin is an identifier, which is then the result's origin unless the module gives one |
| ModuleHelper.ModuleOriginDecides | plugins/module_utils/gnmi_client.py:625-626 | under a module-level origin an item keeps its own origin and elements, as config.py:118-120 promises, if and only if both origins are the same identifier |
| ModuleHelper.ModuleOriginBeatsInPath | plugins/module_utils/gnmi_client.py:590-626 | an origin written into the path reaches the wire under a module-level origin if and only if they are the same; the elements always do |
| ModuleHelper.ItemOriginOverruled | plugins/modules/config.py:118-120 | an item with the origin `native` that is sent with the module's `openconfig` |
| ModuleHelper.TrustedKeepsItsOrigin | plugins/module_utils/module_helper.py:379-383 | a trusted path with an identifier prefix keeps its own origin and elements |
| ModuleHelper.TrustedLosesBoth | plugins/module_utils/module_helper.py:379-383 | a trusted path whose prefix is no identifier takes no origin from the item or from the prefix, only from its namespace, and keeps the prefix as elements |
| ModuleHelper.ItemOriginDropped | plugins/module_utils/module_helper.py:379-383 | for every such prefix without a known namespace the resulting origin is empty |
| ModuleHelper.DottedOriginDropped | plugins/module_utils/module_helper.py:379-383 | the item's origin on `a.b:/...` is lost |
| ModuleHelper.TrustedExactly | plugins/module_utils/module_helper.py:379-383 | the helper trusts a path if and only if some `:/` stands behind at least one character and behind no slash or bracket |
| ModuleHelper.EncodedIsTrusted | plugins/module_utils/module_helper.py:379-383 | the helper recognises an origin it has written if and only if what stands before its first `:/` is nonempty and has no slash or bracket |
| ModuleHelper.EncodeTwice | plugins/module_utils/module_helper.py:372-386 | for any two origins, encoding the second leaves the text alone if and only if it is empty, the path is trusted, or the helper recognises the first one again |
| ModuleHelper.NormaliseSetItems | plugins/module_utils/module_helper.py:324-348 | operations in list order with encoded paths, or the first faulty item with its first fault: no dictionary, no path, no value, in this order |
| ModuleHelper.NormaliseDeleteItems | plugins/module_utils/module_helper.py:350-369 | delete paths in list order, or the first faulty item with its fault: neither text nor dictionary, or a dictionary without a path |
| ModuleHelper.ExecuteSet | plugins/module_utils/module_helper.py:252-319 | rejected exactly when some item is faulty, and then for the first fault in the order update, replace, delete; nothing sent in check mode; otherwise every item reaches the wire in order with its value and elements, and with its own origin if and only if the module gives none or the same |
| ModuleHelper.ItemReachesWire | plugins/module_utils/module_helper.py:252-386 | without a module-level origin an item on a rooted path whose origin is a name of letters, digits, `-` and `_` arrives with that origin and the elements of its path |
| ModuleHelper.StandardOriginOnWire | plugins/module_utils/module_helper.py:252-386 | such as `rfc7951` on `/x` |
| ImageVersion.Search | plugins/module_utils/gnoi/services/os.py:63-90 | the leftmost marker match is found, and none is missed |
| ImageVersion.ExtractVersion | plugins/module_utils/gnoi/services/os.py:80-96 | the scan fails if and only if the header window holds no marker with a nonempty `$`-free body, or the file cannot be read |
| ImageVersion.VersionOfMatch | plugins/module_utils/gnoi/services/os.py:88-96 | the result is the first match's stripped body less exactly one platform tag if it ends in one |
| ImageVersion.DropTagExact | plugins/module_utils/gnoi/services/os.py:64 | exactly one platform tag is removed, even when the version itself ends in another |
| ImageVersion.ExtractsVersion | plugins/module_utils/gnoi/services/os.py:69-96 | an image whose first marker is `CW_FULL_VERSION=$v..PLAT$` inside the window yields `v` |
| ImageVersion.ExtractsFirstVersion | plugins/module_utils/gnoi/services/os.py:69-96 | for that it is enough that the marker text does not occur earlier |
| ImageBytes.WindowOnly | plugins/module_utils/gnoi/services/os.py:66-82 | nothing behind the first 8192 bytes of the file matters |
| ImageBytes.FailsExactly | plugins/module_utils/gnoi/services/os.py:63-94 | on raw bytes: the scan fails if and only if the first 8192 bytes hold no `CW_FULL_VERSION=$`, nonempty `$`-free body and `$` |
| ImageBytes.ClosedTooLate | plugins/module_utils/gnoi/services/os.py:82-94 | a marker whose closing `$` lies behind byte 8192 is not found |
| ImageBytes.VersionOfBytes | plugins/module_utils/gnoi/services/os.py:63-96 | on raw bytes: a first marker `CW_FULL_VERSION=$v..PLATFORM$` inside the first 8192 bytes, with blanks around its body, yields exactly `v` |
| ImageBytes.UntaggedBytes | plugins/module_utils/gnoi/services/os.py:64-96 | a body that does not end in a platform tag is returned whole, less the blanks around it |
| ImageStream.ChunksConcat | plugins/module_utils/gnoi/services/os.py:147-152 | the chunks concatenated are the file |
| ImageStream.ChunkSizes | plugins/module_utils/gnoi/services/os.py:147-152 | every chunk is nonempty, at most the chunk size, and only the last one is short |
| ImageStream.ChunkCount | plugins/module_utils/gnoi/services/os.py:147-152 | there are exactly ceil(size / chunk size) chunks |
| ImageStream.StreamImage | plugins/module_utils/gnoi/services/os.py:125-160 | the read loop sends the chunks and TransferEnd, counts every byte and marks the end; on a read error it sends the chunks before the fault, notes the error and does not mark the end; chunks have the requested size, 1048576 bytes without one |
| InstallProtocol.ListenLoop | plugins/module_utils/gnoi/services/os.py:171-200 | the handler's variables after the loop are the last progress, the last Validated and the readiness among the responses up to the first error |
| InstallInvariant.StepKeepsInv | plugins/module_utils/gnoi/services/os.py:128-310 | every step of sender, handler or device keeps the invariant |
| InstallInvariant.ReachableInv | plugins/module_utils/gnoi/services/os.py:128-310 | the invariant holds in every state of every interleaving |
| InstallTheorems.HandedOverIsPrefix | plugins/module_utils/gnoi/services/os.py:131-160 | emitted messages are a prefix of announcement, chunks, TransferEnd; their bytes are a prefix of the image, and all of it once TransferEnd is out |
| InstallTheorems.RecoveredIsSound | plugins/module_utils/gnoi/services/os.py:201-251 | a success made from an RPC error had DEADLINE_EXCEEDED or CANCELLED, TransferReady, no send error and the whole image handed over; its `validated` is right if and only if no Validated was heard |
| InstallTheorems.DecidedByEnded | plugins/module_utils/gnoi/services/os.py:210-251 | whatever the threads do from the read of `ended` on, the error becomes a success if and only if `ended` was set and the code is DEADLINE_EXCEEDED or CANCELLED |
| InstallTheorems.CompletedMeans | plugins/module_utils/gnoi/services/os.py:252-310 | when a clean close is reported as completed, the whole image was handed over if and only if the reported count is the image's size and no counted chunk is held; an honest device's full acknowledgement is enough |
| InstallTheorems.CountedButNotHandedOver | plugins/module_utils/gnoi/services/os.py:151-152 | a run reaches all bytes counted with the last chunk not handed over |
| InstallTheorems.CountedThenClosed | plugins/module_utils/gnoi/services/os.py:252-310 | a run that reports every byte of a completed transfer with no content handed over |
| InstallTheorems.CountedThenValidated | plugins/module_utils/gnoi/services/os.py:252-310 | the same with a Validated received |
| InstallTheorems.RecoveredForgetsValidated | plugins/module_utils/gnoi/services/os.py:177-250 | for every image and recoverable code a run that recovers and reports `validated: false` although Validated was received |
| InstallTheorems.NothingBeforeReady | plugins/module_utils/gnoi/services/os.py:141-152 | before the `finally` clause any counted byte or content implies that TransferReady was received |
| InstallTheorems.AlreadyPresentIsSound | plugins/module_utils/gnoi/services/os.py:262-288 | `already_present` implies a received Validated and no content handed over at the decision, and after a Validated `changed` is false if and only if the count read is zero |
| InstallTheorems.QuietSenderGivesUnchanged | plugins/module_utils/gnoi/services/os.py:252-288 | Validated without TransferReady, clean close and no send error give `changed: false` when the sender stays still |
| InstallTheorems.LateSenderFlipsVerdict | plugins/module_utils/gnoi/services/os.py:252-262 | for every nonempty image and chunk size a run in which the event set in `finally` turns the same situation into `changed: true` |
| InstallTheorems.VerdictCanFlip | plugins/module_utils/gnoi/services/os.py:252-288 | such a run exists if and only if the image is not empty |
| InstallTheorems.CleanCloseWithoutTransfer | plugins/module_utils/gnoi/services/os.py:290-310 | for every nonempty image a run that reports a completed transfer with no byte sent |
| InstallTheorems.SenderNeverBlocked | plugins/module_utils/gnoi/services/os.py:140-143 | behind the `finally` clause the sender has stopped or can move |
| InstallTheorems.RankDecreases | plugins/module_utils/gnoi/services/os.py:131-160 | every sender step, faults included, lowers the sender's rank over position and bytes left, and no other step touches the sender |
| InstallTheorems.SenderStepsBounded | plugins/module_utils/gnoi/services/os.py:131-160 | in every interleaving the sender takes at most as many steps as its rank allows |
| InstallTheorems.SenderFinishes | plugins/module_utils/gnoi/services/os.py:252-254 | once the event is set, as it is behind `finally`, the sender alone runs to its end within its rank, and with nothing gone wrong hands over the whole plan |
| InstallTheorems.CompletedCount | plugins/module_utils/gnoi/services/os.py:125-160 | a completed transfer emitted exactly the plan, ceil(size / chunk) + 2 messages, or at most three when read in one piece |
| InstallTheorems.ByteAccounting | plugins/module_utils/gnoi/services/os.py:175-310 | against an honest device acknowledged <= transferred <= announced size in every result with both fields |
| InstallTheorems.ReportExplained | plugins/module_utils/gnoi/services/os.py:179-310 | every field of a report except a positive byte count is determined by the responses heard |
| InstallTheorems.ListeningIsTheLoop | plugins/module_utils/gnoi/services/os.py:171-178 | in every interleaving the listening handler's variables are those of the plain loop |
| InstallOutcomes.AfterRpcError | plugins/module_utils/gnoi/services/os.py:201-251 | after a status code, for every code and continuation, the outcome is a recovered success keeping the code or the error with that code; a success for DEADLINE_EXCEEDED or CANCELLED if the end was marked by then, and only if it is marked in the end |
| InstallOutcomes.AfterInstallError | plugins/module_utils/gnoi/services/os.py:179-200 | after an InstallError the outcome is the idempotent report if and only if its name is `INSTALL_RUN_PACKAGE`, and the failure with that name otherwise |
| InstallOutcomes.AfterCleanClose | plugins/module_utils/gnoi/services/os.py:252-310 | after a clean close the outcome is a report or the sender's error; an error noted by then is always raised, and none that was not noted |
| InstallOutcomes.DecidedByError | plugins/module_utils/gnoi/services/os.py:256-258 | from the read of the sender's error on, over all continuations, the outcome is that error if and only if one was noted, and a report otherwise |
| InstallOutcomes.DecidedByCount | plugins/module_utils/gnoi/services/os.py:260-310 | from the read of the byte count on, that count, the last Validated and the last progress settle the report |
| InstallOutcomes.EveryOutcome | plugins/module_utils/gnoi/services/os.py:165-310 | every finished run left the loop by a clean close, a status code or an InstallError, and ended in the outcome of that exit |
| InstallOutcomes.HandlerFinishes | plugins/module_utils/gnoi/services/os.py:201-310 | out of its loop the handler finishes within four steps of its own, whatever the others do |
| InstallOutcomes.LastProgressAt | plugins/module_utils/gnoi/services/os.py:175-176 | the acknowledged count is that of the last progress message |
| InstallOutcomes.LastValidatedAt | plugins/module_utils/gnoi/services/os.py:177-178 | the Validated that counts is the last one |
| RotateQueue.RotateHandler | plugins/module_utils/gnoi/services/cert.py:145-169 | what one run of the handler enqueues and returns, for every response stream |
| RotateQueue.Generate | plugins/module_utils/gnoi/services/cert.py:138-143 | the generator yields what stands before the first sentinel and leaves what stands behind it |
| RotateQueue.CutAtSentinel | plugins/module_utils/gnoi/services/cert.py:138-143 | for any messages and any rest the generator's two parts are those in front of and behind the first sentinel |
| RotateQueue.HandlerFeedsGenerator | plugins/module_utils/gnoi/services/cert.py:136-163 | together they send Finalize exactly when a response arrived and leave at most one spare sentinel |
| RotateProtocol.StepKeepsInv | plugins/module_utils/gnoi/services/cert.py:136-169 | every step of handler, generator or device keeps the invariant |
| RotateProtocol.YieldsInOrder | plugins/module_utils/gnoi/services/cert.py:136-156 | in every interleaving the yielded messages are a prefix of load, finalize |
| RotateProtocol.CommitNeedsResponse | plugins/module_utils/gnoi/services/cert.py:153-156 | in every interleaving the device keeps the new certificate only if the handler had received a response |
| RotateProtocol.KeptExactlyWhen | plugins/module_utils/gnoi/services/cert.py:136-169 | in every interleaving the device keeps the new certificate if and only if it has received both messages and the RPC ended in order for it |
| RotateProtocol.ExitSealsQueue | plugins/module_utils/gnoi/services/cert.py:154-163 | on every exit a sentinel stands behind all messages, the generator can move until it returns, and at most one sentinel is left |
| RotateProtocol.GeneratorReturns | plugins/module_utils/gnoi/services/cert.py:138-143 | after the handler's exit the generator returns within the length of the queue |
| RotateProtocol.StreamDecides | plugins/module_utils/gnoi/services/cert.py:157-169 | the end of the response stream decides the result of every continuation: success exactly for an end without an error, and for every status code the failure with that code |
| RotateProtocol.InterleavedIsTheLoop | plugins/module_utils/gnoi/services/cert.py:146-163 | in every interleaving the handler has enqueued what its plain loop enqueues on the stream it met |
| RotateProtocol.SuccessMeans | plugins/module_utils/gnoi/services/cert.py:153-169 | Finalize was enqueued if and only if a response had arrived; otherwise it is never sent and nothing is committed |
| RotateProtocol.OrderlySuccessIsCommit | plugins/module_utils/gnoi/services/cert.py:136-169 | against an orderly device every interleaving that reports success has committed the new certificate |
| RotateProtocol.OrderlyRotation | plugins/module_utils/gnoi/services/cert.py:136-169 | an orderly run that succeeds and commits |
| RotateProtocol.RotatedWithoutCommit | plugins/module_utils/gnoi/services/cert.py:159-169 | a run that reports success while the device rolls back |
| RotateProtocol.RotatedWithoutFinalize | plugins/module_utils/gnoi/services/cert.py:153-169 | a run that reports success after a response while the device rolls back |
| RotateProtocol.FailedAfterCommit | plugins/module_utils/gnoi/services/cert.py:161-163 | a run that reports failure while an orderly device keeps the new certificate |
| GnoiRegistry.Registry.Register | plugins/module_utils/gnoi/registry.py:56-70 | the pair maps to the new specification, every other pair keeps its own |
| GnoiRegistry.ImportServices | plugins/module_utils/gnoi/handler.py:14-20 | importing the services registers exactly the nine operations with their flags |
| GnoiRegistry.GatingIsRegistration | plugins/module_utils/gnoi/registry.py:101-124 | `iosxe` supports exactly the registered operations, every other platform gates nothing |
| GnoiDispatch.Session.Execute | plugins/module_utils/gnoi/handler.py:72-112 | the chain of early exits computes the dispatch function and advances device, log and outcomes by one task |
| GnoiDispatch.Session.ExecuteAll | plugins/module_utils/gnoi/handler.py:58-112 | a sequence of tasks computes the run function |
| GnoiDispatch.HandlerRunsExactlyWhen | plugins/module_utils/gnoi/handler.py:72-112 | a task is rejected exactly when unknown or destructive and unconfirmed, an RPC is skipped exactly for an admitted mutation in check mode, and both leave the world untouched |
| GnoiDispatch.WholeRunGating | plugins/module_utils/gnoi/handler.py:72-112 | over any sequence of tasks every RPC comes from a task naming its operation, check-mode tasks cause only queries, and Activate and Start need `confirm` |
| GnoiDispatch.CheckModeChangesNothing | plugins/module_utils/gnoi/handler.py:96-103 | a check-mode task anywhere in a run leaves the device state as it was |
| GnoiOutcomes.ResolvedExactly | plugins/module_utils/gnoi/services/os.py:325-341 | a version given outright is the task's version; without one it is that of the image header, if there is an image and a version in it |
| GnoiOutcomes.RejectedBecause | plugins/module_utils/gnoi/handler.py:72-94 | a task is rejected exactly as unknown service, unknown operation of a known service, or unconfirmed activation or reset, and never for its platform; a rejected task leaves the world alone |
| GnoiOutcomes.SkippedInCheckMode | plugins/module_utils/gnoi/handler.py:96-103 | an admitted mutation in check mode reports `changed: true` with the RPC skipped |
| GnoiOutcomes.OneRpc | plugins/module_utils/gnoi/handler.py:105-112 | with its arguments an executed task other than an activation adds exactly its operation's RPC to the log; it fails if and only if the reply is an error, and otherwise reports a change if and only if the operation mutates and had something to do |
| GnoiOutcomes.MissingArguments | plugins/module_utils/gnoi/services/cert.py:57-70 | without its arguments an executed task fails and the world stays as it was |
| GnoiOutcomes.ActivationRpcs | plugins/module_utils/gnoi/services/os.py:346-405 | an activation adds Verify and, unless the answer is the very version, Activate with its flag; only the reply to Activate can fail it |
| GnoiOutcomes.RunAt | plugins/module_utils/gnoi/handler.py:58-112 | task `n` of a run meets the world its predecessors left, its outcome stands at position `n`, and later entries belong to later tasks |
| GnoiOutcomes.LogDecidesOutcome | plugins/module_utils/gnoi/handler.py:72-112 | over any run an executed task with its arguments has exactly one log entry, its operation's RPC, and the reply in that entry decides outcome and `changed` |
| Activation.AlreadyActiveStep | plugins/module_utils/gnoi/services/os.py:346-366 | with the version running a task only verifies and reports no change |
| Activation.FirstActivation | plugins/module_utils/gnoi/services/os.py:372-405 | with another version running a rebooting task issues one Activate, reports a change exactly if it was accepted, and then the version runs |
| Activation.ActivateStep | plugins/module_utils/gnoi/services/os.py:372-405 | with another version running a task issues one Activate, whose reply alone decides acceptance, outcome and device state |
| Activation.OneActivationIsEnough | plugins/module_utils/gnoi/services/os.py:325-405 | any number of repeated rebooting activations of one version issues exactly one Activate, or none if it already runs, and only the first can report a change |
| Activation.AtMostOneAccepted | plugins/module_utils/gnoi/services/os.py:325-405 | whatever the device answers it accepts at most one of them, and every task after a successful one reports no change |
| Activation.NoRebootCount | plugins/module_utils/gnoi/services/os.py:343-376 | on every device that waits for its reboot `no_reboot` tasks issue one Activate each unless the version runs; at most one if and only if it runs or there is at most one task |
| Activation.MixedCount | plugins/module_utils/gnoi/services/os.py:325-405 | for any mixture of rebooting and `no_reboot` tasks exactly those up to the first accepted rebooting one issue an Activate, and the version runs in the end if and only if there is one |
| Activation.NoRebootRepeats | plugins/module_utils/gnoi/services/os.py:343-376 | a device on which every `no_reboot` repetition activates again and reports a change |

## Left out

- TLS, certificate files, channel options and call metadata: I/O and foreign calls.
- Encoding and decoding of typed values: values are carried abstractly.
- `str.isalnum` beyond ASCII: left open by the type `Alnum`.
- Backups, diffs, messages, warnings, timestamps and durations: not part of any proved property.
- The module object's `result` dictionary: `ExecuteSet` returns its outcome as a value.
- Capabilities, Subscribe and the mode and encoding tables: lookups and forwarding.
- The numeric error types of InstallError and ActivateError: represented by their names.
- The interior of `os/install` and `cert/rotate` inside `GnoiDispatch`: there one RPC with one reply, since their streams are the subject of the protocol modules.
- Exceptions other than gRPC errors and file errors inside `os/install`: the run is considered only up to them.
- A `chunk_size` below -1: `read` raises a ValueError there, and a run is considered only up to such an exception.
- A file that changes while it is read: `package_size` and the bytes read are those of one image.
