# MeshAnchor: verified models of its algorithmic cores

MeshAnchor runs an agent that talks to a management plane, saves Reticulum configurations, keeps services alive,
converges boxes to fleet roles and ships a set of small operational tools. This project models the parts of it
that are algorithms and proves what they are there for. Every theorem is about all inputs, all runs or all
interleavings; nothing is bounded.

| files | component |
|---|---|
| `Json.dfy`, `JsonLaws.dfy`, `JsonGrammar.dfy` | the JSON text layer of the agent protocol, its round trips, and its agreement with the grammar of RFC 8259 |
| `Messages.dfy`, `MessageFormat.dfy` | the message codec, its round trips, its byte format, and what it accepts |
| `Framing.dfy` | length-prefixed framing over a stream that arrives in arbitrary pieces |
| `Sending.dfy`, `Receiving.dfy`, `Agent.dfy` | what goes on the wire, what a receiver makes of its connections, and the protocol object with its methods and loops; two agents end to end |
| `Requests.dfy` | request/response matching between callers and the receiver thread, as interleaved atomic steps |
| `Reconnect.dfy` | the reconnect backoff |
| `ConfigSave.dfy` | safe configuration saves on a disk where every primitive may fail |
| `Watchdog.dfy`, `Registry.dfy` | the restart watchdog and the service registry |
| `Roles.dfy`, `Convergence.dfy`, `ConvergenceLaws.dfy`, `RoleConformance.dfy` | role inheritance, planning, applying and dry runs, and all of it from the catalog to the box |
| `Closure.dfy`, `ProcessTree.dfy` | the requirement closure and the bounded process walk |
| `CrontabWire.dfy`, `CrontabTable.dfy`, `CrontabCheck.dfy` | the crontab rewriter, line by line and for a whole table, and its check after the installation |
| `Badge.dfy`, `Maidenhead.dfy`, `BoundarySoak.dfy`, `SlotCalc.dfy` | badge escaping, the locator codec, log aggregation, the frequency slot |
| `Strings.dfy`, `Lines.dfy` | the string primitives the text tools share: white space, search, `splitlines` |
| `Wrappers.dfy`, `Powers.dfy`, `Sequences.dfy` | optional values; the powers of two of both backoffs; facts about sequences |

`dafny verify dfyconfig.toml` checks everything.

How the models are built:

- What the code changes in place is a class whose methods follow the code and are proved equal to a function of the
  old state; the theorems are about those functions. Concurrency is a step function over labels, and a theorem
  about every sequence of enabled labels is a theorem about every interleaving.
- The outside world is a parameter that the theorems quantify over: the network is a script of chunks, timeouts,
  end and failure; the disk and systemd carry the outcome of every coming operation, and a failed one may leave
  junk in the file or unit it worked on; clocks are times in the input.
- Python strings in JSON are sequences of code points, lone surrogates included. Floats are exact reals.

What the code does that its documentation does not say:

- `from_bytes` never reads the signature, so no received message verifies and no handshake can be accepted
  (`Messages.ReceivedNeverVerifies`); the connection model therefore takes the handshake's verdict as an input.
- A signature stays in the message object, so sending it again sends it unsigned (`Sending.SentAgain`).
- An orderly close of the connection is never noticed: a connection that brings what was sent is given up for a
  socket error and for nothing else (`Agent.RedialsIff`).
- A timeout inside a frame loses the bytes read so far. Delivery is exact if and only if there is none
  (`Framing.DeliveryIff`); a connection that ends inside a frame loses that frame only (`Framing.Delivery`).
- The receiver thread dies when a waiter leaves between its answer being stored and its event being looked up
  (`Requests.CrashIff`, `Requests.CrashHappens`), and the answer then stays in the dictionary for ever
  (`Requests.OrphansStay`).
- "If anything fails, original config is preserved" does not hold: copying the backup back can destroy a
  configuration that was still intact (`ConfigSave.RestoreCanDestroy`), and a `chmod` that fails on a first save
  leaves the new content. `ConfigSave.PreservedIff` and `ConfigSave.FirstSaveUndoneIff` say under which faults
  exactly.
- A service registered under a taken name is started once for every registration of the name
  (`Registry.StartsWhatWasRegisteredIff`).
- The list of rivals of rnsd is empty in this code and a parameter here. With the empty list every apply in which
  everything succeeds converges (`ConvergenceLaws.ConvergesWithoutRivals`); with a rival that the role wants enabled
  none ever does, however often it is repeated (`ConvergenceLaws.ConflictStays`).
- At exactly 90 degrees north or 180 degrees east the locator's field letter is S (`Maidenhead.SymbolsIff`).

## Model

| member | source | states |
|---|---|---|
| JsonLaws.StringRoundTrip | src/agent/protocol.py:180-185 | writing any string and scanning it back gives the string with each split surrogate pair joined, and stops right after its closing quote |
| JsonLaws.JoinIdentity | src/agent/protocol.py:180-185 | a string survives unchanged if and only if no high surrogate in it is directly followed by a low one |
| JsonLaws.NumberStop | src/agent/protocol.py:180-185 | a number literal is read to its end and no further, whatever delimiter follows |
| JsonLaws.ValueRoundTrip | src/agent/protocol.py:180-185 | any written value, followed by a delimiter or nothing, parses to its canonical form and leaves exactly the rest |
| JsonLaws.MembersRoundTrip | src/agent/protocol.py:180-185 | the members of an object parse back in order, keys and values in canonical form |
| JsonLaws.LoadsDumps | src/agent/protocol.py:180-185 | loading what was dumped gives the canonical form, for every value |
| JsonLaws.PutAllAppends | src/agent/protocol.py:185-191 | inserting pairs into a dict keeps them all exactly when their keys are distinct and new; otherwise some are lost |
| JsonLaws.CanonIdentity | src/agent/protocol.py:180-185 | the canonical form is the value itself if and only if its strings split no surrogate pair and its dicts have distinct keys |
| JsonLaws.RoundTripIff | src/agent/protocol.py:180-185 | dump and load is the identity on exactly the clean values |
| JsonLaws.EncodeAscii | src/agent/protocol.py:180 | everything dumped is printable ASCII, so encoding it to bytes cannot fail or change it |
| JsonGrammar.NumberIff | src/agent/protocol.py:185 | the number literals read are exactly those of section 6 of RFC 8259 |
| JsonGrammar.ScanSpelled | src/agent/protocol.py:185 | any spelling of a string, with short escapes, `\u` escapes in either case and raw characters, is read as what it means |
| JsonGrammar.WriterSpells | src/agent/protocol.py:180 | how each character is written: short escapes, printable ASCII as it is, `\u` for the rest |
| JsonGrammar.LoadsIff | src/agent/protocol.py:185 | a text loads to a value if and only if the grammar of RFC 8259 (sections 2 to 7), with white space between any tokens, spells that value so |
| Messages.ReadFields | src/agent/protocol.py:171-192 | reading the dict that was dumped, with or without a signature entry, gives the message back |
| Messages.RoundTrip | src/agent/protocol.py:169-192 | serialise then parse gives the same type, id, timestamp, payload and true reply id, in canonical form |
| Messages.SpliceIsField | src/agent/protocol.py:464-469 | cutting the last brace and appending the signature writes exactly what dumping the dict with a last entry `sig` would |
| Messages.SplicedRoundTrip | src/agent/protocol.py:464-469 | a spliced signature does not change the message the receiver reads |
| Messages.UnchangedIff | src/agent/protocol.py:169-192 | exactly which messages arrive unchanged: unsigned, with clean fields, and a reply id that is absent or true |
| Messages.ReceivedNeverVerifies | src/agent/protocol.py:182-205 | no byte string decodes to a message that verifies |
| MessageFormat.Utf8Iff | src/agent/protocol.py:185 | bytes decode to a text if and only if they are its UTF-8 and it holds no surrogate |
| MessageFormat.DecodesIff | src/agent/protocol.py:182-192 | bytes are read as a message if and only if they are the UTF-8 of a JSON object with its type, id and time; they are refused as no JSON exactly when they are the UTF-8 of no JSON text; anything else raises |
| MessageFormat.WireFormat | src/agent/protocol.py:169-180 | what is written byte for byte: the entries in order, nothing between the tokens, the reply id only when it counts |
| MessageFormat.FalseIff | src/agent/protocol.py:177 | a reply id counts unless it is null, false, zero or empty |
| Framing.ExactConserves | src/agent/protocol.py:533-541 | an exact read returns exactly the bytes it took off the stream, in order, and a failed one gives nothing back |
| Framing.Conservation | src/agent/protocol.py:490-524 | however the stream behaves, the received bodies are valid and with their headers hold no more bytes than arrived |
| Framing.ExactClear | src/agent/protocol.py:533-541 | with enough uninterrupted bytes the exact number is read, wherever the pieces end |
| Framing.ExactCut | src/agent/protocol.py:533-541 | with too few, all of them are dropped and the interruption decides the result |
| Framing.FrameClear | src/agent/protocol.py:506-524 | a frame whose bytes arrive uninterrupted is received whole and exactly its bytes are consumed |
| Framing.FrameCut | src/agent/protocol.py:506-527 | a frame interrupted in header or body is lost up to and including the interruption |
| Framing.BadHeader | src/agent/protocol.py:506-522 | an oversized header, or an empty one, costs its four bytes |
| Framing.NetworkOrder | src/agent/protocol.py:478-510 | the header is the length in network byte order, written and read |
| Framing.Delivery | src/agent/protocol.py:471-541 | wherever the stream ends, in or between frames, repeated receives yield exactly the bodies whose frames arrived whole, in order, when no timeout falls inside a frame |
| Framing.DeliveryIff | src/agent/protocol.py:471-541 | for a stream that ends between two frames: exactly the bodies sent, in order, if and only if no timeout falls inside a frame, for every way the stream may be split |
| Agent.Socket.Receive | src/agent/protocol.py:537 | one `recv` takes a non-empty prefix of at most n bytes off what comes next, or nothing when an interruption comes first |
| Agent.AgentProtocol.ReceiveExact | src/agent/protocol.py:533-541 | the accumulating loop equals the recursive reading of the script |
| Agent.AgentProtocol.SendMessage | src/agent/protocol.py:447-488 | what goes on the wire, when it is refused, how counters move, what a failing socket leaves, and that signing stays in the message object |
| Agent.AgentProtocol.ReceiveMessage | src/agent/protocol.py:490-531 | the stream, counters, connection flag and result after one receive, for every outcome including parse errors |
| Sending.SentAgain | src/agent/protocol.py:458-469 | a message object sent a second time goes out without a signature, since it kept the one of the first time |
| Sending.UnsignedIff | src/agent/protocol.py:458-469 | a message goes out unsigned if and only if there is no authentication or it carries a signature already |
| Sending.SignThenVerify | src/agent/protocol.py:194-205 | a signed message object verifies, against another signature exactly when it is the same, and an unsigned one never |
| Sending.TransmitIs | src/agent/protocol.py:447-488 | of a queue, the messages that are not oversized go out whole, up to the one the socket breaks in, and less than a frame of that one; the socket holds exactly when no message that is sent meets a fault |
| Agent.AgentProtocol.SenderLoop | src/agent/protocol.py:695-704 | for any queue and any faults of the socket, the bytes on the wire, the counters and the connection flag: oversized messages are skipped, and everything after a broken send is dropped |
| Agent.AgentProtocol.ReceiverLoop | src/agent/protocol.py:684-693 | over any number of connections and attempts: the messages handed on, the counters, the attempts made and the sleeps before them, for connections that are lost, go silent or kill the thread, in the handshake or later |
| Agent.EndToEnd | src/agent/protocol.py:447-541 | any queue, each message with its own signature or without, crosses any network that splits its bytes and times out between frames: exactly the messages sent whole are delivered in order, as the codec reads them, and counted as often as the sender counts; if the socket holds, those are all that are not oversized |
| Receiving.EndIs | src/agent/protocol.py:490-541 | a connection that carries messages is given up for a socket error and for nothing else |
| Receiving.BadHeaderCosts | src/agent/protocol.py:511-522 | after a bad header the later bodies and the end of the connection are as without it |
| Agent.RedialsIff | src/agent/protocol.py:533-541 | after a connection that brings what was sent, the receiver loop dials again if and only if it ends with a socket error; an orderly close is not noticed |
| Agent.Exchange | src/agent/protocol.py:447-541 | for the loops of two protocol objects the receiver's counters grow by exactly what the sender's grew by, whatever is refused or breaks |
| Requests.StepBalanced | src/agent/protocol.py:572-616 | every atomic step keeps, for each message, received = handled + returned + overwritten + stored + in hand |
| Requests.RunKeepsInv | src/agent/protocol.py:572-616 | every interleaving with distinct ids keeps the invariant of dictionaries, events, callers and receiver |
| Requests.Matching | src/agent/protocol.py:572-616 | stored answers answer their key; a wait that woke returns an answer to its own request and no other call returns anything; no message goes both ways |
| Requests.Answered | src/agent/protocol.py:572-616 | from every reachable state in which a call waits and the receiver is between messages, an answer that arrives can be stored, signalled and returned, and the call ends with it |
| Requests.AnswerWakes | src/agent/protocol.py:579-580 | when the receiver is between messages, a waiting call whose answer is stored can wake and cannot time out, and waking takes that answer |
| Requests.TakenIff | src/agent/protocol.py:602-616 | a message is taken for a call if and only if it answers one that is not over, and for that one; any other goes to the handlers |
| Requests.CrashIff | src/agent/protocol.py:605-607 | the receiver crashes on looking the event up if and only if the call it answers has left |
| Requests.CrashHappens | src/agent/protocol.py:605-607 | a run in which it does, leaving the answer behind |
| Requests.OrphansStay | src/agent/protocol.py:579-585 | an answer stored for a call that is over is never removed in any continuation |
| Requests.StepKeepsStructure | src/agent/protocol.py:572-616 | the structural part of the invariant, step by step for every label |
| Agent.AgentProtocol.Connect | src/agent/protocol.py:320-362 | result, socket, flags and counter for a transport failure, a handshake that is refused, broken by the socket or left by an exception, an accepted one, and an existing connection |
| Agent.AgentProtocol.Disconnect | src/agent/protocol.py:364-389 | flags after a disconnect; a lost connection keeps its authenticated flag |
| Agent.AgentProtocol.Reconnect | src/agent/protocol.py:391-408 | sleeps the delay of the old counter and moves the counter by the attempt's outcome |
| Reconnect.CounterCounts | src/agent/protocol.py:343-362 | the counter is the number of transport failures since the last transport success |
| Reconnect.BackoffShape | src/agent/protocol.py:399-406 | sleeps are between 1 and 300, do not shrink while the transport fails, and are 1 after it worked |
| Reconnect.SleepAt | src/agent/protocol.py:399-406 | every sleep of every run is the delay for the failures just before it |
| Reconnect.TotalBackoff | src/agent/protocol.py:399-406 | n straight failures sleep 2^n - 1 seconds for n up to 9 and 511 + 300(n - 9) beyond |
| ConfigSave.NamesDistinct | rns_config_utils.py:227-234 | different counters give different backup names |
| ConfigSave.BackupsListed | rns_config_utils.py:225-258 | every backup made or returned has a name that the listing finds |
| ConfigSave.TakenNames | rns_config_utils.py:230-234 | k taken names need k files, so the search for a fresh name ends on any disk |
| ConfigSave.FileSystem.BackupConfig | rns_config_utils.py:206-239 | the counting loop finds the first free name and copies there, or raises |
| ConfigSave.FileSystem.SafeSave | rns_config_utils.py:296-368 | the step-by-step save equals the save as a function of the disk |
| ConfigSave.BackupEffect | rns_config_utils.py:221-239 | only one fresh file is touched, and it holds the configuration whenever a path is returned |
| ConfigSave.CleanUpEffect | rns_config_utils.py:352-366 | what the clean-up leaves in the configuration, its temporary file and everything else |
| ConfigSave.CleanUpLeaves | rns_config_utils.py:352-366 | the content of the configuration after the clean-up, for every fault of the unlink and the copy |
| ConfigSave.RestoreEffect | rns_config_utils.py:279-289 | a restore works exactly when the backup is there and the copy works, and then brings its content back; no other file changes |
| ConfigSave.WrittenEffect | rns_config_utils.py:338-366 | what write, rename, chmod and clean-up leave for every failing step |
| ConfigSave.SaveSafe | rns_config_utils.py:322-368 | the save succeeds exactly when the content is valid and no primitive fails; success holds the valid content with the old one in the returned backup; any return keeps the old content in the configuration or the backup; the configuration is lost exactly under the faults listed, which one failing primitive never is; no temporary file stays unless an exception escapes; nothing else changes |
| ConfigSave.PreservedIff | rns_config_utils.py:328-366 | over the faults of the coming primitives, for any file name: a save that does not succeed loses an existing configuration if and only if write, rename or chmod fails and the faults after it make the clean-up do the damage |
| ConfigSave.SavedIff | rns_config_utils.py:322-350 | a save succeeds if and only if the content is valid and its first five primitives work, or three without a configuration |
| ConfigSave.TempApartIff | rns_config_utils.py:339 | the temporary file is the configuration itself exactly when the name ends in `.tmp` after something |
| ConfigSave.TempPathIs | rns_config_utils.py:339 | the temporary file has the suffix replaced by `.tmp`, or appended when there is none |
| ConfigSave.FirstSaveUndoneIff | rns_config_utils.py:338-366 | over the faults of the coming primitives, for any file name: a first save that fails leaves a configuration if and only if write and rename work and the chmod does not, or, for a name ending in `.tmp`, the unlink does not |
| ConfigSave.RestoreCanDestroy | rns_config_utils.py:360-366 | a failing restore can overwrite an intact configuration |
| ConfigSave.BackupsNeverAltered | rns_config_utils.py:227-236 | no run of saves and restores ever alters or removes an existing backup |
| ConfigSave.ReplacedIsRecoverable | rns_config_utils.py:329-350 | whatever a successful save of a run replaced is at the end of the run still in the backup that save returned |
| ConfigSave.RestoreUndoes | rns_config_utils.py:261-289 | at the end of any run, restoring the backup of a successful save brings back what it replaced, exactly when the copy works |
| Watchdog.ThreadWatchdog.CheckService | src/daemon.py:600-642 | one turn of the loop is one step of that service's own machine and touches no other service |
| Watchdog.ThreadWatchdog.CheckServices | src/daemon.py:597-642 | a pass over all services is the product of the one-service steps, on the snapshot taken first |
| Watchdog.ThreadWatchdog.Loop | src/daemon.py:591-642 | over any run of ticks each service's counter, backoff and effects (attempts with their outcome, give-up reports, waiting) are a function of its own history alone |
| Watchdog.RestartBound | src/daemon.py:607-642 | in a failing stretch attempts and give-up reports are exactly what moves the counter: at most max attempts, at most one report, and the report after all of them |
| Watchdog.WatchedBound | src/daemon.py:591-642 | the same bound for what the watchdog's loop does to a service over a run: its attempts and its one give-up report |
| Watchdog.AttemptGaps | src/daemon.py:619-642 | attempt i finds the counter i higher and the next is at least its backoff later |
| Watchdog.AttemptSpan | src/daemon.py:635-638 | from a zero counter, attempt i is at least 10(2^i - 1) seconds, or 310 + 300(i - 5) beyond five, after the first |
| Watchdog.FarApart | src/daemon.py:607-642 | checks at least 300 seconds apart all attempt until the attempts are used up, then exactly one reports giving up |
| Watchdog.StaleBackoff | src/daemon.py:601-622 | a service that came back for any number of checks and died again is restarted at once exactly when the old backoff is over |
| Watchdog.CounterCounts | src/daemon.py:601-642 | in every run the counter is the number of failed attempts and give-ups since the service was last seen alive or restarted, and it stops one above the limit |
| Watchdog.BackoffIs | src/daemon.py:619-638 | in every run the backoff ends the backoff time after the latest failed attempt; nothing else sets or clears it |
| Watchdog.WhatHappens | src/daemon.py:600-642 | after any history, when a check restarts, reports giving up or waits, in terms of what was done before |
| Watchdog.BackoffValues | src/daemon.py:635-637 | the backoffs are 10, 20, 40, 80 and 160 seconds, then 300 |
| Watchdog.SightIff | src/daemon.py:600-601 | only an `alive` entry that is true makes a service alive |
| Registry.ServiceRegistry.Register | src/daemon.py:484-488 | adds the service under its name and the name to the start order |
| Registry.ServiceRegistry.StartAll | src/daemon.py:490-508 | starts what the names stand for, in registration order, whatever fails, and reports each result |
| Registry.ServiceRegistry.StopAll | src/daemon.py:510-519 | stops exactly the reverse of the start order |
| Registry.ServiceRegistry.GetAllStatus | src/daemon.py:521-529 | one entry per service; a status that raises counts as not alive |
| Registry.ServiceRegistry.RestartService | src/daemon.py:531-541 | the service is stopped, then started unless that raises, and the result is true exactly when the start returned true |
| Registry.StartsWhatWasRegisteredIff | src/daemon.py:484-498 | starting starts exactly the services registered if and only if no name is taken over by another service |
| Registry.StartAfter | src/daemon.py:484-508 | after any registrations there is one start for each, of the service registered last under its name |
| Roles.ChainDistinct | scripts/provision_role.py:127-129 | no role comes twice on an inherits chain |
| Roles.ResolvesIff | scripts/provision_role.py:105-137 | a role resolves if and only if its inherits chain ends inside the catalog |
| Roles.EndlessIff | scripts/provision_role.py:124-131 | resolution never ends if and only if `inherits` can be followed for ever |
| Roles.NearestWins | scripts/provision_role.py:105-137 | every service and timer gets the declaration of the nearest role on the chain, nothing else is declared, and other keys are the role's own |
| Roles.NothingInherited | scripts/provision_role.py:129-137 | a role without `inherits`, or with an empty one, is what it says itself |
| Convergence.Provisioner.Plan | scripts/provision_role.py:206-285 | the loops build exactly the planned actions, in order |
| Convergence.Provisioner.UserTimerActions | scripts/provision_role.py:154-203 | one comparison per timer, in order |
| Convergence.Provisioner.Run | scripts/provision_role.py:568-593 | exit code and final state of an apply and of a dry run |
| ConvergenceLaws.TimerPlanSafe | scripts/provision_role.py:154-203 | a user timer never yields a change |
| ConvergenceLaws.AppliedEffect | scripts/provision_role.py:315-338 | an action performs exactly its operations, the disable also when the stop failed; it reports success exactly when all succeed, and then its unit is as wanted; no other unit changes |
| ConvergenceLaws.ChangesTouchable | scripts/provision_role.py:221-279 | every planned change is to a present unit declared enabled or disabled without exception, or to a present rival |
| ConvergenceLaws.Untouched | scripts/provision_role.py:221-285 | waived, absent, unknown-state, undeclared (user timers too) and not installed units keep their state under any apply, whatever fails |
| ConvergenceLaws.DryRunZeroIff | scripts/provision_role.py:573-593 | a dry run exits 0 if and only if an apply from the same state performs no operation and exits 0 |
| ConvergenceLaws.DryRunZeroMeansConforms | scripts/provision_role.py:221-285 | a dry run exits 0 if and only if every unit, timer and rival is as the role declares it or excused with a reason, and the foundation has no drift |
| ConvergenceLaws.AllSucceed | scripts/provision_role.py:577-581 | when every change succeeds, each unit ends where the changes to it lead |
| ConvergenceLaws.OperationsIff | scripts/provision_role.py:206-338 | whatever fails, exactly which operations an apply performs, unit by unit |
| ConvergenceLaws.ReachesDeclaration | scripts/provision_role.py:206-338 | after an apply in which everything succeeds, present units declared enabled run and are enabled, those declared disabled neither, and unwanted rivals are masked |
| ConvergenceLaws.ApplyZeroIff | scripts/provision_role.py:573-588 | an apply exits 0 if and only if every operation succeeds, no exception lacks its reason, no unit declared enabled is missing, and no timer diverges |
| ConvergenceLaws.AppliedOkIff | scripts/provision_role.py:575-578 | no change counts as failed exactly when all its operations succeed |
| ConvergenceLaws.AdviceIff | scripts/provision_role.py:154-303 | exactly what is only reported |
| ConvergenceLaws.SettledIff | scripts/provision_role.py:242-279 | unit by unit, planning again changes it exactly in a rival conflict |
| ConvergenceLaws.ConvergesIff | scripts/provision_role.py:206-338 | after an apply in which everything succeeds, planning again asks for a unit change if and only if the role wants a present rival of rnsd enabled |
| ConvergenceLaws.ConvergesWithoutRivals | scripts/provision_role.py:71 | without rivals, as in the code, planning after an apply in which everything succeeds asks for no unit change |
| ConvergenceLaws.ConflictStays | scripts/provision_role.py:206-338 | a conflict with a rival stays through any number of applies in which everything succeeds, and every plan asks for another unit change |
| ConvergenceLaws.ConvergedIsClean | scripts/provision_role.py:568-593 | after an apply that exits 0, without such a rival, a dry run exits 0 once the foundation is clean |
| RoleConformance.DryRunZeroIffChain | scripts/provision_role.py:105-285 | for a role whose inherits chain ends, a dry run exits 0 if and only if every unit and timer is as the nearest role on the chain declares it or excused, no rival of rnsd is unmasked, and the foundation has no drift |
| RoleConformance.SettlesIffChain | scripts/provision_role.py:105-338 | after an apply in which everything succeeds, planning again asks for a unit change if and only if the nearest declarations want a present rival of rnsd enabled beside it |
| Closure.Clos | scripts/hs_substrate_skew.py:132-143 | the worklist returns exactly the names reachable from its seeds, and ends on cyclic graphs |
| Closure.NeedsIff | scripts/hs_substrate_skew.py:140-142 | what a distribution requires: what it lists, but for extras |
| Closure.ClosedHoldsPath | scripts/hs_substrate_skew.py:132-143 | a set with the seeds that is closed under requirements holds everything reachable |
| ProcessTree.LevelIs | scripts/hs_substrate_skew.py:241-243 | level k holds, once each, the processes whose k-th ancestor is the root |
| ProcessTree.OnceIff | scripts/hs_substrate_skew.py:228-245 | the walk lists each process once if and only if the root is not its own ancestor within as many steps |
| ProcessTree.Descendants | scripts/hs_substrate_skew.py:228-245 | the loops return the root and exactly the processes within `depth` child steps |
| CrontabWire.CallStops | scripts/cron_capture_wire.py:49 | a verdict call that starts before a barrier lies before it |
| CrontabWire.CallStays | scripts/cron_capture_wire.py:94-112 | replacing text before the first call by text without call keeps that call the first, byte for byte |
| CrontabWire.CaptureQuiet | scripts/cron_capture_wire.py:89-101 | the inserted redirection contains and completes no verdict call |
| CrontabWire.WireBecomesWired | scripts/cron_capture_wire.py:77-112 | a line that plans to `wire` becomes a line that plans to `wired`, and its verdict command is kept byte for byte |
| CrontabWire.WireIff | scripts/cron_capture_wire.py:77-112 | a line is rewritten if and only if it is no comment, calls for a name, lacks its target, and its job discards its output or has no redirection and ends in a separator |
| CrontabWire.WiredIff | scripts/cron_capture_wire.py:82-88 | a line plans as wired if and only if it calls for a name whose target it contains |
| CrontabWire.WireWrites | scripts/cron_capture_wire.py:89-112 | what is written: the first discard replaced by the capture, or the capture put before the separator that ends the job |
| CrontabWire.CallHereIff | scripts/cron_capture_wire.py:49 | what the pattern of a verdict call matches, and the name it takes |
| CrontabWire.DiscardHereIff | scripts/cron_capture_wire.py:47 | what the pattern of a discard matches |
| CrontabWire.SeparatorHereIff | scripts/cron_capture_wire.py:108 | what the pattern of a separator at the end matches |
| CrontabWire.RedirectsIff | scripts/cron_capture_wire.py:103 | what counts as a redirection |
| CrontabWire.CommentIff | scripts/cron_capture_wire.py:79-81 | what counts as a comment or blank |
| CrontabWire.CommandStartIs | scripts/cron_capture_wire.py:94 | the command starts after the last blank before the call |
| CrontabTable.RewriteLoop | scripts/cron_capture_wire.py:158-173 | the loop yields the rewritten lines and counts the changed ones |
| CrontabTable.ChangedIff | scripts/cron_capture_wire.py:158-173 | a line of the table changes exactly when it plans to be rewritten |
| CrontabTable.RewriteSplits | scripts/cron_capture_wire.py:158-198 | the installed text splits into exactly the rewritten lines |
| CrontabTable.RewriteIdempotent | scripts/cron_capture_wire.py:158-201 | rewriting a rewritten table changes nothing; it has the same number of lines and none left to wire |
| CrontabCheck.EndKept | scripts/cron_capture_wire.py:77-112 | the line break at the end of a line changes nothing in its plan and is kept |
| CrontabCheck.VerdictIff | scripts/cron_capture_wire.py:192-201 | the check passes if and only if the tables have as many line feeds and no line is left to wire |
| CrontabCheck.InstalledPasses | scripts/cron_capture_wire.py:189-201 | a table read back as it was written always passes the check after the installation: same number of line feeds, nothing left to wire |
| Badge.UnescapeEscape | scripts/version_consistency_check.py:99-101 | replacing double dashes undoes doubling them |
| Badge.GroupEscape | scripts/version_consistency_check.py:117 | the lazy group of the pattern stops exactly at the colour delimiter |
| Badge.BadgeRoundTripIff | scripts/version_consistency_check.py:99-120 | in a text whose first badge this is, the version read is the version written if and only if it is non-empty without white space or closing parenthesis |
| Maidenhead.LocatorRoundTrip | src/amateur/callsign.py:446-523 | encoding the centre of any valid six-character locator gives it back up to case |
| Maidenhead.PointRoundTrip | src/amateur/callsign.py:446-523 | decoding the encoding of any point in range lands within 1/24 degree of longitude and 1/48 of latitude |
| Maidenhead.SymbolsIff | src/amateur/callsign.py:461-487 | all symbols are in their alphabets if and only if the point is below 90 and 180 degrees |
| Maidenhead.LocatorNumbers | src/amateur/callsign.py:463-487 | the three pairs of symbols are the digits of the subsquare's number, counted from the south-west |
| Maidenhead.SquareRoundTrip | src/amateur/callsign.py:500-521 | a four-character locator is decoded to the centre of its square, and that encodes back to it |
| Maidenhead.NoLocatorIff | src/amateur/callsign.py:461-462 | the empty locator is for points off the map, and only those |
| Maidenhead.DecodeCases | src/amateur/callsign.py:500-510 | fewer than four characters give the origin; a square that is no digit raises |
| Maidenhead.StripOnce | src/amateur/callsign.py:500 | white space around a locator does not count |
| Lines.LinesConcatIff | scripts/boundary_soak.py:101 | the lines of two texts put together are the lines of both if and only if the second starts a new line; otherwise there is one less |
| Lines.LinesAre | scripts/boundary_soak.py:101 | the lines put together are the text, and each is text without break and one break, which only the last may lack |
| BoundarySoak.ParseJournal | scripts/boundary_soak.py:92-114 | the dict loop computes for every label the record of its samples |
| BoundarySoak.RecordCounts | scripts/boundary_soak.py:92-114 | a record counts the slow samples and the raised samples of its label and sums their seconds |
| BoundarySoak.ParseLabels | scripts/boundary_soak.py:97-114 | a parse reports exactly the labels that have a sample |
| BoundarySoak.MaximumIs | scripts/boundary_soak.py:112 | a record's maximum bounds every sample of its label and is one of them |
| BoundarySoak.ParseConcatIff | scripts/boundary_soak.py:92-114 | whatever the lines mean, parsing two logs one after the other is merging their parses, if and only if the second starts a new line |
| BoundarySoak.ParseOrderFree | scripts/boundary_soak.py:92-114 | reordering the lines of a log changes nothing |
| BoundarySoak.Aggregate | scripts/boundary_soak_fleet.py:165-190 | the nested loops compute for every reported label the fold over the hosts, in any label order |
| BoundarySoak.HostsAreContributors | scripts/boundary_soak_fleet.py:188-189 | `hosts` lists exactly the hosts that report the label, in order, once each |
| BoundarySoak.RollupIsOneParse | scripts/boundary_soak_fleet.py:165-190 | the rollup of per-host parses has the labels, counts and maxima of one parse over all hosts' lines |
| BoundarySoak.TogetherLines | scripts/boundary_soak.py:101 | those are the lines of the logs put together, when each starts a new line |
| SlotCalc.MaskOnce | src/standalone.py:257-261 | masking once at the end equals masking at every step |
| SlotCalc.HashIs | src/standalone.py:257-261 | the hash in closed form, a polynomial in 33 |
| SlotCalc.Djb2 | src/standalone.py:257-261 | the loop computes the wrapping 32-bit hash |
| SlotCalc.SlotsDisjoint | src/standalone.py:329-334 | channels of different slots never overlap |
| SlotCalc.Calculate | src/standalone.py:325-334 | a slot exists if and only if the region is a bandwidth wide; its channel lies inside the region, centred on the frequency |

## Left out

- Sockets, TLS, HMAC, thread start and stop, and locks: the stream, a hexadecimal signature and atomic steps stand for them.
- Messages.FromBytes: keeps a number as its literal; how Python prints and parses floats is not modelled, nor is the recursion limit of its parser.
- Agent.AgentProtocol.SendMessage: the keyed hash of the token is a parameter.
- Agent.AgentProtocol.SenderLoop: a queue of message values; one message object queued twice, which would go out unsigned the second time, is covered by `Sending.SentAgain` alone.
- Agent.AgentProtocol.Connect: takes how the handshake goes as part of the attempt, and does not put the HELLO and GOODBYE frames on the stream, so the counters are those of the frames after the handshake.
- Agent.AgentProtocol.Disconnect: without the GOODBYE frame.
- Agent.AgentProtocol.ReceiverLoop: the sender and heartbeat threads, which can lose the connection and reconnect meanwhile, are not part of it.
- Requests.Matching: for distinct message ids (random tokens in the code); what handlers do with a message is not modelled.
- ConfigSave.SaveSafe: file modes, times and other processes writing at the same moment are not modelled; the validity of a configuration is a parameter.
- Backup listing and the edit of one interface section in `rns_config_utils.py`: a sort by file time and a text edit in front of the same save.
- Watchdog.ThreadWatchdog.CheckServices: what `stop` and `start` of a service do is an input of each tick.
- Convergence.Provisioner.Plan: the texts of an action (current, desired, detail) and their rendering; reading YAML, JSON and the live systemd state.
- Closure.Clos: takes requirement names already parsed and normalised, and returns the set that the code sorts.
- ProcessTree.Descendants: takes the process list as read; `/proc` itself is not modelled.
- CrontabTable.RewriteIdempotent: reading, backing up and installing the crontab are not modelled; the text it is about is the one installed.
- Badge.BadgeRoundTripIff: shields.io's other escapes are not part of the code.
- Maidenhead.PointRoundTrip: over exact reals; case mapping and digits are those of ASCII.
- BoundarySoak.ParseJournal: the regular expression with its number conversion is a parameter that reads one line.
- SlotCalc.Calculate: over exact reals; with floats a region exactly one bandwidth wide can come out as zero channels. The region and preset tables are inputs.
- Role validation across the fleet, status reports, command lines, the terminal interface and the web map: input and output around these cores.
