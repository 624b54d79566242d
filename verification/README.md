# Lattice hub orchestrator: a verified model

The orchestrator is a Go service between one or two serial masters of a sensor mesh and its HTTP clients. This project
models its mesh core in Dafny and proves what holds over whole runs of it:

- **Serial codec.** The eleven-field protobuf record of `mesh.proto` is written out from the Protocol Buffers encoding
  ("Base 128 Varints", "Signed Integers", "Length-Delimited Records") down to the byte, with the two-byte frame header
  around it and a port that splits its bytes into reads as it likes.
- **Replay filter and two masters.** A 32-slot ring per node refines a sliding window over everything recorded. However
  two masters interleave one stream, and whatever else the server does in between, each message passes the filter exactly
  once if and only if the skew between them is bounded, and then the server ends in the state of having handled the
  stream once.
- **Enrollment, hotswap and node IDs.** Two registries and the log of frames on the wire stay consistent over every run
  and over restarts.
- **Liveness and event bus.** Transitions alternate in every interleaving of reports and sweeps, and a sweep leaves a flag
  right exactly under a stated condition. In every interleaving of Publish calls each subscriber is offered every event
  once, and sees events in the order of publication exactly under a condition on the offers it had room for.
- **Commands.** A two-byte token finds its command again, and each command is announced once.
- **Locks.** Any number of goroutines making the modelled calls over writer-preferring locks always make progress.

## How it is laid out

`base.dfy` holds value types, times and the model of ranging over a Go map. `text.dfy` is hex, MAC and UUID text.
`wire.dfy`, `serial.dfy` and `messages.dfy` are the codec, the framed port and the message builders. `replay.dfy`,
`nodes.dfy`, `auth.dfy`, `commands.dfy`, `broker.dfy` hold one store each: the operations as functions on values, what is
proved about them, and a class that works in place on heap records and is proved equal to those functions. `events.dfy`
has the online/offline state machine, `ordering.dfy` the order in which subscribers see events. `server.dfy` gives each
handler as a function on one server state and defines runs; `mesh_server.dfy` is the same server as an object over the
classes. `effects.dfy` and `handlers.dfy` tell from outside, in bytes and fields, what messages and handlers do. `identity.dfy`, `runs.dfy`, `theorems.dfy`,
`exactly_once.dfy` and `restarts.dfy` prove the results about runs; `counterexamples.dfy` has runs that break what one
would expect. `locks.dfy` is the lock protocol.

Proofs use `hide` to keep definitions out of the solver's way; it adds no assumption.

## Assumptions

- Each HTTP handler and each handled message is one step. Reading a free ID and assigning it are separate lock sections in
  the source; `UnserialisedApprovalsShareAnID` shows what overlapping approvals would do. The sweep and the report path are
  also modelled at the grain of their lock sections, as are the broker and all locks.
- One clock reading serves a whole handler. Clocks, UUIDs and the order in which Go visits a map are parameters; a step
  records the choice made and is enabled only for a choice the code could make.
- A new command's UUID is not in the store. The serial line is attached and its writes succeed where frames are claimed to
  be sent. Frames of the primary and the secondary port form one log.
- Runs start from an empty server; `restarts.dfy` adds restarts before which both registries were written completely.
- Opcodes and adapter types have the values given in the comments of `mesh/constants.go`; the LED and relay opcodes are
  left open.

## Where the code and its documentation disagree

The model follows the code: the replay window is 32 although the server asks for 64 (`mesh/server.go:124`,
`nodeauth/replay.go:22`); proto versions 0 and 2 are accepted while `mesh.proto` says 1; `OP_CONFIG_SET` is 0xC1 while the
orchestrator's README says 0xA0; adapter types start at 0 for unknown while the proto comment starts at -1; a motion event
is published only when the event store is configured (`mesh/server.go:557-569`).

## What turned out false

- *Replacement chains end.* Not when a replaced node is approved again under the ID of its successor: `CycleIsReachable`
  is such a run. `ApprovalAcyclic` and `StepAcyclic` give the exact condition, and no approval of an entry that is not
  replaced can violate it.
- *After a hotswap the ID resolves to the new node.* Exactly when the new node's own entry was not replaced before
  (`ExplicitApprovalResolves`), because the replaced status is never cleared; `HiddenNodeIsReachable` is a run to a node
  that was approved and told its ID and that no lookup finds.
- *A node that has just reported is online after a sweep.* Not if the report lands between the sweep's snapshot and its
  marking, even when it is complete (`ReportDuringSweepIsLost`), nor if the sweep runs between the report's registry
  update and its flag (`SweepInsideReport`). `SweepRightIff` gives the exact condition at any moment of any run;
  `CompletedReportIff` says when a node whose report is complete stays online, and `SweepAfterReport` that a sweep that
  begins afterwards judges it correctly.
- *Subscribers see events in the order of publication.* Not always when Publish calls overlap
  (`OverlappingPublishesDisagree`). What a subscriber took and has buffered is in order exactly if every event it had room
  for was later than all it had kept (`SeenInOrderIffTakenInTurn`). What it was *offered*, dropped events included, is the
  stream in order exactly if every offer to it came in turn (`OrderedIffInTurn`, `StreamIffInTurn`).

## Model

| member | source | states |
|---|---|---|
| Wire.VarintRoundTrip | server/orchestrator/mesh/serial.go:44-104 | a varint of up to nine bytes reads back with what follows it untouched |
| Wire.VarintBytes | server/orchestrator/mesh/mesh.proto:6-18 | a varint is the shortest little-endian string of seven-bit groups for its number, continuation bit on all but the last |
| Wire.VarintSize | server/orchestrator/mesh/serial.go:44 | a value below 128^k takes at most k bytes |
| Wire.ZigZagInverse | server/orchestrator/mesh/mesh.proto:8 | the sint32 mapping is a bijection between 32-bit signed and unsigned values |
| Wire.ZigZagOrder | server/orchestrator/mesh/mesh.proto:8 | smaller magnitudes first, a negative number just before its opposite |
| Wire.RecordRoundTrip | server/orchestrator/mesh/mesh.proto:6-18 | one encoded field reads back whatever bytes follow |
| Wire.RecordsRoundTrip | server/orchestrator/mesh/mesh.proto:6-18 | a list of encoded fields reads back as that list |
| Wire.MergeOverrides | server/orchestrator/mesh/serial.go:103-106 | of two records of a field the last counts, unknown fields are skipped |
| Wire.MergeRecords | server/orchestrator/mesh/mesh.proto:6-18 | merging a message's non-default fields into the empty message restores it, so omitting defaults loses nothing |
| Wire.RoundTrip | server/orchestrator/mesh/serial.go:44-104 | Unmarshal inverts Marshal on every message |
| Wire.EncodeLayout | server/orchestrator/mesh/mesh.proto:6-18 | the encoding byte for byte: each field behind its tag, in field order, defaults left out |
| Wire.EncodeInjective | server/orchestrator/mesh/serial.go:44 | no two messages share an encoding; only the all-default one encodes to nothing |
| Wire.SizeExact | server/orchestrator/mesh/serial.go:49-51 | the exact encoded length as a sum over fields |
| Serial.FrameRoundTrip | server/orchestrator/mesh/serial.go:40-111 | a frame comes back whole, nothing more consumed, if and only if its record has 1 to 4096 bytes |
| Serial.FrameBytes | server/orchestrator/mesh/serial.go:49-61 | a frame is the record behind its length, low byte first |
| Serial.FrameAccepted | server/orchestrator/mesh/serial.go:67-111 | a read succeeds iff the two bytes, low byte first, give 1 to 4096, so many bytes follow and they decode |
| Serial.StreamRoundTrip | server/orchestrator/mesh/serial.go:40-111 | reading the concatenation of such frames to its end gives that list and can give nothing else |
| Serial.BadFramesLoseOnlyThemselves | server/orchestrator/mesh/server.go:306-340 | up to nine empty or undecodable frames in a row, anywhere in a stream, cost the reader only themselves |
| Serial.StreamAppend | server/orchestrator/mesh/serial.go:53-61 | writing more frames extends the byte stream |
| Serial.SerialPort.Read | server/orchestrator/mesh/serial.go:14-18 | a port delivers some prefix of what is left, none only at the end |
| Serial.SerialComm.ReadFull | server/orchestrator/mesh/serial.go:70-98 | exactly n bytes whatever the chunks, or failure with the input exhausted |
| Serial.SerialComm.WriteFrame | server/orchestrator/mesh/serial.go:40-64 | appends exactly the header and the record |
| Serial.SerialComm.ReadFrame | server/orchestrator/mesh/serial.go:67-111 | each success and error case with the bytes consumed; at most 100 bytes skipped after an oversized length |
| Serial.SerialPort.Flush | server/orchestrator/mesh/serial.go:118-125 | some bytes at the front of the input are gone |
| Serial.SerialComm.ReadFrames | server/orchestrator/mesh/server.go:298-359 | reading in a loop that goes on after errors, with a flush after ten in a row, yields, however the port splits its bytes, a reading of the whole input; of a stream of frames that is its messages |
| Messages.OutboundSize | server/orchestrator/mesh/serial.go:49-51 | every frame the server sends encodes to between 1 and 84 bytes and is readable |
| Messages.SentMessagesAreOutbound | server/orchestrator/mesh/message_builder.go:17-89 | all builders and hand-built frames have the bounded shape |
| Messages.NodeIdSetCarries | server/orchestrator/mesh/server.go:660-668 | an OP_NODE_ID_SET frame carries its ID to its target and to nobody else |
| Messages.ConfigSetCarries | server/orchestrator/mesh/message_builder.go:17-34 | an OP_CONFIG_SET frame carries the low byte of its type to its target and to nobody else |
| Messages.FrameLayouts | server/orchestrator/mesh/message_builder.go:42-89 | the other builders' frames byte for byte |
| Messages.OtherFramesCarryNothing | server/orchestrator/mesh/server.go:647-716 | config, health request, adapter data, TX power and JOIN_ACK frames, and broadcasts not of OP_NODE_ID_SET serial data, do not read as an ID assignment; only the two JOIN_ACK forms carry a verdict |
| Messages.BroadcastAssignsNobody | server/orchestrator/mesh/message_builder.go:55-68 | a broadcast assigns nobody an ID iff it is not serial data with OP_NODE_ID_SET in front |
| Messages.RawBroadcastAssigns | server/orchestrator/mesh/message_builder.go:55-68 | a broadcast with the right payload does assign an ID |
| Messages.BuildConfigSetMessage | server/orchestrator/mesh/message_builder.go:17-34 | the payload filled in place is opcode, MAC, type byte, zeros; wrong MAC length is refused |
| Messages.BuildConfigSetBroadcastMessage | server/orchestrator/mesh/message_builder.go:37-39 | the same for the broadcast address |
| Messages.BuildHealthRequestMessage | server/orchestrator/mesh/message_builder.go:42-52 | the payload is the opcode and zeros |
| Messages.BuildBroadcastMessage | server/orchestrator/mesh/message_builder.go:55-68 | data up to 64 bytes is padded, longer data refused |
| Messages.BuildAdapterDataMessage | server/orchestrator/mesh/message_builder.go:71-89 | both refusals in order, otherwise padded data for the target |
| Messages.BuildNodeIdSetMessage | server/orchestrator/mesh/server.go:660-668 | the payload filled in place is opcode, MAC, ID, zeros |
| Messages.BuildNodeDataMessage | server/orchestrator/mesh/server.go:832-845 | the payload is cut or padded to 64 bytes, version 2 |
| Messages.HealthReportRoundTrip | server/orchestrator/mesh/message_builder.go:92-117 | parsing inverts the firmware's report layout, signed type byte and little-endian uptime included |
| Hex.RoundTrip | server/orchestrator/nodeauth/registry.go:150-158 | hex decoding inverts encoding |
| Hex.EncodeDigits | server/orchestrator/mesh/node_registry.go:334-340 | two lower-case digits a byte, the high half first |
| MacText.ColonRoundTrip | server/orchestrator/nodeauth/registry.go:128-139 | the colon form parses back |
| MacText.ColonLayout | server/orchestrator/mesh/node_registry.go:334-340 | six pairs of digits with colons between them |
| MacText.MacToStringInjective | server/orchestrator/mesh/node_registry.go:334-340 | no two byte strings of any lengths share a registry key |
| MacText.ParsersInvert | server/orchestrator/mesh/node_registry.go:343-360 | both parsers invert both spellings of every six-byte MAC |
| MacText.ParsersAgree | server/orchestrator/nodeauth/registry.go:133-148 | the two parsers agree on every string although they try the forms in opposite orders |
| MacText.NormalizeSpellings | server/orchestrator/nodeauth/registry.go:59-62 | both spellings become the registry's key |
| Uuid.RoundTrip | server/orchestrator/mesh/command_store.go:76-80 | the UUID text form parses back to its sixteen bytes |
| Uuid.FormatLayout | server/orchestrator/mesh/api_v1_nodes.go:171-172 | the digits of the sixteen bytes in order, hyphens at 8, 13, 18 and 23 |
| Uuid.FormatInjective | server/orchestrator/mesh/api_v1_nodes.go:171-172 | distinct UUIDs have distinct command IDs |
| Replay.ScanDecides | server/orchestrator/nodeauth/replay.go:38-42 | scanning the ring decides membership in the last 32 records; blank slots never match |
| Replay.PushHolds | server/orchestrator/nodeauth/replay.go:43-44 | overwriting the oldest slot and advancing modulo 32 keeps the ring equal to the window |
| Replay.EveryHistorySpaced | server/orchestrator/nodeauth/replay.go:30-46 | after any calls, records at most 32 apart differ, (0, 0) aside |
| Replay.NodeBuf.Seen | server/orchestrator/nodeauth/replay.go:38-42 | the scan answers whether the pair is a duplicate |
| Replay.NodeBuf.Push | server/orchestrator/nodeauth/replay.go:43-44 | one record more in the history, ring and index following |
| Replay.ReplayCache.IsDuplicate | server/orchestrator/nodeauth/replay.go:30-46 | true iff the pair is among the node's last 32 records; otherwise recorded; other nodes untouched |
| Nodes.LookupDeterministic | server/orchestrator/mesh/node_registry.go:143-155 | with unique owners a lookup by ID does not depend on map order |
| Nodes.NextFreeIsMinimumExcluded | server/orchestrator/mesh/node_registry.go:89-104 | the least ID of 1 to 255 held by no entry, 0 iff all are held |
| Nodes.NextFreeExists | server/orchestrator/mesh/node_registry.go:89-104 | fewer than 255 entries always leave an ID |
| Nodes.LoadOneRestores | server/orchestrator/mesh/node_registry.go:290-308 | a written entry loads back as itself |
| Nodes.PersistRoundTrip | server/orchestrator/mesh/node_registry.go:244-312 | loading what Persist wrote, in any order, reproduces the registry |
| Nodes.NodeRegistry.UpdateNode | server/orchestrator/mesh/node_registry.go:44-65 | telemetry replaced, entry created when missing, all else as before |
| Nodes.NodeRegistry.AssignNode | server/orchestrator/mesh/node_registry.go:68-85 | identity fields set, entry created when missing, all else as before |
| Nodes.NodeRegistry.MarkReplaced | server/orchestrator/mesh/node_registry.go:210-221 | status, successor and ID 0 on an existing entry, nothing otherwise |
| Nodes.NodeRegistry.RemoveNode | server/orchestrator/mesh/node_registry.go:195-205 | the entry is gone, and the result says whether it was there |
| Nodes.NodeRegistry.NextFreeNodeID | server/orchestrator/mesh/node_registry.go:89-104 | both loops compute the minimum excluded ID |
| Nodes.NodeRegistry.GetNode | server/orchestrator/mesh/node_registry.go:107-123 | a copy of the entry, if any |
| Nodes.NodeRegistry.GetNodeByID | server/orchestrator/mesh/node_registry.go:143-155 | some active owner of the ID, or none exists |
| Nodes.NodeRegistry.GetAllNodes | server/orchestrator/mesh/node_registry.go:126-140 | every entry once, in some order |
| Nodes.NodeRegistry.GetNodesByZone | server/orchestrator/mesh/node_registry.go:158-171 | every active entry of the zone once and no other |
| Nodes.NodeRegistry.Persist | server/orchestrator/mesh/node_registry.go:244-261 | every entry's record once, in some order |
| Nodes.NodeRegistry.Load | server/orchestrator/mesh/node_registry.go:290-308 | records are inserted one after the other, unparsable MACs skipped |
| Auth.KnownParses | server/orchestrator/nodeauth/registry.go:56-66 | a spelling the registry knows parses to the address of its entry |
| Auth.SpellingsAgree | server/orchestrator/nodeauth/registry.go:56-85 | Approve and Reject act on the same entry for either spelling |
| Auth.TrustHistory | server/orchestrator/nodeauth/registry.go:39-126 | a key is approved iff the node's last successful call granted it and it is the last one requested |
| Auth.KeyChangesOnlyThroughReject | server/orchestrator/nodeauth/registry.go:39-85 | an approved key survives any calls without a successful rejection of its node |
| Auth.LoadOneRestores | server/orchestrator/nodeauth/persistence.go:61-81 | a written entry loads back, times cut to seconds |
| Auth.TruncatedMeans | server/orchestrator/nodeauth/persistence.go:21-81 | timestamps become the last whole second not after them, nothing else changes |
| Auth.PersistRoundTrip | server/orchestrator/nodeauth/persistence.go:21-84 | loading what Persist wrote, in any order, gives the registry with times cut to seconds; a second pass changes nothing |
| Auth.Registry.AddPending | server/orchestrator/nodeauth/registry.go:39-54 | a pending entry replaces any that is not approved; an approved one refuses |
| Auth.Registry.Approve | server/orchestrator/nodeauth/registry.go:56-70 | status and time set on the entry of the normalized spelling, or not found |
| Auth.Registry.Reject | server/orchestrator/nodeauth/registry.go:72-85 | status set on the entry of the normalized spelling, or not found |
| Auth.Registry.GetApprovedPublicKey | server/orchestrator/nodeauth/registry.go:118-126 | the key iff approved |
| Auth.Registry.Persist | server/orchestrator/nodeauth/persistence.go:21-34 | every entry's record once, in some order |
| Auth.Registry.Load | server/orchestrator/nodeauth/persistence.go:61-81 | records inserted one after the other, unparsable MACs and keys skipped |
| Commands.TokenAcksOne | server/orchestrator/mesh/command_store.go:69-88 | a token acknowledges one command not acknowledged before and no other |
| Commands.EchoFindsCommand | server/orchestrator/mesh/api_v1_nodes.go:165-177 | every outcome of the echoed token is the sent command iff no other pending one shares UUID bytes 14 and 15 |
| Commands.BuildPayload | server/orchestrator/mesh/api_v1_nodes.go:141-169 | opcode and arguments first, token in the last two bytes, zeros between |
| Commands.CommandStore.Add | server/orchestrator/mesh/command_store.go:36-40 | the command is stored under its ID |
| Commands.CommandStore.Ack | server/orchestrator/mesh/command_store.go:42-53 | status and time on that command, or not found |
| Commands.CommandStore.Get | server/orchestrator/mesh/command_store.go:55-64 | a copy of the command, if any |
| Commands.CommandStore.AckByToken | server/orchestrator/mesh/command_store.go:69-88 | acknowledges some pending command matching the token, or none matches |
| Liveness.EveryInterleavingAlternates | server/orchestrator/mesh/server.go:871-934 | in every interleaving of registry updates, reports, snapshots and markings each node's transitions alternate from node_online, and its flag equals the last |
| Liveness.SweepDecides | server/orchestrator/mesh/server.go:918-934 | a sweep lowers exactly the flags of the expired nodes of its snapshot |
| Liveness.SweepMakesExact | server/orchestrator/mesh/server.go:918-934 | a sweep over the current registry leaves every flag equal to reporting in time |
| Liveness.SweepRightIff | server/orchestrator/mesh/server.go:918-934 | in every interleaving the marking leaves a node's flag right iff being timely now agrees with its flag having been up and the snapshot not having it expired |
| Liveness.CompletedReportIff | server/orchestrator/mesh/server.go:871-934 | after a completed report, whatever comes before the next marking, the node is online after it iff the snapshot does not have it expired |
| Liveness.SweepAfterReport | server/orchestrator/mesh/server.go:918-934 | a sweep begun after a completed report judges the node by the registry at its snapshot, whatever lands before its marking |
| Liveness.WholeReport | server/orchestrator/mesh/server.go:443-464 | the separate moves of any report, run together, are one update and one publishHealthEvent, the clock read for each |
| Liveness.ReportDuringSweepIsLost | server/orchestrator/mesh/server.go:919-933 | a run from the empty state, for any node and times, with two complete reports and none pending, that ends with the node in time and offline |
| Liveness.SweepInsideReport | server/orchestrator/mesh/server.go:871-934 | a run from the empty state in which a sweep inside a report finds the flag still down; the rest of the report raises it |
| Broker.EveryRunAccounts | server/orchestrator/mesh/event_broker.go:41-68 | in every interleaving: at most 32 buffered, offered = received + buffered + dropped, an in-order subsequence of what was offered, nothing lost without a drop, sends only to open channels |
| Broker.EveryRunDelivers | server/orchestrator/mesh/event_broker.go:41-68 | in every interleaving and at every moment: what a subscriber was offered and what publishers still have for it are exactly the events published since it subscribed; published = received + buffered + dropped + pending |
| Ordering.OrderedIffInTurn | server/orchestrator/mesh/event_broker.go:59-68 | a subscriber is offered a prefix of the published stream, place by place, iff every offer to it came in turn |
| Ordering.StreamIffInTurn | server/orchestrator/mesh/event_broker.go:59-68 | with nothing pending and distinct events: offered exactly the stream in order iff every offer came in turn |
| Ordering.SeenInOrderIffTakenInTurn | server/orchestrator/mesh/event_broker.go:41-68 | at every moment of every run: with distinct events, received and buffered are in order of publication iff each event the subscriber had room for was later than all it had kept |
| Ordering.SubscribersSeeTheStreamInOrder | server/orchestrator/mesh/event_broker.go:41-68 | with offers in turn, as when Publish calls do not overlap: at every moment a part of the published stream since subscribing, in order; all of it so far if nothing was dropped |
| Ordering.OverlappingPublishesDisagree | server/orchestrator/mesh/event_broker.go:59-68 | a whole run after which two subscribers hold two different events in opposite orders |
| Broker.WholePublish | server/orchestrator/mesh/event_broker.go:59-68 | a Publish run alone offers the event once to each client, in any map order |
| Broker.EventChannel.TrySend | server/orchestrator/mesh/event_broker.go:63-66 | sends if fewer than 32 are buffered, otherwise drops |
| Broker.EventBroker.Subscribe | server/orchestrator/mesh/event_broker.go:41-47 | one empty open channel more |
| Broker.EventBroker.Unsubscribe | server/orchestrator/mesh/event_broker.go:50-55 | the channel is out of the clients and closed |
| Broker.EventBroker.Publish | server/orchestrator/mesh/event_broker.go:59-68 | every client's buffer is offered the event once |
| Broker.EventChannel.Receive | server/orchestrator/mesh/api_v1_events.go:25 | the oldest event is taken |
| Broker.SubscribeShown | server/orchestrator/mesh/event_broker.go:41-47 | Subscribe does to the object what the bus step does |
| Broker.UnsubscribeShown | server/orchestrator/mesh/event_broker.go:50-55 | Unsubscribe is the bus removing and closing a channel |
| Broker.ReceiveShown | server/orchestrator/mesh/api_v1_events.go:25 | a receive does to the object what the bus step does |
| Broker.PublishShown | server/orchestrator/mesh/event_broker.go:59-68 | Publish does to the object what a whole Publish does to the bus, in any map order |
| Locks.Progress | server/orchestrator/mesh/server.go:263-295 | from any disciplined state with unfinished work some goroutine can step |
| Locks.DeadlockFree | server/orchestrator/mesh/server.go:736-757 | after any schedule of any number of goroutines making any calls, one can step while any is unfinished |
| Locks.SchedulesEnd | server/orchestrator/mesh/server.go:736-757 | no schedule is longer than the work there is |
| Locks.MutualExclusion | server/orchestrator/mesh/server.go:880-881 | in every run a lock held for writing is held by one goroutine only |
| Locks.NestedReadLockDeadlocks | server/orchestrator/mesh/server.go:280-295 | re-entering the read lock, which the Locked variant avoids, deadlocks against a waiting writer |
| Identity.ApprovedConsistent | server/orchestrator/mesh/server.go:602-637 | every approval, automatic, explicit or hotswap, keeps IDs uniquely owned |
| Identity.UpdatedConsistent | server/orchestrator/mesh/node_registry.go:44-65 | a health report keeps IDs uniquely owned |
| Identity.ReassignedConsistent | server/orchestrator/mesh/api_v1_nodes.go:74-83 | a PATCH keeps IDs uniquely owned |
| Identity.RemovedConsistent | server/orchestrator/mesh/api_v1_nodes.go:97-110 | a delete keeps IDs uniquely owned |
| Identity.ExplicitApprovalHandsOver | server/orchestrator/mesh/server.go:613-637 | every lookup of an explicitly approved ID finds the new node iff its entry was not replaced before, otherwise nothing |
| Identity.ApprovedEntry | server/orchestrator/mesh/server.go:615-632 | the new entry: unspecified name and zone inherited, everything else its own |
| Identity.DisplacedEntry | server/orchestrator/mesh/server.go:634-637 | the displaced entry stays, without ID, pointing at its successor |
| Identity.ApprovalRetires | server/orchestrator/mesh/node_registry.go:218-220 | replaced entries keep ID 0 iff the approved entry is not itself replaced or gets no ID |
| Identity.RetiredIDsUnique | server/orchestrator/mesh/node_registry.go:207-221 | then nonzero IDs are unique over all entries |
| Identity.LinkAcyclic | server/orchestrator/mesh/node_registry.go:210-221 | one more ReplacedBy link keeps chains finite iff its target does not lead back |
| Identity.ApprovalAcyclic | server/orchestrator/mesh/server.go:613-637 | an approval keeps chains finite iff it displaces nobody or the new node does not lead to the displaced one |
| Identity.ActiveLeadsNowhere | server/orchestrator/mesh/server.go:613-637 | approving an entry that is not replaced is always safe |
| Identity.MutualReplacementCycles | server/orchestrator/mesh/server.go:613-637 | taking an ID back from one's own replacement closes a cycle |
| Counterexamples.CycleIsReachable | server/orchestrator/mesh/server.go:596-637 | three approvals from the empty server after which two nodes have replaced each other |
| Counterexamples.HiddenNodeIsReachable | server/orchestrator/mesh/server.go:596-637 | three approvals from the empty server after which an approved node with an ID, told so, is found by no lookup |
| Identity.UnserialisedApprovalsShareAnID | server/orchestrator/mesh/server.go:603-632 | two approvals reading the free ID before either assigns it share it |
| WireView.ApprovalAgrees | server/orchestrator/mesh/server.go:596-683 | an approval keeps the wire log in agreement with both registries |
| WireView.RejectedAgrees | server/orchestrator/mesh/server.go:694-716 | so does a rejection |
| WireView.PendedAgrees | server/orchestrator/mesh/server.go:495-513 | so does an enrollment request, also over a rejected or pending entry |
| WireView.WireBytesRoundTrip | server/orchestrator/mesh/serial.go:40-111 | the bytes of a log of sent frames read back as the log and as nothing else |
| Runs.Delivered | server/orchestrator/mesh/server.go:363-407 | beyond the replay cache, a message that does not pass changes nothing and one that does is performed |
| Effects.MessageFiltered | server/orchestrator/mesh/server.go:363-383 | a message of version 0, or 2, is performed unless its origin is malformed or its epoch and sequence number are among that origin's last 32; otherwise nothing changes |
| Effects.MessageAnswered | server/orchestrator/mesh/server.go:363-440 | exactly which messages are dropped, fail or are handled |
| Effects.OthersIgnored | server/orchestrator/mesh/server.go:390-440 | any message but reports, enrollments, motion and acknowledgements leaves its mark in the replay cache only |
| Effects.ReportRecorded | server/orchestrator/mesh/server.go:443-464 | a report, by its bytes: type, uptime, hops and time in the entry, nothing else in the registry; the events it publishes with their content |
| Effects.TelemetryIsLastTold | server/orchestrator/mesh/node_registry.go:44-65 | after any run the telemetry of an entry is that of the node's last performed report since the entry was made |
| Effects.EnrollmentRecorded | server/orchestrator/mesh/server.go:495-513 | the pending entry with the address and key of the frame, unless approved |
| Effects.MotionPublished | server/orchestrator/mesh/server.go:541-572 | the motion event with the entry's ID, name, zone and hops iff there is an event store and an entry |
| Effects.AckRecorded | server/orchestrator/mesh/server.go:470-491 | a pending command whose UUID ends in the token is acknowledged and announced for its node, or there is none |
| Handlers.ApprovalRecorded | server/orchestrator/mesh/server.go:596-645 | the approved trust entry, the ID given or least free, name and zone given or inherited, one event with that content |
| Handlers.ApprovalConfigures | server/orchestrator/mesh/server.go:619-683 | the frames tell a node a type iff it is the one approved, displaces another, no type was given and the other's is known; and then that type |
| Handlers.RejectionRecorded | server/orchestrator/mesh/server.go:694-723 | the rejected trust entry and one keyless JOIN_ACK |
| Handlers.PatchDone | server/orchestrator/mesh/api_v1_nodes.go:41-95 | name and zone given or kept, everything else kept, a type given sent in one frame; nothing for a missing node or unknown type |
| Handlers.DeleteDone | server/orchestrator/mesh/api_v1_nodes.go:97-110 | the owner's entry is gone and no other, and no lookup of the ID finds anybody |
| Handlers.CommandDone | server/orchestrator/mesh/api_v1_nodes.go:112-187 | which commands are accepted; the stored record and the frame byte for byte; nothing otherwise |
| Handlers.RequestedFrames | server/orchestrator/mesh/server.go:760-790 | the frames of ConfigureNode and RequestHealthReports |
| Handlers.SweepAnnounces | server/orchestrator/mesh/server.go:918-934 | a sweep announces exactly the entries with a raised flag and a last time too long ago, with their content |
| Runs.StepInvariant | server/orchestrator/mesh/server.go:363-934 | every step keeps the joint invariant of registries, wire, commands, events and replay histories |
| Runs.RunInvariant | server/orchestrator/mesh/server.go:363-934 | so does every run |
| Theorems.WireAgreesWithRegistries | server/orchestrator/mesh/server.go:596-723 | after any run a node's last JOIN_ACK carries a key iff it is approved, that key, and its last OP_NODE_ID_SET is its ID |
| Theorems.WireBytesReadBack | server/orchestrator/mesh/serial.go:40-111 | after any run the bytes written read back as the frames sent, each of 1 to 84 bytes |
| Theorems.LookupsAreDeterministic | server/orchestrator/mesh/node_registry.go:143-155 | after any run lookups by ID do not depend on map order |
| Theorems.ExplicitApprovalResolves | server/orchestrator/mesh/server.go:602-637 | after any run an explicit approval makes the ID resolve to the approved node, name and zone inherited, iff its entry was not replaced |
| Theorems.CommandsAnnouncedOnce | server/orchestrator/mesh/server.go:470-491 | after any run a command was announced once if acknowledged and never otherwise |
| Theorems.AcksAreFinal | server/orchestrator/mesh/command_store.go:36-53 | an acknowledged command stays acknowledged |
| Theorems.EchoAcknowledges | server/orchestrator/mesh/api_v1_nodes.go:165-182 | any number of steps after a command was sent, echoing the end of its frame acknowledges and announces exactly that command if it is pending and no other pending one shares the token |
| Theorems.TransitionsAlternate | server/orchestrator/mesh/server.go:871-934 | after any run transitions alternate and flags equal the last one |
| Theorems.ApprovedKeyPersists | server/orchestrator/nodeauth/registry.go:39-85 | no message or other step changes an approved key; only a rejection of that node can end it |
| Theorems.RunCalls | server/orchestrator/mesh/server.go:510 | a run acts on the trust registry as the calls its steps amount to |
| Theorems.ServerTrustHistory | server/orchestrator/nodeauth/registry.go:118-126 | after any run a key is approved iff the last successful call granted its node and it was last requested |
| Theorems.StepAcyclic | server/orchestrator/mesh/server.go:613-637 | a step keeps replacement chains finite iff it is not a hotswap onto a node leading to the one displaced |
| Theorems.ChainsStayAcyclic | server/orchestrator/mesh/node_registry.go:210-221 | runs that approve no replaced node keep chains finite and replaced entries without ID |
| Theorems.IDsUniqueOverAllEntries | server/orchestrator/mesh/node_registry.go:207-221 | after such a run a nonzero ID belongs to one entry, replaced ones included |
| Theorems.IdentityIsSticky | server/orchestrator/mesh/node_registry.go:60-64 | no run of messages, sweeps and commands changes an ID, name, zone or standing |
| Theorems.RunReporters | server/orchestrator/mesh/server.go:882-883 | a node has a flag iff one of its reports was performed |
| Theorems.SweepsAreExact | server/orchestrator/mesh/server.go:918-934 | with a monotone clock, right after a sweep a registered node that reported since start is flagged iff it reported within the timeout |
| Theorems.ReachableStatesPersist | server/orchestrator/mesh/node_registry.go:244-312 | both registries of any reachable state survive Persist and Load |
| Restarts.RestartInvariant | server/orchestrator/mesh/server.go:97-138 | a restart gives back both registries and keeps the joint invariant, frames sent before included |
| Restarts.RegistriesAgreeAcrossRestarts | server/orchestrator/mesh/server.go:97-138 | after any number of restarts the last verdict and ID ever sent to a node are those of the registries, and events since the start agree with flags and commands |
| Restarts.ApprovedKeySurvives | server/orchestrator/nodeauth/persistence.go:21-84 | restarts do not change an approved key |
| ExactlyOnce.WindowDecides | server/orchestrator/nodeauth/replay.go:30-46 | a later copy is a duplicate iff at most 31 messages of its origin arrived since the first |
| ExactlyOnce.TimelyCopiesChangeNothing | server/orchestrator/mesh/server.go:371-383 | with timely copies a run, any other steps included, ends in the state, events and frames included, of the same run without the later copies |
| ExactlyOnce.OnceArrives | server/orchestrator/mesh/server.go:371-383 | that run delivers exactly the first arrivals |
| ExactlyOnce.PassedOnceIffTimely | server/orchestrator/mesh/server.go:371-383 | every message passes at least once, and none twice iff all later copies are timely |
| ExactlyOnce.FirstsFollowTheLead | server/orchestrator/mesh/server.go:172-188 | the first arrivals are the messages up to the leading master, in order |
| ExactlyOnce.SkewDecidesTimely | server/orchestrator/mesh/server.go:172-188 | copies are timely iff the trailing master is never more than 31 messages of one origin behind |
| ExactlyOnce.TwoMasters | server/orchestrator/mesh/server.go:172-188 | two interleaved copies of a stream of messages distinct in origin, epoch and sequence number, inside any run: first arrivals in order, exactly once iff bounded skew, and then the final state of the stream coming once |
| ExactlyOnce.CloseMastersSuffice | server/orchestrator/mesh/server.go:172-188 | masters within 32 frames of each other keep the skew bounded |
| MeshServers.MeshServer.HandleMessage | server/orchestrator/mesh/server.go:363-407 | in place: version check, replay filter, dispatch, with the new state of every part |
| MeshServers.MeshServer.Dispatch | server/orchestrator/mesh/server.go:390-440 | in place: the nested switches |
| MeshServers.MeshServer.HandleHealthReport | server/orchestrator/mesh/server.go:443-464 | in place: registry update, health event, node_online on first sight; parse errors leave all as it was |
| MeshServers.MeshServer.HandleCommandAck | server/orchestrator/mesh/server.go:470-491 | in place: acknowledges and announces some matching command, or nothing |
| MeshServers.MeshServer.HandleEnrollmentRequest | server/orchestrator/mesh/server.go:495-513 | in place: a pending entry, refused for an approved node |
| MeshServers.MeshServer.HandlePIRData | server/orchestrator/mesh/server.go:541-572 | in place: a motion event for a known node if the event store is configured |
| MeshServers.MeshServer.PublishHealthEvent | server/orchestrator/mesh/server.go:871-889 | in place: health event, then flag and node_online if the flag was down |
| MeshServers.MeshServer.CheckOfflineNodes | server/orchestrator/mesh/server.go:918-934 | in place: flags of expired nodes lowered and announced, in some map order |
| MeshServers.MeshServer.AssignIdentity | server/orchestrator/mesh/server.go:602-637 | in place: ID chosen, displaced node found, entry assigned, displaced node marked |
| MeshServers.MeshServer.ApproveEnrollment | server/orchestrator/mesh/server.go:596-690 | in place: trust, identity, enrolled event and the frames in order; nothing for an unknown node |
| MeshServers.MeshServer.SendApproval | server/orchestrator/mesh/server.go:647-683 | in place: JOIN_ACK, then OP_NODE_ID_SET if there is an ID, then OP_CONFIG_SET if a type was inherited |
| MeshServers.MeshServer.RejectEnrollment | server/orchestrator/mesh/server.go:694-723 | in place: status and the keyless JOIN_ACK; nothing for bad text or an unknown node |
| MeshServers.MeshServer.PatchNode | server/orchestrator/mesh/api_v1_nodes.go:41-95 | in place: type validated before any change, then name and zone, then OP_CONFIG_SET; succeeds iff the node is found, the type valid and the line attached when a type is given |
| MeshServers.MeshServer.DeleteNode | server/orchestrator/mesh/api_v1_nodes.go:97-110 | in place: the owner's entry is removed; succeeds iff there is one |
| MeshServers.MeshServer.NodeCommand | server/orchestrator/mesh/api_v1_nodes.go:112-187 | in place: checked, stored as pending, sent with its token; a refused request leaves all as it was, a failed send leaves the command stored; succeeds iff accepted and sent |
| MeshServers.MeshServer.SendNodeData | server/orchestrator/mesh/server.go:832-846 | in place: one version-2 broadcast frame, or an error iff detached |
| MeshServers.MeshServer.Transmit | server/orchestrator/mesh/serial.go:40-64 | in place: the port's bytes stay the encoding of the frames sent |

## Left out

- MacText.ParsersInvert: covers the colon and bare-hex forms; what Sscanf does with short digits, blanks or trailing text is not modelled, such text is rejected.
- MacText.ParsersAgree: for the same reason says nothing about strings that only Sscanf accepts.
- Uuid.RoundTrip: covers the hyphenated form commands are stored under; the other spellings uuid.Parse accepts are rejected.
- Wire.RoundTrip: start-group and end-group wire types are malformed input here, and unknown fields are skipped rather than kept.
- Serial.SerialComm.ReadFrame: the recovery after an oversized length is bounded, not predicted, because the port decides how much it delivers.
- Locks.DeadlockFree: does not cover Start and Stop; Stop waits for goroutines while holding the lock they take.
- Theorems.WireAgreesWithRegistries: one log for both ports; failover after 75 seconds and the hotswap OP_CONFIG_SET always using the primary port are not told apart, and write failures do not occur; the raw broadcast endpoint, which can send any payload, is not a step of a run.
- Theorems.SweepsAreExact: a backward clock is not covered.
- Auth.PersistRoundTrip: JSON text, files, crash recovery and files written by earlier versions with bare-hex keys are not modelled.
- Restarts.RestartInvariant: the last writes of both registries are complete; a crash between the periodic writes is not covered.
- Replay.ReplayCache.IsDuplicate: calls are atomic, as its mutex makes them; handling after the filter is atomic by assumption.
- HTTP routing and decoding, authentication, CORS, metrics, Kafka, logging, zones, TX power state, adapter names: plumbing or easy members.
- Serial.SerialComm.ReadFrames: pauses are not modelled; it ends when the input does.
- Serial opening and closing.
- The dashboards, the sidecar and deployment files.
