// What an inbound message does, told from outside: by its own bytes and by the fields of the entries and events it
// leaves.

module Effects {
  import opened Base
  import opened Wire
  import opened Messages
  import opened Events
  import opened MacText
  import opened Server
  import opened Identity
  import opened Runs
  import Auth
  import Nodes
  import Replay
  import Commands
  import Liveness
  import Theorems
  import Uuid
  import WireView

  // ---- Which messages are handled ----

  /** The pair is among the last 32 recorded. */
  ghost predicate Recent(h: seq<Replay.Pair>, epoch: u32, seqNum: u32)
  {
    exists i :: 0 <= i < |h| && |h| - 32 <= i && h[i].epoch == epoch && h[i].seqNum == seqNum
  }

  predicate Numbered(m: MeshMessage)
  {
    m.protoVersion == 2 && m.epochNum > 0
  }

  /** Version 0 always, version 2 unless its origin is malformed or its epoch and sequence number are recent. */
  ghost predicate LetThrough(s: State, m: MeshMessage)
  {
    || m.protoVersion == 0
    || (m.protoVersion == 2 && m.epochNum == 0)
    || (Numbered(m) && |m.origin| == 6 && !Recent(Replay.HistoryOf(s.replay, m.origin), m.epochNum, m.seqNum))
  }

  lemma RecentIsDuplicate(h: seq<Replay.Pair>, epoch: u32, seqNum: u32)
    requires epoch > 0
    ensures Recent(h, epoch, seqNum) <==> Replay.Duplicate(h, Replay.Pair(epoch, seqNum))
  {
    var p := Replay.Pair(epoch, seqNum);
    if i :| 0 <= i < |h| && |h| - 32 <= i && h[i].epoch == epoch && h[i].seqNum == seqNum {
      Replay.InWindow(h, i);
    }
    if p in Replay.Window(h) {
      var k :| 0 <= k < |Replay.Window(h)| && Replay.Window(h)[k] == p;
      assert h[if |h| <= 32 then k else |h| - 32 + k] == p;
    }
  }

  lemma PassesMeans(s: State, m: MeshMessage)
    ensures Passes(s, m) <==> LetThrough(s, m)
  {
    hide Replay.Duplicate, Recent;
    if Numbered(m) && |m.origin| == 6 {
      RecentIsDuplicate(Replay.HistoryOf(s.replay, m.origin), m.epochNum, m.seqNum);
    }
  }

  /** A message that is not let through changes nothing; one that is counts as recent from then on, and is performed. */
  lemma MessageFiltered(c: Config, s: State, m: MeshMessage, chosen: Option<string>, now: Time)
    requires Enabled(s, Deliver(m, chosen, now))
    ensures var s' := Apply(c, s, Deliver(m, chosen, now));
      if !LetThrough(s, m) then s' == s
      else
        && s'.replay == (if !Numbered(m) then s.replay
                         else s.replay[m.origin := Replay.HistoryOf(s.replay, m.origin)
                                                   + [Replay.Pair(m.epochNum, m.seqNum)]])
        && s' == Perform(c, s.(replay := s'.replay), Classify(m), chosen, now).0
  {
    hide Replay.Duplicate, Recent, Classify, Perform, Commands.TokenOutcome;
    PassesMeans(s, m);
    Delivered(c, s, m, chosen, now);
    PerformKeepsReplay(c, s, Classify(m), chosen, now);
    if Numbered(m) && |m.origin| == 6 {
      RecentIsDuplicate(Replay.HistoryOf(s.replay, m.origin), m.epochNum, m.seqNum);
      PerformKeepsReplay(c, s.(replay := Replay.RecordFor(s.replay, m.origin, PairOf(m))), Classify(m), chosen, now);
      if Recent(Replay.HistoryOf(s.replay, m.origin), m.epochNum, m.seqNum) {
        RecentIsKnown(s.replay, m.origin, m.epochNum, m.seqNum);
        assert Replay.RecordFor(s.replay, m.origin, PairOf(m)) == s.replay;
      }
    }
  }

  lemma RecentIsKnown(hs: Replay.Histories, origin: Mac, epoch: u32, seqNum: u32)
    requires Recent(Replay.HistoryOf(hs, origin), epoch, seqNum)
    ensures origin in hs
  {
  }

  // ---- Health reports ----

  /** What the last report told of a node, and when it came. */
  datatype Telemetry = Telemetry(adapterType: i32, uptime: u32, hopCount: u32, at: Time)

  function TelemetryOf(n: Nodes.NodeInfo): Telemetry
  {
    Telemetry(n.adapterType, n.uptime, n.hopCount, n.lastSeen)
  }

  /** Adapter data of serial type with one of the two report opcodes and at least twelve bytes. */
  predicate Reports(m: MeshMessage)
  {
    m.messageType == 0 && m.dataType == 1 && |m.data| >= 12 && (m.data[0] == 0xB1 || m.data[0] == 0xB2)
  }

  /** The signed type in byte 1, the little-endian uptime in bytes 8 to 11, the hops of the message itself. */
  function Told(m: MeshMessage, now: Time): Telemetry
    requires Reports(m)
  {
    Telemetry(if m.data[1] < 0x80 then m.data[1] as int else m.data[1] as int - 0x100,
              m.data[8] as int + 0x100 * m.data[9] as int + 0x1_0000 * m.data[10] as int
              + 0x100_0000 * m.data[11] as int,
              m.hopCount, now)
  }

  lemma ReportClassified(m: MeshMessage)
    ensures Classify(m).Report? <==> Reports(m)
    ensures Reports(m) ==>
      var r := Classify(m).r; var told := Told(m, 0);
      && r.mac == m.data[2..8] && r.adapterType == told.adapterType && r.uptime == told.uptime
      && r.hopCount == told.hopCount
  {
  }

  /** An entry somebody has just heard of. */
  function Unheard(mac: Mac): Nodes.NodeInfo
  {
    Nodes.NodeInfo(mac, MacToString(mac), 0, 0, ZERO_TIME, 0, 0, "", "", Nodes.Active, "")
  }

  function EntryOf(ns: Nodes.NodeMap, mac: Mac): Nodes.NodeInfo
  {
    if MacToString(mac) in ns then ns[MacToString(mac)] else Unheard(mac)
  }

  /** The entry of the address, made if there is none, has this telemetry; nothing else has changed. */
  ghost predicate Refreshed(ns: Nodes.NodeMap, ns': Nodes.NodeMap, mac: Mac, t: Telemetry)
  {
    ns' == ns[MacToString(mac) := EntryOf(ns, mac).(adapterType := t.adapterType, uptime := t.uptime,
                                                    hopCount := t.hopCount, lastSeen := t.at)]
  }

  /**
   * A report that is let through leaves its telemetry in the entry of the address in bytes 2 to 7; it publishes the
   * entry as online, and the node too if its flag was down.
   */
  lemma ReportRecorded(c: Config, s: State, m: MeshMessage, chosen: Option<string>, now: Time)
    requires Nodes.Canonical(s.nodes) && LetThrough(s, m) && Reports(m) && Enabled(s, Deliver(m, chosen, now))
    ensures var s' := Apply(c, s, Deliver(m, chosen, now));
      Refreshed(s.nodes, s'.nodes, m.data[2..8], Told(m, now))
      && s'.auth == s.auth && s'.commands == s.commands && s'.wire == s.wire
    ensures var s' := Apply(c, s, Deliver(m, chosen, now)); var k := MacToString(m.data[2..8]);
      var n := EntryOf(s.nodes, m.data[2..8]);
      && s'.live.flags == s.live.flags[k := true]
      && s'.live.events == s.live.events + [Health(n.nodeID, n.name, true, Told(m, now).uptime, m.hopCount)]
                           + (if Liveness.Flag(s.live.flags, k) then [] else [NodeOnline(k, n.nodeID, n.name)])
  {
    hide MacToString, Classify, LetThrough;
    MessageFiltered(c, s, m, chosen, now);
    ReportClassified(m);
  }

  // ---- Telemetry over runs ----

  /** The entry, if there is one, has this telemetry, that of an entry nobody reported for if none. */
  ghost predicate TelemetryIs(ns: Nodes.NodeMap, k: string, t: Option<Telemetry>)
  {
    if k in ns then TelemetryOf(ns[k]) == (if t.Some? then t.value else Telemetry(0, 0, 0, ZERO_TIME)) else t == None
  }

  /** The last report of a node performed since its entry was made. */
  ghost function LastTold(s: State, t: Step, k: string, before: Option<Telemetry>): Option<Telemetry>
  {
    if t.Deliver? && LetThrough(s, t.m) && Reports(t.m) && MacToString(t.m.data[2..8]) == k then Some(Told(t.m, t.now))
    else if t.RemoveNode? && t.owner.Some? && MacToString(t.owner.value.mac) == k then None
    else before
  }

  ghost function LastToldIn(c: Config, s: State, steps: seq<Step>, k: string, before: Option<Telemetry>)
    : Option<Telemetry>
    requires CanRun(c, s, steps)
    decreases steps
  {
    if steps == [] then before
    else LastToldIn(c, Apply(c, s, steps[0]), steps[1..], k, LastTold(s, steps[0], k, before))
  }

  lemma DeliverTelemetry(c: Config, s: State, t: Step, k: string, before: Option<Telemetry>)
    requires t.Deliver? && Enabled(s, t) && Nodes.Canonical(s.nodes) && TelemetryIs(s.nodes, k, before)
    ensures TelemetryIs(Apply(c, s, t).nodes, k, LastTold(s, t, k, before))
  {
    hide MacToString, Classify, LetThrough, Commands.TokenOutcome, Apply;
    MessageFiltered(c, s, t.m, t.chosen, t.now);
    ReportClassified(t.m);
    if LetThrough(s, t.m) && Reports(t.m) {
      ReportRecorded(c, s, t.m, t.chosen, t.now);
    } else if LetThrough(s, t.m) {
      OtherActionsKeepNodes(c, s.(replay := Apply(c, s, t).replay), Classify(t.m), t.chosen, t.now);
    }
  }

  lemma OtherActionsKeepNodes(c: Config, s: State, a: Action, chosen: Option<string>, now: Time)
    requires !a.Report?
    ensures Perform(c, s, a, chosen, now).0.nodes == s.nodes
  {
    hide Auth.Pended, Auth.IsApproved, Commands.Acknowledged, MacToString;
  }

  lemma ApproveTelemetry(c: Config, s: State, t: Step, k: string, before: Option<Telemetry>)
    requires t.ApproveEnrollment? && Enabled(s, t) && Consistent(s.nodes) && TelemetryIs(s.nodes, k, before)
    ensures TelemetryIs(Apply(c, s, t).nodes, k, before)
  {
    hide MacToString, Nodes.LookupOutcome, ApprovedNodes, ApprovalFrames, Normalize, Auth.Approved, Consistent,
         Displaced, AssignedID;
    if Auth.Known(s.auth, t.macStr) {
      var mac := s.auth[Normalize(t.macStr)].mac;
      Theorems.ApproveNodes(c, s, t.macStr, t.params, t.owner, t.now);
      ApprovedEntry(s.nodes, mac, t.params, t.owner);
      ApprovedElsewhere(s.nodes, mac, t.params, t.owner);
    }
  }

  lemma OtherTelemetry(c: Config, s: State, t: Step, k: string, before: Option<Telemetry>)
    requires !t.Deliver? && !t.ApproveEnrollment?
    requires Enabled(s, t) && Consistent(s.nodes) && TelemetryIs(s.nodes, k, before)
    ensures TelemetryIs(Apply(c, s, t).nodes, k, LastTold(s, t, k, before))
  {
    hide MacToString, Nodes.LookupOutcome, ApprovedNodes, ApprovalFrames, Normalize, ParseMAC, Auth.Rejected,
         Consistent, AdapterTypeFromString, Commands.Head, Commands.Payload, Uuid.Format, Liveness.MarkExpired,
         Liveness.Snapshot;
    if t.PatchNode? && t.owner.Some? {
      OwnerKey(s.nodes, t.id, t.owner.value);
    }
  }

  /** After any run, the telemetry of an entry is that of the node's last report performed since the entry was made. */
  lemma {:induction false} TelemetryIsLastTold(c: Config, s: State, steps: seq<Step>, k: string,
                                               before: Option<Telemetry>)
    requires Invariant(c, s) && CanRun(c, s, steps) && TelemetryIs(s.nodes, k, before)
    ensures TelemetryIs(Run(c, s, steps).nodes, k, LastToldIn(c, s, steps, k, before))
    decreases steps
  {
    hide Enabled, Apply, LastTold, TelemetryIs, Consistent, Auth.Canonical, AcksAccounted, Liveness.AllInStep,
         ReplaySpaced, WireView.AllOutbound, WireView.Agrees;
    if steps == [] {
    } else {
      StepTelemetry(c, s, steps[0], k, before);
      StepInvariant(c, s, steps[0]);
      TelemetryIsLastTold(c, Apply(c, s, steps[0]), steps[1..], k, LastTold(s, steps[0], k, before));
    }
  }

  lemma StepTelemetry(c: Config, s: State, t: Step, k: string, before: Option<Telemetry>)
    requires Enabled(s, t) && Consistent(s.nodes) && TelemetryIs(s.nodes, k, before)
    ensures TelemetryIs(Apply(c, s, t).nodes, k, LastTold(s, t, k, before))
  {
    hide Enabled, Apply, TelemetryIs, Nodes.Canonical, Nodes.UniqueOwner;
    if t.Deliver? {
      DeliverTelemetry(c, s, t, k, before);
    } else if t.ApproveEnrollment? {
      ApproveTelemetry(c, s, t, k, before);
    } else {
      OtherTelemetry(c, s, t, k, before);
    }
  }

  // ---- Enrollment requests ----

  /** An enrollment frame with at least six bytes of origin and a key of 32. */
  predicate Asks(m: MeshMessage)
  {
    m.messageType == 2 && |m.origin| >= 6 && |m.publicKey| == 32
  }

  lemma EnrollmentClassified(m: MeshMessage)
    ensures Classify(m).Enroll? <==> Asks(m)
    ensures Asks(m) ==> Classify(m) == Enroll(m.origin[..6], m.publicKey)
  {
  }

  /** The node's entry becomes pending (status 0) with the key it sent, unless it is approved (status 1). */
  lemma EnrollmentRecorded(c: Config, s: State, m: MeshMessage, chosen: Option<string>, now: Time)
    requires LetThrough(s, m) && Asks(m) && Enabled(s, Deliver(m, chosen, now))
    ensures var s' := Apply(c, s, Deliver(m, chosen, now)); var mac := m.origin[..6]; var k := Colon(mac);
      && s'.auth == (if k in s.auth && s.auth[k].status == 1 then s.auth
                     else s.auth[k := Auth.NodeAuth(mac, k, m.publicKey, 0, now, ZERO_TIME)])
      && s' == s.(auth := s'.auth, replay := s'.replay)
  {
    hide Colon, Classify, LetThrough;
    MessageFiltered(c, s, m, chosen, now);
    EnrollmentClassified(m);
  }

  // ---- Motion ----

  /** Adapter data of type 2: with an event store, a motion event with what the registry has of the origin. */
  lemma MotionPublished(c: Config, s: State, m: MeshMessage, chosen: Option<string>, now: Time)
    requires LetThrough(s, m) && m.messageType == 0 && m.dataType == 2 && Enabled(s, Deliver(m, chosen, now))
    ensures var s' := Apply(c, s, Deliver(m, chosen, now)); var k := MacToString(m.origin);
      && s'.live.events == s.live.events + (if c.eventStore && k in s.nodes then
                                              [Motion(s.nodes[k].nodeID, s.nodes[k].name, s.nodes[k].zone,
                                                      s.nodes[k].hopCount)]
                                            else [])
      && s' == s.(live := s.live.(events := s'.live.events), replay := s'.replay)
  {
    hide MacToString, LetThrough;
    MessageFiltered(c, s, m, chosen, now);
    assert Classify(m) == MotionSeen(m.origin);
  }

  // ---- Acknowledgements ----

  /** Serial adapter data with opcode 0xE0 and two bytes of token. */
  predicate Acks(m: MeshMessage)
  {
    m.messageType == 0 && m.dataType == 1 && |m.data| >= 3 && m.data[0] == 0xE0
  }

  /** Some pending command whose UUID ends in the token is acknowledged and announced for its node, if there is one. */
  lemma AckRecorded(c: Config, s: State, m: MeshMessage, chosen: Option<string>, now: Time)
    requires LetThrough(s, m) && Acks(m) && Enabled(s, Deliver(m, chosen, now))
    ensures var s' := Apply(c, s, Deliver(m, chosen, now));
      match chosen
      case None =>
        && s' == s.(replay := s'.replay)
        && forall id :: id in s.commands && s.commands[id].status.Pending? && Uuid.Parse(id).Some? ==>
             Uuid.Parse(id).value[14..] != m.data[1..3]
      case Some(id) =>
        && id in s.commands && s.commands[id].status.Pending?
        && Uuid.Parse(id).Some? && Uuid.Parse(id).value[14..] == m.data[1..3]
        && s'.commands == s.commands[id := s.commands[id].(status := Commands.Acked, ackedAt := Some(now))]
        && s'.live.events == s.live.events + [CommandAck(id, s.commands[id].nodeID)]
        && s' == s.(commands := s'.commands, live := s.live.(events := s'.live.events), replay := s'.replay)
  {
    hide Uuid.Parse, LetThrough;
    MessageFiltered(c, s, m, chosen, now);
    assert Classify(m) == AckToken(m.data[1], m.data[2]);
    match chosen {
      case Some(id) => assert Commands.Matches(s.commands, id, m.data[1], m.data[2]);
      case None =>
        forall id | id in s.commands && s.commands[id].status.Pending? && Uuid.Parse(id).Some?
          ensures Uuid.Parse(id).value[14..] != m.data[1..3]
        {
          assert !Commands.Matches(s.commands, id, m.data[1], m.data[2]);
          var u := Uuid.Parse(id).value;
          assert u[14..][0] == u[14] && u[14..][1] == u[15];
          assert m.data[1..3][0] == m.data[1] && m.data[1..3][1] == m.data[2];
        }
    }
  }

  // ---- The rest, and the answer ----

  /** Every other message that is let through leaves its mark in the replay cache only. */
  lemma OthersIgnored(c: Config, s: State, m: MeshMessage, chosen: Option<string>, now: Time)
    requires LetThrough(s, m) && Enabled(s, Deliver(m, chosen, now))
    requires !Reports(m) && !Asks(m) && !Acks(m) && !(m.messageType == 0 && m.dataType == 2)
    ensures var s' := Apply(c, s, Deliver(m, chosen, now)); s' == s.(replay := s'.replay)
  {
    hide LetThrough, Commands.TokenOutcome;
    MessageFiltered(c, s, m, chosen, now);
    assert Classify(m).Ignore? || Classify(m).Fail?;
  }

  /** Serial data without an opcode, a report or an enrollment that is too short, or a key of another length. */
  predicate Broken(m: MeshMessage)
  {
    || (m.messageType == 0 && m.dataType == 1
        && (m.data == [] || ((m.data[0] == 0xB1 || m.data[0] == 0xB2) && |m.data| < 12)))
    || (m.messageType == 2 && (|m.origin| < 6 || |m.publicKey| != 32))
  }

  /** What handleMessage answers. */
  lemma MessageAnswered(c: Config, s: State, m: MeshMessage, chosen: Option<string>, now: Time)
    ensures HandleMessage(c, s, m, chosen, now).1 ==
            if !LetThrough(s, m) then Dropped
            else if Broken(m) then Failed
            else if Asks(m) && Auth.IsApproved(s.auth, m.origin[..6]) then Failed
            else Handled
  {
    hide LetThrough, Replay.Duplicate, Auth.IsApproved, Auth.Pended, ReportHealth, AckCommand, ReportMotion,
         MacToString;
    PassesMeans(s, m);
    ReportClassified(m);
  }
}
