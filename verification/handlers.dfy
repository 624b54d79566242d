// What the HTTP handlers and the sweep do, told from outside: by the fields of the entries, events and commands they
// leave and the bytes of the frames they send.

module Handlers {
  import opened Base
  import opened Wire
  import opened Messages
  import opened Events
  import opened MacText
  import opened Server
  import opened Identity
  import Auth
  import Nodes
  import Commands
  import Liveness
  import Theorems
  import Uuid

  // ---- Approval ----

  /** The approval takes the ID of another node. */
  predicate Hotswap(p: ApprovalParams, mac: Mac, owner: Option<Nodes.NodeInfo>)
  {
    p.nodeID > 0 && owner.Some? && owner.value.mac != mac
  }

  ghost predicate Configures(frames: seq<MeshMessage>, who: Mac, b: byte)
  {
    exists m :: m in frames && ConfigFor(m, who) == Some(b)
  }

  /**
   * The frames of an approval tell a node an adapter type exactly if it is the one approved, it displaces another, no
   * type was given and the other's is known; and then the low byte of the other's type.
   */
  lemma ApprovalConfigures(c: Config, s: State, t: Step, who: Mac, b: byte)
    requires t.ApproveEnrollment? && Enabled(s, t) && c.attached && Normalize(t.macStr) in s.auth
    ensures var s' := Apply(c, s, t); var mac := s.auth[Normalize(t.macStr)].mac;
      && s.wire <= s'.wire
      && (Configures(s'.wire[|s.wire|..], who, b) <==>
            && who == mac && Hotswap(t.params, mac, t.owner) && t.params.adapterType == ""
            && t.owner.value.adapterType != 0 && b as int == t.owner.value.adapterType % 0x100)
  {
    hide Normalize, MacToString, Nodes.LookupOutcome, ApprovedNodes, Auth.Approved, ApprovalFrames, ConfigFor,
         AssignedID, InheritedType;
    var mac, key := s.auth[Normalize(t.macStr)].mac, s.auth[Normalize(t.macStr)].publicKey;
    var inherited := InheritedType(t.params, Displaced(t.params, mac, t.owner));
    var frames := ApprovalFrames(mac, key, AssignedID(s.nodes, t.params), inherited);
    ApprovedWire(c, s, t);
    assert (s.wire + frames)[|s.wire|..] == frames;
    FramesConfigure(mac, key, AssignedID(s.nodes, t.params), inherited, who, b);
    TypePassedOn(t.params, mac, t.owner);
  }

  lemma TypePassedOn(p: ApprovalParams, mac: Mac, owner: Option<Nodes.NodeInfo>)
    ensures InheritedType(p, Displaced(p, mac, owner)) ==
            if Hotswap(p, mac, owner) && p.adapterType == "" then owner.value.adapterType else 0
  {
  }

  lemma ApprovedWire(c: Config, s: State, t: Step)
    requires t.ApproveEnrollment? && Enabled(s, t) && Normalize(t.macStr) in s.auth
    ensures var who := s.auth[Normalize(t.macStr)];
      Apply(c, s, t).wire ==
      if c.attached then
        s.wire + ApprovalFrames(who.mac, who.publicKey, AssignedID(s.nodes, t.params),
                                InheritedType(t.params, Displaced(t.params, who.mac, t.owner)))
      else s.wire
  {
    hide Normalize, MacToString, Nodes.LookupOutcome, ApprovedNodes, ApprovalFrames, AssignedID, InheritedType,
         Displaced;
  }

  lemma FramesConfigure(mac: Mac, key: Key, id: byte, inherited: i32, who: Mac, b: byte)
    ensures Configures(ApprovalFrames(mac, key, id, inherited), who, b) <==>
            inherited != 0 && who == mac && b as int == inherited % 0x100
  {
    hide JoinAck, NodeIdSet, ConfigSet, ConfigFor;
    ApprovalConfiguresNobody(mac, key, id, who);
    ConfigSetCarries(mac, inherited, who);
    if inherited != 0 {
      assert ConfigSet(mac, inherited) in ApprovalFrames(mac, key, id, inherited);
    }
  }

  /**
   * The trust entry is approved (status 1) from now on; the node's entry has the ID given, or the least free one, and
   * the name and zone given, or those of the node it displaces; one event announces it.
   */
  lemma ApprovalRecorded(c: Config, s: State, t: Step)
    requires t.ApproveEnrollment? && Enabled(s, t) && Consistent(s.nodes)
    ensures var s' := Apply(c, s, t); var k := Normalize(t.macStr);
      if k !in s.auth then s' == s
      else
        var mac := s.auth[k].mac; var key := MacToString(mac);
        && s'.auth == s.auth[k := s.auth[k].(status := 1, approvedAt := t.now)]
        && key in s'.nodes
        && (if t.params.nodeID > 0 then s'.nodes[key].nodeID == t.params.nodeID
            else IsLeastFree(s.nodes, s'.nodes[key].nodeID))
        && s'.nodes[key].name == (if Hotswap(t.params, mac, t.owner) && t.params.name == "" then t.owner.value.name
                                  else t.params.name)
        && s'.nodes[key].zone == (if Hotswap(t.params, mac, t.owner) && t.params.zone == "" then t.owner.value.zone
                                  else t.params.zone)
        && s'.live == s.live.(events := s.live.events
                                        + [Enrolled(s'.nodes[key].nodeID, s'.nodes[key].name,
                                                    if t.params.adapterType == "" then "unknown"
                                                    else t.params.adapterType)])
        && s'.commands == s.commands && s'.replay == s.replay
  {
    hide Normalize, MacToString, Nodes.LookupOutcome, ApprovedNodes, ApprovalFrames, Consistent, Nodes.NextFree,
         InheritedType;
    if Normalize(t.macStr) in s.auth {
      var mac := s.auth[Normalize(t.macStr)].mac;
      ApprovedEntry(s.nodes, mac, t.params, t.owner);
      Nodes.NextFreeIsMinimumExcluded(s.nodes);
      Theorems.ApproveNodes(c, s, t.macStr, t.params, t.owner, t.now);
    }
  }

  /** The least of 1 to 255 that no entry has, or 0 if all are taken. */
  ghost predicate IsLeastFree(ns: Nodes.NodeMap, id: byte)
  {
    && (id == 0 <==> forall i: byte :: i > 0 ==> Nodes.Holds(ns, i))
    && (id > 0 ==> !Nodes.Holds(ns, id) && forall i: byte :: 0 < i < id ==> Nodes.Holds(ns, i))
  }

  // ---- Rejection ----

  /** The trust entry is rejected (status 2), and one frame tells the node so. */
  lemma RejectionRecorded(c: Config, s: State, t: Step)
    requires t.RejectEnrollment? && Auth.Canonical(s.auth)
    ensures var s' := Apply(c, s, t); var k := Normalize(t.macStr);
      if k !in s.auth then s' == s
      else
        && s'.auth == s.auth[k := s.auth[k].(status := 2)]
        && s' == s.(auth := s'.auth, wire := s'.wire)
        && (if c.attached then
              && |s'.wire| == |s.wire| + 1 && s.wire <= s'.wire
              && JoinVerdictFor(s'.wire[|s.wire|], s.auth[k].mac) == Some([])
            else s'.wire == s.wire)
  {
    hide Normalize, ParseMAC, Auth.Canonical;
    if Normalize(t.macStr) in s.auth {
      Auth.KnownParses(s.auth, t.macStr);
    }
  }

  // ---- PATCH, DELETE and the plain frames ----

  function TypeCode(name: string): Option<byte>
  {
    if name == "pir" then Some(2) else if name == "led" then Some(3) else if name == "relay" then Some(4) else None
  }

  /**
   * The owner gets the name and zone that were given and keeps the ones that were not, and everything else; a type that
   * was given is sent to it in one frame. Without an owner, or with an unknown type, nothing happens at all.
   */
  lemma PatchDone(c: Config, s: State, t: Step)
    requires t.PatchNode? && Enabled(s, t) && Consistent(s.nodes)
    ensures var s' := Apply(c, s, t);
      if t.owner.None? || (t.adapterType.Some? && TypeCode(t.adapterType.value).None?) then s' == s
      else
        var n := t.owner.value; var k := MacToString(n.mac);
        && k in s.nodes && s.nodes[k] == n
        && s'.nodes == s.nodes[k := n.(name := if t.name.Some? then t.name.value else n.name,
                                       zone := if t.zone.Some? then t.zone.value else n.zone)]
        && s' == s.(nodes := s'.nodes, wire := s'.wire)
        && (if c.attached && t.adapterType.Some? then
              && |n.mac| == 6 && |s'.wire| == |s.wire| + 1 && s.wire <= s'.wire
              && ConfigFor(s'.wire[|s.wire|], n.mac) == TypeCode(t.adapterType.value)
            else s'.wire == s.wire)
  {
    hide MacToString, Nodes.LookupOutcome, Consistent, ConfigSet, ConfigFor;
    if t.owner.Some? {
      OwnerKey(s.nodes, t.id, t.owner.value);
      if t.adapterType.Some? && TypeCode(t.adapterType.value).Some? {
        ConfigSetCarries(t.owner.value.mac, TypeCode(t.adapterType.value).value, t.owner.value.mac);
      }
    }
  }

  /** The owner's entry is gone and no other; then nobody is found under the ID. */
  lemma DeleteDone(c: Config, s: State, t: Step, r: Option<Nodes.NodeInfo>)
    requires t.RemoveNode? && Enabled(s, t) && Consistent(s.nodes)
    requires Nodes.LookupOutcome(Apply(c, s, t).nodes, t.id, r)
    ensures var s' := Apply(c, s, t);
      && r == None
      && (if t.owner.None? then s' == s
          else
            && MacToString(t.owner.value.mac) in s.nodes
            && s' == s.(nodes := s.nodes - {MacToString(t.owner.value.mac)}))
  {
    hide MacToString, Consistent;
    if t.owner.Some? {
      OwnerKey(s.nodes, t.id, t.owner.value);
    }
    var ns' := Apply(c, s, t).nodes;
    assert forall k :: Nodes.Owns(ns', k, t.id) ==> Nodes.Owns(s.nodes, k, t.id);
  }

  /** The two frames sent on request: an adapter type to one node, opcode 0xB0 to all. */
  lemma RequestedFrames(c: Config, s: State, t: Step)
    requires t.ConfigureNode? || t.RequestHealth?
    ensures var s' := Apply(c, s, t);
      && s' == s.(wire := s'.wire)
      && (if c.attached then
            && |s'.wire| == |s.wire| + 1 && s.wire <= s'.wire
            && var m := s'.wire[|s.wire|];
              if t.ConfigureNode? then ConfigFor(m, t.target) == Some((t.newType % 0x100) as byte)
              else m.messageType == 0 && m.dataType == 1 && Messages.Holds(m.data, [0xB0])
          else s'.wire == s.wire)
  {
    hide ConfigSet, ConfigFor, HealthRequest;
    if t.ConfigureNode? {
      ConfigSetCarries(t.target, t.newType, t.target);
    } else {
      FrameLayouts(Zeros(6), 0, [], 0);
    }
  }

  // ---- Commands ----

  /** An LED or relay node, and an action with the arguments it takes. */
  predicate Accepted(t: Step)
    requires t.IssueCommand?
  {
    && t.owner.Some? && (t.owner.value.adapterType == 3 || t.owner.value.adapterType == 4)
    && (|| (t.action == "led_solid" && |t.colour| == 3)
        || t.action == "led_off" || t.action == "relay_on" || t.action == "relay_off")
  }

  /** Byte `i` of the payload that tells a node what to do, before the token. */
  function Instruction(ops: OutputOpcodes, action: string, colour: seq<byte>, i: nat): byte
  {
    if action == "led_solid" then
      if i == 0 then ops.ledSolid else if i - 1 < |colour| then colour[i - 1] else 0
    else if action == "led_off" then if i == 0 then ops.ledOff else 0
    else if action == "relay_on" then if i == 0 then ops.relaySet else if i == 1 then 1 else 0
    else if i == 0 then ops.relaySet else 0
  }

  /** A version-2 broadcast of the node's own type: the instruction, zeros, and UUID bytes 14 and 15 at the end. */
  ghost predicate CommandFrame(ops: OutputOpcodes, t: Step, m: MeshMessage)
    requires t.IssueCommand? && Accepted(t)
  {
    && m.messageType == 3 && m.dataType == t.owner.value.adapterType && m.protoVersion == 2 && m.target == []
    && |m.data| == 64 && m.data[62] == t.uuid[14] && m.data[63] == t.uuid[15]
    && forall i :: 0 <= i < 62 ==> m.data[i] == Instruction(ops, t.action, t.colour, i)
  }

  /** An accepted command is stored as pending and sent, byte for byte; another one leaves everything as it was. */
  lemma CommandDone(c: Config, s: State, t: Step)
    requires t.IssueCommand? && Enabled(s, t)
    ensures var s' := Apply(c, s, t);
      if !Accepted(t) then s' == s
      else
        var id := Uuid.Format(t.uuid);
        && s'.commands == s.commands[id := Commands.Command(id, t.id, t.action, t.now, Commands.Pending, None)]
        && s' == s.(commands := s'.commands, wire := s'.wire)
        && (if c.attached then
              && |s'.wire| == |s.wire| + 1 && s.wire <= s'.wire
              && CommandFrame(c.ops, t, s'.wire[|s.wire|])
            else s'.wire == s.wire)
  {
    hide Uuid.Format, Nodes.LookupOutcome, Commands.Payload, CommandFrame, NodeData;
    HeadAccepted(c, t);
    if Accepted(t) {
      CommandBytes(c, t);
    }
  }

  lemma HeadAccepted(c: Config, t: Step)
    requires t.IssueCommand?
    ensures Accepted(t) <==> t.owner.Some? && AdapterIsOutput(t.owner.value.adapterType)
                             && Commands.Head(c.ops, t.action, t.colour).Ok?
  {
  }

  lemma CommandBytes(c: Config, t: Step)
    requires t.IssueCommand? && Accepted(t) && Commands.Head(c.ops, t.action, t.colour).Ok?
    requires |Commands.Head(c.ops, t.action, t.colour).value| <= MAX_DATA - 2
    ensures CommandFrame(c.ops, t, NodeData(t.owner.value.adapterType,
                                            Commands.Payload(Commands.Head(c.ops, t.action, t.colour).value, t.uuid)))
  {
    var head := Commands.Head(c.ops, t.action, t.colour).value;
    Theorems.PaddedWhole(Commands.Payload(head, t.uuid));
  }

  // ---- Sweeps ----

  function GoneOffline(n: Nodes.NodeInfo): Event
  {
    NodeOffline(n.macString, n.nodeID, n.name, n.lastSeen)
  }

  /** The node's flag is up and it has been silent longer than the timeout. */
  predicate Overdue(l: Liveness.Live, n: Nodes.NodeInfo, now: Time, timeout: Timeout)
  {
    Liveness.Flag(l.flags, n.macString) && now - n.lastSeen > timeout
  }

  ghost predicate TellsOverdue(l: Liveness.Live, snapshot: seq<Nodes.NodeInfo>, now: Time, timeout: Timeout, e: Event)
  {
    exists i :: 0 <= i < |snapshot| && Overdue(l, snapshot[i], now, timeout) && e == GoneOffline(snapshot[i])
  }

  /** A sweep publishes of each overdue node that it is offline, with its ID, name and last time, and nothing else. */
  lemma {:induction false} SweepPublishes(l: Liveness.Live, snapshot: seq<Nodes.NodeInfo>, now: Time, timeout: Timeout)
    requires Liveness.DistinctNodes(snapshot)
    ensures var l' := Liveness.MarkExpired(l, snapshot, now, timeout);
      && l.events <= l'.events
      && forall e :: e in l'.events[|l.events|..] <==> TellsOverdue(l, snapshot, now, timeout, e)
  {
    hide Liveness.Flag, Expired, Overdue, TellsOverdue, Liveness.DistinctNodes, Liveness.MarkIfExpired;
    if snapshot == [] {
      NobodyOverdue(l, now, timeout);
    } else {
      var n := |snapshot| - 1;
      var l1 := Liveness.MarkExpired(l, snapshot[..n], now, timeout);
      DistinctFront(snapshot);
      SweepPublishes(l, snapshot[..n], now, timeout);
      Liveness.SweepDecides(l, snapshot[..n], now, timeout, snapshot[n].macString);
      OnePublished(l, l1, snapshot[n], now, timeout);
      forall e
        ensures TellsOverdue(l, snapshot, now, timeout, e) <==>
                TellsOverdue(l, snapshot[..n], now, timeout, e)
                || (Overdue(l, snapshot[n], now, timeout) && e == GoneOffline(snapshot[n]))
      {
        OneMoreTold(l, snapshot, now, timeout, e);
      }
    }
  }

  lemma NobodyOverdue(l: Liveness.Live, now: Time, timeout: Timeout)
    ensures forall e :: !TellsOverdue(l, [], now, timeout, e)
  {
  }

  lemma DistinctFront(snapshot: seq<Nodes.NodeInfo>)
    requires Liveness.DistinctNodes(snapshot) && snapshot != []
    ensures var n := |snapshot| - 1;
      && Liveness.DistinctNodes(snapshot[..n])
      && forall i :: 0 <= i < n ==> snapshot[..n][i].macString != snapshot[n].macString
  {
  }

  lemma OneMoreTold(l: Liveness.Live, snapshot: seq<Nodes.NodeInfo>, now: Time, timeout: Timeout, e: Event)
    requires snapshot != []
    ensures var n := |snapshot| - 1;
      TellsOverdue(l, snapshot, now, timeout, e) <==>
      TellsOverdue(l, snapshot[..n], now, timeout, e)
      || (Overdue(l, snapshot[n], now, timeout) && e == GoneOffline(snapshot[n]))
  {
    hide Overdue;
    var n := |snapshot| - 1;
    if i :| 0 <= i < |snapshot| && Overdue(l, snapshot[i], now, timeout) && e == GoneOffline(snapshot[i]) {
      assert i < n ==> snapshot[..n][i] == snapshot[i];
    }
    if i :| 0 <= i < n && Overdue(l, snapshot[..n][i], now, timeout) && e == GoneOffline(snapshot[..n][i]) {
      assert snapshot[i] == snapshot[..n][i];
    }
  }

  lemma OnePublished(l: Liveness.Live, l1: Liveness.Live, n: Nodes.NodeInfo, now: Time, timeout: Timeout)
    requires l.events <= l1.events
    requires Liveness.Flag(l1.flags, n.macString) <==> Liveness.Flag(l.flags, n.macString)
    ensures var l' := Liveness.MarkIfExpired(l1, n, now, timeout);
      && l.events <= l'.events
      && l'.events[|l.events|..] ==
         l1.events[|l.events|..] + (if Overdue(l, n, now, timeout) then [GoneOffline(n)] else [])
  {
    hide Liveness.Flag, Expired;
    ExpiredMeans(now, n.lastSeen, timeout);
  }

  /** So after a sweep over the registry: the nodes with an entry, a raised flag and a last time too long ago. */
  lemma SweepAnnounces(c: Config, s: State, t: Step, e: Event)
    requires t.SweepOffline? && Enabled(s, t) && Nodes.Canonical(s.nodes)
    ensures var s' := Apply(c, s, t);
      && s' == s.(live := s'.live) && s.live.events <= s'.live.events
      && (e in s'.live.events[|s.live.events|..] <==>
            exists k :: k in s.nodes && Liveness.Flag(s.live.flags, k) && t.now - s.nodes[k].lastSeen > c.timeout
                        && e == NodeOffline(k, s.nodes[k].nodeID, s.nodes[k].name, s.nodes[k].lastSeen))
  {
    hide Liveness.Snapshot, Liveness.MarkExpired, Liveness.DistinctNodes, Liveness.Flag, TellsOverdue, Nodes.Canonical;
    Liveness.SnapshotDistinct(s.nodes, t.order);
    SweepPublishes(s.live, Liveness.Snapshot(s.nodes, t.order), t.now, c.timeout);
    ToldOfRegistry(s.live, s.nodes, t.order, t.now, c.timeout, e);
  }

  lemma ToldOfRegistry(l: Liveness.Live, ns: Nodes.NodeMap, order: seq<string>, now: Time, timeout: Timeout, e: Event)
    requires Nodes.Canonical(ns) && IsOrder(order, ns.Keys)
    ensures TellsOverdue(l, Liveness.Snapshot(ns, order), now, timeout, e) <==>
            exists k :: k in ns && Liveness.Flag(l.flags, k) && now - ns[k].lastSeen > timeout
                        && e == NodeOffline(k, ns[k].nodeID, ns[k].name, ns[k].lastSeen)
  {
    hide Liveness.Snapshot, Liveness.Flag, MacToString;
    var snapshot := Liveness.Snapshot(ns, order);
    Liveness.SnapshotEntries(ns, order);
    if k :| k in ns && Liveness.Flag(l.flags, k) && now - ns[k].lastSeen > timeout
            && e == NodeOffline(k, ns[k].nodeID, ns[k].name, ns[k].lastSeen) {
      assert k in order;
      var i :| 0 <= i < |order| && order[i] == k;
      assert snapshot[i] == ns[k] && Overdue(l, snapshot[i], now, timeout);
    }
    if TellsOverdue(l, snapshot, now, timeout, e) {
      var i :| 0 <= i < |snapshot| && Overdue(l, snapshot[i], now, timeout) && e == GoneOffline(snapshot[i]);
      assert order[i] in order;
    }
  }
}
