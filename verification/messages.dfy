// mesh/constants.go and mesh/message_builder.go, with the frames server.go builds by hand.

module Messages {
  import opened Base
  import opened Wire
  import opened Serial

  const TYPE_ADAPTER_DATA: u32 := 0
  const TYPE_ENROLLMENT: u32 := 2
  const TYPE_SERIAL_CMD_BROADCAST: u32 := 3
  const TYPE_JOIN_ACK: u32 := 4

  const ADAPTER_UNKNOWN: i32 := 0
  const ADAPTER_SERIAL: i32 := 1
  const ADAPTER_PIR: i32 := 2
  const ADAPTER_LED: i32 := 3
  const ADAPTER_RELAY: i32 := 4

  const OP_NODE_ID_SET: byte := 0xC0
  const OP_CONFIG_SET: byte := 0xC1
  const OP_TX_POWER_SET: byte := 0xC2
  const OP_HEALTH_REQ: byte := 0xB0
  const OP_HEALTH_REPORT: byte := 0xB1
  const OP_NODE_HEALTH: byte := 0xB2
  const OP_COMMAND_ACK: byte := 0xE0

  const MAX_DATA: nat := 64
  const BROADCAST_MAC: Mac := [0xFF, 0xFF, 0xFF, 0xFF, 0xFF, 0xFF]

  /** The shared protocol's LED and relay opcodes, whose values this model leaves open. */
  datatype OutputOpcodes = OutputOpcodes(ledSolid: byte, ledOff: byte, relaySet: byte)

  // ---- Messages the server sends ----

  /** The first 64 bytes of `b`, padded with zeros. */
  function Padded(b: seq<byte>): (p: seq<byte>)
    ensures |p| == MAX_DATA
  {
    if |b| >= MAX_DATA then b[..MAX_DATA] else b + Zeros(MAX_DATA - |b|)
  }

  /** byte(adapterType): the low eight bits. */
  function LowByte(n: int): byte
  {
    n % 0x100
  }

  function ConfigSet(target: Mac, adapterType: i32): MeshMessage
  {
    DEFAULT.(dataType := ADAPTER_SERIAL, target := target,
             data := Padded([OP_CONFIG_SET] + target + [LowByte(adapterType)]))
  }

  function HealthRequest(): MeshMessage
  {
    DEFAULT.(dataType := ADAPTER_SERIAL, data := Padded([OP_HEALTH_REQ]))
  }

  function Broadcast(dataType: i32, data: seq<byte>): MeshMessage
  {
    DEFAULT.(messageType := TYPE_SERIAL_CMD_BROADCAST, dataType := dataType, data := Padded(data))
  }

  function AdapterData(target: Mac, dataType: i32, data: seq<byte>): MeshMessage
  {
    DEFAULT.(dataType := dataType, target := target, data := Padded(data))
  }

  function JoinAck(target: Mac, key: Key): MeshMessage
  {
    DEFAULT.(messageType := TYPE_JOIN_ACK, target := target, publicKey := key)
  }

  /** A JOIN_ACK without a key tells the firmware it was rejected. */
  function Rejection(target: Mac): MeshMessage
  {
    DEFAULT.(messageType := TYPE_JOIN_ACK, target := target)
  }

  function NodeIdSet(target: Mac, nodeID: byte): MeshMessage
  {
    Broadcast(ADAPTER_SERIAL, [OP_NODE_ID_SET] + target + [nodeID])
  }

  function NodeData(dataType: i32, data: seq<byte>): MeshMessage
  {
    Broadcast(dataType, data).(protoVersion := 2)
  }

  function TxPower(preset: byte): MeshMessage
  {
    DEFAULT.(dataType := ADAPTER_SERIAL, data := Padded([OP_TX_POWER_SET, preset]))
  }

  /** The shape all of them share. */
  predicate Outbound(m: MeshMessage)
  {
    && m.origin == [] && m.lastHop == [] && m.hopCount == 0 && m.epochNum == 0 && m.seqNum == 0
    && m.messageType <= 4 && m.protoVersion <= 2 && |m.target| <= 6
    && ((|m.data| == MAX_DATA && m.publicKey == [])
        || (m.data == [] && |m.publicKey| <= 32 && m.messageType > 0))
  }

  /** Every frame the server sends is readable, and far below the 16-bit length and the reader's limit. */
  lemma OutboundSize(m: MeshMessage)
    requires Outbound(m)
    ensures Readable(m) && 1 <= |Encode(m)| <= 84
  {
    hide Encode, Varint;
    SizeExact(m);
    Powers();
    SmallVarint(m.messageType);
    SmallVarint(m.protoVersion);
    SmallVarint(|m.target|);
    SmallVarint(|m.data|);
    SmallVarint(|m.publicKey|);
    VarintSize(ZigZag(m.dataType), 5);
  }

  lemma SmallVarint(n: nat)
    requires n < 128
    ensures |Varint(n)| == 1
  {
  }

  lemma SentMessagesAreOutbound(mac: Mac, key: Key, dataType: i32, data: seq<byte>, b: byte)
    ensures Outbound(ConfigSet(mac, dataType)) && Outbound(HealthRequest()) && Outbound(Broadcast(dataType, data))
    ensures Outbound(AdapterData(mac, dataType, data)) && Outbound(JoinAck(mac, key)) && Outbound(Rejection(mac))
    ensures Outbound(NodeIdSet(mac, b)) && Outbound(NodeData(dataType, data)) && Outbound(TxPower(b))
  {
  }

  /** What stands in the frames that are not read back by the two receivers below, byte for byte. */
  lemma FrameLayouts(mac: Mac, dataType: i32, data: seq<byte>, preset: byte)
    ensures var m := HealthRequest(); m.messageType == 0 && m.dataType == 1 && Holds(m.data, [0xB0])
    ensures var m := TxPower(preset); m.messageType == 0 && m.dataType == 1 && Holds(m.data, [0xC2, preset])
    ensures var m := Broadcast(dataType, data);
      && m.messageType == 3 && m.dataType == dataType && m.protoVersion == 0 && m.target == []
      && Holds(m.data, data)
    ensures var m := NodeData(dataType, data);
      && m.messageType == 3 && m.dataType == dataType && m.protoVersion == 2 && m.target == []
      && Holds(m.data, data)
    ensures var m := AdapterData(mac, dataType, data);
      && m.messageType == 0 && m.dataType == dataType && m.protoVersion == 0 && m.target == mac
      && Holds(m.data, data)
  {
  }

  /** A payload of 64 bytes: the head as far as it fits, zeros behind it. */
  ghost predicate Holds(payload: seq<byte>, head: seq<byte>)
  {
    && |payload| == 64
    && forall i :: 0 <= i < 64 ==> payload[i] == if i < |head| then head[i] else 0
  }

  // ---- What a receiver finds in them ----

  // The firmware's side of the wire, in its own numbers: message types 0 for adapter data, 3 for a serial broadcast and
  // 4 for JOIN_ACK, data type 1 for serial, opcode 0xC0 to set a node ID and 0xC1 to set an adapter type.

  /** The node ID carried by an OP_NODE_ID_SET frame for `mac`, if `m` is one. */
  function NodeIdFor(m: MeshMessage, mac: Mac): Option<byte>
  {
    if m.messageType == 3 && m.dataType == 1 && |m.data| >= 8 && m.data[0] == 0xC0 && m.data[1..7] == mac
    then Some(m.data[7])
    else None
  }

  /** The adapter type carried by an OP_CONFIG_SET frame for `mac`, if `m` is one. */
  function ConfigFor(m: MeshMessage, mac: Mac): Option<byte>
  {
    if && m.messageType == 0 && m.dataType == 1 && m.target == mac && |m.data| >= 8
       && m.data[0] == 0xC1 && m.data[1..7] == mac
    then Some(m.data[7])
    else None
  }

  /** The verdict a JOIN_ACK frame carries for `mac`, if `m` is one: a key, or none for a rejection. */
  function JoinVerdictFor(m: MeshMessage, mac: Mac): Option<seq<byte>>
  {
    if m.messageType == 4 && m.target == mac then Some(m.publicKey) else None
  }

  lemma PaddedPrefix(b: seq<byte>)
    requires |b| <= MAX_DATA
    ensures Padded(b)[..|b|] == b
  {
  }

  lemma NodeIdSetCarries(target: Mac, nodeID: byte, mac: Mac)
    ensures NodeIdFor(NodeIdSet(target, nodeID), mac) == if mac == target then Some(nodeID) else None
  {
    var b := [OP_NODE_ID_SET] + target + [nodeID];
    var d := Padded(b);
    PaddedPrefix(b);
    assert d[1..7] == d[..8][1..7] == target;
    assert d[0] == d[..8][0] && d[7] == d[..8][7];
  }

  lemma ConfigSetCarries(target: Mac, adapterType: i32, mac: Mac)
    ensures ConfigFor(ConfigSet(target, adapterType), mac) ==
            if mac == target then Some((adapterType % 0x100) as byte) else None
  {
    var b := [OP_CONFIG_SET] + target + [LowByte(adapterType)];
    var d := Padded(b);
    PaddedPrefix(b);
    assert d[1..7] == d[..8][1..7] == target;
    assert d[0] == d[..8][0] && d[7] == d[..8][7];
  }

  /** No other frame of an approval configures anybody. */
  lemma ApprovalConfiguresNobody(target: Mac, key: Key, id: byte, mac: Mac)
    ensures ConfigFor(JoinAck(target, key), mac) == None && ConfigFor(NodeIdSet(target, id), mac) == None
    ensures ConfigFor(Rejection(target), mac) == None
  {
  }

  /**
   * Config, health request, adapter data, TX power and JOIN_ACK frames never read as an OP_NODE_ID_SET, nor does a
   * broadcast of other data; only the two JOIN_ACKs carry a verdict.
   */
  lemma OtherFramesCarryNothing(target: Mac, key: Key, dataType: i32, data: seq<byte>, id: byte, mac: Mac)
    ensures NodeIdFor(ConfigSet(target, dataType), mac) == None && NodeIdFor(JoinAck(target, key), mac) == None
    ensures NodeIdFor(Rejection(target), mac) == None
    ensures NodeIdFor(HealthRequest(), mac) == None && NodeIdFor(AdapterData(target, dataType, data), mac) == None
    ensures NodeIdFor(TxPower(id), mac) == None
    ensures dataType != ADAPTER_SERIAL || data == [] || data[0] != OP_NODE_ID_SET ==>
      NodeIdFor(Broadcast(dataType, data), mac) == None && NodeIdFor(NodeData(dataType, data), mac) == None
    ensures JoinVerdictFor(ConfigSet(target, dataType), mac) == None
    ensures JoinVerdictFor(NodeIdSet(target, id), mac) == None
    ensures JoinVerdictFor(Broadcast(dataType, data), mac) == None
    ensures JoinVerdictFor(NodeData(dataType, data), mac) == None
    ensures JoinVerdictFor(HealthRequest(), mac) == None && JoinVerdictFor(TxPower(id), mac) == None
    ensures JoinVerdictFor(AdapterData(target, dataType, data), mac) == None
    ensures JoinVerdictFor(JoinAck(target, key), mac) == if mac == target then Some(key) else None
    ensures JoinVerdictFor(Rejection(target), mac) == if mac == target then Some([]) else None
  {
  }

  /** A broadcast assigns nobody an ID exactly if it is not serial data with that opcode in front. */
  lemma BroadcastAssignsNobody(dataType: i32, data: seq<byte>)
    ensures (forall mac: Mac :: NodeIdFor(Broadcast(dataType, data), mac) == None) <==>
            dataType != ADAPTER_SERIAL || data == [] || data[0] != OP_NODE_ID_SET
  {
    var m := Broadcast(dataType, data);
    if dataType == ADAPTER_SERIAL && data != [] && data[0] == OP_NODE_ID_SET {
      var target: Mac := m.data[1..7];
      assert NodeIdFor(m, target) == Some(m.data[7]);
    }
  }

  /** A raw broadcast can carry any payload, also one that assigns an ID behind the registry's back. */
  lemma RawBroadcastAssigns(target: Mac, id: byte, mac: Mac)
    ensures NodeIdFor(Broadcast(ADAPTER_SERIAL, [OP_NODE_ID_SET] + target + [id]), mac) ==
            if mac == target then Some(id) else None
  {
    NodeIdSetCarries(target, id, mac);
  }

  // ---- The builders ----

  datatype BuildError = BadMacLength | DataTooLong

  /** The Go builtin copy(dst[lo:hi], src). */
  method CopyInto(dst: array<byte>, lo: nat, hi: nat, src: seq<byte>)
    requires lo <= hi <= dst.Length
    modifies dst
    ensures var k := if |src| < hi - lo then |src| else hi - lo;
      dst[..] == old(dst[..lo]) + src[..k] + old(dst[lo + k..])
  {
    var k := if |src| < hi - lo then |src| else hi - lo;
    for i := 0 to k
      invariant dst[..] == old(dst[..lo]) + src[..i] + old(dst[lo + i..])
    {
      dst[lo + i] := src[i];
    }
  }

  method NewPayload() returns (payload: array<byte>)
    ensures fresh(payload) && payload.Length == MAX_DATA && payload[..] == Zeros(MAX_DATA)
  {
    payload := new byte[MAX_DATA](_ => 0);
  }

  method BuildConfigSetMessage(targetMAC: seq<byte>, adapterType: i32)
    returns (r: Result<MeshMessage, BuildError>)
    ensures |targetMAC| == 6 ==> r == Ok(ConfigSet(targetMAC, adapterType))
    ensures |targetMAC| != 6 ==> r == Err(BadMacLength)
  {
    if |targetMAC| != 6 {
      return Err(BadMacLength);
    }
    var payload := NewPayload();
    payload[0] := OP_CONFIG_SET;
    CopyInto(payload, 1, 7, targetMAC);
    payload[7] := LowByte(adapterType);
    assert payload[..] == Padded([OP_CONFIG_SET] + targetMAC + [LowByte(adapterType)]);
    r := Ok(DEFAULT.(messageType := TYPE_ADAPTER_DATA, dataType := ADAPTER_SERIAL,
                     target := targetMAC, data := payload[..]));
  }

  method BuildConfigSetBroadcastMessage(adapterType: i32) returns (r: Result<MeshMessage, BuildError>)
    ensures r == Ok(ConfigSet(BROADCAST_MAC, adapterType))
  {
    r := BuildConfigSetMessage(BROADCAST_MAC, adapterType);
  }

  method BuildHealthRequestMessage() returns (m: MeshMessage)
    ensures m == HealthRequest()
  {
    var payload := NewPayload();
    payload[0] := OP_HEALTH_REQ;
    assert payload[..] == Padded([OP_HEALTH_REQ]);
    m := DEFAULT.(messageType := TYPE_ADAPTER_DATA, dataType := ADAPTER_SERIAL, data := payload[..]);
  }

  method BuildBroadcastMessage(dataType: i32, data: seq<byte>) returns (r: Result<MeshMessage, BuildError>)
    ensures |data| <= MAX_DATA ==> r == Ok(Broadcast(dataType, data))
    ensures |data| > MAX_DATA ==> r == Err(DataTooLong)
  {
    if |data| > MAX_DATA {
      return Err(DataTooLong);
    }
    var payload := NewPayload();
    CopyInto(payload, 0, MAX_DATA, data);
    assert payload[..] == Padded(data);
    r := Ok(DEFAULT.(messageType := TYPE_SERIAL_CMD_BROADCAST, dataType := dataType, data := payload[..]));
  }

  method BuildAdapterDataMessage(targetMAC: seq<byte>, dataType: i32, data: seq<byte>)
    returns (r: Result<MeshMessage, BuildError>)
    ensures |targetMAC| == 6 && |data| <= MAX_DATA ==> r == Ok(AdapterData(targetMAC, dataType, data))
    ensures |targetMAC| != 6 ==> r == Err(BadMacLength)
    ensures |targetMAC| == 6 && |data| > MAX_DATA ==> r == Err(DataTooLong)
  {
    if |targetMAC| != 6 {
      return Err(BadMacLength);
    }
    if |data| > MAX_DATA {
      return Err(DataTooLong);
    }
    var payload := NewPayload();
    CopyInto(payload, 0, MAX_DATA, data);
    assert payload[..] == Padded(data);
    r := Ok(DEFAULT.(messageType := TYPE_ADAPTER_DATA, dataType := dataType,
                     target := targetMAC, data := payload[..]));
  }

  /** The OP_NODE_ID_SET frame of ApproveEnrollment. */
  method BuildNodeIdSetMessage(target: Mac, nodeID: byte) returns (m: MeshMessage)
    ensures m == NodeIdSet(target, nodeID)
  {
    var payload := NewPayload();
    payload[0] := OP_NODE_ID_SET;
    CopyInto(payload, 1, 7, target);
    payload[7] := nodeID;
    assert payload[..] == Padded([OP_NODE_ID_SET] + target + [nodeID]);
    m := DEFAULT.(messageType := TYPE_SERIAL_CMD_BROADCAST, dataType := ADAPTER_SERIAL, data := payload[..]);
  }

  /** The frame of SendNodeData: the payload is cut or padded to 64 bytes. */
  method BuildNodeDataMessage(dataType: i32, data: seq<byte>) returns (m: MeshMessage)
    ensures m == NodeData(dataType, data)
  {
    var payload := NewPayload();
    CopyInto(payload, 0, MAX_DATA, data);
    assert payload[..] == Padded(data);
    m := DEFAULT.(protoVersion := 2, messageType := TYPE_SERIAL_CMD_BROADCAST, dataType := dataType,
                  data := payload[..]);
  }

  // ---- Health reports ----

  datatype HealthReport = HealthReport(mac: Mac, adapterType: i32, uptime: u32, hopCount: u32)

  datatype HealthError = NotSerial | TooShort | WrongOpcode

  /** int32(int8(b)). */
  function SignedByte(b: byte): i32
  {
    if b < 0x80 then b else b - 0x100
  }

  function LittleEndian32(b0: byte, b1: byte, b2: byte, b3: byte): u32
  {
    b0 as int + 0x100 * b1 as int + 0x1_0000 * b2 as int + 0x100_0000 * b3 as int
  }

  function ParseHealthReport(m: MeshMessage): Result<HealthReport, HealthError>
  {
    if m.dataType != ADAPTER_SERIAL then Err(NotSerial)
    else if |m.data| < 12 then Err(TooShort)
    else if m.data[0] != OP_HEALTH_REPORT && m.data[0] != OP_NODE_HEALTH then Err(WrongOpcode)
    else Ok(HealthReport(m.data[2..8], SignedByte(m.data[1]),
                         LittleEndian32(m.data[8], m.data[9], m.data[10], m.data[11]), m.hopCount))
  }

  lemma LittleEndianInverse(n: u32)
    ensures LittleEndian32(n % 0x100, n / 0x100 % 0x100, n / 0x100 / 0x100 % 0x100, n / 0x100 / 0x100 / 0x100) == n
  {
    var a := n / 0x100;
    var b := a / 0x100;
    var c := b / 0x100;
    assert n == 0x100 * a + n % 0x100 && a == 0x100 * b + a % 0x100 && b == 0x100 * c + b % 0x100;
  }

  /** The firmware's layout: opcode, adapter type, MAC, little-endian uptime, any padding. */
  function HealthPayload(opcode: byte, adapterType: i32, mac: Mac, uptime: u32, padding: seq<byte>): seq<byte>
  {
    [opcode, LowByte(adapterType)] + mac
    + [uptime % 0x100, uptime / 0x100 % 0x100, uptime / 0x100 / 0x100 % 0x100,
       uptime / 0x100 / 0x100 / 0x100] + padding
  }

  lemma HealthReportRoundTrip(m: MeshMessage, opcode: byte, adapterType: i32, mac: Mac, uptime: u32,
                              padding: seq<byte>)
    requires m.dataType == ADAPTER_SERIAL
    requires opcode == OP_HEALTH_REPORT || opcode == OP_NODE_HEALTH
    requires -0x80 <= adapterType < 0x80
    requires m.data == HealthPayload(opcode, adapterType, mac, uptime, padding)
    ensures ParseHealthReport(m) == Ok(HealthReport(mac, adapterType, uptime, m.hopCount))
  {
    hide LittleEndian32;
    assert m.data[2..8] == mac;
    LittleEndianInverse(uptime);
  }
}
