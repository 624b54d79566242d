// mesh/command_store.go: commands awaiting an acknowledgement, found again by a two-byte token.

module Commands {
  import opened Base
  import opened Messages
  import Uuid

  datatype CommandStatus = Pending | Acked | Timeout

  datatype Command = Command(
    id: string,
    nodeID: byte,
    action: string,
    sentAt: Time,
    status: CommandStatus,
    ackedAt: Option<Time>)

  type CommandMap = map<string, Command>

  // ---- The operations on values ----

  function Stored(cm: CommandMap, cmd: Command): CommandMap
  {
    cm[cmd.id := cmd]
  }

  function Acknowledged(cm: CommandMap, id: string, now: Time): CommandMap
  {
    if id in cm then cm[id := cm[id].(status := Acked, ackedAt := Some(now))] else cm
  }

  /** A pending command whose UUID ends in the token. */
  predicate Matches(cm: CommandMap, id: string, t0: byte, t1: byte)
  {
    && id in cm && cm[id].status.Pending?
    && var u := Uuid.Parse(id); u.Some? && u.value[14] == t0 && u.value[15] == t1
  }

  /** A command AckByToken may choose when it ranges over the map. */
  ghost predicate TokenOutcome(cm: CommandMap, t0: byte, t1: byte, r: Option<string>)
  {
    match r
    case Some(id) => Matches(cm, id, t0, t1)
    case None => forall id :: !Matches(cm, id, t0, t1)
  }

  predicate IsAcked(cm: CommandMap, id: string)
  {
    id in cm && cm[id].status.Acked?
  }

  lemma AddKeepsAcks(cm: CommandMap, cmd: Command, id: string)
    requires cmd.id !in cm && cmd.status.Pending?
    ensures IsAcked(Stored(cm, cmd), id) <==> IsAcked(cm, id)
  {
  }

  /** A token acknowledges one more command, never one acknowledged before. */
  lemma TokenAcksOne(cm: CommandMap, t0: byte, t1: byte, chosen: string, now: Time, id: string)
    requires TokenOutcome(cm, t0, t1, Some(chosen))
    ensures !IsAcked(cm, chosen)
    ensures IsAcked(Acknowledged(cm, chosen, now), id) <==> id == chosen || IsAcked(cm, id)
  {
  }

  // ---- The payload of a command ----

  datatype CommandError = BadColour | UnknownAction

  /** Opcode and arguments of an action. */
  function Head(ops: OutputOpcodes, action: string, colour: seq<byte>): Result<seq<byte>, CommandError>
  {
    if action == "led_solid" then
      if |colour| != 3 then Err(BadColour) else Ok([ops.ledSolid] + colour)
    else if action == "led_off" then Ok([ops.ledOff])
    else if action == "relay_on" then Ok([ops.relaySet, 1])
    else if action == "relay_off" then Ok([ops.relaySet, 0])
    else Err(UnknownAction)
  }

  lemma HeadIsShort(ops: OutputOpcodes, action: string, colour: seq<byte>)
    ensures Head(ops, action, colour).Ok? ==> 1 <= |Head(ops, action, colour).value| <= 4
  {
  }

  /** The head, zeros, and the last two bytes of the UUID at the end. */
  function Payload(head: seq<byte>, u: UuidBytes): (p: seq<byte>)
    requires |head| <= MAX_DATA - 2
    ensures |p| == MAX_DATA
  {
    head + Zeros(MAX_DATA - 2 - |head|) + [u[14], u[15]]
  }

  method BuildPayload(head: seq<byte>, u: UuidBytes) returns (p: seq<byte>)
    requires |head| <= MAX_DATA - 2
    ensures p == Payload(head, u)
  {
    var payload := NewPayload();
    CopyInto(payload, 0, MAX_DATA, head);
    assert payload[..] == head + Zeros(MAX_DATA - |head|);
    payload[MAX_DATA - 2] := u[14];
    payload[MAX_DATA - 1] := u[15];
    p := payload[..];
    assert p[..MAX_DATA - 2] == head + Zeros(MAX_DATA - 2 - |head|);
    assert p == p[..MAX_DATA - 2] + [u[14], u[15]];
  }

  /** The payload, opcode 0xE0, of a node that echoes the token it finds at the end of a payload. */
  function EchoOf(p: seq<byte>): seq<byte>
    requires |p| == MAX_DATA
  {
    [0xE0, p[62], p[63]]
  }

  ghost predicate SharesToken(cm: CommandMap, id: string, other: string)
  {
    && other != id && other in cm && cm[other].status.Pending?
    && var u, v := Uuid.Parse(id), Uuid.Parse(other);
      u.Some? && v.Some? && u.value[14] == v.value[14] && u.value[15] == v.value[15]
  }

  /** Every outcome of echoing a sent command's token is that command exactly when no other pending one shares it. */
  lemma EchoFindsCommand(cm: CommandMap, head: seq<byte>, u: UuidBytes)
    requires |head| <= MAX_DATA - 2
    requires Uuid.Format(u) in cm && cm[Uuid.Format(u)].status.Pending?
    ensures var echo := EchoOf(Payload(head, u));
      (forall r :: TokenOutcome(cm, echo[1], echo[2], r) ==> r == Some(Uuid.Format(u))) <==>
      !exists other :: SharesToken(cm, Uuid.Format(u), other)
  {
    hide Uuid.Format, Uuid.Parse;
    var id := Uuid.Format(u);
    Uuid.RoundTrip(u);
    var p := Payload(head, u);
    assert p[MAX_DATA - 2] == u[14] && p[MAX_DATA - 1] == u[15];
    assert EchoOf(p)[1] == u[14] && EchoOf(p)[2] == u[15];
    assert Matches(cm, id, u[14], u[15]);
    if other :| SharesToken(cm, id, other) {
      assert TokenOutcome(cm, u[14], u[15], Some(other));
    } else {
      forall r | TokenOutcome(cm, u[14], u[15], r)
        ensures r == Some(id)
      {
        assert r.Some? ==> r.value == id || SharesToken(cm, id, r.value);
      }
    }
  }

  // ---- The store ----

  /** A heap record; the store's map holds pointers to these. */
  class PendingCommand {
    var info: Command

    constructor (info: Command)
      ensures this.info == info
    {
      this.info := info;
    }
  }

  class CommandStore {
    var commands: map<string, PendingCommand>

    ghost predicate Valid()
      reads this
    {
      forall k, k' :: k in commands && k' in commands && k != k' ==> commands[k] != commands[k']
    }

    ghost function View(): (cm: CommandMap)
      reads this, commands.Values
      ensures cm.Keys == commands.Keys
    {
      map k | k in commands :: commands[k].info
    }

    constructor ()
      ensures Valid() && View() == map[] && commands == map[]
    {
      commands := map[];
    }

    method Add(cmd: Command)
      requires Valid()
      modifies this
      ensures Valid() && View() == Stored(old(View()), cmd)
      ensures fresh(commands.Values - old(commands.Values))
    {
      var record := new PendingCommand(cmd);
      commands := commands[cmd.id := record];
    }

    method Ack(commandID: string, now: Time) returns (found: bool)
      requires Valid()
      modifies commands.Values
      ensures Valid() && View() == Acknowledged(old(View()), commandID, now)
      ensures found <==> commandID in old(View())
    {
      found := commandID in commands;
      if found {
        var cmd := commands[commandID];
        cmd.info := cmd.info.(status := Acked, ackedAt := Some(now));
      }
    }

    method Get(commandID: string) returns (r: Option<Command>)
      ensures r == if commandID in View() then Some(View()[commandID]) else None
    {
      r := if commandID in commands then Some(commands[commandID].info) else None;
    }

    method AckByToken(t0: byte, t1: byte, now: Time) returns (r: Option<string>)
      requires Valid()
      modifies commands.Values
      ensures Valid() && TokenOutcome(old(View()), t0, t1, r)
      ensures View() == if r.Some? then Acknowledged(old(View()), r.value, now) else old(View())
    {
      hide Uuid.Parse;
      var order := RangeOrder(commands.Keys);
      for i := 0 to |order|
        invariant View() == old(View())
        invariant forall id :: id in order[..i] ==> !Matches(View(), id, t0, t1)
      {
        assert order[..i + 1] == order[..i] + [order[i]];
        var id := order[i];
        if commands[id].info.status == Pending {
          var u := Uuid.Parse(id);
          if u.Some? && u.value[14] == t0 && u.value[15] == t1 {
            assert Matches(View(), id, t0, t1);
            var found := Ack(id, now);
            return Some(id);
          }
        }
      }
      assert order[..|order|] == order;
      r := None;
    }
  }
}
