// mesh/node_registry.go: what the server knows of each mesh node, keyed by the text form of its MAC.

module Nodes {
  import opened Base
  import opened MacText
  import Messages

  /** The Status field: "" or "replaced". */
  datatype Status = Active | Replaced

  datatype NodeInfo = NodeInfo(
    mac: seq<byte>,
    macString: string,
    adapterType: i32,
    uptime: u32,
    lastSeen: Time,
    hopCount: u32,
    nodeID: byte,
    name: string,
    zone: string,
    status: Status,
    replacedBy: string)

  type NodeMap = map<string, NodeInfo>

  // ---- The operations on values ----

  function NewNode(mac: seq<byte>): NodeInfo
  {
    NodeInfo(mac, MacToString(mac), Messages.ADAPTER_UNKNOWN, 0, ZERO_TIME, 0, 0, "", "", Active, "")
  }

  function EntryFor(ns: NodeMap, mac: seq<byte>): NodeInfo
  {
    if MacToString(mac) in ns then ns[MacToString(mac)] else NewNode(mac)
  }

  function Updated(ns: NodeMap, mac: seq<byte>, adapterType: i32, uptime: u32, hopCount: u32, now: Time): NodeMap
  {
    ns[MacToString(mac) := EntryFor(ns, mac).(adapterType := adapterType, uptime := uptime,
                                              lastSeen := now, hopCount := hopCount)]
  }

  function Assigned(ns: NodeMap, mac: seq<byte>, nodeID: byte, name: string, zone: string): NodeMap
  {
    ns[MacToString(mac) := EntryFor(ns, mac).(nodeID := nodeID, name := name, zone := zone)]
  }

  function MarkedReplaced(ns: NodeMap, mac: seq<byte>, successor: string): NodeMap
  {
    var key := MacToString(mac);
    if key in ns then ns[key := ns[key].(status := Replaced, replacedBy := successor, nodeID := 0)] else ns
  }

  function Removed(ns: NodeMap, mac: seq<byte>): NodeMap
  {
    ns - {MacToString(mac)}
  }

  // ---- Invariants ----

  /** Every entry is filed under the text of its own six-byte address. */
  ghost predicate Canonical(ns: NodeMap)
  {
    forall k :: k in ns ==> |ns[k].mac| == 6 && ns[k].macString == k && MacToString(ns[k].mac) == k
  }

  predicate Owns(ns: NodeMap, k: string, id: byte)
  {
    k in ns && ns[k].nodeID == id && ns[k].status.Active?
  }

  /** At most one active entry per nonzero node ID. */
  ghost predicate UniqueOwner(ns: NodeMap)
  {
    forall k, k', id :: id > 0 && Owns(ns, k, id) && Owns(ns, k', id) ==> k == k'
  }

  /** The entries of these keys, each once, in some order. */
  ghost predicate Lists(r: seq<NodeInfo>, ns: NodeMap, keys: set<string>)
    requires keys <= ns.Keys
  {
    exists order :: IsOrder(order, keys) && ListsInOrder(r, ns, order)
  }

  ghost predicate ListsInOrder(r: seq<NodeInfo>, ns: NodeMap, order: seq<string>)
  {
    |r| == |order| && forall i :: 0 <= i < |r| ==> order[i] in ns && r[i] == ns[order[i]]
  }

  /** An outcome of looking up an ID by ranging over the map. */
  ghost predicate LookupOutcome(ns: NodeMap, id: byte, r: Option<NodeInfo>)
  {
    match r
    case Some(n) => exists k :: Owns(ns, k, id) && ns[k] == n
    case None => forall k :: !Owns(ns, k, id)
  }

  /** With unique owners the outcome does not depend on the order of the map. */
  lemma LookupDeterministic(ns: NodeMap, id: byte, r: Option<NodeInfo>, r': Option<NodeInfo>)
    requires UniqueOwner(ns) && id > 0
    requires LookupOutcome(ns, id, r) && LookupOutcome(ns, id, r')
    ensures r == r'
  {
  }

  // ---- NextFreeNodeID ----

  function UsedIDs(ns: NodeMap): set<byte>
  {
    set k | k in ns && ns[k].nodeID > 0 :: ns[k].nodeID
  }

  function LeastFree(used: set<byte>, from: nat): (id: byte)
    decreases 256 - from
  {
    if from > 255 then 0
    else if from !in used then from
    else LeastFree(used, from + 1)
  }

  function NextFree(ns: NodeMap): byte
  {
    LeastFree(UsedIDs(ns), 1)
  }

  lemma {:induction false} LeastFreeIsLeast(used: set<byte>, from: nat)
    requires 1 <= from
    ensures var id := LeastFree(used, from);
      && (id == 0 <==> forall i: byte :: from <= i ==> i in used)
      && (id > 0 ==> from <= id && id !in used && forall i: byte :: from <= i < id ==> i in used)
    decreases 256 - from
  {
    if from > 255 || from !in used {
    } else {
      LeastFreeIsLeast(used, from + 1);
    }
  }

  predicate Holds(ns: NodeMap, id: byte)
  {
    exists k :: k in ns && ns[k].nodeID == id
  }

  /** The minimum excluded ID: the least of 1 to 255 that no entry holds, or 0 when all are held. */
  lemma NextFreeIsMinimumExcluded(ns: NodeMap)
    ensures NextFree(ns) == 0 <==> forall i: byte :: i > 0 ==> Holds(ns, i)
    ensures NextFree(ns) > 0 ==> !Holds(ns, NextFree(ns)) && forall i: byte :: 0 < i < NextFree(ns) ==> Holds(ns, i)
  {
    hide LeastFree;
    LeastFreeIsLeast(UsedIDs(ns), 1);
    assert forall i: byte :: i > 0 ==> (i in UsedIDs(ns) <==> Holds(ns, i));
  }

  lemma {:induction false} UsedAtMostEntries(ns: NodeMap)
    ensures |UsedIDs(ns)| <= |ns|
    decreases |ns|
  {
    if ns == map[] {
      assert UsedIDs(ns) == {};
    } else {
      var k :| k in ns;
      var rest := ns - {k};
      UsedAtMostEntries(rest);
      forall id | id in UsedIDs(ns)
        ensures id in UsedIDs(rest) + {ns[k].nodeID}
      {
        var k' :| k' in ns && ns[k'].nodeID > 0 && ns[k'].nodeID == id;
        assert k' == k || k' in rest;
      }
      SubsetCard(UsedIDs(ns), UsedIDs(rest) + {ns[k].nodeID});
    }
  }

  lemma {:induction false} SubsetCard<T>(a: set<T>, b: set<T>)
    requires a <= b
    ensures |a| <= |b|
  {
    if a == {} {
    } else {
      var x :| x in a;
      SubsetCard(a - {x}, b - {x});
    }
  }

  function Interval(n: byte): set<byte>
  {
    if n == 0 then {} else Interval(n - 1) + {n}
  }

  lemma {:induction false} IntervalCard(n: byte)
    ensures |Interval(n)| == n
    ensures forall i: byte :: i in Interval(n) <==> 1 <= i <= n
  {
    if n == 0 {
    } else {
      IntervalCard(n - 1);
    }
  }

  /** Pigeonhole: a registry of fewer than 255 entries always has an ID to give. */
  lemma NextFreeExists(ns: NodeMap)
    requires |ns| < 255
    ensures NextFree(ns) != 0
  {
    if NextFree(ns) == 0 {
      LeastFreeIsLeast(UsedIDs(ns), 1);
      IntervalCard(255);
      assert Interval(255) <= UsedIDs(ns);
      SubsetCard(Interval(255), UsedIDs(ns));
      UsedAtMostEntries(ns);
    }
  }

  // ---- Persistence ----

  datatype PersistedNode = PersistedNode(mac: string, info: PersistedInfo)

  datatype PersistedInfo = PersistedInfo(
    adapterType: i32,
    uptime: u32,
    lastSeen: Time,
    hopCount: u32,
    nodeID: byte,
    name: string,
    zone: string,
    status: Status,
    replacedBy: string)

  function ToPersisted(n: NodeInfo): PersistedNode
  {
    PersistedNode(n.macString, PersistedInfo(n.adapterType, n.uptime, n.lastSeen, n.hopCount, n.nodeID,
                                             n.name, n.zone, n.status, n.replacedBy))
  }

  /** An entry whose MAC text does not parse is skipped; the others are filed under that text. */
  function LoadOne(ns: NodeMap, e: PersistedNode): NodeMap
  {
    match StringToMAC(e.mac)
    case None => ns
    case Some(mac) =>
      var i := e.info;
      ns[e.mac := NodeInfo(mac, e.mac, i.adapterType, i.uptime, i.lastSeen, i.hopCount, i.nodeID,
                           i.name, i.zone, i.status, i.replacedBy)]
  }

  function LoadAll(ns: NodeMap, es: seq<PersistedNode>): NodeMap
  {
    if es == [] then ns else LoadOne(LoadAll(ns, es[..|es| - 1]), es[|es| - 1])
  }

  /** What Persist writes when the range loop visits the map in this order. */
  function Entries(ns: NodeMap, order: seq<string>): (es: seq<PersistedNode>)
    requires forall k :: k in order ==> k in ns
    ensures |es| == |order|
  {
    if order == [] then [] else Entries(ns, order[..|order| - 1]) + [ToPersisted(ns[order[|order| - 1]])]
  }

  lemma LoadOneRestores(into: NodeMap, n: NodeInfo)
    requires |n.mac| == 6 && n.macString == MacToString(n.mac)
    ensures LoadOne(into, ToPersisted(n)) == into[n.macString := n]
  {
    hide Colon, StringToMAC;
    ParsersInvert(n.mac);
  }

  function Restrict(ns: NodeMap, order: seq<string>): NodeMap
    requires forall k :: k in order ==> k in ns
  {
    map k | k in order :: ns[k]
  }

  lemma RestrictExtend(ns: NodeMap, order: seq<string>)
    requires order != [] && (forall k :: k in order ==> k in ns)
    ensures var n := |order| - 1; Restrict(ns, order) == Restrict(ns, order[..n])[order[n] := ns[order[n]]]
  {
    assert forall k :: k in order <==> k in order[..|order| - 1] || k == order[|order| - 1];
  }

  lemma RestrictNothing(ns: NodeMap)
    ensures Restrict(ns, []) == map[]
  {
  }

  lemma {:induction false} LoadRestoresPrefix(ns: NodeMap, order: seq<string>)
    requires Canonical(ns) && (forall k :: k in order ==> k in ns)
    ensures LoadAll(map[], Entries(ns, order)) == Restrict(ns, order)
  {
    hide LoadOne, ToPersisted, Restrict, MacToString;
    if order == [] {
      RestrictNothing(ns);
    } else {
      var n := |order| - 1;
      LoadRestoresPrefix(ns, order[..n]);
      var es := Entries(ns, order);
      var e := ToPersisted(ns[order[n]]);
      assert es == Entries(ns, order[..n]) + [e];
      assert es[..n] == Entries(ns, order[..n]) && es[n] == e;
      LoadOneRestores(LoadAll(map[], es[..n]), ns[order[n]]);
      RestrictExtend(ns, order);
    }
  }

  /** Whatever order Persist writes in, loading into an empty registry gives the registry back. */
  lemma PersistRoundTrip(ns: NodeMap, order: seq<string>)
    requires Canonical(ns) && IsOrder(order, ns.Keys)
    ensures LoadAll(map[], Entries(ns, order)) == ns
  {
    hide Canonical, LoadAll, Entries;
    LoadRestoresPrefix(ns, order);
  }

  // ---- The registry ----

  /** A heap record; the registry's maps hold pointers to these. */
  class NodeEntry {
    var info: NodeInfo

    constructor (info: NodeInfo)
      ensures this.info == info
    {
      this.info := info;
    }
  }

  class NodeRegistry {
    var nodes: map<string, NodeEntry>

    /** Entries are not shared between keys. */
    ghost predicate Valid()
      reads this
    {
      forall k, k' :: k in nodes && k' in nodes && k != k' ==> nodes[k] != nodes[k']
    }

    ghost function View(): (ns: NodeMap)
      reads this, nodes.Values
      ensures ns.Keys == nodes.Keys
    {
      map k | k in nodes :: nodes[k].info
    }

    constructor ()
      ensures Valid() && View() == map[] && nodes == map[]
    {
      nodes := map[];
    }

    /** The entry of `mac`, created when missing. */
    method Entry(mac: seq<byte>) returns (node: NodeEntry)
      requires Valid()
      modifies this
      ensures Valid() && MacToString(mac) in nodes && nodes[MacToString(mac)] == node
      ensures node.info == EntryFor(old(View()), mac)
      ensures View() == old(View())[MacToString(mac) := EntryFor(old(View()), mac)]
      ensures fresh(nodes.Values - old(nodes.Values))
    {
      hide MacToString, NewNode;
      var macStr := MacToString(mac);
      if macStr !in nodes {
        node := new NodeEntry(NewNode(mac));
        nodes := nodes[macStr := node];
      }
      node := nodes[macStr];
    }

    method Store(key: string, info: NodeInfo)
      requires Valid() && key in nodes
      modifies nodes[key]
      ensures View() == old(View())[key := info]
    {
      nodes[key].info := info;
    }

    method UpdateNode(mac: seq<byte>, adapterType: i32, uptime: u32, hopCount: u32, now: Time)
      requires Valid()
      modifies this, nodes.Values
      ensures Valid() && View() == Updated(old(View()), mac, adapterType, uptime, hopCount, now)
      ensures fresh(nodes.Values - old(nodes.Values))
    {
      hide MacToString, EntryFor, View;
      ghost var before := View();
      var node := Entry(mac);
      ghost var entry := node.info;
      Store(MacToString(mac), node.info.(adapterType := adapterType, uptime := uptime,
                                         lastSeen := now, hopCount := hopCount));
      MapOverwrite(before, MacToString(mac), entry, node.info);
    }

    method AssignNode(mac: seq<byte>, nodeID: byte, name: string, zone: string)
      requires Valid()
      modifies this, nodes.Values
      ensures Valid() && View() == Assigned(old(View()), mac, nodeID, name, zone)
      ensures fresh(nodes.Values - old(nodes.Values))
    {
      hide MacToString, EntryFor, View;
      ghost var before := View();
      var node := Entry(mac);
      ghost var entry := node.info;
      Store(MacToString(mac), node.info.(nodeID := nodeID, name := name, zone := zone));
      MapOverwrite(before, MacToString(mac), entry, node.info);
    }

    method MarkReplaced(mac: seq<byte>, replacedBy: string)
      requires Valid()
      modifies nodes.Values
      ensures Valid() && View() == MarkedReplaced(old(View()), mac, replacedBy)
    {
      hide MacToString;
      var macStr := MacToString(mac);
      if macStr in nodes {
        Store(macStr, nodes[macStr].info.(status := Replaced, replacedBy := replacedBy, nodeID := 0));
      }
    }

    method RemoveNode(mac: seq<byte>) returns (existed: bool)
      requires Valid()
      modifies this
      ensures Valid() && View() == Removed(old(View()), mac)
      ensures existed <==> MacToString(mac) in old(nodes)
      ensures nodes.Values <= old(nodes.Values)
    {
      var macStr := MacToString(mac);
      existed := macStr in nodes;
      if existed {
        nodes := nodes - {macStr};
      }
    }

    method NextFreeNodeID() returns (id: byte)
      ensures id == NextFree(View())
    {
      var order := RangeOrder(nodes.Keys);
      var used: set<byte> := {};
      for i := 0 to |order|
        invariant used == set k | k in order[..i] && k in nodes && nodes[k].info.nodeID > 0 :: nodes[k].info.nodeID
      {
        var n := nodes[order[i]];
        assert order[..i + 1] == order[..i] + [order[i]];
        if n.info.nodeID > 0 {
          used := used + {n.info.nodeID};
        }
      }
      assert order[..|order|] == order;
      assert used == UsedIDs(View());
      for candidate := 1 to 256
        invariant LeastFree(used, 1) == LeastFree(used, candidate)
      {
        if candidate !in used {
          return candidate;
        }
      }
      id := 0;
    }

    method GetNode(mac: seq<byte>) returns (r: Option<NodeInfo>)
      ensures r == if MacToString(mac) in View() then Some(View()[MacToString(mac)]) else None
    {
      var macStr := MacToString(mac);
      r := if macStr in nodes then Some(nodes[macStr].info) else None;
    }

    method GetNodeByID(id: byte) returns (r: Option<NodeInfo>)
      ensures LookupOutcome(View(), id, r)
    {
      var order := RangeOrder(nodes.Keys);
      for i := 0 to |order|
        invariant forall k :: k in order[..i] ==> !Owns(View(), k, id)
      {
        var n := nodes[order[i]];
        if n.info.nodeID == id && n.info.status != Replaced {
          assert Owns(View(), order[i], id);
          return Some(n.info);
        }
        assert order[..i + 1] == order[..i] + [order[i]];
      }
      assert order[..|order|] == order;
      r := None;
    }

    method GetAllNodes() returns (r: seq<NodeInfo>)
      ensures Lists(r, View(), View().Keys)
    {
      var order := RangeOrder(nodes.Keys);
      r := [];
      for i := 0 to |order|
        invariant |r| == i && forall j :: 0 <= j < i ==> r[j] == nodes[order[j]].info
      {
        r := r + [nodes[order[i]].info];
      }
      assert ListsInOrder(r, View(), order);
    }

    method GetNodesByZone(zone: string) returns (r: seq<NodeInfo>)
      ensures var inZone := set k | k in View() && View()[k].zone == zone && View()[k].status != Replaced;
        Lists(r, View(), inZone)
    {
      var order := RangeOrder(nodes.Keys);
      r := [];
      ghost var inZone := set k | k in View() && View()[k].zone == zone && View()[k].status != Replaced;
      ghost var chosen: seq<string> := [];
      for i := 0 to |order|
        invariant |r| == |chosen| && forall j :: 0 <= j < |r| ==> chosen[j] in nodes && r[j] == nodes[chosen[j]].info
        invariant forall j, j' :: 0 <= j < j' < |chosen| ==> chosen[j] != chosen[j']
        invariant forall k :: k in chosen <==> k in order[..i] && k in inZone
      {
        assert order[..i + 1] == order[..i] + [order[i]];
        var n := nodes[order[i]];
        if n.info.zone == zone && n.info.status != Replaced {
          assert order[i] !in order[..i] && order[i] !in chosen;
          r, chosen := r + [n.info], chosen + [order[i]];
        }
      }
      assert order[..|order|] == order;
      assert IsOrder(chosen, inZone) && ListsInOrder(r, View(), chosen);
    }

    method Persist() returns (es: seq<PersistedNode>)
      ensures exists order :: IsOrder(order, View().Keys) && es == Entries(View(), order)
    {
      hide ToPersisted;
      var order := RangeOrder(nodes.Keys);
      es := [];
      for i := 0 to |order|
        invariant es == Entries(View(), order[..i])
      {
        assert order[..i + 1][..i] == order[..i];
        es := es + [ToPersisted(nodes[order[i]].info)];
      }
      assert order[..|order|] == order;
    }

    method Load(es: seq<PersistedNode>)
      requires Valid()
      modifies this
      ensures Valid() && View() == LoadAll(old(View()), es)
      ensures fresh(nodes.Values - old(nodes.Values))
    {
      hide StringToMAC;
      for i := 0 to |es|
        invariant Valid() && View() == LoadAll(old(View()), es[..i])
        invariant fresh(nodes.Values - old(nodes.Values))
      {
        assert es[..i + 1][..i] == es[..i];
        LoadEntry(es[i]);
      }
      assert es[..|es|] == es;
    }

    method LoadEntry(e: PersistedNode)
      requires Valid()
      modifies this
      ensures Valid() && View() == LoadOne(old(View()), e)
      ensures fresh(nodes.Values - old(nodes.Values))
    {
      hide StringToMAC;
      match StringToMAC(e.mac)
      case None =>
      case Some(mac) =>
        var i := e.info;
        var n := new NodeEntry(NodeInfo(mac, e.mac, i.adapterType, i.uptime, i.lastSeen, i.hopCount, i.nodeID,
                                        i.name, i.zone, i.status, i.replacedBy));
        nodes := nodes[e.mac := n];
    }
  }
}
