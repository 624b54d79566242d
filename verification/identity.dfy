// Who owns a node ID, and where ReplacedBy leads, across registry updates and approvals.

module Identity {
  import opened Base
  import opened MacText
  import opened Nodes
  import opened Server

  /** What every reachable registry satisfies. */
  ghost predicate Consistent(ns: NodeMap)
  {
    && Canonical(ns)
    && UniqueOwner(ns)
    && (forall k :: k in ns && ns[k].status.Active? ==> ns[k].replacedBy == "")
  }

  lemma EmptyConsistent()
    ensures Consistent(map[])
  {
  }

  lemma UpdatedConsistent(ns: NodeMap, mac: Mac, adapterType: i32, uptime: u32, hopCount: u32, now: Time)
    requires Consistent(ns)
    ensures Consistent(Updated(ns, mac, adapterType, uptime, hopCount, now))
  {
    hide MacToString;
    var ns' := Updated(ns, mac, adapterType, uptime, hopCount, now);
    forall k, id | id > 0
      ensures Owns(ns', k, id) <==> Owns(ns, k, id)
    {
    }
  }

  /** A PATCH assigns a node the ID it has. */
  lemma ReassignedConsistent(ns: NodeMap, n: NodeInfo, id: byte, name: string, zone: string)
    requires Consistent(ns) && id > 0 && LookupOutcome(ns, id, Some(n))
    ensures Consistent(Assigned(ns, n.mac, n.nodeID, name, zone))
  {
    hide MacToString;
    var ns' := Assigned(ns, n.mac, n.nodeID, name, zone);
    forall k, i | i > 0
      ensures Owns(ns', k, i) <==> Owns(ns, k, i)
    {
    }
  }

  lemma RemovedConsistent(ns: NodeMap, mac: seq<byte>)
    requires Consistent(ns)
    ensures Consistent(Removed(ns, mac))
  {
    hide MacToString;
    var ns' := Removed(ns, mac);
    forall k, id | Owns(ns', k, id)
      ensures Owns(ns, k, id)
    {
    }
  }

  /** Assigning an ID that no other active entry holds. */
  lemma AssignedConsistent(ns: NodeMap, mac: Mac, id: byte, name: string, zone: string)
    requires Consistent(ns)
    requires id > 0 ==> forall k :: Owns(ns, k, id) ==> k == MacToString(mac)
    ensures Consistent(Assigned(ns, mac, id, name, zone))
  {
    hide MacToString;
    var ns' := Assigned(ns, mac, id, name, zone);
    forall k, i | i > 0 && Owns(ns', k, i)
      ensures k == MacToString(mac) || Owns(ns, k, i)
      ensures k == MacToString(mac) ==> i == id
    {
    }
  }

  ghost predicate UniqueApartFrom(ns: NodeMap, key: string)
  {
    forall k, k', id ::
      (id > 0 && Owns(ns, k, id) && Owns(ns, k', id) && k != key && k' != key) ==> k == k'
  }

  lemma ReplacedConsistent(ns: NodeMap, mac: Mac, successor: string)
    requires Canonical(ns) && MacToString(mac) in ns
    requires UniqueApartFrom(ns, MacToString(mac))
    requires forall k :: k in ns && ns[k].status.Active? ==> ns[k].replacedBy == ""
    ensures Consistent(MarkedReplaced(ns, mac, successor))
  {
    hide MacToString;
    var ns' := MarkedReplaced(ns, mac, successor);
    forall k, id | Owns(ns', k, id)
      ensures Owns(ns, k, id) && k != MacToString(mac)
    {
    }
  }

  /** The owner a lookup found is the only one. */
  lemma OwnerKey(ns: NodeMap, id: byte, n: NodeInfo)
    requires Consistent(ns) && id > 0 && LookupOutcome(ns, id, Some(n))
    ensures |n.mac| == 6 && MacToString(n.mac) in ns && ns[MacToString(n.mac)] == n
    ensures forall k :: Owns(ns, k, id) <==> k == MacToString(n.mac)
  {
    hide MacToString;
  }

  lemma ApprovedConsistent(ns: NodeMap, mac: Mac, p: ApprovalParams, owner: Option<NodeInfo>)
    requires Consistent(ns) && (p.nodeID > 0 ==> LookupOutcome(ns, p.nodeID, owner))
    ensures Consistent(ApprovedNodes(ns, mac, p, owner))
  {
    hide MacToString, Canonical, NextFree, LookupOutcome;
    var displaced := Displaced(p, mac, owner);
    var id := AssignedID(ns, p);
    var name, zone := InheritedName(p, displaced), InheritedZone(p, displaced);
    if displaced.None? {
      assert id > 0 ==> forall k :: Owns(ns, k, id) ==> k == MacToString(mac) by {
        if p.nodeID == 0 {
          NextFreeIsMinimumExcluded(ns);
        } else if owner.Some? {
          OwnerKey(ns, id, owner.value);
        } else {
          NoOwner(ns, id);
        }
      }
      AssignedConsistent(ns, mac, id, name, zone);
    } else {
      HotswapConsistent(ns, mac, owner.value, id, name, zone);
    }
  }

  lemma NoOwner(ns: NodeMap, id: byte)
    requires LookupOutcome(ns, id, None)
    ensures forall k :: !Owns(ns, k, id)
  {
  }

  lemma HotswapConsistent(ns: NodeMap, mac: Mac, n: NodeInfo, id: byte, name: string, zone: string)
    requires Consistent(ns) && id > 0 && LookupOutcome(ns, id, Some(n)) && n.mac != mac
    ensures Consistent(MarkedReplaced(Assigned(ns, mac, id, name, zone), n.mac, MacToString(mac)))
  {
    hide MacToString, LookupOutcome;
    OwnerKey(ns, id, n);
    MacToStringInjectiveOn(mac, n.mac);
    var key, prev := MacToString(mac), MacToString(n.mac);
    var ns' := Assigned(ns, mac, id, name, zone);
    forall k, i | i > 0 && Owns(ns', k, i) && k != key && k != prev
      ensures Owns(ns, k, i) && i != id
    {
    }
    forall k, i | i > 0 && Owns(ns', k, i) && k == key
      ensures i == id
    {
    }
    ReplacedConsistent(ns', n.mac, key);
  }

  lemma MacToStringInjectiveOn(a: seq<byte>, b: seq<byte>)
    ensures MacToString(a) == MacToString(b) <==> a == b
  {
    if MacToString(a) == MacToString(b) {
      MacToStringInjective(a, b);
    }
  }

  // ---- What an explicit approval achieves ----

  /** The ID then belongs to the new node, found by every lookup, exactly when its entry was not replaced before. */
  lemma ExplicitApprovalHandsOver(ns: NodeMap, mac: Mac, p: ApprovalParams, owner: Option<NodeInfo>,
                                  r: Option<NodeInfo>)
    requires Consistent(ns) && p.nodeID > 0 && LookupOutcome(ns, p.nodeID, owner)
    requires LookupOutcome(ApprovedNodes(ns, mac, p, owner), p.nodeID, r)
    ensures var ns' := ApprovedNodes(ns, mac, p, owner);
      if EntryFor(ns, mac).status.Active? then r == Some(ns'[MacToString(mac)]) else r == None
  {
    hide MacToString, Consistent, LookupOutcome, Displaced;
    ApprovedConsistent(ns, mac, p, owner);
    var ns' := ApprovedNodes(ns, mac, p, owner);
    ApprovedEntry(ns, mac, p, owner);
    OnlyOwner(ns, mac, p, owner);
    LookupAgrees(ns', MacToString(mac), p.nodeID, r);
  }

  lemma LookupAgrees(ns: NodeMap, key: string, id: byte, r: Option<NodeInfo>)
    requires LookupOutcome(ns, id, r) && (forall k :: Owns(ns, k, id) ==> k == key)
    ensures if Owns(ns, key, id) then r == Some(ns[key]) else r == None
  {
  }

  /** The new node's entry: unspecified name and zone come from the displaced node, the rest from its own past. */
  lemma ApprovedEntry(ns: NodeMap, mac: Mac, p: ApprovalParams, owner: Option<NodeInfo>)
    requires Consistent(ns) && (p.nodeID > 0 ==> LookupOutcome(ns, p.nodeID, owner))
    ensures var displaced := Displaced(p, mac, owner);
      ApprovedNodes(ns, mac, p, owner)[MacToString(mac)] ==
      EntryFor(ns, mac).(nodeID := AssignedID(ns, p),
                         name := if p.name == "" && displaced.Some? then displaced.value.name else p.name,
                         zone := if p.zone == "" && displaced.Some? then displaced.value.zone else p.zone)
  {
    hide MacToString, LookupOutcome;
    if owner.Some? {
      MacToStringInjectiveOn(mac, owner.value.mac);
    }
  }

  lemma OnlyOwner(ns: NodeMap, mac: Mac, p: ApprovalParams, owner: Option<NodeInfo>)
    requires Consistent(ns) && p.nodeID > 0 && LookupOutcome(ns, p.nodeID, owner)
    ensures forall k :: Owns(ApprovedNodes(ns, mac, p, owner), k, p.nodeID) ==> k == MacToString(mac)
  {
    hide MacToString, LookupOutcome, Canonical, UniqueOwner;
    var ns' := ApprovedNodes(ns, mac, p, owner);
    if owner.Some? {
      OwnerKey(ns, p.nodeID, owner.value);
      MacToStringInjectiveOn(mac, owner.value.mac);
    } else {
      NoOwner(ns, p.nodeID);
    }
    forall k | Owns(ns', k, p.nodeID) && k != MacToString(mac)
      ensures Owns(ns, k, p.nodeID)
    {
    }
  }

  /** The displaced node keeps its entry for audit, without an ID, pointing at its successor. */
  lemma DisplacedEntry(ns: NodeMap, mac: Mac, p: ApprovalParams, owner: Option<NodeInfo>)
    requires Consistent(ns) && p.nodeID > 0 && LookupOutcome(ns, p.nodeID, owner)
    requires Displaced(p, mac, owner).Some?
    ensures var prev := MacToString(owner.value.mac);
      ApprovedNodes(ns, mac, p, owner)[prev] ==
      ns[prev].(status := Replaced, replacedBy := MacToString(mac), nodeID := 0)
  {
    hide MacToString, LookupOutcome;
    OwnerKey(ns, p.nodeID, owner.value);
    MacToStringInjectiveOn(mac, owner.value.mac);
  }

  // ---- Replaced entries without an ID ----

  /** Replaced entries hold no ID, so nonzero IDs are unique over all entries. */
  ghost predicate Retired(ns: NodeMap)
  {
    forall k :: k in ns && ns[k].status.Replaced? ==> ns[k].nodeID == 0
  }

  lemma RetiredIDsUnique(ns: NodeMap, k: string, k': string)
    requires UniqueOwner(ns) && Retired(ns)
    requires k in ns && k' in ns && ns[k].nodeID == ns[k'].nodeID > 0
    ensures k == k'
  {
    assert Owns(ns, k, ns[k].nodeID) && Owns(ns, k', ns[k].nodeID);
  }

  /** An approval keeps that so exactly when the approved node's entry is not itself replaced, or it gets no ID. */
  lemma ApprovalRetires(ns: NodeMap, mac: Mac, p: ApprovalParams, owner: Option<NodeInfo>)
    requires Consistent(ns) && Retired(ns) && (p.nodeID > 0 ==> LookupOutcome(ns, p.nodeID, owner))
    ensures Retired(ApprovedNodes(ns, mac, p, owner)) <==> EntryFor(ns, mac).status.Active? || AssignedID(ns, p) == 0
  {
    hide MacToString, LookupOutcome, NextFree, Canonical, UniqueOwner;
    ApprovedEntry(ns, mac, p, owner);
    ApprovedElsewhere(ns, mac, p, owner);
  }

  /** Other entries are untouched or newly replaced. */
  lemma ApprovedElsewhere(ns: NodeMap, mac: Mac, p: ApprovalParams, owner: Option<NodeInfo>)
    requires Consistent(ns) && (p.nodeID > 0 ==> LookupOutcome(ns, p.nodeID, owner))
    ensures var ns' := ApprovedNodes(ns, mac, p, owner);
      forall k :: k != MacToString(mac) ==>
        && (k in ns' <==> k in ns)
        && (k in ns ==> ns'[k] == if Displaced(p, mac, owner).Some? && k == MacToString(owner.value.mac)
                                  then ns[k].(status := Replaced, replacedBy := MacToString(mac), nodeID := 0)
                                  else ns[k])
  {
    hide MacToString, LookupOutcome, NextFree;
    if Displaced(p, mac, owner).Some? {
      OwnerKey(ns, p.nodeID, owner.value);
      MacToStringInjectiveOn(mac, owner.value.mac);
    }
  }

  // ---- Following ReplacedBy ----

  /** The entry that replaced this one, if any. */
  function Next(ns: NodeMap, k: string): Option<string>
  {
    if k in ns && ns[k].replacedBy != "" then Some(ns[k].replacedBy) else None
  }

  function Follow(ns: NodeMap, k: string, n: nat): Option<string>
  {
    if n == 0 then Some(k)
    else
      match Follow(ns, k, n - 1)
      case Some(k') => Next(ns, k')
      case None => None
  }

  ghost predicate Ends(ns: NodeMap, k: string)
  {
    exists n: nat :: Follow(ns, k, n).None?
  }

  /** Following ReplacedBy comes to an end from anywhere. */
  ghost predicate Acyclic(ns: NodeMap)
  {
    forall k :: Ends(ns, k)
  }

  lemma EmptyAcyclic()
    ensures Acyclic(map[])
  {
    forall k
      ensures Ends(map[], k)
    {
      assert Follow(map[], k, 0) == Some(k);
      assert Follow(map[], k, 1) == None;
    }
  }

  ghost predicate Leads(ns: NodeMap, from: string, to: string)
  {
    exists n: nat :: Follow(ns, from, n) == Some(to)
  }

  lemma {:induction false} FollowSum(ns: NodeMap, k: string, m: nat, n: nat)
    requires Follow(ns, k, m).Some?
    ensures Follow(ns, k, m + n) == Follow(ns, Follow(ns, k, m).value, n)
    decreases n
  {
    if n == 0 {
    } else {
      FollowSum(ns, k, m, n - 1);
    }
  }

  lemma {:induction false} FollowStops(ns: NodeMap, k: string, m: nat, n: nat)
    requires Follow(ns, k, m).None? && m <= n
    ensures Follow(ns, k, n).None?
    decreases n
  {
    if m == n {
    } else {
      FollowStops(ns, k, m, n - 1);
    }
  }

  lemma {:induction false} SameLinksSameFollow(ns: NodeMap, ns': NodeMap, k: string, n: nat)
    requires forall j :: Next(ns', j) == Next(ns, j)
    ensures Follow(ns', k, n) == Follow(ns, k, n)
  {
    if n == 0 {
    } else {
      SameLinksSameFollow(ns, ns', k, n - 1);
    }
  }

  lemma SameLinksAcyclic(ns: NodeMap, ns': NodeMap)
    requires forall j :: Next(ns', j) == Next(ns, j)
    ensures Acyclic(ns') <==> Acyclic(ns)
  {
    hide Next;
    forall k
      ensures Ends(ns', k) <==> Ends(ns, k)
    {
      forall n: nat
        ensures Follow(ns', k, n) == Follow(ns, k, n)
      {
        SameLinksSameFollow(ns, ns', k, n);
      }
    }
  }

  /** `ns'` links `a`, which led nowhere, to `b`; everything else is as in `ns`. */
  ghost predicate LinkAdded(ns: NodeMap, ns': NodeMap, a: string, b: string)
  {
    && Next(ns, a) == None && Next(ns', a) == Some(b)
    && (forall k :: k != a ==> Next(ns', k) == Next(ns, k))
  }

  /** Until it comes upon `a` the new walk is the old one. */
  lemma {:induction false} FollowBefore(ns: NodeMap, ns': NodeMap, a: string, b: string, k: string, n: nat)
    requires LinkAdded(ns, ns', a, b) && (forall i: nat :: i < n ==> Follow(ns, k, i) != Some(a))
    ensures Follow(ns', k, n) == Follow(ns, k, n)
  {
    hide Next;
    if n == 0 {
    } else {
      FollowBefore(ns, ns', a, b, k, n - 1);
    }
  }

  /** A walk that never meets `a` ends as it did. */
  lemma EndsWithout(ns: NodeMap, ns': NodeMap, a: string, b: string, k: string)
    requires LinkAdded(ns, ns', a, b) && Ends(ns, k) && !Leads(ns, k, a)
    ensures Ends(ns', k)
  {
    hide LinkAdded;
    var n: nat :| Follow(ns, k, n).None?;
    FollowBefore(ns, ns', a, b, k, n);
  }

  /** A walk that meets `a` continues from `b`. */
  lemma EndsThrough(ns: NodeMap, ns': NodeMap, a: string, b: string, k: string, n: nat)
    requires LinkAdded(ns, ns', a, b) && Ends(ns', b)
    requires Follow(ns, k, n) == Some(a) && (forall i: nat :: i < n ==> Follow(ns, k, i) != Some(a))
    ensures Ends(ns', k)
  {
    hide Follow;
    FollowBefore(ns, ns', a, b, k, n);
    assert Follow(ns', k, n) == Some(a);
    FollowOne(ns', k, n);
    assert Follow(ns', k, n + 1) == Some(b);
    var m: nat :| Follow(ns', b, m).None?;
    FollowSum(ns', k, n + 1, m);
  }

  lemma FollowOne(ns: NodeMap, k: string, n: nat)
    requires Follow(ns, k, n).Some?
    ensures Follow(ns, k, n + 1) == Next(ns, Follow(ns, k, n).value)
  {
  }

  lemma {:induction false} FirstVisit(ns: NodeMap, k: string, a: string, n: nat) returns (m: nat)
    requires Follow(ns, k, n) == Some(a)
    ensures m <= n && Follow(ns, k, m) == Some(a) && forall i: nat :: i < m ==> Follow(ns, k, i) != Some(a)
  {
    hide Follow;
    if i: nat :| i < n && Follow(ns, k, i) == Some(a) {
      m := FirstVisit(ns, k, a, i);
    } else {
      m := n;
    }
  }

  /** Walking round a cycle never ends. */
  lemma {:induction false} CycleNeverEnds(ns: NodeMap, k: string, length: nat, n: nat)
    requires length > 0 && Follow(ns, k, length) == Some(k)
    ensures Follow(ns, k, n).Some?
    decreases n
  {
    hide Follow;
    if n < length {
      if Follow(ns, k, n).None? {
        FollowStops(ns, k, n, length);
      }
    } else {
      FollowSum(ns, k, length, n - length);
      CycleNeverEnds(ns, k, length, n - length);
    }
  }

  /** A new link keeps the chains acyclic exactly when its target does not lead back to its source. */
  lemma LinkAcyclic(ns: NodeMap, ns': NodeMap, a: string, b: string)
    requires Acyclic(ns) && LinkAdded(ns, ns', a, b)
    ensures Acyclic(ns') <==> !Leads(ns, b, a)
  {
    hide LinkAdded, Follow;
    if n: nat :| Follow(ns, b, n) == Some(a) {
      LinkClosesCycle(ns, ns', a, b, n);
    } else {
      assert Ends(ns, b);
      EndsWithout(ns, ns', a, b, b);
      forall k
        ensures Ends(ns', k)
      {
        assert Ends(ns, k);
        if n: nat :| Follow(ns, k, n) == Some(a) {
          var m := FirstVisit(ns, k, a, n);
          EndsThrough(ns, ns', a, b, k, m);
        } else {
          EndsWithout(ns, ns', a, b, k);
        }
      }
    }
  }

  lemma LinkClosesCycle(ns: NodeMap, ns': NodeMap, a: string, b: string, n: nat)
    requires LinkAdded(ns, ns', a, b) && Follow(ns, b, n) == Some(a)
    ensures !Ends(ns', b)
  {
    hide Follow;
    var m := FirstVisit(ns, b, a, n);
    FollowBefore(ns, ns', a, b, b, m);
    FollowOne(ns', b, m);
    assert Follow(ns', b, m + 1) == Some(b);
    forall i: nat
      ensures Follow(ns', b, i).Some?
    {
      CycleNeverEnds(ns', b, m + 1, i);
    }
  }

  // ---- The links of a registry step ----

  lemma UpdateKeepsLinks(ns: NodeMap, mac: seq<byte>, adapterType: i32, uptime: u32, hopCount: u32, now: Time,
                         k: string)
    ensures Next(Updated(ns, mac, adapterType, uptime, hopCount, now), k) == Next(ns, k)
  {
    hide MacToString;
  }

  lemma AssignKeepsLinks(ns: NodeMap, mac: seq<byte>, id: byte, name: string, zone: string, k: string)
    ensures Next(Assigned(ns, mac, id, name, zone), k) == Next(ns, k)
  {
    hide MacToString;
  }

  /** Only active nodes can be deleted, and they link nowhere. */
  lemma RemoveKeepsLinks(ns: NodeMap, id: byte, n: NodeInfo, k: string)
    requires Consistent(ns) && id > 0 && LookupOutcome(ns, id, Some(n))
    ensures Next(Removed(ns, n.mac), k) == Next(ns, k)
  {
    hide MacToString;
    OwnerKey(ns, id, n);
  }

  /** An approval leaves the chains acyclic exactly when it displaces nobody, or the new node does not lead to it. */
  lemma ApprovalAcyclic(ns: NodeMap, mac: Mac, p: ApprovalParams, owner: Option<NodeInfo>)
    requires Consistent(ns) && Acyclic(ns) && (p.nodeID > 0 ==> LookupOutcome(ns, p.nodeID, owner))
    ensures Acyclic(ApprovedNodes(ns, mac, p, owner)) <==>
      (Displaced(p, mac, owner).Some? ==> !Leads(ns, MacToString(mac), MacToString(owner.value.mac)))
  {
    hide MacToString, LookupOutcome, NextFree, Acyclic, Leads, Canonical, UniqueOwner, Next;
    var ns' := ApprovedNodes(ns, mac, p, owner);
    ApprovedLinks(ns, mac, p, owner);
    if Displaced(p, mac, owner).None? {
      SameLinksAcyclic(ns, ns');
    } else {
      LinkAcyclic(ns, ns', MacToString(owner.value.mac), MacToString(mac));
    }
  }

  lemma ApprovedLinks(ns: NodeMap, mac: Mac, p: ApprovalParams, owner: Option<NodeInfo>)
    requires Consistent(ns) && (p.nodeID > 0 ==> LookupOutcome(ns, p.nodeID, owner))
    ensures var ns' := ApprovedNodes(ns, mac, p, owner);
      if Displaced(p, mac, owner).Some? then LinkAdded(ns, ns', MacToString(owner.value.mac), MacToString(mac))
      else forall k :: Next(ns', k) == Next(ns, k)
  {
    hide MacToString, LookupOutcome, NextFree, Canonical, UniqueOwner;
    ApprovedEntry(ns, mac, p, owner);
    ApprovedElsewhere(ns, mac, p, owner);
    NotEmpty(mac);
    if Displaced(p, mac, owner).Some? {
      OwnerKey(ns, p.nodeID, owner.value);
      MacToStringInjectiveOn(mac, owner.value.mac);
      var prev := MacToString(owner.value.mac);
      assert Owns(ns, prev, p.nodeID);
      assert Next(ApprovedNodes(ns, mac, p, owner), prev) == Some(MacToString(mac));
    }
  }

  lemma NotEmpty(mac: Mac)
    ensures MacToString(mac) != ""
  {
  }

  /** An approved node whose entry is not replaced leads nowhere, so the approval is always safe. */
  lemma ActiveLeadsNowhere(ns: NodeMap, mac: Mac, to: string)
    requires Consistent(ns) && EntryFor(ns, mac).status.Active? && to != MacToString(mac)
    ensures !Leads(ns, MacToString(mac), to)
  {
    hide MacToString;
    var k := MacToString(mac);
    assert Next(ns, k) == None;
    forall n: nat
      ensures Follow(ns, k, n) != Some(to)
    {
      assert Follow(ns, k, 0) == Some(k) && Follow(ns, k, 1) == None;
      if n >= 1 {
        FollowStops(ns, k, 1, n);
      }
    }
  }

  // ---- Two things that do go wrong ----

  /** Taking back an ID from one's own replacement closes a cycle of two. */
  lemma MutualReplacementCycles(ns: NodeMap, a: Mac, b: Mac, p: ApprovalParams, owner: Option<NodeInfo>)
    requires Consistent(ns) && Acyclic(ns) && p.nodeID > 0 && a != b
    requires MacToString(a) in ns && ns[MacToString(a)].replacedBy == MacToString(b)
    requires Owns(ns, MacToString(b), p.nodeID) && LookupOutcome(ns, p.nodeID, owner)
    ensures !Acyclic(ApprovedNodes(ns, a, p, owner))
  {
    hide MacToString, LookupOutcome, Acyclic;
    var ka, kb := MacToString(a), MacToString(b);
    LookupFinds(ns, kb, p.nodeID, owner);
    OwnerKey(ns, p.nodeID, owner.value);
    MacToStringInjectiveOn(owner.value.mac, b);
    NotEmpty(b);
    assert Follow(ns, ka, 0) == Some(ka) && Follow(ns, ka, 1) == Some(kb);
    ApprovalAcyclic(ns, a, p, owner);
  }

  lemma LookupFinds(ns: NodeMap, k: string, id: byte, r: Option<NodeInfo>)
    requires Owns(ns, k, id) && LookupOutcome(ns, id, r)
    ensures r.Some?
  {
  }

  /** Two approvals that both read the free ID before either assigns it end up sharing it. */
  lemma UnserialisedApprovalsShareAnID(a: Mac, b: Mac)
    requires a != b
    ensures var id := NextFree(map[]);
      id > 0 && !UniqueOwner(Assigned(Assigned(map[], a, id, "", ""), b, id, "", ""))
  {
    hide MacToString, NextFree;
    NextFreeExists(map[]);
    MacToStringInjectiveOn(a, b);
    var id := NextFree(map[]);
    var ns := Assigned(Assigned(map[], a, id, "", ""), b, id, "", "");
    assert Owns(ns, MacToString(a), id) && Owns(ns, MacToString(b), id);
  }
}
