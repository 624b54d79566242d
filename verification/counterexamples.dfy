// Runs from the empty server that break what one would expect of replacements.

module Counterexamples {
  import opened Base
  import opened Wire
  import opened Messages
  import opened MacText
  import opened Server
  import opened Identity
  import opened WireView
  import opened Runs
  import Auth
  import Nodes

  // ---- A node joins: it asks, and is approved under an explicit ID ----

  function Request(mac: Mac, key: Key): MeshMessage
  {
    DEFAULT.(messageType := TYPE_ENROLLMENT, origin := mac, publicKey := key)
  }

  function Unnamed(id: byte): ApprovalParams
  {
    ApprovalParams(id, "", "", "")
  }

  function Join(mac: Mac, key: Key, id: byte, owner: Option<Nodes.NodeInfo>): seq<Step>
  {
    [Deliver(Request(mac, key), None, 0), ApproveEnrollment(Colon(mac), Unnamed(id), owner, 0)]
  }

  lemma RequestPends(c: Config, s: State, mac: Mac, key: Key)
    ensures Enabled(s, Deliver(Request(mac, key), None, 0))
    ensures Apply(c, s, Deliver(Request(mac, key), None, 0)) == s.(auth := Auth.Pended(s.auth, mac, key, 0))
  {
    hide Auth.Pended, Auth.IsApproved;
    assert mac[..6] == mac;
    assert Classify(Request(mac, key)) == Enroll(mac, key);
  }

  /** Also for a node approved before, whose request is refused but whose approval is not. */
  lemma Joins(c: Config, s: State, mac: Mac, key: Key, id: byte, owner: Option<Nodes.NodeInfo>)
    requires Auth.Canonical(s.auth) && id > 0 && Nodes.LookupOutcome(s.nodes, id, owner)
    ensures CanRun(c, s, Join(mac, key, id, owner))
    ensures var s' := Run(c, s, Join(mac, key, id, owner));
      && s'.nodes == ApprovedNodes(s.nodes, mac, Unnamed(id), owner)
      && Auth.Canonical(s'.auth) && Auth.IsApproved(s'.auth, mac)
  {
    hide Auth.Canonical, Auth.Pended, Auth.Approved, Nodes.LookupOutcome, ApprovedNodes, ApprovalFrames, Enabled, Apply,
         Normalize, Colon;
    var ask, grant := Deliver(Request(mac, key), None, 0), ApproveEnrollment(Colon(mac), Unnamed(id), owner, 0);
    RequestPends(c, s, mac, key);
    Auth.CallCanonical(s.auth, Auth.AddPending(mac, key, 0));
    var s1 := Apply(c, s, ask);
    PendedIsKnown(s.auth, mac, key);
    Grants(c, s1, mac, id, owner);
    RunOne(c, s, ask);
    RunSnoc(c, s, [ask], grant);
    assert [ask] + [grant] == Join(mac, key, id, owner);
  }

  lemma PendedIsKnown(am: Auth.AuthMap, mac: Mac, key: Key)
    requires Auth.Canonical(am)
    ensures var am' := Auth.Pended(am, mac, key, 0); Colon(mac) in am' && am'[Colon(mac)].mac == mac
  {
    hide Colon;
    if Auth.IsApproved(am, mac) {
      ParsersInvert(am[Colon(mac)].mac);
      ParsersInvert(mac);
    }
  }

  lemma Grants(c: Config, s: State, mac: Mac, id: byte, owner: Option<Nodes.NodeInfo>)
    requires Auth.Canonical(s.auth) && Colon(mac) in s.auth && s.auth[Colon(mac)].mac == mac
    requires id > 0 && Nodes.LookupOutcome(s.nodes, id, owner)
    ensures var grant := ApproveEnrollment(Colon(mac), Unnamed(id), owner, 0);
      && Enabled(s, grant)
      && var s' := Apply(c, s, grant);
        && s'.nodes == ApprovedNodes(s.nodes, mac, Unnamed(id), owner)
        && Auth.Canonical(s'.auth) && Auth.IsApproved(s'.auth, mac)
  {
    hide Auth.Canonical, Nodes.LookupOutcome, ApprovedNodes, ApprovalFrames, Normalize, Colon, MacToString;
    NormalizeSpellings(mac);
    Auth.CallCanonical(s.auth, Auth.Approve(Colon(mac), 0));
  }

  // ---- One node replaces another ----

  function Alone(a: Mac, id: byte): Nodes.NodeMap
  {
    ApprovedNodes(map[], a, Unnamed(id), None)
  }

  /** `b` has taken the ID of `a`. */
  function Swapped(a: Mac, b: Mac, id: byte): Nodes.NodeMap
  {
    ApprovedNodes(Alone(a, id), b, Unnamed(id), Some(Alone(a, id)[MacToString(a)]))
  }

  lemma AloneOwns(a: Mac, id: byte)
    requires id > 0
    ensures Nodes.LookupOutcome(map[], id, None)
    ensures var ns := Alone(a, id); var k := MacToString(a);
      && Consistent(ns) && Acyclic(ns) && ns.Keys == {k} && ns[k].mac == a && ns[k].nodeID == id && ns[k].status.Active?
      && Nodes.LookupOutcome(ns, id, Some(ns[k]))
  {
    hide MacToString, Acyclic;
    EmptyConsistent();
    EmptyAcyclic();
    ApprovedConsistent(map[], a, Unnamed(id), None);
    ApprovalAcyclic(map[], a, Unnamed(id), None);
    var ns := Alone(a, id);
    assert Nodes.Owns(ns, MacToString(a), id);
  }

  lemma SwappedOwns(a: Mac, b: Mac, id: byte)
    requires id > 0 && a != b
    ensures var ns := Swapped(a, b, id); var ka, kb := MacToString(a), MacToString(b);
      && Consistent(ns) && Acyclic(ns) && ns.Keys == {ka, kb} && ka != kb
      && ns[ka].status.Replaced? && ns[ka].nodeID == 0 && ns[ka].replacedBy == kb
      && Nodes.Owns(ns, kb, id) && Nodes.LookupOutcome(ns, id, Some(ns[kb]))
  {
    hide MacToString, Acyclic, Nodes.LookupOutcome, ApprovedNodes, Consistent;
    var ns1, p := Alone(a, id), Unnamed(id);
    var owner := Some(ns1[MacToString(a)]);
    AloneOwns(a, id);
    MacToStringInjectiveOn(a, b);
    ApprovedConsistent(ns1, b, p, owner);
    ApprovedEntry(ns1, b, p, owner);
    DisplacedEntry(ns1, b, p, owner);
    ApprovedElsewhere(ns1, b, p, owner);
    ActiveLeadsNowhere(ns1, b, MacToString(a));
    ApprovalAcyclic(ns1, b, p, owner);
    Found(Swapped(a, b, id), MacToString(b), id);
  }

  lemma Found(ns: Nodes.NodeMap, k: string, id: byte)
    requires Nodes.Owns(ns, k, id)
    ensures Nodes.LookupOutcome(ns, id, Some(ns[k]))
  {
  }

  // ---- The replaced node comes back ----

  /** `a` joins under an ID, `b` takes it over. */
  function Replacement(a: Mac, b: Mac, key: Key, id: byte): seq<Step>
  {
    Join(a, key, id, None) + Join(b, key, id, Some(Alone(a, id)[MacToString(a)]))
  }

  lemma ReplacementRuns(c: Config, a: Mac, b: Mac, key: Key, id: byte)
    requires id > 0 && a != b
    ensures CanRun(c, INITIAL, Replacement(a, b, key, id))
    ensures var s := Run(c, INITIAL, Replacement(a, b, key, id));
      s.nodes == Swapped(a, b, id) && Auth.Canonical(s.auth)
  {
    hide CanRun, Run, Join, Nodes.LookupOutcome, ApprovedNodes, MacToString, Auth.IsApproved;
    AloneOwns(a, id);
    Joins(c, INITIAL, a, key, id, None);
    var s1 := Run(c, INITIAL, Join(a, key, id, None));
    var owner := Some(Alone(a, id)[MacToString(a)]);
    Joins(c, s1, b, key, id, owner);
    RunConcat(c, INITIAL, Join(a, key, id, None), Join(b, key, id, owner));
  }

  /** `a` joins once more, taking its ID back from `b`. */
  function Reclaim(a: Mac, b: Mac, key: Key, id: byte): seq<Step>
    requires MacToString(b) in Swapped(a, b, id)
  {
    Replacement(a, b, key, id) + Join(a, key, id, Some(Swapped(a, b, id)[MacToString(b)]))
  }

  /** Three approvals from the empty server lead to two nodes that replaced each other. */
  lemma CycleIsReachable(c: Config, a: Mac, b: Mac, key: Key, id: byte)
    requires id > 0 && a != b
    ensures CanRun(c, INITIAL, Reclaim(a, b, key, id)) && !Acyclic(Run(c, INITIAL, Reclaim(a, b, key, id)).nodes)
  {
    hide CanRun, Run, Join, Nodes.LookupOutcome, ApprovedNodes, MacToString, Auth.IsApproved, Acyclic, Consistent,
         Swapped, Replacement, Auth.Canonical, Nodes.Owns;
    ReplacementRuns(c, a, b, key, id);
    SwappedOwns(a, b, id);
    var ns := Swapped(a, b, id);
    var owner := Some(ns[MacToString(b)]);
    var s := Run(c, INITIAL, Replacement(a, b, key, id));
    Joins(c, s, a, key, id, owner);
    RunConcat(c, INITIAL, Replacement(a, b, key, id), Join(a, key, id, owner));
    MutualReplacementCycles(ns, a, b, Unnamed(id), owner);
  }

  /** `a` joins once more under another ID. */
  function Return(a: Mac, b: Mac, key: Key, id: byte, other: byte): seq<Step>
  {
    Replacement(a, b, key, id) + Join(a, key, other, None)
  }

  /**
   * A replaced node approved again under a free ID: it is approved, its entry has the ID, it was told so, and yet no
   * lookup of the ID finds it.
   */
  lemma HiddenNodeIsReachable(c: Config, a: Mac, b: Mac, key: Key, id: byte, other: byte)
    requires id > 0 && other > 0 && id != other && a != b
    ensures CanRun(c, INITIAL, Return(a, b, key, id, other))
    ensures var s := Run(c, INITIAL, Return(a, b, key, id, other));
      && Auth.IsApproved(s.auth, a) && MacToString(a) in s.nodes && s.nodes[MacToString(a)].nodeID == other
      && (c.attached ==> LastNodeID(s.wire, a) == Some(other))
      && Nodes.LookupOutcome(s.nodes, other, None)
      && !Nodes.LookupOutcome(s.nodes, other, Some(s.nodes[MacToString(a)]))
  {
    hide CanRun, Run, Join, ApprovedNodes, MacToString, Auth.IsApproved, Consistent,
         Swapped, Replacement, Auth.Canonical, LastNodeID;
    ReplacementRuns(c, a, b, key, id);
    SwappedOwns(a, b, id);
    var ns := Swapped(a, b, id);
    NobodyElse(ns, MacToString(a), MacToString(b), id, other);
    var s := Run(c, INITIAL, Replacement(a, b, key, id));
    Joins(c, s, a, key, other, None);
    RunConcat(c, INITIAL, Replacement(a, b, key, id), Join(a, key, other, None));
    var s' := Run(c, INITIAL, Return(a, b, key, id, other));
    ApprovedEntry(ns, a, Unnamed(other), None);
    ApprovedElsewhere(ns, a, Unnamed(other), None);
    InitialInvariant(c);
    RunInvariant(c, INITIAL, Return(a, b, key, id, other));
    if c.attached {
      assert IDAgrees(s'.nodes, s'.wire, a);
    }
    NobodyHas(s'.nodes, MacToString(a), MacToString(b), other);
  }

  lemma NobodyElse(ns: Nodes.NodeMap, ka: string, kb: string, id: byte, other: byte)
    requires ns.Keys == {ka, kb} && ns[ka].status.Replaced? && ns[kb].nodeID == id != other
    ensures Nodes.LookupOutcome(ns, other, None)
  {
  }

  lemma NobodyHas(ns: Nodes.NodeMap, ka: string, kb: string, id: byte)
    requires ns.Keys == {ka, kb} && ns[ka].status.Replaced? && ns[kb].nodeID != id
    ensures Nodes.LookupOutcome(ns, id, None) && !Nodes.LookupOutcome(ns, id, Some(ns[ka]))
  {
  }
}
