// nodeauth/registry.go and nodeauth/persistence.go: the trust state of every node that asked to join.

module Auth {
  import opened Base
  import opened MacText
  import Hex

  type TrustStatus = int

  const PENDING: TrustStatus := 0
  const APPROVED: TrustStatus := 1
  const REJECTED: TrustStatus := 2

  datatype NodeAuth = NodeAuth(
    mac: Mac,
    macString: string,
    publicKey: Key,
    status: TrustStatus,
    receivedAt: Time,
    approvedAt: Time)

  type AuthMap = map<string, NodeAuth>

  // ---- The operations on values ----

  predicate IsApproved(am: AuthMap, mac: Mac)
  {
    Colon(mac) in am && am[Colon(mac)].status == APPROVED
  }

  function ApprovedKey(am: AuthMap, mac: Mac): Option<Key>
  {
    if IsApproved(am, mac) then Some(am[Colon(mac)].publicKey) else None
  }

  /** AddPending, refused for a node already approved. */
  function Pended(am: AuthMap, mac: Mac, key: Key, now: Time): AuthMap
  {
    if IsApproved(am, mac) then am
    else am[Colon(mac) := NodeAuth(mac, Colon(mac), key, PENDING, now, ZERO_TIME)]
  }

  /** Approve and Reject fail for a node that never asked. */
  predicate Known(am: AuthMap, macStr: string)
  {
    Normalize(macStr) in am
  }

  function Approved(am: AuthMap, macStr: string, now: Time): AuthMap
  {
    if Known(am, macStr) then
      am[Normalize(macStr) := am[Normalize(macStr)].(status := APPROVED, approvedAt := now)]
    else am
  }

  function Rejected(am: AuthMap, macStr: string): AuthMap
  {
    if Known(am, macStr) then am[Normalize(macStr) := am[Normalize(macStr)].(status := REJECTED)] else am
  }

  /** Every entry is filed under the colon form of its own address. */
  ghost predicate Canonical(am: AuthMap)
  {
    forall k :: k in am ==> am[k].macString == k && Colon(am[k].mac) == k
  }

  /** A known spelling parses, to the address of the entry it names. */
  lemma KnownParses(am: AuthMap, macStr: string)
    requires Canonical(am) && Known(am, macStr)
    ensures ParseMAC(macStr) == Some(am[Normalize(macStr)].mac)
  {
    hide ParseMAC, Colon;
    var mac := am[Normalize(macStr)].mac;
    ParsersInvert(mac);
    match ParseMAC(macStr) {
      case Some(m) => ParsersInvert(m);
      case None =>
    }
  }

  /** The bare-hex spelling acts on the same entry as the colon form. */
  lemma SpellingsAgree(am: AuthMap, mac: Mac, now: Time)
    ensures Approved(am, Hex.Encode(mac), now) == Approved(am, Colon(mac), now)
    ensures Rejected(am, Hex.Encode(mac)) == Rejected(am, Colon(mac))
    ensures Canonical(am) ==> (Known(am, Hex.Encode(mac)) <==> exists k :: k in am && am[k].mac == mac)
  {
    hide Colon, Normalize;
    NormalizeSpellings(mac);
    if Known(am, Hex.Encode(mac)) && Canonical(am) {
      var k := Colon(mac);
      ParsersInvert(mac);
      ParsersInvert(am[k].mac);
    }
  }

  // ---- Trust history ----

  datatype AuthCall =
    | AddPending(mac: Mac, key: Key, now: Time)
    | Approve(macStr: string, now: Time)
    | Reject(macStr: string)

  function Call(am: AuthMap, c: AuthCall): AuthMap
  {
    match c
    case AddPending(mac, key, now) => Pended(am, mac, key, now)
    case Approve(macStr, now) => Approved(am, macStr, now)
    case Reject(macStr) => Rejected(am, macStr)
  }

  function Calls(am: AuthMap, cs: seq<AuthCall>): AuthMap
  {
    if cs == [] then am else Call(Calls(am, cs[..|cs| - 1]), cs[|cs| - 1])
  }

  lemma {:induction false} CallsConcat(am: AuthMap, a: seq<AuthCall>, b: seq<AuthCall>)
    ensures Calls(am, a + b) == Calls(Calls(am, a), b)
  {
    hide Call;
    if b == [] {
      assert a + b == a;
    } else {
      CallsConcat(am, a, b[..|b| - 1]);
      assert (a + b)[..|a + b| - 1] == a + b[..|b| - 1];
    }
  }

  /** What a successful call did, and to which node. */
  datatype AuthEvent =
    | Requested(mac: Mac, key: Key)
    | Granted(mac: Mac)
    | Refused(mac: Mac)

  /** The event of a call that reports success. */
  function EventOf(am: AuthMap, c: AuthCall): seq<AuthEvent>
  {
    match c
    case AddPending(mac, key, _) => if IsApproved(am, mac) then [] else [Requested(mac, key)]
    case Approve(macStr, _) => if Known(am, macStr) then [Granted(am[Normalize(macStr)].mac)] else []
    case Reject(macStr) => if Known(am, macStr) then [Refused(am[Normalize(macStr)].mac)] else []
  }

  function Log(am: AuthMap, cs: seq<AuthCall>): seq<AuthEvent>
  {
    if cs == [] then []
    else Log(am, cs[..|cs| - 1]) + EventOf(Calls(am, cs[..|cs| - 1]), cs[|cs| - 1])
  }

  function LastEvent(log: seq<AuthEvent>, mac: Mac): Option<AuthEvent>
  {
    if log == [] then None
    else if log[|log| - 1].mac == mac then Some(log[|log| - 1])
    else LastEvent(log[..|log| - 1], mac)
  }

  function LatestKey(log: seq<AuthEvent>, mac: Mac): Option<Key>
  {
    if log == [] then None
    else
      var e := log[|log| - 1];
      if e.Requested? && e.mac == mac then Some(e.key) else LatestKey(log[..|log| - 1], mac)
  }

  /** One node's entry tells its part of the log. */
  ghost predicate Tells(am: AuthMap, log: seq<AuthEvent>, mac: Mac)
  {
    var k := Colon(mac);
    var last := LastEvent(log, mac);
    && (k in am <==> last.Some?)
    && (k in am ==>
          && LatestKey(log, mac) == Some(am[k].publicKey)
          && am[k].status == (match last.value
                              case Requested(_, _) => PENDING
                              case Granted(_) => APPROVED
                              case Refused(_) => REJECTED))
  }

  lemma EventLast(log: seq<AuthEvent>, e: AuthEvent, mac: Mac)
    ensures LastEvent(log + [e], mac) == if e.mac == mac then Some(e) else LastEvent(log, mac)
    ensures LatestKey(log + [e], mac) ==
            if e.Requested? && e.mac == mac then Some(e.key) else LatestKey(log, mac)
  {
    assert (log + [e])[..|log|] == log;
  }

  lemma PendTells(am: AuthMap, log: seq<AuthEvent>, who: Mac, key: Key, now: Time, mac: Mac)
    requires Canonical(am) && Tells(am, log, mac) && !IsApproved(am, who)
    ensures Tells(Pended(am, who, key, now), log + [Requested(who, key)], mac)
  {
    hide Colon, LastEvent, LatestKey;
    EventLast(log, Requested(who, key), mac);
    ColonInjective(who, mac);
  }

  lemma GrantTells(am: AuthMap, log: seq<AuthEvent>, macStr: string, now: Time, mac: Mac)
    requires Canonical(am) && Tells(am, log, mac) && Known(am, macStr)
    ensures Tells(Approved(am, macStr, now), log + [Granted(am[Normalize(macStr)].mac)], mac)
  {
    hide Colon, LastEvent, LatestKey, Normalize;
    var who := am[Normalize(macStr)].mac;
    EventLast(log, Granted(who), mac);
    ColonInjective(who, mac);
  }

  lemma RefuseTells(am: AuthMap, log: seq<AuthEvent>, macStr: string, mac: Mac)
    requires Canonical(am) && Tells(am, log, mac) && Known(am, macStr)
    ensures Tells(Rejected(am, macStr), log + [Refused(am[Normalize(macStr)].mac)], mac)
  {
    hide Colon, LastEvent, LatestKey, Normalize;
    var who := am[Normalize(macStr)].mac;
    EventLast(log, Refused(who), mac);
    ColonInjective(who, mac);
  }

  lemma CallTells(am: AuthMap, log: seq<AuthEvent>, c: AuthCall, mac: Mac)
    requires Canonical(am) && Tells(am, log, mac)
    ensures Tells(Call(am, c), log + EventOf(am, c), mac)
  {
    hide Tells, Normalize;
    if EventOf(am, c) == [] {
      assert log + EventOf(am, c) == log;
    } else {
      match c
      case AddPending(who, key, now) => PendTells(am, log, who, key, now, mac);
      case Approve(macStr, now) => GrantTells(am, log, macStr, now, mac);
      case Reject(macStr) => RefuseTells(am, log, macStr, mac);
    }
  }

  lemma CallCanonical(am: AuthMap, c: AuthCall)
    requires Canonical(am)
    ensures Canonical(Call(am, c))
  {
    hide Colon, Normalize;
  }

  lemma {:induction false} HistoryTells(cs: seq<AuthCall>, mac: Mac)
    ensures Canonical(Calls(map[], cs)) && Tells(Calls(map[], cs), Log(map[], cs), mac)
  {
    hide Call, EventOf, Tells, Canonical;
    if cs == [] {
      EmptyTells(mac);
    } else {
      var n := |cs| - 1;
      HistoryTells(cs[..n], mac);
      CallTells(Calls(map[], cs[..n]), Log(map[], cs[..n]), cs[n], mac);
      CallCanonical(Calls(map[], cs[..n]), cs[n]);
    }
  }

  lemma EmptyTells(mac: Mac)
    ensures Canonical(map[]) && Tells(map[], [], mac)
  {
  }

  /** A key is approved exactly when the node's last successful call granted it, and it is the last one requested. */
  lemma TrustHistory(cs: seq<AuthCall>, mac: Mac, key: Key)
    ensures var log := Log(map[], cs);
      ApprovedKey(Calls(map[], cs), mac) == Some(key) <==>
      LastEvent(log, mac) == Some(Granted(mac)) && LatestKey(log, mac) == Some(key)
  {
    hide Calls, Log, Colon, LastEvent, LatestKey;
    HistoryTells(cs, mac);
    LastEventConcerns(Log(map[], cs), mac);
  }

  lemma {:induction false} LastEventConcerns(log: seq<AuthEvent>, mac: Mac)
    ensures LastEvent(log, mac).Some? ==> LastEvent(log, mac).value.mac == mac
  {
    if log == [] || log[|log| - 1].mac == mac {
    } else {
      LastEventConcerns(log[..|log| - 1], mac);
    }
  }

  lemma CallKeepsKey(am: AuthMap, c: AuthCall, mac: Mac, key: Key)
    requires Canonical(am) && ApprovedKey(am, mac) == Some(key)
    requires EventOf(am, c) != [Refused(mac)]
    ensures ApprovedKey(Call(am, c), mac) == Some(key)
  {
    hide Colon, Normalize;
    match c
    case AddPending(who, _, _) => ColonInjective(who, mac);
    case Approve(macStr, _) =>
    case Reject(macStr) =>
      if Known(am, macStr) {
        ColonInjective(am[Normalize(macStr)].mac, mac);
      }
  }

  /** An approved key stays as it is until the node is rejected, whatever else is called. */
  lemma {:induction false} KeyChangesOnlyThroughReject(am: AuthMap, cs: seq<AuthCall>, mac: Mac, key: Key)
    requires Canonical(am) && ApprovedKey(am, mac) == Some(key)
    requires Refused(mac) !in Log(am, cs)
    ensures Canonical(Calls(am, cs)) && ApprovedKey(Calls(am, cs), mac) == Some(key)
  {
    hide Canonical, ApprovedKey, Call, EventOf;
    if cs == [] {
    } else {
      var n := |cs| - 1;
      KeyChangesOnlyThroughReject(am, cs[..n], mac, key);
      CallCanonical(Calls(am, cs[..n]), cs[n]);
      CallKeepsKey(Calls(am, cs[..n]), cs[n], mac, key);
    }
  }

  // ---- Persistence ----

  datatype PersistedEntry = PersistedEntry(
    mac: string,
    publicKey: string,
    status: int,
    receivedAt: int,
    approvedAt: int)

  /** Time.Unix: whole seconds, rounded down. */
  function Unix(t: Time): int
  {
    t / NANOS_PER_SECOND
  }

  function FromUnix(seconds: int): Time
  {
    seconds * NANOS_PER_SECOND
  }

  function ToPersisted(n: NodeAuth): PersistedEntry
  {
    PersistedEntry(n.macString, Hex.Encode(n.publicKey), n.status, Unix(n.receivedAt), Unix(n.approvedAt))
  }

  function ParsePublicKey(s: string): Option<Key>
  {
    match Hex.Decode(s)
    case Some(b) => if |b| == 32 then Some(b) else None
    case None => None
  }

  function LoadOne(am: AuthMap, e: PersistedEntry): AuthMap
  {
    match (ParseMAC(e.mac), ParsePublicKey(e.publicKey))
    case (Some(mac), Some(key)) =>
      am[e.mac := NodeAuth(mac, e.mac, key, e.status, FromUnix(e.receivedAt), FromUnix(e.approvedAt))]
    case _ => am
  }

  function LoadAll(am: AuthMap, es: seq<PersistedEntry>): AuthMap
  {
    if es == [] then am else LoadOne(LoadAll(am, es[..|es| - 1]), es[|es| - 1])
  }

  function Entries(am: AuthMap, order: seq<string>): (es: seq<PersistedEntry>)
    requires forall k :: k in order ==> k in am
    ensures |es| == |order|
  {
    if order == [] then [] else Entries(am, order[..|order| - 1]) + [ToPersisted(am[order[|order| - 1]])]
  }

  /** Timestamps cut to whole seconds. */
  function Truncated(n: NodeAuth): NodeAuth
  {
    n.(receivedAt := FromUnix(Unix(n.receivedAt)), approvedAt := FromUnix(Unix(n.approvedAt)))
  }

  /** The last whole second not after the timestamp; nothing but the two timestamps changes. */
  lemma TruncatedMeans(n: NodeAuth)
    ensures var n' := Truncated(n);
      && n' == n.(receivedAt := n'.receivedAt, approvedAt := n'.approvedAt)
      && n'.receivedAt % 1_000_000_000 == 0 && 0 <= n.receivedAt - n'.receivedAt < 1_000_000_000
      && n'.approvedAt % 1_000_000_000 == 0 && 0 <= n.approvedAt - n'.approvedAt < 1_000_000_000
  {
  }

  function TruncatedAll(am: AuthMap): AuthMap
  {
    map k | k in am :: Truncated(am[k])
  }

  function Restrict(am: AuthMap, order: seq<string>): AuthMap
    requires forall k :: k in order ==> k in am
  {
    map k | k in order :: Truncated(am[k])
  }

  lemma LoadOneRestores(into: AuthMap, n: NodeAuth)
    requires n.macString == Colon(n.mac)
    ensures LoadOne(into, ToPersisted(n)) == into[n.macString := Truncated(n)]
  {
    hide Colon, ParseMAC, Hex.Encode, Hex.Decode;
    ParsersInvert(n.mac);
    Hex.RoundTrip(n.publicKey);
  }

  lemma RestrictExtend(am: AuthMap, order: seq<string>)
    requires order != [] && (forall k :: k in order ==> k in am)
    ensures var n := |order| - 1;
      Restrict(am, order) == Restrict(am, order[..n])[order[n] := Truncated(am[order[n]])]
  {
    assert forall k :: k in order <==> k in order[..|order| - 1] || k == order[|order| - 1];
  }

  lemma RestrictNothing(am: AuthMap)
    ensures Restrict(am, []) == map[]
  {
  }

  lemma {:induction false} LoadRestoresPrefix(am: AuthMap, order: seq<string>)
    requires Canonical(am) && (forall k :: k in order ==> k in am)
    ensures LoadAll(map[], Entries(am, order)) == Restrict(am, order)
  {
    hide LoadOne, ToPersisted, Restrict, Colon;
    if order == [] {
      RestrictNothing(am);
    } else {
      var n := |order| - 1;
      LoadRestoresPrefix(am, order[..n]);
      var es := Entries(am, order);
      var e := ToPersisted(am[order[n]]);
      assert es == Entries(am, order[..n]) + [e];
      assert es[..n] == Entries(am, order[..n]) && es[n] == e;
      LoadOneRestores(LoadAll(map[], es[..n]), am[order[n]]);
      RestrictExtend(am, order);
    }
  }

  /**
   * Loading what Persist wrote, in any order, restores the registry up to whole seconds; a second pass changes
   * nothing.
   */
  lemma PersistRoundTrip(am: AuthMap, order: seq<string>, order': seq<string>)
    requires Canonical(am) && IsOrder(order, am.Keys) && IsOrder(order', am.Keys)
    ensures LoadAll(map[], Entries(am, order)) == TruncatedAll(am)
    ensures Canonical(TruncatedAll(am)) && IsOrder(order', TruncatedAll(am).Keys)
    ensures LoadAll(map[], Entries(TruncatedAll(am), order')) == TruncatedAll(am)
  {
    hide LoadAll, Entries, Colon;
    LoadRestoresPrefix(am, order);
    LoadRestoresPrefix(TruncatedAll(am), order');
    assert TruncatedAll(am).Keys == am.Keys;
  }

  // ---- The registry ----

  /** A heap record; the registry's map holds pointers to these. */
  class AuthEntry {
    var info: NodeAuth

    constructor (info: NodeAuth)
      ensures this.info == info
    {
      this.info := info;
    }
  }

  class Registry {
    var nodes: map<string, AuthEntry>

    ghost predicate Valid()
      reads this
    {
      forall k, k' :: k in nodes && k' in nodes && k != k' ==> nodes[k] != nodes[k']
    }

    ghost function View(): (am: AuthMap)
      reads this, nodes.Values
      ensures am.Keys == nodes.Keys
    {
      map k | k in nodes :: nodes[k].info
    }

    constructor ()
      ensures Valid() && View() == map[] && nodes == map[]
    {
      nodes := map[];
    }

    method AddPending(mac: Mac, key: Key, now: Time) returns (ok: bool)
      requires Valid()
      modifies this
      ensures Valid() && View() == Pended(old(View()), mac, key, now)
      ensures ok <==> !IsApproved(old(View()), mac)
      ensures fresh(nodes.Values - old(nodes.Values))
    {
      hide Colon;
      var k := Colon(mac);
      if k in nodes && nodes[k].info.status == APPROVED {
        return false;
      }
      var entry := new AuthEntry(NodeAuth(mac, k, key, PENDING, now, ZERO_TIME));
      nodes := nodes[k := entry];
      ok := true;
    }

    method Approve(macStr: string, now: Time) returns (node: Option<NodeAuth>)
      requires Valid()
      modifies nodes.Values
      ensures Valid() && View() == Approved(old(View()), macStr, now)
      ensures node == if Known(old(View()), macStr) then Some(View()[Normalize(macStr)]) else None
    {
      hide Normalize;
      var k := Normalize(macStr);
      if k !in nodes {
        return None;
      }
      var entry := nodes[k];
      entry.info := entry.info.(status := APPROVED, approvedAt := now);
      node := Some(entry.info);
    }

    method Reject(macStr: string) returns (ok: bool)
      requires Valid()
      modifies nodes.Values
      ensures Valid() && View() == Rejected(old(View()), macStr)
      ensures ok <==> Known(old(View()), macStr)
    {
      hide Normalize;
      var k := Normalize(macStr);
      if k !in nodes {
        return false;
      }
      var entry := nodes[k];
      entry.info := entry.info.(status := REJECTED);
      ok := true;
    }

    method GetApprovedPublicKey(mac: Mac) returns (key: Option<Key>)
      ensures key == ApprovedKey(View(), mac)
    {
      hide Colon;
      var k := Colon(mac);
      if k !in nodes || nodes[k].info.status != APPROVED {
        return None;
      }
      key := Some(nodes[k].info.publicKey);
    }

    method Persist() returns (es: seq<PersistedEntry>)
      ensures exists order :: IsOrder(order, View().Keys) && es == Entries(View(), order)
    {
      hide ToPersisted;
      var order := RangeOrder(nodes.Keys);
      es := [];
      for i := 0 to |order|
        invariant es == Entries(View(), order[..i])
      {
        assert order[..i + 1][..i] == order[..i];
        es := es + [ToPersisted(nodes[order[i]].info)];
      }
      assert order[..|order|] == order;
    }

    method Load(es: seq<PersistedEntry>)
      requires Valid()
      modifies this
      ensures Valid() && View() == LoadAll(old(View()), es)
      ensures fresh(nodes.Values - old(nodes.Values))
    {
      hide ParseMAC, ParsePublicKey;
      for i := 0 to |es|
        invariant Valid() && View() == LoadAll(old(View()), es[..i])
        invariant fresh(nodes.Values - old(nodes.Values))
      {
        assert es[..i + 1][..i] == es[..i];
        LoadEntry(es[i]);
      }
      assert es[..|es|] == es;
    }

    method LoadEntry(e: PersistedEntry)
      requires Valid()
      modifies this
      ensures Valid() && View() == LoadOne(old(View()), e)
      ensures fresh(nodes.Values - old(nodes.Values))
    {
      hide ParseMAC, ParsePublicKey;
      match (ParseMAC(e.mac), ParsePublicKey(e.publicKey))
      case (Some(mac), Some(key)) =>
        var entry := new AuthEntry(NodeAuth(mac, e.mac, key, e.status,
                                            FromUnix(e.receivedAt), FromUnix(e.approvedAt)));
        nodes := nodes[e.mac := entry];
      case _ =>
    }
  }
}
