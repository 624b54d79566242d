// nodeauth/replay.go: a 32-slot ring per node, refining a sliding window over everything recorded.

module Replay {
  import opened Base

  const SLOTS: nat := 32

  /** One (epoch, seq) pair; both zero in a slot never written. */
  datatype Pair = Pair(epoch: u32, seqNum: u32)

  const BLANK := Pair(0, 0)

  // ---- The window ----

  /** The last 32 pairs of a history. */
  function Window(h: seq<Pair>): (w: seq<Pair>)
  {
    if |h| <= SLOTS then h else h[|h| - SLOTS..]
  }

  predicate Duplicate(h: seq<Pair>, p: Pair)
  {
    p != BLANK && p in Window(h)
  }

  /** A pair that is not a duplicate is recorded. */
  function Record(h: seq<Pair>, p: Pair): seq<Pair>
  {
    if Duplicate(h, p) then h else h + [p]
  }

  /** Pairs recorded at most 32 places apart differ, so any 33 consecutive records do, blanks aside. */
  ghost predicate Spaced(h: seq<Pair>)
  {
    forall i, j :: 0 <= i < j < |h| && j - i <= 32 && h[j] != Pair(0, 0) ==> h[i] != h[j]
  }

  lemma RecordSpaced(h: seq<Pair>, p: Pair)
    requires Spaced(h)
    ensures Spaced(Record(h, p))
  {
    var h' := Record(h, p);
    if h' != h && p != BLANK {
      forall i | 0 <= i < |h| && |h| - i <= SLOTS
        ensures h[i] != p
      {
        assert h[i] in Window(h) by { InWindow(h, i); }
      }
    }
  }

  lemma InWindow(h: seq<Pair>, i: nat)
    requires i < |h| && |h| - i <= SLOTS
    ensures h[i] in Window(h)
  {
    if |h| > SLOTS {
      assert Window(h)[i - (|h| - SLOTS)] == h[i];
    }
  }

  function RecordAll(calls: seq<Pair>): seq<Pair>
  {
    if calls == [] then [] else Record(RecordAll(calls[..|calls| - 1]), calls[|calls| - 1])
  }

  lemma {:induction false} EveryHistorySpaced(calls: seq<Pair>)
    ensures Spaced(RecordAll(calls))
  {
    if calls == [] {
    } else {
      EveryHistorySpaced(calls[..|calls| - 1]);
      RecordSpaced(RecordAll(calls[..|calls| - 1]), calls[|calls| - 1]);
    }
  }

  // ---- The ring ----

  /** The ring `buf` with write position `idx` stands for the history `h`. */
  ghost predicate Holds(buf: seq<Pair>, idx: nat, h: seq<Pair>)
  {
    && |buf| == SLOTS
    && idx == |h| % SLOTS
    && (forall i :: 0 <= i < |h| && |h| - SLOTS <= i ==> buf[i % SLOTS] == h[i])
    && (forall j :: |h| <= j < SLOTS ==> buf[j] == BLANK)
  }

  /** The history index whose pair sits in slot `j`. */
  function IndexAt(n: nat, j: nat): int
    requires j < SLOTS
  {
    if n <= SLOTS then j else n - SLOTS + (j - (n - SLOTS)) % SLOTS
  }

  lemma IndexAtSlot(n: nat, j: nat)
    requires j < SLOTS && j < n
    ensures 0 <= IndexAt(n, j) < n && n - SLOTS <= IndexAt(n, j) && IndexAt(n, j) % SLOTS == j
  {
  }

  /** Scanning the ring decides membership in the window, and blank slots never match. */
  lemma ScanDecides(buf: seq<Pair>, idx: nat, h: seq<Pair>, p: Pair)
    requires Holds(buf, idx, h) && p != BLANK
    ensures p in buf <==> p in Window(h)
  {
    if p in buf {
      var j :| 0 <= j < |buf| && buf[j] == p;
      assert j < |h|;
      IndexAtSlot(|h|, j);
      InWindow(h, IndexAt(|h|, j));
    }
    if p in Window(h) {
      var k :| 0 <= k < |Window(h)| && Window(h)[k] == p;
      var i := if |h| <= SLOTS then k else |h| - SLOTS + k;
      assert h[i] == p && buf[i % SLOTS] == h[i];
    }
  }

  lemma PushHolds(buf: seq<Pair>, idx: nat, h: seq<Pair>, p: Pair)
    requires Holds(buf, idx, h)
    ensures Holds(buf[idx := p], (idx + 1) % SLOTS, h + [p])
  {
    var h' := h + [p];
    var buf' := buf[idx := p];
    NextSlot(|h|);
    forall i | 0 <= i < |h'| && |h'| - SLOTS <= i
      ensures buf'[i % SLOTS] == h'[i]
    {
      if i < |h| {
        DifferentSlots(i, |h|);
        assert buf[i % SLOTS] == h[i];
      }
    }
  }

  lemma NextSlot(n: nat)
    ensures (n % SLOTS + 1) % SLOTS == (n + 1) % SLOTS
  {
  }

  lemma DifferentSlots(i: nat, n: nat)
    requires i < n < i + SLOTS
    ensures i % SLOTS != n % SLOTS
  {
  }

  // ---- The cache ----

  type Histories = map<Mac, seq<Pair>>

  function HistoryOf(hs: Histories, mac: Mac): seq<Pair>
  {
    if mac in hs then hs[mac] else []
  }

  function RecordFor(hs: Histories, mac: Mac, p: Pair): Histories
  {
    Put(hs, mac, Record(HistoryOf(hs, mac), p))
  }

  function Put(hs: Histories, mac: Mac, h: seq<Pair>): Histories
  {
    hs[mac := h]
  }

  lemma Overwrite(hs: Histories, mac: Mac, a: seq<Pair>, b: seq<Pair>)
    ensures Put(Put(hs, mac, a), mac, b) == Put(hs, mac, b)
  {
  }

  class NodeBuf {
    const buf: array<Pair>
    var idx: nat
    /** Everything recorded for the node since the cache was made. */
    ghost var history: seq<Pair>

    ghost predicate Valid()
      reads this, buf
    {
      buf.Length == SLOTS && Holds(buf[..], idx, history) && Spaced(history)
    }

    constructor ()
      ensures Valid() && fresh(buf) && history == []
    {
      buf := new Pair[SLOTS](_ => BLANK);
      idx, history := 0, [];
    }

    method Seen(p: Pair) returns (seen: bool)
      requires Valid()
      ensures seen == Duplicate(history, p)
    {
      if p != BLANK {
        ScanDecides(buf[..], idx, history, p);
      }
      for i := 0 to SLOTS
        invariant p == BLANK || p !in buf[..i]
      {
        var e := buf[i];
        if e == p && (e.epoch != 0 || e.seqNum != 0) {
          assert p in buf[..];
          return true;
        }
      }
      assert buf[..SLOTS] == buf[..];
      seen := false;
    }

    method Push(p: Pair)
      requires Valid() && !Duplicate(history, p)
      modifies this, buf
      ensures Valid() && history == old(history) + [p]
    {
      PushHolds(buf[..], idx, history, p);
      RecordSpaced(history, p);
      buf[idx] := p;
      idx, history := (idx + 1) % SLOTS, history + [p];
    }
  }

  class ReplayCache {
    var nodes: map<Mac, NodeBuf>
    /** The rings of the node buffers. */
    ghost var rings: set<array<Pair>>

    ghost predicate Valid()
      reads this, nodes.Values, rings
    {
      && (forall m :: m in nodes ==> nodes[m].buf in rings && nodes[m].Valid())
      && (forall m, m' :: m in nodes && m' in nodes && m != m' ==> nodes[m].buf != nodes[m'].buf)
    }

    /** The histories behind the rings. */
    ghost function Recorded(): Histories
      reads this, nodes.Values
    {
      map m | m in nodes :: nodes[m].history
    }

    constructor ()
      ensures Valid() && rings == {} && nodes == map[] && Recorded() == map[]
    {
      nodes, rings := map[], {};
    }

    /** Whether the pair is in the window of its node; recorded otherwise, and no other node is touched. */
    method IsDuplicate(mac: Mac, epoch: u32, seqNum: u32) returns (dup: bool)
      requires Valid()
      modifies this, nodes.Values, rings
      ensures Valid() && fresh(rings - old(rings)) && fresh(nodes.Values - old(nodes.Values))
      ensures dup == Duplicate(HistoryOf(old(Recorded()), mac), Pair(epoch, seqNum))
      ensures Recorded() == RecordFor(old(Recorded()), mac, Pair(epoch, seqNum))
    {
      hide Holds, Spaced, Duplicate, NodeBuf.Valid;
      hide Recorded;
      ghost var before := Recorded();
      ghost var h := HistoryOf(before, mac);
      var nb := Buffer(mac);
      dup := nb.Seen(Pair(epoch, seqNum));
      if !dup {
        PushTo(mac, Pair(epoch, seqNum));
        Overwrite(before, mac, h, h + [Pair(epoch, seqNum)]);
      }
    }

    method PushTo(mac: Mac, p: Pair)
      requires Valid() && mac in nodes && !Duplicate(nodes[mac].history, p)
      modifies nodes[mac], nodes[mac].buf
      ensures Valid() && rings == old(rings)
      ensures Recorded() == Put(old(Recorded()), mac, old(nodes[mac].history) + [p])
    {
      hide Holds, Spaced, Duplicate, NodeBuf.Valid;
      nodes[mac].Push(p);
    }

    /** The node's buffer, made on first use. */
    method Buffer(mac: Mac) returns (nb: NodeBuf)
      requires Valid()
      modifies this
      ensures Valid() && fresh(rings - old(rings)) && old(rings) <= rings
      ensures fresh(nodes.Values - old(nodes.Values))
      ensures mac in nodes && nodes[mac] == nb && nb.Valid()
      ensures nb.history == HistoryOf(old(Recorded()), mac)
      ensures Recorded() == Put(old(Recorded()), mac, HistoryOf(old(Recorded()), mac))
    {
      if mac !in nodes {
        AddBuffer(mac);
      }
      nb := nodes[mac];
    }

    method AddBuffer(mac: Mac)
      requires Valid() && mac !in nodes
      modifies this
      ensures Valid() && fresh(rings - old(rings)) && old(rings) <= rings
      ensures fresh(nodes.Values - old(nodes.Values))
      ensures mac in nodes && nodes[mac].history == []
      ensures Recorded() == Put(old(Recorded()), mac, [])
    {
      hide Recorded, NodeBuf.Valid;
      var nb := new NodeBuf();
      Install(mac, nb);
    }

    method Install(mac: Mac, nb: NodeBuf)
      requires Valid() && mac !in nodes && nb.Valid() && nb.buf !in rings
      modifies this
      ensures Valid() && rings == old(rings) + {nb.buf}
      ensures nodes.Values <= old(nodes.Values) + {nb} && mac in nodes && nodes[mac] == nb
      ensures Recorded() == Put(old(Recorded()), mac, nb.history)
    {
      hide NodeBuf.Valid;
      nodes := nodes[mac := nb];
      rings := rings + {nb.buf};
    }
  }
}
