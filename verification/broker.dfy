// mesh/event_broker.go: a bus that drops events for subscribers whose 32-slot channel is full.

module Broker {
  import opened Base
  import opened Events

  const CAPACITY: nat := 32

  /** A non-blocking send into a buffered channel. */
  function Pushed(buffer: seq<Event>, e: Event): seq<Event>
  {
    if |buffer| < CAPACITY then buffer + [e] else buffer
  }

  // ---- Subsequences ----

  /** `a` is `b` with some elements left out. */
  ghost predicate Subsequence(a: seq<Event>, b: seq<Event>)
    decreases |b|
  {
    || a == []
    || (b != []
        && (|| (a[|a| - 1] == b[|b| - 1] && Subsequence(a[..|a| - 1], b[..|b| - 1]))
            || Subsequence(a, b[..|b| - 1])))
  }

  /** Another element may follow on the right, left out or taken. */
  lemma Skip(a: seq<Event>, b: seq<Event>, e: Event)
    requires Subsequence(a, b)
    ensures Subsequence(a, b + [e])
  {
    assert (b + [e])[..|b|] == b;
  }

  lemma Take(a: seq<Event>, b: seq<Event>, e: Event)
    requires Subsequence(a, b)
    ensures Subsequence(a + [e], b + [e])
  {
    assert (a + [e])[..|a|] == a && (b + [e])[..|b|] == b;
  }

  // ---- Channels and publishers, step by step ----

  datatype Phase = Subscribed | Removed | Closed

  /**
   * A channel with its history: what its reader took, what publishers offered and where that stands in the stream
   * of published events, where what it kept stands there, how much found it full, and how long the stream was when it
   * subscribed and was removed.
   */
  datatype Channel = Channel(
    phase: Phase,
    buffer: seq<Event>,
    received: seq<Event>,
    offered: seq<Event>,
    places: seq<nat>,
    kept: seq<nat>,
    dropped: nat,
    since: nat,
    until: nat)

  /** A Publish under way: it holds the broker's read lock, its event has a place, these channels are left to visit. */
  datatype Publisher = Publisher(event: Event, place: nat, left: set<nat>)

  datatype Bus = Bus(channels: map<nat, Channel>, publishers: map<nat, Publisher>, published: seq<Event>)

  const EMPTY := Bus(map[], map[], [])

  /** Subscribe and the delete of Unsubscribe take the write lock; the close of Unsubscribe takes none. */
  datatype Step =
    | Subscribe(id: nat)
    | Remove(id: nat)
    | Close(id: nat)
    | Begin(p: nat, event: Event)
    | Offer(p: nat, id: nat)
    | End(p: nat)
    | Receive(id: nat)

  function Clients(b: Bus): set<nat>
  {
    set id | id in b.channels && b.channels[id].phase.Subscribed?
  }

  predicate CanStep(b: Bus, s: Step)
  {
    match s
    case Subscribe(id) => id !in b.channels && b.publishers == map[]
    case Remove(id) => id in Clients(b) && b.publishers == map[]
    case Close(id) => id in b.channels && b.channels[id].phase.Removed?
    case Begin(p, _) => p !in b.publishers
    case Offer(p, id) => p in b.publishers && id in b.publishers[p].left && id in b.channels
    case End(p) => p in b.publishers && b.publishers[p].left == {}
    case Receive(id) => id in b.channels && b.channels[id].buffer != []
  }

  function Fresh(since: nat): Channel
  {
    Channel(Subscribed, [], [], [], [], [], 0, since, since)
  }

  function Offered(ch: Channel, e: Event, place: nat): Channel
  {
    ch.(buffer := Pushed(ch.buffer, e), offered := ch.offered + [e], places := ch.places + [place],
        kept := if |ch.buffer| < CAPACITY then ch.kept + [place] else ch.kept,
        dropped := if |ch.buffer| < CAPACITY then ch.dropped else ch.dropped + 1)
  }

  function Received(ch: Channel): Channel
    requires ch.buffer != []
  {
    ch.(buffer := ch.buffer[1..], received := ch.received + [ch.buffer[0]])
  }

  function Apply(b: Bus, s: Step): Bus
    requires CanStep(b, s)
  {
    match s
    case Subscribe(id) => b.(channels := b.channels[id := Fresh(|b.published|)])
    case Remove(id) => b.(channels := b.channels[id := b.channels[id].(phase := Removed, until := |b.published|)])
    case Close(id) => b.(channels := b.channels[id := b.channels[id].(phase := Closed)])
    case Begin(p, e) =>
      b.(publishers := b.publishers[p := Publisher(e, |b.published|, Clients(b))], published := b.published + [e])
    case Offer(p, id) =>
      b.(channels := b.channels[id := Offered(b.channels[id], b.publishers[p].event, b.publishers[p].place)],
         publishers := b.publishers[p := b.publishers[p].(left := b.publishers[p].left - {id})])
    case End(p) => b.(publishers := b.publishers - {p})
    case Receive(id) => b.(channels := b.channels[id := Received(b.channels[id])])
  }

  // ---- Safety and accounting, with any number of publishers at once ----

  ghost predicate Accounted(ch: Channel)
  {
    && |ch.buffer| <= 32
    && |ch.offered| == |ch.received| + |ch.buffer| + ch.dropped
    && Subsequence(ch.received + ch.buffer, ch.offered)
    && (ch.dropped == 0 ==> ch.received + ch.buffer == ch.offered)
  }

  ghost predicate Good(b: Bus)
  {
    && (forall p :: p in b.publishers ==> b.publishers[p].left <= Clients(b))
    && (forall id :: id in b.channels ==> Accounted(b.channels[id]))
  }

  lemma OfferedAccounted(ch: Channel, e: Event, place: nat)
    requires Accounted(ch)
    ensures Accounted(Offered(ch, e, place))
  {
    hide Subsequence;
    var seen := ch.received + ch.buffer;
    if |ch.buffer| < CAPACITY {
      Take(seen, ch.offered, e);
      assert ch.received + (ch.buffer + [e]) == seen + [e];
    } else {
      Skip(seen, ch.offered, e);
    }
  }

  lemma ReceivedAccounted(ch: Channel)
    requires Accounted(ch) && ch.buffer != []
    ensures Accounted(Received(ch))
  {
    hide Subsequence;
    assert Received(ch).received + Received(ch).buffer == ch.received + ch.buffer;
  }

  lemma StepGood(b: Bus, s: Step)
    requires Good(b) && CanStep(b, s)
    ensures Good(Apply(b, s))
  {
    hide Accounted, Offered, Received, Fresh;
    match s
    case Subscribe(id) => NewAccounted(|b.published|);
    case Remove(id) => PhaseAccounted(b.channels[id], Removed, |b.published|);
    case Close(id) => PhaseAccounted(b.channels[id], Closed, b.channels[id].until);
    case Begin(_, _) =>
    case Offer(p, id) =>
      OfferedAccounted(b.channels[id], b.publishers[p].event, b.publishers[p].place);
      OfferedKeeps(b.channels[id], b.publishers[p].event, b.publishers[p].place);
    case End(_) =>
    case Receive(id) =>
      ReceivedAccounted(b.channels[id]);
      ReceivedKeeps(b.channels[id]);
  }

  lemma NewAccounted(since: nat)
    ensures Accounted(Fresh(since)) && Fresh(since).phase == Subscribed
  {
  }

  lemma PhaseAccounted(ch: Channel, phase: Phase, until: nat)
    requires Accounted(ch)
    ensures Accounted(ch.(phase := phase, until := until))
  {
  }

  lemma OfferedKeeps(ch: Channel, e: Event, place: nat)
    ensures var ch' := Offered(ch, e, place);
      && ch'.phase == ch.phase && ch'.since == ch.since && ch'.until == ch.until
      && ch'.offered == ch.offered + [e] && ch'.places == ch.places + [place]
      && ch'.kept == (if |ch.buffer| < CAPACITY then ch.kept + [place] else ch.kept)
      && ch'.received + ch'.buffer ==
         ch.received + ch.buffer + (if |ch.buffer| < CAPACITY then [e] else [])
  {
  }

  lemma ReceivedKeeps(ch: Channel)
    requires ch.buffer != []
    ensures var ch' := Received(ch);
      && ch'.phase == ch.phase && ch'.since == ch.since && ch'.until == ch.until
      && ch'.offered == ch.offered && ch'.places == ch.places && ch'.kept == ch.kept
      && ch'.received + ch'.buffer == ch.received + ch.buffer
  {
  }

  ghost predicate CanRun(b: Bus, steps: seq<Step>)
    decreases steps
  {
    steps == [] || (CanStep(b, steps[0]) && CanRun(Apply(b, steps[0]), steps[1..]))
  }

  function Run(b: Bus, steps: seq<Step>): Bus
    requires CanRun(b, steps)
    decreases steps
  {
    if steps == [] then b else Run(Apply(b, steps[0]), steps[1..])
  }

  lemma {:induction false} RunGood(b: Bus, steps: seq<Step>)
    requires Good(b) && CanRun(b, steps)
    ensures Good(Run(b, steps))
    decreases steps
  {
    hide Good, CanStep, Apply;
    if steps == [] {
    } else {
      StepGood(b, steps[0]);
      RunGood(Apply(b, steps[0]), steps[1..]);
    }
  }

  /** In every interleaving each channel's books balance, and a publisher only ever sends to an open channel. */
  lemma EveryRunAccounts(steps: seq<Step>)
    requires CanRun(EMPTY, steps)
    ensures var b := Run(EMPTY, steps);
      && (forall id :: id in b.channels ==> Accounted(b.channels[id]))
      && (forall p, id :: p in b.publishers && id in b.publishers[p].left ==>
            id in b.channels && b.channels[id].phase.Subscribed?)
  {
    hide Accounted, CanRun, Run;
    RunGood(EMPTY, steps);
  }

  // ---- Offered and published ----

  /** Where the part of the stream meant for a channel ends. */
  function ShareEnd(b: Bus, ch: Channel): nat
  {
    if ch.phase.Subscribed? then |b.published| else ch.until
  }

  /** Some publisher under way still has to offer the channel the event at this place. */
  ghost predicate AwaitedAt(b: Bus, id: nat, place: nat)
  {
    exists p :: p in b.publishers && id in b.publishers[p].left && b.publishers[p].place == place
  }

  /** Each publisher's place is its own, and its event stands there. */
  ghost predicate Tagged(b: Bus)
  {
    && (forall p :: p in b.publishers ==>
          && b.publishers[p].place < |b.published|
          && b.published[b.publishers[p].place] == b.publishers[p].event)
    && (forall p, q :: p in b.publishers && q in b.publishers && b.publishers[p].place == b.publishers[q].place ==>
          p == q)
  }

  ghost predicate PlacesFit(b: Bus, ch: Channel)
  {
    && ch.since <= ShareEnd(b, ch) <= |b.published| && |ch.places| == |ch.offered|
    && (forall i :: 0 <= i < |ch.places| ==>
          ch.since <= ch.places[i] < ShareEnd(b, ch) && ch.offered[i] == b.published[ch.places[i]])
    && (forall i, j :: 0 <= i < j < |ch.places| ==> ch.places[i] != ch.places[j])
  }

  /** Every event of a channel's part of the stream was offered to it once, or else awaits one publisher. */
  ghost predicate Delivers(b: Bus, id: nat)
    requires id in b.channels
  {
    var ch := b.channels[id];
    && PlacesFit(b, ch)
    && (forall p :: p in b.publishers && id in b.publishers[p].left ==> ch.since <= b.publishers[p].place)
    && (forall k :: ch.since <= k < ShareEnd(b, ch) ==> (k in ch.places <==> !AwaitedAt(b, id, k)))
  }

  ghost predicate AllDelivers(b: Bus)
  {
    Good(b) && Tagged(b) && forall id :: id in b.channels ==> Delivers(b, id)
  }

  lemma StepTagged(b: Bus, s: Step)
    requires Tagged(b) && CanStep(b, s)
    ensures Tagged(Apply(b, s))
  {
    hide Offered, Received, Fresh, Clients;
    if s.Begin? {
      assert forall p :: p in b.publishers ==> b.publishers[p].place < |b.published|;
    }
  }

  /** A step leaves a channel's history alone and does not change what it awaits. */
  lemma SameDelivers(b: Bus, b': Bus, id: nat)
    requires id in b.channels && id in b'.channels && Delivers(b, id) && b'.published == b.published
    requires var ch, ch' := b.channels[id], b'.channels[id];
      && ch'.offered == ch.offered && ch'.places == ch.places
      && ch'.since == ch.since && ShareEnd(b', ch') == ShareEnd(b, ch)
    requires forall p :: p in b'.publishers && id in b'.publishers[p].left ==>
      p in b.publishers && id in b.publishers[p].left && b'.publishers[p].place == b.publishers[p].place
    requires forall p :: p in b.publishers && id in b.publishers[p].left ==>
      p in b'.publishers && id in b'.publishers[p].left && b'.publishers[p].place == b.publishers[p].place
    ensures Delivers(b', id)
  {
    forall k
      ensures AwaitedAt(b', id, k) <==> AwaitedAt(b, id, k)
    {
    }
  }

  lemma FreshDelivers(b: Bus, id: nat)
    requires id in b.channels && b.channels[id] == Fresh(|b.published|) && b.publishers == map[]
    ensures Delivers(b, id)
  {
  }

  lemma BeginDelivers(b: Bus, p: nat, e: Event, id: nat)
    requires Good(b) && p !in b.publishers && id in b.channels && Delivers(b, id)
    ensures Delivers(Apply(b, Begin(p, e)), id)
  {
    hide Accounted, PlacesFit;
    var b' := Apply(b, Begin(p, e));
    var ch := b.channels[id];
    BeginFits(b, p, e, id);
    assert ShareEnd(b, ch) <= |b.published| by { Fits(b, ch); }
    forall k: nat | k < |b.published|
      ensures AwaitedAt(b', id, k) <==> AwaitedAt(b, id, k)
    {
      forall q | q in b.publishers
        ensures q in b'.publishers && b'.publishers[q] == b.publishers[q]
      {
      }
    }
    if ch.phase.Subscribed? {
      assert id in b'.publishers[p].left && b'.publishers[p].place == |b.published|;
      assert AwaitedAt(b', id, |b.published|);
      Fits(b, ch);
    } else {
      assert id !in b'.publishers[p].left;
    }
  }

  lemma Fits(b: Bus, ch: Channel)
    requires PlacesFit(b, ch)
    ensures ch.since <= ShareEnd(b, ch) <= |b.published|
    ensures forall k :: k in ch.places ==> ch.since <= k < ShareEnd(b, ch)
  {
  }

  lemma BeginFits(b: Bus, p: nat, e: Event, id: nat)
    requires p !in b.publishers && id in b.channels && PlacesFit(b, b.channels[id])
    ensures PlacesFit(Apply(b, Begin(p, e)), b.channels[id])
  {
    hide Clients;
  }

  lemma OfferDelivers(b: Bus, p: nat, id: nat)
    requires Good(b) && Tagged(b) && CanStep(b, Offer(p, id)) && Delivers(b, id)
    ensures Delivers(Apply(b, Offer(p, id)), id)
  {
    hide Accounted, PlacesFit, Offered;
    var b' := Apply(b, Offer(p, id));
    var ch, place := b.channels[id], b.publishers[p].place;
    OfferedKeeps(ch, b.publishers[p].event, place);
    assert id in Clients(b);
    assert AwaitedAt(b, id, place);
    OfferFits(b, p, id);
    forall k
      ensures AwaitedAt(b', id, k) <==> AwaitedAt(b, id, k) && k != place
    {
      if AwaitedAt(b, id, k) && k != place {
        var q :| q in b.publishers && id in b.publishers[q].left && b.publishers[q].place == k;
        assert q in b'.publishers && id in b'.publishers[q].left;
      }
      if AwaitedAt(b', id, k) {
        var q :| q in b'.publishers && id in b'.publishers[q].left && b'.publishers[q].place == k;
        assert q != p && q in b.publishers && id in b.publishers[q].left;
      }
    }
  }

  lemma OfferFits(b: Bus, p: nat, id: nat)
    requires Tagged(b) && CanStep(b, Offer(p, id)) && PlacesFit(b, b.channels[id])
    requires b.channels[id].phase.Subscribed?
    requires b.channels[id].since <= b.publishers[p].place && b.publishers[p].place !in b.channels[id].places
    ensures var b' := Apply(b, Offer(p, id)); PlacesFit(b', b'.channels[id])
  {
    hide Offered;
    OfferedKeeps(b.channels[id], b.publishers[p].event, b.publishers[p].place);
  }

  lemma StepDelivers(b: Bus, s: Step, id: nat)
    requires AllDelivers(b) && CanStep(b, s) && id in Apply(b, s).channels
    ensures Delivers(Apply(b, s), id)
  {
    hide Good, Tagged, Delivers, Offered, Received, Fresh;
    var b' := Apply(b, s);
    if id in b.channels {
      assert Delivers(b, id);
    }
    match s {
      case Subscribe(n) =>
        if n == id { FreshDelivers(b', id); } else { SameDelivers(b, b', id); }
      case Begin(p, e) => BeginDelivers(b, p, e, id);
      case Offer(p, n) =>
        if n == id { OfferDelivers(b, p, id); } else { SameDelivers(b, b', id); }
      case Receive(n) =>
        ReceivedKeeps(b.channels[n]);
        SameDelivers(b, b', id);
      case _ => SameDelivers(b, b', id);
    }
  }

  lemma StepAllDelivers(b: Bus, s: Step)
    requires AllDelivers(b) && CanStep(b, s)
    ensures AllDelivers(Apply(b, s))
  {
    hide Good, Tagged, Delivers, CanStep, Apply;
    StepGood(b, s);
    StepTagged(b, s);
    forall id | id in Apply(b, s).channels
      ensures Delivers(Apply(b, s), id)
    {
      StepDelivers(b, s, id);
    }
  }

  lemma {:induction false} RunAllDelivers(b: Bus, steps: seq<Step>)
    requires AllDelivers(b) && CanRun(b, steps)
    ensures AllDelivers(Run(b, steps))
    decreases steps
  {
    hide AllDelivers, CanStep, Apply;
    if steps == [] {
    } else {
      StepAllDelivers(b, steps[0]);
      RunAllDelivers(Apply(b, steps[0]), steps[1..]);
    }
  }

  lemma EmptyAllDelivers()
    ensures AllDelivers(EMPTY)
  {
  }

  // ---- Every event once ----

  function Awaiting(b: Bus, id: nat): set<nat>
  {
    set p | p in b.publishers && id in b.publishers[p].left
  }

  /** The events these publishers have under way, and their places. */
  function EventsOf(b: Bus, ps: seq<nat>): (es: seq<Event>)
    requires forall p :: p in ps ==> p in b.publishers
    ensures |es| == |ps| && forall i :: 0 <= i < |ps| ==> es[i] == b.publishers[ps[i]].event
  {
    seq(|ps|, i requires 0 <= i < |ps| => assert ps[i] in ps; b.publishers[ps[i]].event)
  }

  function PlacesOf(b: Bus, ps: seq<nat>): (ns: seq<nat>)
    requires forall p :: p in ps ==> p in b.publishers
    ensures |ns| == |ps| && forall i :: 0 <= i < |ps| ==> ns[i] == b.publishers[ps[i]].place
  {
    seq(|ps|, i requires 0 <= i < |ps| => assert ps[i] in ps; b.publishers[ps[i]].place)
  }

  /** The part of the stream meant for a channel: what was published from its subscription to its removal. */
  function Share(b: Bus, id: nat): seq<Event>
    requires id in b.channels
  {
    var ch := b.channels[id];
    if ch.since <= ShareEnd(b, ch) <= |b.published| then b.published[ch.since..ShareEnd(b, ch)] else []
  }

  /** `places` runs through lo..hi in some order, once each, and `es` has what stands there. */
  ghost predicate Permutes(es: seq<Event>, places: seq<nat>, stream: seq<Event>, lo: nat, hi: nat)
  {
    && |es| == |places| && lo <= hi <= |stream|
    && (forall i :: 0 <= i < |places| ==> lo <= places[i] < hi && es[i] == stream[places[i]])
    && (forall i, j :: 0 <= i < j < |places| ==> places[i] != places[j])
    && (forall k :: lo <= k < hi ==> k in places)
  }

  lemma PermutesWithin(es: seq<Event>, places: seq<nat>, stream: seq<Event>, lo: nat, hi: nat)
    requires Permutes(es, places, stream, lo, hi)
    ensures lo <= hi <= |stream| && |es| == |places| && (lo == hi ==> es == [])
    ensures forall k :: k in places ==> lo <= k < hi
    ensures lo < hi ==> hi - 1 in places
    ensures forall j :: 0 <= j < |places| ==> es[j] == stream[places[j]]
  {
    if es != [] {
      assert lo <= places[0] < hi;
    }
  }

  lemma {:induction false} PermutedEvents(es: seq<Event>, places: seq<nat>, stream: seq<Event>, lo: nat, hi: nat)
    requires Permutes(es, places, stream, lo, hi)
    ensures |es| == hi - lo && multiset(es) == multiset(stream[lo..hi])
    decreases hi
  {
    hide Permutes;
    PermutesWithin(es, places, stream, lo, hi);
    if lo == hi {
    } else {
      var es', places' := DropLast(es, places, stream, lo, hi);
      PermutedEvents(es', places', stream, lo, hi - 1);
      SliceGrows(stream, lo, hi);
    }
  }

  lemma SliceGrows(stream: seq<Event>, lo: nat, hi: nat)
    requires lo < hi <= |stream|
    ensures multiset(stream[lo..hi]) == multiset(stream[lo..hi - 1]) + multiset{stream[hi - 1]}
  {
    assert stream[lo..hi] == stream[lo..hi - 1] + [stream[hi - 1]];
  }

  /** Without the event that stands last in the stream. */
  lemma DropLast(es: seq<Event>, places: seq<nat>, stream: seq<Event>, lo: nat, hi: nat)
    returns (es': seq<Event>, places': seq<nat>)
    requires Permutes(es, places, stream, lo, hi) && lo < hi
    ensures Permutes(es', places', stream, lo, hi - 1)
    ensures |es| == |es'| + 1 && multiset(es) == multiset(es') + multiset{stream[hi - 1]}
  {
    hide Permutes;
    PermutesWithin(es, places, stream, lo, hi);
    var j :| 0 <= j < |places| && places[j] == hi - 1;
    es', places' := es[..j] + es[j + 1..], places[..j] + places[j + 1..];
    WithoutLast(es, places, stream, lo, hi, j);
    assert es == es[..j] + [es[j]] + es[j + 1..];
  }

  lemma WithoutLast(es: seq<Event>, places: seq<nat>, stream: seq<Event>, lo: nat, hi: nat, j: nat)
    requires Permutes(es, places, stream, lo, hi) && j < |places| && places[j] == hi - 1 >= lo
    ensures Permutes(es[..j] + es[j + 1..], places[..j] + places[j + 1..], stream, lo, hi - 1)
  {
    var es', places' := es[..j] + es[j + 1..], places[..j] + places[j + 1..];
    assert forall i :: 0 <= i < |places'| ==>
      places'[i] == places[if i < j then i else i + 1] && es'[i] == es[if i < j then i else i + 1];
    forall k | lo <= k < hi - 1
      ensures k in places'
    {
      assert k in places;
      var i :| 0 <= i < |places| && places[i] == k;
      assert places'[if i < j then i else i - 1] == k;
    }
  }

  lemma SharePermuted(b: Bus, id: nat, waiting: seq<nat>)
    requires Tagged(b) && Good(b) && id in b.channels && Delivers(b, id) && IsOrder(waiting, Awaiting(b, id))
    ensures var ch := b.channels[id];
      Permutes(ch.offered + EventsOf(b, waiting), ch.places + PlacesOf(b, waiting), b.published,
               ch.since, ShareEnd(b, ch))
  {
    hide Good, Tagged, Delivers;
    var ch := b.channels[id];
    FitsHere(b, id);
    forall i | 0 <= i < |waiting|
      ensures ch.since <= PlacesOf(b, waiting)[i] < ShareEnd(b, ch) && PlacesOf(b, waiting)[i] !in ch.places
      ensures EventsOf(b, waiting)[i] == b.published[PlacesOf(b, waiting)[i]]
    {
      assert waiting[i] in Awaiting(b, id);
      PendingPlace(b, id, waiting[i]);
    }
    forall i, j | 0 <= i < j < |waiting|
      ensures PlacesOf(b, waiting)[i] != PlacesOf(b, waiting)[j]
    {
      assert waiting[i] in Awaiting(b, id) && waiting[j] in Awaiting(b, id);
      OwnPlaces(b, waiting[i], waiting[j]);
    }
    forall k | ch.since <= k < ShareEnd(b, ch)
      ensures k in ch.places + PlacesOf(b, waiting)
    {
      if k !in ch.places {
        var p := PendingAt(b, id, k);
        var i :| 0 <= i < |waiting| && waiting[i] == p;
        assert PlacesOf(b, waiting)[i] == k;
      }
    }
  }

  lemma FitsHere(b: Bus, id: nat)
    requires id in b.channels && Delivers(b, id)
    ensures PlacesFit(b, b.channels[id])
  {
  }

  lemma OwnPlaces(b: Bus, p: nat, q: nat)
    requires Tagged(b) && p in b.publishers && q in b.publishers && p != q
    ensures b.publishers[p].place != b.publishers[q].place
  {
  }

  /** A pending event is one of the channel's share that it was not offered yet. */
  lemma PendingPlace(b: Bus, id: nat, p: nat)
    requires Tagged(b) && Good(b) && id in b.channels && Delivers(b, id) && p in Awaiting(b, id)
    ensures var ch, place := b.channels[id], b.publishers[p].place;
      && ch.phase.Subscribed? && ch.since <= place < ShareEnd(b, ch) <= |b.published|
      && place !in ch.places && b.publishers[p].event == b.published[place]
  {
    hide Accounted;
    assert id in Clients(b);
    assert AwaitedAt(b, id, b.publishers[p].place);
  }

  lemma PendingAt(b: Bus, id: nat, k: nat) returns (p: nat)
    requires id in b.channels && Delivers(b, id) && b.channels[id].since <= k < ShareEnd(b, b.channels[id])
    requires k !in b.channels[id].places
    ensures p in Awaiting(b, id) && b.publishers[p].place == k
  {
    hide PlacesFit;
    assert AwaitedAt(b, id, k);
    p :| p in b.publishers && id in b.publishers[p].left && b.publishers[p].place == k;
  }

  /**
   * In every interleaving, at every moment and for every subscriber: what it was offered and what publishers under way
   * still have for it are together exactly what was published since it subscribed, each event as often; so published
   * is received, buffered, dropped and pending.
   */
  lemma EveryRunDelivers(steps: seq<Step>, id: nat, waiting: seq<nat>)
    requires CanRun(EMPTY, steps) && id in Run(EMPTY, steps).channels
    requires IsOrder(waiting, Awaiting(Run(EMPTY, steps), id))
    ensures var b := Run(EMPTY, steps); var ch := b.channels[id];
      && multiset(ch.offered + EventsOf(b, waiting)) == multiset(Share(b, id))
      && |Share(b, id)| == |ch.received| + |ch.buffer| + ch.dropped + |waiting|
      && (ch.phase.Subscribed? ==> ch.since <= |b.published| && Share(b, id) == b.published[ch.since..])
  {
    hide CanRun, Run, Delivers, Subsequence, Tagged;
    EmptyAllDelivers();
    RunAllDelivers(EMPTY, steps);
    var b := Run(EMPTY, steps);
    var ch := b.channels[id];
    assert Accounted(ch) && Delivers(b, id);
    SharePermuted(b, id, waiting);
    PermutedEvents(ch.offered + EventsOf(b, waiting), ch.places + PlacesOf(b, waiting), b.published,
                   ch.since, ShareEnd(b, ch));
  }

  // ---- A whole Publish ----

  function Offers(p: nat, order: seq<nat>): seq<Step>
  {
    if order == [] then [] else [Offer(p, order[0])] + Offers(p, order[1..])
  }

  /** Every channel of `visited` is offered the event, the others are as they were. */
  ghost predicate OfferedTo(before: map<nat, Channel>, after: map<nat, Channel>, visited: seq<nat>, e: Event,
                            place: nat)
  {
    && after.Keys == before.Keys
    && forall id :: id in before ==> after[id] == if id in visited then Offered(before[id], e, place) else before[id]
  }

  lemma {:induction false} OffersRun(b: Bus, p: nat, order: seq<nat>)
    requires p in b.publishers && IsOrder(order, b.publishers[p].left) && b.publishers[p].left <= b.channels.Keys
    ensures CanRun(b, Offers(p, order))
    ensures var b' := Run(b, Offers(p, order));
      && OfferedTo(b.channels, b'.channels, order, b.publishers[p].event, b.publishers[p].place)
      && b'.publishers == b.publishers[p := b.publishers[p].(left := {})] && b'.published == b.published
    decreases order
  {
    hide Offered;
    if order == [] {
      assert b.publishers[p].left == {};
    } else {
      var id := order[0];
      var b1 := Apply(b, Offer(p, id));
      assert forall k :: k in order <==> k == id || k in order[1..];
      assert id !in order[1..];
      assert IsOrder(order[1..], b1.publishers[p].left);
      OffersRun(b1, p, order[1..]);
      assert Offers(p, order)[1..] == Offers(p, order[1..]);
    }
  }

  lemma RunOne(b: Bus, s: Step)
    requires CanStep(b, s)
    ensures CanRun(b, [s]) && Run(b, [s]) == Apply(b, s)
  {
    assert [s][1..] == [];
  }

  lemma {:induction false} RunConcat(b: Bus, a: seq<Step>, c: seq<Step>)
    requires CanRun(b, a) && CanRun(Run(b, a), c)
    ensures CanRun(b, a + c) && Run(b, a + c) == Run(Run(b, a), c)
    decreases a
  {
    hide CanStep, Apply;
    if a == [] {
      assert a + c == c;
    } else {
      assert (a + c)[1..] == a[1..] + c;
      RunConcat(Apply(b, a[0]), a[1..], c);
    }
  }

  /** A Publish with nobody in between, in any order of the map, offers the event once to every client. */
  lemma WholePublish(b: Bus, p: nat, e: Event, order: seq<nat>)
    requires b.publishers == map[] && IsOrder(order, Clients(b))
    ensures CanRun(b, [Begin(p, e)] + Offers(p, order) + [End(p)])
    ensures var b' := Run(b, [Begin(p, e)] + Offers(p, order) + [End(p)]);
      && OfferedTo(b.channels, b'.channels, order, e, |b.published|)
      && b'.publishers == map[] && b'.published == b.published + [e]
  {
    hide Offered, OfferedTo, Offers;
    var begin, end := [Begin(p, e)], [End(p)];
    var b1 := Apply(b, Begin(p, e));
    RunOne(b, Begin(p, e));
    OffersRun(b1, p, order);
    RunConcat(b, begin, Offers(p, order));
    var b2 := Run(b1, Offers(p, order));
    RunOne(b2, End(p));
    RunConcat(b, begin + Offers(p, order), end);
  }

  // ---- The broker ----

  class EventChannel {
    var buffer: seq<Event>
    var closed: bool

    constructor ()
      ensures buffer == [] && !closed
    {
      buffer, closed := [], false;
    }

    /** The select of Publish: send if there is room. A send on a closed channel would panic. */
    method TrySend(e: Event)
      requires !closed
      modifies this`buffer
      ensures buffer == if |old(buffer)| < 32 then old(buffer) + [e] else old(buffer)
    {
      if |buffer| < CAPACITY {
        buffer := buffer + [e];
      }
    }

    /** A subscriber takes the oldest event. */
    method Receive() returns (e: Event)
      requires buffer != []
      modifies this`buffer
      ensures old(buffer) == [e] + buffer
    {
      e, buffer := buffer[0], buffer[1..];
    }
  }

  class EventBroker {
    var clients: set<EventChannel>
    /** Everything published so far. */
    ghost var published: seq<Event>

    ghost predicate Valid()
      reads this, clients
    {
      forall ch :: ch in clients ==> !ch.closed
    }

    constructor ()
      ensures Valid() && clients == {} && published == []
    {
      clients, published := {}, [];
    }

    method Subscribe() returns (ch: EventChannel)
      requires Valid()
      modifies this`clients
      ensures Valid() && fresh(ch) && ch.buffer == [] && clients == old(clients) + {ch}
    {
      ch := new EventChannel();
      clients := clients + {ch};
    }

    /** The channel must not be closed already: closing twice would panic. */
    method Unsubscribe(ch: EventChannel)
      requires Valid() && !ch.closed
      modifies this`clients, ch`closed
      ensures Valid() && clients == old(clients) - {ch} && ch.closed
    {
      clients := clients - {ch};
      ch.closed := true;
    }

    method Publish(e: Event)
      requires Valid()
      modifies this`published, clients
      ensures Valid() && published == old(published) + [e]
      ensures forall ch :: ch in clients ==> ch.buffer == Pushed(old(ch.buffer), e)
    {
      published := published + [e];
      var left := clients;
      while left != {}
        invariant left <= clients && Valid() && published == old(published) + [e]
        invariant forall ch :: ch in clients ==>
          ch.buffer == if ch in left then old(ch.buffer) else Pushed(old(ch.buffer), e)
        decreases left
      {
        var ch :| ch in left;
        ch.TrySend(e);
        left := left - {ch};
      }
    }
  }

  // ---- The broker object and the bus ----

  /** Between calls the object is a bus with nobody publishing, `ids` naming its channels. */
  ghost predicate Shows(br: EventBroker, ids: map<nat, EventChannel>, b: Bus)
    reads br, br.clients
  {
    && b.publishers == map[] && b.published == br.published
    && ids.Keys == Clients(b) && ids.Values == br.clients
    && (forall i, j :: i in ids && j in ids && ids[i] == ids[j] ==> i == j)
    && (forall i :: i in ids ==> ids[i] in br.clients && b.channels[i].buffer == ids[i].buffer)
  }

  lemma AddedValues(ids: map<nat, EventChannel>, id: nat, ch: EventChannel)
    requires id !in ids
    ensures ids[id := ch].Values == ids.Values + {ch}
  {
    var ids' := ids[id := ch];
    forall c | c in ids.Values
      ensures c in ids'.Values
    {
      var i :| i in ids && ids[i] == c;
      assert ids'[i] == c;
    }
    assert ids'[id] == ch;
  }

  lemma RemovedValues(ids: map<nat, EventChannel>, id: nat)
    requires id in ids && forall i, j :: i in ids && j in ids && ids[i] == ids[j] ==> i == j
    ensures (ids - {id}).Values == ids.Values - {ids[id]}
  {
    var ids' := ids - {id};
    forall c | c in ids.Values && c != ids[id]
      ensures c in ids'.Values
    {
      var i :| i in ids && ids[i] == c;
      assert ids'[i] == c;
    }
  }

  twostate lemma SubscribeShown(br: EventBroker, ids: map<nat, EventChannel>, b: Bus, id: nat, new ch: EventChannel)
    requires old(Shows(br, ids, b)) && id !in b.channels
    requires fresh(ch) && ch.buffer == [] && br.clients == old(br.clients) + {ch} && br.published == old(br.published)
    requires forall c :: c in old(br.clients) ==> c.buffer == old(c.buffer)
    ensures CanStep(b, Subscribe(id)) && Shows(br, ids[id := ch], Apply(b, Subscribe(id)))
  {
    var b' := Apply(b, Subscribe(id));
    assert Clients(b') == Clients(b) + {id};
    assert forall i :: i in ids ==> ids[i] in old(br.clients) && ids[i] != ch;
    assert id !in ids;
    AddedValues(ids, id, ch);
  }

  twostate lemma UnsubscribeShown(br: EventBroker, ids: map<nat, EventChannel>, b: Bus, id: nat)
    requires old(Shows(br, ids, b)) && id in ids
    requires br.clients == old(br.clients) - {ids[id]} && br.published == old(br.published)
    requires forall c :: c in br.clients ==> c.buffer == old(c.buffer)
    ensures CanRun(b, [Remove(id)] + [Close(id)])
    ensures Shows(br, ids - {id}, Run(b, [Remove(id)] + [Close(id)]))
  {
    var b1 := Apply(b, Remove(id));
    var b2 := Apply(b1, Close(id));
    RunOne(b, Remove(id));
    RunOne(b1, Close(id));
    RunConcat(b, [Remove(id)], [Close(id)]);
    assert Clients(b2) == Clients(b) - {id};
    RemovedValues(ids, id);
  }

  twostate lemma ReceiveShown(br: EventBroker, ids: map<nat, EventChannel>, b: Bus, id: nat, e: Event)
    requires old(Shows(br, ids, b)) && id in ids
    requires br.clients == old(br.clients) && br.published == old(br.published)
    requires old(ids[id].buffer) == [e] + ids[id].buffer
    requires forall c :: c in br.clients && c != ids[id] ==> c.buffer == old(c.buffer)
    ensures CanStep(b, Receive(id)) && Shows(br, ids, Apply(b, Receive(id)))
  {
    assert Clients(Apply(b, Receive(id))) == Clients(b);
  }

  /** The Publish method does what a Publish of the bus does with nobody in between, in any order of the map. */
  twostate lemma PublishShown(br: EventBroker, ids: map<nat, EventChannel>, b: Bus, p: nat, e: Event, order: seq<nat>)
    requires old(Shows(br, ids, b)) && IsOrder(order, Clients(b))
    requires br.clients == old(br.clients) && br.published == old(br.published) + [e]
    requires forall ch :: ch in br.clients ==> ch.buffer == Pushed(old(ch.buffer), e)
    ensures CanRun(b, [Begin(p, e)] + Offers(p, order) + [End(p)])
    ensures Shows(br, ids, Run(b, [Begin(p, e)] + Offers(p, order) + [End(p)]))
  {
    hide CanRun, Run, Offers;
    WholePublish(b, p, e, order);
    var b' := Run(b, [Begin(p, e)] + Offers(p, order) + [End(p)]);
    assert Clients(b') == Clients(b);
  }
}
