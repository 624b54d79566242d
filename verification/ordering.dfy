// mesh/event_broker.go: in which order subscribers are offered events, and see them.

module Ordering {
  import opened Base
  import opened Events
  import opened Broker

  // ---- In order ----

  /** What the channel was offered is the stream from its subscription on, nothing skipped. */
  ghost predicate Straight(b: Bus, id: nat)
  {
    id in b.channels ==>
      var ch := b.channels[id];
      forall i :: 0 <= i < |ch.places| ==> ch.places[i] == ch.since + i
  }

  /** A publisher offers its event to this channel only when no earlier publisher still has it to visit. */
  ghost predicate InTurn(b: Bus, s: Step, id: nat)
  {
    s.Offer? && s.id == id && s.p in b.publishers ==>
      forall q :: q in b.publishers && id in b.publishers[q].left ==> b.publishers[s.p].place <= b.publishers[q].place
  }

  ghost predicate KeepsTurns(b: Bus, steps: seq<Step>, id: nat)
    requires CanRun(b, steps)
    decreases steps
  {
    steps == [] || (InTurn(b, steps[0], id) && KeepsTurns(Apply(b, steps[0]), steps[1..], id))
  }

  lemma OfferStraight(b: Bus, p: nat, id: nat)
    requires Tagged(b) && Good(b) && CanStep(b, Offer(p, id)) && Delivers(b, id) && Straight(b, id)
    ensures b.publishers[p].place == b.channels[id].since + |b.channels[id].places| <==> InTurn(b, Offer(p, id), id)
  {
    hide Accounted;
    var ch := b.channels[id];
    var place, next := b.publishers[p].place, ch.since + |ch.places|;
    assert id in Clients(b);
    assert forall k :: k in ch.places <==> ch.since <= k < next by {
      forall k | ch.since <= k < next
        ensures k in ch.places
      {
        assert ch.places[k - ch.since] == k;
      }
    }
    forall q | q in b.publishers && id in b.publishers[q].left
      ensures b.publishers[q].place >= next
    {
      assert AwaitedAt(b, id, b.publishers[q].place);
      assert b.publishers[q].place !in ch.places;
    }
    if next < place {
      assert next !in ch.places;
      assert AwaitedAt(b, id, next);
    }
  }

  lemma StepStraight(b: Bus, s: Step, id: nat)
    requires AllDelivers(b) && CanStep(b, s)
    ensures Straight(Apply(b, s), id) <==> Straight(b, id) && InTurn(b, s, id)
  {
    hide Good, Tagged, Delivers, Offered, Received;
    if s.Offer? {
      OfferedKeeps(b.channels[s.id], b.publishers[s.p].event, b.publishers[s.p].place);
      if s.id == id {
        PlaceStraight(b, Apply(b, s), id, b.publishers[s.p].place);
        if Straight(b, id) {
          OfferStraight(b, s.p, id);
        }
      }
    } else if s.Receive? {
      ReceivedKeeps(b.channels[s.id]);
    }
  }

  lemma PlaceStraight(b: Bus, b': Bus, id: nat, place: nat)
    requires id in b.channels && id in b'.channels
    requires var ch, ch' := b.channels[id], b'.channels[id]; ch'.since == ch.since && ch'.places == ch.places + [place]
    ensures Straight(b', id) <==> Straight(b, id) && place == b.channels[id].since + |b.channels[id].places|
  {
    var ch, ch' := b.channels[id], b'.channels[id];
    assert ch'.places[|ch.places|] == place;
    assert forall i :: 0 <= i < |ch.places| ==> ch'.places[i] == ch.places[i];
  }

  lemma {:induction false} RunStraight(b: Bus, steps: seq<Step>, id: nat)
    requires AllDelivers(b) && CanRun(b, steps)
    ensures Straight(Run(b, steps), id) <==> Straight(b, id) && KeepsTurns(b, steps, id)
    decreases steps
  {
    hide AllDelivers, CanStep, Apply, Straight, InTurn;
    if steps == [] {
    } else {
      StepStraight(b, steps[0], id);
      StepAllDelivers(b, steps[0]);
      RunStraight(Apply(b, steps[0]), steps[1..], id);
    }
  }

  /**
   * However Publish calls overlap, a subscriber is offered the stream in its order, nothing skipped on the way,
   * exactly when every offer made to it came in turn.
   */
  lemma OrderedIffInTurn(steps: seq<Step>, id: nat)
    requires CanRun(EMPTY, steps) && id in Run(EMPTY, steps).channels
    ensures var ch := Run(EMPTY, steps).channels[id];
      (forall i :: 0 <= i < |ch.places| ==> ch.places[i] == ch.since + i) <==> KeepsTurns(EMPTY, steps, id)
    ensures KeepsTurns(EMPTY, steps, id) ==>
      var b := Run(EMPTY, steps); b.channels[id].offered <= Share(b, id)
  {
    hide CanRun, Run, KeepsTurns;
    EmptyAllDelivers();
    RunAllDelivers(EMPTY, steps);
    RunStraight(EMPTY, steps, id);
    var b := Run(EMPTY, steps);
    assert Straight(EMPTY, id);
    if Straight(b, id) {
      StraightOffers(b, id);
    }
  }

  lemma StraightOffers(b: Bus, id: nat)
    requires id in b.channels && Delivers(b, id) && Straight(b, id)
    ensures b.channels[id].offered <= Share(b, id)
  {
    var ch := b.channels[id];
    if ch.places != [] {
      assert ch.places[|ch.places| - 1] == ch.since + |ch.places| - 1;
    }
    forall i | 0 <= i < |ch.offered|
      ensures ch.offered[i] == Share(b, id)[i]
    {
      assert ch.places[i] == ch.since + i;
    }
  }

  ghost predicate DistinctEvents(es: seq<Event>)
  {
    forall i, j :: 0 <= i < j < |es| ==> es[i] != es[j]
  }

  /**
   * When nothing is pending for a subscriber and the events differ, it was offered exactly the published stream in
   * order if and only if every offer made to it came in turn.
   */
  lemma StreamIffInTurn(steps: seq<Step>, id: nat)
    requires CanRun(EMPTY, steps) && id in Run(EMPTY, steps).channels && Awaiting(Run(EMPTY, steps), id) == {}
    ensures KeepsTurns(EMPTY, steps, id) ==>
      var b := Run(EMPTY, steps); b.channels[id].offered == Share(b, id)
    ensures var b := Run(EMPTY, steps);
      DistinctEvents(b.published) ==> (b.channels[id].offered == Share(b, id) <==> KeepsTurns(EMPTY, steps, id))
  {
    hide CanRun, Run, KeepsTurns, Delivers, Tagged, Awaiting, Good, Share;
    OrderedIffInTurn(steps, id);
    var b := Run(EMPTY, steps);
    var ch := b.channels[id];
    EmptyAllDelivers();
    RunAllDelivers(EMPTY, steps);
    assert IsOrder([], Awaiting(b, id));
    SharePermuted(b, id, []);
    assert ch.offered + EventsOf(b, []) == ch.offered && ch.places + PlacesOf(b, []) == ch.places;
    QuietShare(b, id);
    if ch.offered == Share(b, id) && DistinctEvents(b.published) {
      DistinctStraight(b, id);
    }
  }

  lemma QuietShare(b: Bus, id: nat)
    requires id in b.channels
    requires var ch := b.channels[id]; Permutes(ch.offered, ch.places, b.published, ch.since, ShareEnd(b, ch))
    ensures |b.channels[id].offered| == |Share(b, id)|
  {
    hide Permutes;
    var ch := b.channels[id];
    PermutedEvents(ch.offered, ch.places, b.published, ch.since, ShareEnd(b, ch));
    PermutesWithin(ch.offered, ch.places, b.published, ch.since, ShareEnd(b, ch));
  }

  lemma DistinctStraight(b: Bus, id: nat)
    requires id in b.channels && DistinctEvents(b.published) && b.channels[id].offered == Share(b, id)
    requires var ch := b.channels[id]; Permutes(ch.offered, ch.places, b.published, ch.since, ShareEnd(b, ch))
    ensures var ch := b.channels[id]; forall i :: 0 <= i < |ch.places| ==> ch.places[i] == ch.since + i
  {
    var ch := b.channels[id];
    forall i | 0 <= i < |ch.places|
      ensures ch.places[i] == ch.since + i
    {
      assert ch.offered[i] == b.published[ch.places[i]] && ch.offered[i] == b.published[ch.since + i];
    }
  }

  // ---- Publish calls that do not overlap ----

  /** A step that does not begin a Publish inside another. */
  predicate SerialStep(b: Bus, s: Step)
  {
    s.Begin? ==> b.publishers == map[]
  }

  ghost predicate SerialRun(b: Bus, steps: seq<Step>)
    requires CanRun(b, steps)
    decreases steps
  {
    steps == [] || (SerialStep(b, steps[0]) && SerialRun(Apply(b, steps[0]), steps[1..]))
  }

  ghost predicate AtMostOne(b: Bus)
  {
    forall p, q :: p in b.publishers && q in b.publishers ==> p == q
  }

  lemma {:induction false} SerialKeepsTurns(b: Bus, steps: seq<Step>, id: nat)
    requires AtMostOne(b) && CanRun(b, steps) && SerialRun(b, steps)
    ensures KeepsTurns(b, steps, id)
    decreases steps
  {
    hide Offered, Received, Fresh, Clients;
    if steps == [] {
    } else {
      assert InTurn(b, steps[0], id);
      SerialKeepsTurns(Apply(b, steps[0]), steps[1..], id);
    }
  }

  // ---- What a subscriber sees ----

  ghost predicate Rising(places: seq<nat>)
  {
    forall i, j :: 0 <= i < j < |places| ==> places[i] < places[j]
  }

  /** What a channel's reader took and what is buffered stands at the places it kept. */
  ghost predicate KeptFits(b: Bus, ch: Channel)
  {
    Stands(ch.received + ch.buffer, ch.kept, b.published, ch.since, ShareEnd(b, ch))
  }

  /** `es` has what stands at `places`, all of them within lo..hi. */
  ghost predicate Stands(es: seq<Event>, places: seq<nat>, stream: seq<Event>, lo: nat, hi: nat)
  {
    && |es| == |places| && lo <= hi <= |stream|
    && forall i :: 0 <= i < |places| ==> lo <= places[i] < hi && es[i] == stream[places[i]]
  }

  ghost predicate AllKept(b: Bus)
  {
    forall id :: id in b.channels ==> KeptFits(b, b.channels[id])
  }

  lemma StreamGrows(es: seq<Event>, places: seq<nat>, stream: seq<Event>, lo: nat, hi: nat, e: Event)
    requires Stands(es, places, stream, lo, hi)
    ensures Stands(es, places, stream + [e], lo, hi)
    ensures hi == |stream| ==> Stands(es, places, stream + [e], lo, hi + 1)
  {
  }

  lemma OneMoreStands(es: seq<Event>, places: seq<nat>, stream: seq<Event>, lo: nat, hi: nat, place: nat)
    requires Stands(es, places, stream, lo, hi) && lo <= place < hi
    ensures Stands(es + [stream[place]], places + [place], stream, lo, hi)
  {
  }

  lemma OfferKept(b: Bus, p: nat, id: nat)
    requires AllDelivers(b) && CanStep(b, Offer(p, id)) && KeptFits(b, b.channels[id])
    ensures var b' := Apply(b, Offer(p, id)); KeptFits(b', b'.channels[id])
  {
    hide Good, Tagged, Delivers, Offered, Stands;
    var ch, pub := b.channels[id], b.publishers[p];
    OfferedKeeps(ch, pub.event, pub.place);
    PendingPlace(b, id, p);
    OneMoreStands(ch.received + ch.buffer, ch.kept, b.published, ch.since, ShareEnd(b, ch), pub.place);
    assert ch.received + ch.buffer + [] == ch.received + ch.buffer;
  }

  lemma StepKept(b: Bus, s: Step)
    requires AllDelivers(b) && AllKept(b) && CanStep(b, s)
    ensures AllKept(Apply(b, s))
  {
    hide Good, Tagged, Delivers, Offered, Received, Stands, AllDelivers;
    forall id | id in Apply(b, s).channels
      ensures KeptFits(Apply(b, s), Apply(b, s).channels[id])
    {
      if id in b.channels {
        assert KeptFits(b, b.channels[id]);
      }
      match s
      case Subscribe(n) =>
        if n == id {
          NothingStands(b.published);
        }
      case Begin(_, e) =>
        var ch := b.channels[id];
        StreamGrows(ch.received + ch.buffer, ch.kept, b.published, ch.since, ShareEnd(b, ch), e);
      case Offer(p, n) =>
        if n == id {
          OfferKept(b, p, id);
        }
      case Receive(n) => ReceivedKeeps(b.channels[n]);
      case _ =>
    }
  }

  lemma NothingStands(stream: seq<Event>)
    ensures Stands([] + [], [], stream, |stream|, |stream|)
  {
  }

  lemma {:induction false} RunKept(b: Bus, steps: seq<Step>)
    requires AllDelivers(b) && AllKept(b) && CanRun(b, steps)
    ensures AllKept(Run(b, steps))
    decreases steps
  {
    hide AllDelivers, AllKept, CanStep, Apply;
    if steps == [] {
    } else {
      StepAllDelivers(b, steps[0]);
      StepKept(b, steps[0]);
      RunKept(Apply(b, steps[0]), steps[1..]);
    }
  }

  /** Events at rising places of a stream are a subsequence of it. */
  lemma {:induction false} RisingIsSubsequence(es: seq<Event>, places: seq<nat>, stream: seq<Event>, lo: nat, hi: nat)
    requires Stands(es, places, stream, lo, hi) && Rising(places)
    ensures Subsequence(es, stream[lo..hi])
    decreases hi
  {
    hide Subsequence;
    if es == [] {
      NothingIsSubsequence(stream[lo..hi]);
    } else {
      var n := |es| - 1;
      assert lo <= places[n] < hi;
      var before, last := stream[lo..hi - 1], stream[hi - 1];
      assert stream[lo..hi] == before + [last];
      if places[n] == hi - 1 {
        RisingIsSubsequence(es[..n], places[..n], stream, lo, hi - 1);
        Take(es[..n], before, last);
        assert es == es[..n] + [last];
      } else {
        assert forall i :: 0 <= i < n ==> places[i] < places[n];
        RisingIsSubsequence(es, places, stream, lo, hi - 1);
        Skip(es, before, last);
      }
    }
  }

  lemma NothingIsSubsequence(stream: seq<Event>)
    ensures Subsequence([], stream)
  {
  }

  lemma {:induction false} SubsequenceWithin(a: seq<Event>, b: seq<Event>)
    requires Subsequence(a, b)
    ensures forall e :: e in a ==> e in b
    decreases |b|
  {
    if a == [] {
    } else {
      var m, n := |a| - 1, |b| - 1;
      if a[m] == b[n] && Subsequence(a[..m], b[..n]) {
        SubsequenceWithin(a[..m], b[..n]);
        assert a == a[..m] + [a[m]];
      } else {
        SubsequenceWithin(a, b[..n]);
      }
    }
  }

  /** Events found among the earlier ones of a stream without repetitions stand there. */
  lemma StandsEarlier(es: seq<Event>, places: seq<nat>, stream: seq<Event>, lo: nat, hi: nat)
    requires Stands(es, places, stream, lo, hi) && DistinctEvents(stream) && lo < hi
    requires forall e :: e in es ==> e in stream[lo..hi - 1]
    ensures Stands(es, places, stream, lo, hi - 1)
  {
    forall i | 0 <= i < |places|
      ensures places[i] < hi - 1
    {
      assert es[i] in es;
      var k :| 0 <= k < hi - 1 - lo && stream[lo..hi - 1][k] == es[i];
      assert stream[lo + k] == stream[places[i]];
    }
  }

  /** And in a stream without repetitions only those at rising places are. */
  lemma {:induction false} SubsequenceIsRising(es: seq<Event>, places: seq<nat>, stream: seq<Event>, lo: nat, hi: nat)
    requires Stands(es, places, stream, lo, hi) && DistinctEvents(stream) && Subsequence(es, stream[lo..hi])
    ensures Rising(places)
    decreases hi
  {
    hide DistinctEvents;
    if es == [] {
    } else {
      var n := |es| - 1;
      var share, before := stream[lo..hi], stream[lo..hi - 1];
      assert share[..|share| - 1] == before;
      if es[n] == share[|share| - 1] && Subsequence(es[..n], before) {
        hide Subsequence;
        SubsequenceWithin(es[..n], before);
        StandsEarlier(es[..n], places[..n], stream, lo, hi);
        SubsequenceIsRising(es[..n], places[..n], stream, lo, hi - 1);
        SamePlace(stream, places[n], hi - 1);
        assert places == places[..n] + [hi - 1];
      } else {
        hide Subsequence;
        SubsequenceWithin(es, before);
        StandsEarlier(es, places, stream, lo, hi);
        SubsequenceIsRising(es, places, stream, lo, hi - 1);
      }
    }
  }

  lemma SamePlace(stream: seq<Event>, i: nat, j: nat)
    requires DistinctEvents(stream) && i < |stream| && j < |stream| && stream[i] == stream[j]
    ensures i == j
  {
  }

  /** A channel with room is offered an event later in the stream than all it has kept. */
  ghost predicate TakesInTurn(b: Bus, s: Step, id: nat)
  {
    && s.Offer? && s.id == id && s.p in b.publishers && id in b.channels && |b.channels[id].buffer| < 32 ==>
      forall k :: k in b.channels[id].kept ==> k < b.publishers[s.p].place
  }

  ghost predicate AllTakenInTurn(b: Bus, steps: seq<Step>, id: nat)
    requires CanRun(b, steps)
    decreases steps
  {
    steps == [] || (TakesInTurn(b, steps[0], id) && AllTakenInTurn(Apply(b, steps[0]), steps[1..], id))
  }

  ghost predicate KeepsRising(b: Bus, id: nat)
  {
    id in b.channels ==> Rising(b.channels[id].kept)
  }

  lemma RisingAppend(places: seq<nat>, place: nat)
    ensures Rising(places + [place]) <==> Rising(places) && forall k :: k in places ==> k < place
  {
    var all := places + [place];
    assert all[|places|] == place && forall i :: 0 <= i < |places| ==> all[i] == places[i] && places[i] in places;
    if Rising(all) {
      forall i, j | 0 <= i < j < |places|
        ensures places[i] < places[j]
      {
        assert all[i] < all[j];
      }
      forall k | k in places
        ensures k < place
      {
        var i :| 0 <= i < |places| && places[i] == k;
        assert all[i] < all[|places|];
      }
    }
  }

  lemma StepRising(b: Bus, s: Step, id: nat)
    requires CanStep(b, s)
    ensures KeepsRising(Apply(b, s), id) <==> KeepsRising(b, id) && TakesInTurn(b, s, id)
  {
    hide Offered, Received, Rising;
    match s
    case Subscribe(n) => RisingNothing();
    case Offer(p, n) =>
      OfferedKeeps(b.channels[n], b.publishers[p].event, b.publishers[p].place);
      if n == id {
        RisingAppend(b.channels[id].kept, b.publishers[p].place);
      }
    case Receive(n) => ReceivedKeeps(b.channels[n]);
    case _ =>
  }

  lemma RisingNothing()
    ensures Rising([])
  {
  }

  lemma {:induction false} RunRising(b: Bus, steps: seq<Step>, id: nat)
    requires CanRun(b, steps)
    ensures KeepsRising(Run(b, steps), id) <==> KeepsRising(b, id) && AllTakenInTurn(b, steps, id)
    decreases steps
  {
    hide CanStep, Apply, KeepsRising, TakesInTurn;
    if steps == [] {
    } else {
      StepRising(b, steps[0], id);
      RunRising(Apply(b, steps[0]), steps[1..], id);
    }
  }

  /**
   * At every moment of every run, however Publish calls overlap: what a subscriber took and has buffered stands at the
   * places it kept, and these rise exactly if each event it had room for was later than all it had kept. Then it sees
   * the published events in their order; and when the events differ, only then.
   */
  lemma SeenInOrderIffTakenInTurn(steps: seq<Step>, id: nat)
    requires CanRun(EMPTY, steps) && id in Run(EMPTY, steps).channels
    ensures var b := Run(EMPTY, steps); var ch := b.channels[id];
      && KeptFits(b, ch) && (Rising(ch.kept) <==> AllTakenInTurn(EMPTY, steps, id))
      && (AllTakenInTurn(EMPTY, steps, id) ==> Subsequence(ch.received + ch.buffer, Share(b, id)))
      && (DistinctEvents(b.published) ==>
            (Subsequence(ch.received + ch.buffer, Share(b, id)) <==> AllTakenInTurn(EMPTY, steps, id)))
  {
    hide CanRun, Run, AllTakenInTurn, Subsequence, Rising, DistinctEvents, AllDelivers;
    EmptyAllDelivers();
    RunKept(EMPTY, steps);
    RunRising(EMPTY, steps, id);
    var b := Run(EMPTY, steps);
    var ch := b.channels[id];
    var seen, end := ch.received + ch.buffer, ShareEnd(b, ch);
    if Rising(ch.kept) {
      RisingIsSubsequence(seen, ch.kept, b.published, ch.since, end);
    } else if DistinctEvents(b.published) && Subsequence(seen, Share(b, id)) {
      SubsequenceIsRising(seen, ch.kept, b.published, ch.since, end);
    }
  }

  /**
   * With offers in turn, as when Publish calls do not overlap, what a subscriber took and has buffered is at every
   * moment a part of the stream since it subscribed, in order; all of it so far if nothing was dropped.
   */
  lemma SubscribersSeeTheStreamInOrder(steps: seq<Step>, id: nat)
    requires CanRun(EMPTY, steps) && id in Run(EMPTY, steps).channels
    requires SerialRun(EMPTY, steps) || KeepsTurns(EMPTY, steps, id)
    ensures var b := Run(EMPTY, steps); var ch := b.channels[id];
      && Subsequence(ch.received + ch.buffer, Share(b, id))
      && (ch.dropped == 0 ==> ch.received + ch.buffer <= Share(b, id))
      && (Awaiting(b, id) == {} ==> |Share(b, id)| == |ch.received| + |ch.buffer| + ch.dropped)
      && (Awaiting(b, id) == {} && ch.dropped == 0 ==> ch.received + ch.buffer == Share(b, id))
  {
    hide CanRun, Run, SerialRun, KeepsTurns, Subsequence, Awaiting, Share;
    if SerialRun(EMPTY, steps) {
      SerialKeepsTurns(EMPTY, steps, id);
    }
    OrderedIffInTurn(steps, id);
    EveryRunAccounts(steps);
    var b := Run(EMPTY, steps);
    var ch := b.channels[id];
    PrefixSubsequence(ch.received + ch.buffer, ch.offered, Share(b, id));
    if Awaiting(b, id) == {} {
      StreamIffInTurn(steps, id);
    }
  }

  lemma {:induction false} PrefixSubsequence(a: seq<Event>, b: seq<Event>, c: seq<Event>)
    requires Subsequence(a, b) && b <= c
    ensures Subsequence(a, c)
    decreases |c|
  {
    hide Subsequence;
    if b == c {
    } else {
      var n := |c| - 1;
      PrefixSubsequence(a, b, c[..n]);
      Skip(a, c[..n], c[n]);
      assert c == c[..n] + [c[n]];
    }
  }

  // ---- Two subscribers that disagree ----

  /** Two Publish calls can overlap so that two subscribers get different events in opposite orders. */
  lemma OverlappingPublishesDisagree(e: Event, f: Event)
    requires e != f
    ensures CanRun(EMPTY, Disagreement(e, f))
    ensures var b := Run(EMPTY, Disagreement(e, f));
      && b.publishers == map[] && b.published == [e, f] && b.channels.Keys == {0, 1}
      && b.channels[0].buffer == [e, f] && b.channels[1].buffer == [f, e]
      && b.channels[0].buffer != b.channels[1].buffer
  {
    hide Offered, CanStep, Apply;
    OverlapIsReachable(e, f);
    FirstOffers(e, f);
    RunConcat(EMPTY, Setup(e, f), [Offer(0, 0), Offer(1, 0)]);
    SecondOffers(e, f);
    RunConcat(EMPTY, Setup(e, f) + [Offer(0, 0), Offer(1, 0)], [Offer(1, 1), Offer(0, 1)]);
    BothEnd(e, f);
    RunConcat(EMPTY, Setup(e, f) + [Offer(0, 0), Offer(1, 0)] + [Offer(1, 1), Offer(0, 1)], [End(0), End(1)]);
  }

  function Setup(e: Event, f: Event): seq<Step>
  {
    [Subscribe(0), Subscribe(1), Begin(0, e), Begin(1, f)]
  }

  /** The first subscriber is visited in the order of publication, the second the other way round. */
  function Disagreement(e: Event, f: Event): seq<Step>
  {
    Setup(e, f) + [Offer(0, 0), Offer(1, 0)] + [Offer(1, 1), Offer(0, 1)] + [End(0), End(1)]
  }

  /** Two subscribers, two publishers under way, nothing offered yet. */
  function Overlap(e: Event, f: Event): Bus
  {
    Bus(map[0 := Fresh(0), 1 := Fresh(0)], map[0 := Publisher(e, 0, {0, 1}), 1 := Publisher(f, 1, {0, 1})], [e, f])
  }

  function HalfWay(e: Event, f: Event): Bus
  {
    Bus(map[0 := Fresh(0).(buffer := [e, f], offered := [e, f], places := [0, 1], kept := [0, 1]), 1 := Fresh(0)],
        map[0 := Publisher(e, 0, {1}), 1 := Publisher(f, 1, {1})], [e, f])
  }

  function Settled(e: Event, f: Event): Bus
  {
    Bus(map[0 := Fresh(0).(buffer := [e, f], offered := [e, f], places := [0, 1], kept := [0, 1]),
            1 := Fresh(0).(buffer := [f, e], offered := [f, e], places := [1, 0], kept := [1, 0])],
        map[0 := Publisher(e, 0, {}), 1 := Publisher(f, 1, {})], [e, f])
  }

  lemma RunTwo(b: Bus, s: Step, t: Step)
    requires CanStep(b, s) && CanStep(Apply(b, s), t)
    ensures CanRun(b, [s, t]) && Run(b, [s, t]) == Apply(Apply(b, s), t)
  {
    hide CanStep, Apply;
    RunOne(b, s);
    RunOne(Apply(b, s), t);
    RunConcat(b, [s], [t]);
    assert [s] + [t] == [s, t];
  }

  lemma OverlapIsReachable(e: Event, f: Event)
    ensures CanRun(EMPTY, Setup(e, f)) && Run(EMPTY, Setup(e, f)) == Overlap(e, f)
  {
    hide Fresh;
    var b1 := Bus(map[0 := Fresh(0)], map[], []);
    assert Apply(EMPTY, Subscribe(0)) == b1;
    var b2 := Bus(map[0 := Fresh(0), 1 := Fresh(0)], map[], []);
    assert Apply(b1, Subscribe(1)) == b2;
    RunTwo(EMPTY, Subscribe(0), Subscribe(1));
    BeginBoth(e, f, b2);
    RunConcat(EMPTY, [Subscribe(0), Subscribe(1)], [Begin(0, e), Begin(1, f)]);
    assert Setup(e, f) == [Subscribe(0), Subscribe(1)] + [Begin(0, e), Begin(1, f)];
  }

  lemma BeginBoth(e: Event, f: Event, b2: Bus)
    requires b2 == Bus(map[0 := Fresh(0), 1 := Fresh(0)], map[], [])
    ensures CanRun(b2, [Begin(0, e), Begin(1, f)]) && Run(b2, [Begin(0, e), Begin(1, f)]) == Overlap(e, f)
  {
    assert Clients(b2) == {0, 1};
    var b3 := b2.(publishers := map[0 := Publisher(e, 0, {0, 1})], published := [e]);
    assert Apply(b2, Begin(0, e)) == b3;
    assert Clients(b3) == {0, 1};
    assert Apply(b3, Begin(1, f)) == Overlap(e, f);
    RunTwo(b2, Begin(0, e), Begin(1, f));
  }

  /** Two publishers visit one channel that nothing was offered to yet, `p` before `q`. */
  lemma OfferBoth(b: Bus, id: nat, p: nat, q: nat, b2: Bus)
    requires id in b.channels && b.channels[id] == Fresh(0)
    requires p in b.publishers && q in b.publishers && p != q
    requires id in b.publishers[p].left && id in b.publishers[q].left
    requires var first, second := b.publishers[p], b.publishers[q];
      && b2.published == b.published
      && b2.channels == b.channels[id := Fresh(0).(buffer := [first.event, second.event],
                                                   offered := [first.event, second.event],
                                                   places := [first.place, second.place],
                                                   kept := [first.place, second.place])]
      && b2.publishers == b.publishers[p := first.(left := first.left - {id})][q := second.(left := second.left - {id})]
    ensures CanRun(b, [Offer(p, id), Offer(q, id)]) && Run(b, [Offer(p, id), Offer(q, id)]) == b2
  {
    var first, second := b.publishers[p], b.publishers[q];
    var ch1 := Offered(Fresh(0), first.event, first.place);
    var ch2 := Offered(ch1, second.event, second.place);
    assert ch2.buffer == ch2.offered == [first.event, second.event];
    assert ch2.places == ch2.kept == [first.place, second.place];
    hide Offered, Fresh;
    var b1 := Apply(b, Offer(p, id));
    assert b1.channels[id] == ch1 && b1.publishers[q] == second;
    assert Apply(b1, Offer(q, id)) == b2;
    RunTwo(b, Offer(p, id), Offer(q, id));
  }

  lemma FirstOffers(e: Event, f: Event)
    ensures CanRun(Overlap(e, f), [Offer(0, 0), Offer(1, 0)])
    ensures Run(Overlap(e, f), [Offer(0, 0), Offer(1, 0)]) == HalfWay(e, f)
  {
    hide Fresh;
    var b := Overlap(e, f);
    assert {0, 1} - {0} == {1};
    OfferBoth(b, 0, 0, 1, HalfWay(e, f));
  }

  lemma SecondOffers(e: Event, f: Event)
    ensures CanRun(HalfWay(e, f), [Offer(1, 1), Offer(0, 1)])
    ensures Run(HalfWay(e, f), [Offer(1, 1), Offer(0, 1)]) == Settled(e, f)
  {
    hide Fresh;
    var b := HalfWay(e, f);
    assert {1} - {1} == {};
    OfferBoth(b, 1, 1, 0, Settled(e, f));
  }

  lemma BothEnd(e: Event, f: Event)
    ensures CanRun(Settled(e, f), [End(0), End(1)])
    ensures Run(Settled(e, f), [End(0), End(1)]) == Settled(e, f).(publishers := map[])
  {
    var b := Settled(e, f);
    assert Apply(Apply(b, End(0)), End(1)).publishers == map[];
    RunTwo(b, End(0), End(1));
  }
}
