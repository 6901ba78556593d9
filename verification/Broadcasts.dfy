/** When an untagged frame is broadcast. Routing picks a stream or the broadcast, and delivery comes
    later: the stream picked may have been closed or dropped in between. */
module Broadcasts {
  import opened Bytes
  import opened Ast
  import opened Pending
  import opened Commands
  import opened Dispatcher

  /** The oldest of the collectors whose stream is open and whose filter accepts `r`. */
  ghost predicate IsOldest(cs: seq<Collector>, closed: set<nat>, r: Response, c: Collector) {
    && c in cs && c.id !in closed && c.wants(r)
    && forall b :: b in cs && b.id < c.id ==> b.id in closed || !b.wants(r)
  }

  /** The collector that gets `r`. */
  ghost predicate Chosen(s: World, r: Response, c: Collector) {
    IsOldest(s.collectors, ClosedStreams(s), r, c)
  }

  lemma {:induction false} FindsOldest(cs: seq<Collector>, closed: set<nat>, r: Response) returns (c: Option<Collector>)
    requires InCommandOrder(cs)
    ensures c.None? ==> FindCollector(cs, closed, r) == None && forall b :: b in cs ==> b.id in closed || !b.wants(r)
    ensures c.Some? ==> FindCollector(cs, closed, r) == Some(c.value.id) && IsOldest(cs, closed, r, c.value)
  {
    if |cs| == 0 {
      c := None;
    } else if cs[0].id !in closed && cs[0].wants(r) {
      c := Some(cs[0]);
      forall b | b in cs ensures b.id >= cs[0].id {
        var k :| 0 <= k < |cs| && cs[k] == b;
      }
    } else {
      assert cs == [cs[0]] + cs[1..];
      c := FindsOldest(cs[1..], closed, r);
    }
  }

  lemma OldestIsOne(cs: seq<Collector>, closed: set<nat>, r: Response, c: Collector, d: Collector)
    requires IsOldest(cs, closed, r, c) && IsOldest(cs, closed, r, d)
    ensures c.id == d.id
  {
    assert !(d.id < c.id) && !(c.id < d.id);
  }

  lemma OrderedCollectors(s: World)
    requires Inv(s)
    ensures InCommandOrder(s.collectors)
  {
    hide NumbersInv, RepliesInv, StreamsInv, HeldInv, PlacesInv;
  }

  /** Routing: the broadcast exactly when nobody is chosen, and otherwise the stream chosen. */
  lemma RoutesToChosen(s: World, r: Response)
    requires Inv(s) && TagIn(r) == None
    ensures RouteOf(s, r) == ToEvents <==> forall c :: !Chosen(s, r, c)
    ensures forall c :: Chosen(s, r, c) ==> RouteOf(s, r) == ToStream(c.id)
    ensures RouteOf(s, r).ToStream? ==> exists c :: Chosen(s, r, c) && c.id == RouteOf(s, r).id
  {
    var closed := ClosedStreams(s);
    OrderedCollectors(s);
    hide Inv, InCommandOrder, FindCollector, ClosedStreams;
    var found := FindsOldest(s.collectors, closed, r);
    if found.Some? {
      assert Chosen(s, r, found.value);
      hide IsOldest;
      forall c | Chosen(s, r, c) ensures c.id == found.value.id {
        OldestIsOne(s.collectors, closed, r, c, found.value);
      }
    }
  }

  /** Delivery: the frame is broadcast exactly when that was its route or its stream is not open. */
  lemma DeliveryBroadcastsExactly(s: World)
    requires Reachable(s) && Inv(s) && Enabled(s, Deliver) && TagIn(s.log[|s.log| - 1]) == None
    ensures var i := |s.log| - 1;
            var s' := Apply(s, Deliver);
            && s'.log == s.log && |s'.place| == |s.log|
            && (s'.place[i] == Broadcast <==> i in s'.events)
            && (s'.place[i] == Broadcast <==>
                s.reader.route == ToEvents
                || (s.reader.route.ToStream? && s.streams[s.reader.route.id].phase != Open))
  {
    hide NumbersInv, RepliesInv, CollectorsInv, StreamsInv, TagOf, Without;
    StepKeeps(s, Deliver);
    var i := |s.log| - 1;
    var s' := Apply(s, Deliver);
    assert Found(s', i, Broadcast) <==> s'.place[i] == Broadcast;
  }

  ghost predicate NoDelivery(steps: seq<Step>) {
    Deliver !in steps
  }

  /** Until it is delivered, the frame held and its route stay what they are. */
  lemma {:induction false} HeldFrameWaits(s: World, steps: seq<Step>)
    requires Inv(s) && s.reader.Holding? && CanRun(s, steps) && NoDelivery(steps)
    ensures var end := RunFrom(s, steps); end.log == s.log && end.reader == s.reader
    decreases |steps|
  {
    hide Inv;
    if |steps| > 0 {
      StepKeeps(s, steps[0]);
      assert steps[0] in steps;
      HeldFrameWaits(Apply(s, steps[0]), steps[1..]);
    }
  }

  /** In the reachable state `s` the untagged frame `r` is routed, the steps `between` follow, and then
      the frame can be delivered. */
  ghost predicate RoutedThen(s: World, r: Response, between: seq<Step>) {
    && Reachable(s) && Enabled(s, RouteFrame(r)) && TagIn(r) == None && NoDelivery(between)
    && (ReachableInv(s);
        StepKeeps(s, RouteFrame(r));
        var s1 := Apply(s, RouteFrame(r));
        CanRun(s1, between) && Enabled(RunFrom(s1, between), Deliver))
  }

  /** The state the frame is delivered in. */
  ghost function AtDelivery(s: World, r: Response, between: seq<Step>): (end: World)
    requires RoutedThen(s, r, between)
    ensures Inv(end) && Enabled(end, Deliver)
  {
    ReachableInv(s);
    StepKeeps(s, RouteFrame(r));
    RunFrom(Apply(s, RouteFrame(r)), between)
  }

  ghost predicate IsBroadcast(s: World, i: nat) {
    |s.place| == |s.log| && i < |s.log| && s.place[i] == Broadcast
  }

  /** An untagged frame, whatever happens between its routing and its delivery, is then broadcast if
      and only if the oldest open stream that accepted it, if there was one, is no longer open. */
  lemma BroadcastExactly(s: World, r: Response, between: seq<Step>)
    requires RoutedThen(s, r, between)
    ensures var s2 := AtDelivery(s, r, between);
            var s3 := Apply(s2, Deliver);
            && s3.log == s.log + [r]
            && (forall c :: Chosen(s, r, c) ==> c.id in s2.streams)
            && (IsBroadcast(s3, |s.log|) <==> forall c :: Chosen(s, r, c) ==> s2.streams[c.id].phase != Open)
            && (IsBroadcast(s3, |s.log|) <==> |s.log| in s3.events)
  {
    ReachableInv(s);
    hide Inv, Chosen, TagOf, Reachable, Apply, CanRun, RunFrom, Enabled, RouteOf;
    RouteStep(s, r);
    StepKeeps(s, RouteFrame(r));
    var s1 := Apply(s, RouteFrame(r));
    var s2 := RunFrom(s1, between);
    RoutesToChosen(s, r);
    HeldFrameWaits(s1, between);
    StepReachable(s, RouteFrame(r));
    RunReachable(s1, between);
    HeldStream(s2);
    DeliveryBroadcastsExactly(s2);
  }

  lemma RouteStep(s: World, r: Response)
    requires Inv(s) && Enabled(s, RouteFrame(r))
    ensures var s1 := Apply(s, RouteFrame(r)); s1.log == s.log + [r] && s1.reader == Holding(RouteOf(s, r))
  {
    hide Inv;
  }

  lemma HeldStream(s: World)
    requires Inv(s)
    ensures s.reader.Holding? && s.reader.route.ToStream? ==> s.reader.route.id in s.streams
  {
    hide NumbersInv, RepliesInv, CollectorsInv, StreamsInv, PlacesInv, TagOf;
  }

  /** A frame that a closed or dropped stream would have received, had it stayed open, is broadcast
      exactly when no younger stream took it over: none was open and accepting when the frame was
      routed, or the oldest such one was itself no longer open at delivery. */
  lemma ClosedStreamFrameBroadcastExactly(s: World, r: Response, between: seq<Step>, c: Collector)
    requires RoutedThen(s, r, between)
    requires c in s.collectors && c.id in ClosedStreams(s) && c.wants(r)
    requires forall b :: b in s.collectors && b.id < c.id ==> !b.wants(r)
    ensures var s2 := AtDelivery(s, r, between);
            && (forall d :: Chosen(s, r, d) ==> c.id < d.id && d.id in s2.streams)
            && (IsBroadcast(Apply(s2, Deliver), |s.log|) <==>
                forall d :: Chosen(s, r, d) ==> s2.streams[d.id].phase != Open)
  {
    hide Inv, Apply, CanRun, RunFrom, Enabled, Reachable;
    BroadcastExactly(s, r, between);
    forall d | Chosen(s, r, d) ensures c.id < d.id {
      assert c.id != d.id;
    }
  }

  const FIRST_FETCH: Response := Data(Fetch(1, []))

  /** A reachable state with one streaming command registered. */
  lemma OneInFlight(f: FrameFilter) returns (s: World)
    ensures Reachable(s) && Inv(s) && s.log == [] && s.events == [] && s.reader == Idle && s.writer == Writing(1)
    ensures s.collectors == [Collector(TagOf(1), 1, f)] && s.replies == map[TagOf(1) := 1] && IsPending(s, 1)
    ensures s.streams == map[1 := NewStream(f)] && s.queue == [] && s.nextId == 2
  {
    hide TagOf, Inv, Reachable;
    InitialInv();
    InitialReachable();
    StepReachable(INITIAL, Enqueue(Some(f)));
    var s1 := Apply(INITIAL, Enqueue(Some(f)));
    assert s1.queue == [Request(1, Some(f))];
    StepReachable(s1, Register);
    s := Apply(s1, Register);
  }

  /** And one with two. */
  lemma TwoInFlight(f: FrameFilter) returns (s: World)
    ensures Reachable(s) && Inv(s) && s.reader == Idle && IsPending(s, 1)
    ensures s.collectors == [Collector(TagOf(1), 1, f), Collector(TagOf(2), 2, f)]
    ensures s.streams == map[1 := NewStream(f), 2 := NewStream(f)]
  {
    hide TagOf, Inv, Reachable;
    TagsInjective();
    var s1 := OneInFlight(f);
    StepReachable(s1, Write);
    var s2 := Apply(s1, Write);
    StepReachable(s2, Enqueue(Some(f)));
    var s3 := Apply(s2, Enqueue(Some(f)));
    assert s3.queue == [Request(2, Some(f))];
    StepReachable(s3, Register);
    s := Apply(s3, Register);
  }

  lemma NextInLine(first: Collector, second: Collector, closed: set<nat>, r: Response)
    requires first.id in closed && second.id !in closed && second.wants(r)
    ensures FindCollector([first, second], closed, r) == Some(second.id)
  {
    assert [first, second][1..] == [second];
  }

  /** A run in which two FETCH-like commands are in flight, the first stream is dropped, and the
      next data frame goes to the second command's stream. */
  lemma DroppedStreamFeedsNext(f: FrameFilter)
    requires f(FIRST_FETCH)
    ensures exists s: World ::
              && Reachable(s)
              && 1 in s.streams && s.streams[1].phase == Dropped && IsPending(s, 1)
              && RouteOf(s, FIRST_FETCH) == ToStream(2)
  {
    hide TagOf, Inv, Reachable;
    var s := TwoInFlight(f);
    StepReachable(s, Drop(1));
    var s' := Apply(s, Drop(1));
    NextInLine(s.collectors[0], s.collectors[1], ClosedStreams(s'), FIRST_FETCH);
  }

  /** A run in which an open stream accepts a frame, is closed before the frame is delivered, and the
      frame is broadcast. */
  lemma ClosedBeforeDelivery(f: FrameFilter)
    requires f(FIRST_FETCH)
    ensures exists s: World ::
              && Reachable(s)
              && s.log == [FIRST_FETCH] && s.events == [0]
              && 1 in s.streams && s.streams[1].phase == Closed && s.streams[1].accepted == []
              && IsPending(s, 1)
  {
    hide TagOf, Inv, Reachable;
    var s2 := OneInFlight(f);
    StepReachable(s2, RouteFrame(FIRST_FETCH));
    var s3 := Apply(s2, RouteFrame(FIRST_FETCH));
    assert s3.reader.route == ToStream(1);
    StepReachable(s3, Close(1));
    var s4 := Apply(s3, Close(1));
    StepReachable(s4, Deliver);
    var s5 := Apply(s4, Deliver);
    assert s5.log == [FIRST_FETCH];
  }
}
