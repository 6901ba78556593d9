/** What the protocol can still do. The read loop waits for room in a stream and for nothing else, and
    its wait ends when the caller takes a frame; so any number of frames reaches a caller that goes on
    receiving, and then its reply. */
module Progress {
  import opened Bytes
  import opened Ast
  import opened Pending
  import opened Commands
  import opened Dispatcher

  /** The held frame is for a stream that is open and full. */
  ghost predicate HeldForFullStream(s: World) {
    && s.reader.Holding? && s.reader.route.ToStream? && s.reader.route.id in s.streams
    && s.streams[s.reader.route.id].phase == Open && |s.streams[s.reader.route.id].buffered| == 32
  }

  /** A held frame can be delivered exactly when it is not for an open stream holding 32 frames. */
  lemma DeliverEnabledExactly(s: World)
    requires Reachable(s) && s.reader.Holding?
    ensures Enabled(s, Deliver) <==> !HeldForFullStream(s)
  {
    ReachableInv(s);
    hide NumbersInv, RepliesInv, CollectorsInv, PlacesInv, TagOf, Reachable;
    if s.reader.route.ToStream? {
      assert StreamInv(s, s.reader.route.id);
    }
  }

  /** Once the caller has taken a frame of a full stream, the frame waiting for room is delivered. */
  lemma ReceivingMakesRoom(s: World)
    requires Reachable(s) && s.reader.Holding? && !Enabled(s, Deliver)
    ensures s.reader.route.ToStream?
    ensures var id := s.reader.route.id;
            && Enabled(s, Receive(id)) && Inv(s)
            && var t := Apply(s, Receive(id));
               && Enabled(t, Deliver) && t.reader == s.reader && t.log == s.log
               && id in t.streams && t.streams[id].phase == Open && t.streams[id].accepted == s.streams[id].accepted
  {
    DeliverEnabledExactly(s);
    ReachableInv(s);
    hide NumbersInv, RepliesInv, CollectorsInv, StreamsInv, PlacesInv, TagOf, Reachable;
  }

  // ---------------------------------------------------------------------------
  // Runs made of the steps one looks for
  // ---------------------------------------------------------------------------

  /** A run from `s` to `end`. */
  ghost predicate Leads(s: World, steps: seq<Step>, end: World) {
    Inv(s) && CanRun(s, steps) && RunFrom(s, steps) == end
  }

  lemma LeadsNowhere(s: World)
    requires Inv(s)
    ensures Leads(s, [], s)
  {
  }

  lemma LeadsFurther(s: World, steps: seq<Step>, mid: World, step: Step)
    requires Leads(s, steps, mid) && Inv(mid) && Enabled(mid, step)
    ensures Leads(s, steps + [step], Apply(mid, step)) && Inv(Apply(mid, step))
  {
    hide Inv, Apply, Enabled, CanRun, RunFrom;
    StepKeeps(mid, step);
    RunAppend(s, steps, step);
  }

  lemma LeadsReachable(s: World, steps: seq<Step>, end: World)
    requires Reachable(s) && Leads(s, steps, end)
    ensures Reachable(end) && Inv(end)
  {
    hide Inv, CanRun, RunFrom, Reachable;
    RunReachable(s, steps);
  }

  /** The read loop routes and delivers, and the caller of `id` receives. */
  ghost predicate Attends(steps: seq<Step>, id: nat) {
    forall step :: step in steps ==> step.RouteFrame? || step == Deliver || step == Receive(id)
  }

  ghost predicate Unattended(steps: seq<Step>, id: nat) {
    forall step :: step in steps ==> step == Deliver || step == Receive(id)
  }

  /** A frame held for a stream that is open is accepted by it after at most one frame more has been
      received. */
  lemma HeldFrameAccepted(s: World, id: nat) returns (steps: seq<Step>, end: World)
    requires Reachable(s) && s.reader == Holding(ToStream(id)) && id in s.streams && s.streams[id].phase == Open
    ensures Leads(s, steps, end) && Unattended(steps, id) && |steps| <= 2
    ensures id in end.streams && end.streams[id].phase == Open && end.reader == Idle && end.log == s.log
    ensures end.streams[id].accepted == s.streams[id].accepted + [|s.log| - 1]
  {
    hide Inv, Reachable, CanRun, RunFrom, Leads, Apply, Enabled;
    ReachableInv(s);
    LeadsNowhere(s);
    steps, end := [], s;
    if !Enabled(s, Deliver) {
      ReceivingMakesRoom(s);
      LeadsFurther(s, steps, end, Receive(id));
      steps, end := steps + [Receive(id)], Apply(s, Receive(id));
    }
    LeadsFurther(s, steps, end, Deliver);
    DeliveredTo(end, id);
    steps, end := steps + [Deliver], Apply(end, Deliver);
  }

  lemma DeliveredTo(s: World, id: nat)
    requires Inv(s) && Enabled(s, Deliver) && s.reader == Holding(ToStream(id))
    requires id in s.streams && s.streams[id].phase == Open
    ensures var t := Apply(s, Deliver);
            var st := s.streams[id];
            && t == s.(reader := Idle, place := t.place,
                       streams := s.streams[id := st.(accepted := st.accepted + [|s.log| - 1],
                                                      buffered := st.buffered + [|s.log| - 1])])
  {
    hide NumbersInv, RepliesInv, CollectorsInv, StreamsInv, PlacesInv, TagOf, Without;
  }

  /** Any held frame leaves the read loop by those steps. */
  lemma HeldFrameLeaves(s: World) returns (id: nat, steps: seq<Step>, end: World)
    requires Reachable(s) && s.reader.Holding?
    ensures Leads(s, steps, end) && Unattended(steps, id) && end.reader == Idle && end.log == s.log
  {
    ReachableInv(s);
    LeadsNowhere(s);
    if Enabled(s, Deliver) {
      LeadsFurther(s, [], s, Deliver);
      Delivered(s);
      id, steps, end := 0, [] + [Deliver], Apply(s, Deliver);
    } else {
      ReceivingMakesRoom(s);
      id := s.reader.route.id;
      steps, end := HeldFrameAccepted(s, id);
    }
  }

  lemma Delivered(s: World)
    requires Inv(s) && Enabled(s, Deliver)
    ensures Apply(s, Deliver).reader == Idle && Apply(s, Deliver).log == s.log
  {
    hide NumbersInv, RepliesInv, CollectorsInv, StreamsInv, PlacesInv, TagOf, Without;
  }

  // ---------------------------------------------------------------------------
  // A streaming command runs to its end
  // ---------------------------------------------------------------------------

  /** The first `n` frames behind the first `from`. */
  function Places(from: nat, n: nat): (p: seq<nat>)
    ensures |p| == n && forall k :: 0 <= k < n ==> p[k] == from + k
  {
    seq(n, k requires 0 <= k < n => from + k)
  }

  /** Between frames: the stream is open, its caller has received all there is, and the command awaits
      its reply. */
  ghost predicate Waiting(s: World, id: nat) {
    && Reachable(s) && Inv(s) && s.reader == Idle && IsPending(s, id)
    && id in s.streams && s.streams[id].phase == Open
  }

  ghost predicate CaughtUp(s: World, id: nat) {
    Waiting(s, id) && s.streams[id].buffered == [] && s.streams[id].received == s.streams[id].accepted
  }

  /** What the read loop's choice for the next frame depends on. */
  ghost predicate SameChoice(s: World, t: World) {
    t.collectors == s.collectors && ClosedStreams(t) == ClosedStreams(s)
  }

  lemma SameRoute(s: World, t: World, r: Response)
    requires SameChoice(s, t)
    ensures RouteOf(t, r) == RouteOf(s, r)
  {
    hide ClosedStreams, FindCollector;
  }

  lemma ReceiveStep(s: World, id: nat)
    requires Inv(s) && Enabled(s, Receive(id))
    ensures var t := Apply(s, Receive(id));
            var st := s.streams[id];
            && t == s.(place := t.place,
                       streams := s.streams[id := st.(received := st.received + [st.buffered[0]],
                                                      buffered := st.buffered[1..])])
            && SameChoice(s, t)
  {
    hide Inv;
  }

  /** The caller takes everything its stream holds. */
  lemma {:induction false} CatchUp(s: World, id: nat) returns (steps: seq<Step>, end: World)
    requires Waiting(s, id)
    ensures Leads(s, steps, end) && Attends(steps, id) && CaughtUp(end, id)
    ensures end.log == s.log && SameChoice(s, end) && end.streams[id].accepted == s.streams[id].accepted
    decreases |s.streams[id].buffered|
  {
    hide Inv, Reachable, CanRun, RunFrom, TagOf, Apply, ClosedStreams;
    if s.streams[id].buffered == [] {
      LeadsNowhere(s);
      steps, end := [], s;
      OpenAccounts(s, id);
    } else {
      EnabledReceive(s, id);
      StepReachable(s, Receive(id));
      ReceiveStep(s, id);
      var next := Apply(s, Receive(id));
      var more;
      more, end := CatchUp(next, id);
      LeadsFirst(s, Receive(id), more, end);
      steps := [Receive(id)] + more;
    }
  }

  lemma EnabledReceive(s: World, id: nat)
    requires id in s.streams && s.streams[id].phase == Open && s.streams[id].buffered != []
    ensures Enabled(s, Receive(id))
  {
  }

  lemma OpenAccounts(s: World, id: nat)
    requires Inv(s) && id in s.streams && s.streams[id].phase == Open
    ensures s.streams[id].accepted == s.streams[id].received + s.streams[id].buffered
  {
    hide NumbersInv, RepliesInv, CollectorsInv, HeldInv, PlacesInv;
    assert StreamInv(s, id);
  }

  lemma LeadsFirst(s: World, step: Step, steps: seq<Step>, end: World)
    requires Inv(s) && Enabled(s, step) && Inv(Apply(s, step)) && Leads(Apply(s, step), steps, end)
    ensures Leads(s, [step] + steps, end)
  {
    hide Inv, Apply, Enabled;
    assert ([step] + steps)[1..] == steps;
  }

  lemma LeadsOn(s: World, steps: seq<Step>, mid: World, more: seq<Step>, end: World)
    requires Leads(s, steps, mid) && Leads(mid, more, end)
    ensures Leads(s, steps + more, end)
    decreases |steps|
  {
    hide Inv, Apply, Enabled;
    if |steps| == 0 {
      assert steps + more == more;
    } else {
      StepKeeps(s, steps[0]);
      assert (steps + more)[1..] == steps[1..] + more;
      LeadsOn(Apply(s, steps[0]), steps[1..], mid, more, end);
    }
  }

  /** One frame for the stream: routed, delivered and received. */
  lemma OneFrame(s: World, id: nat, r: Response) returns (steps: seq<Step>, end: World)
    requires CaughtUp(s, id) && RouteOf(s, r) == ToStream(id)
    ensures Leads(s, steps, end) && Attends(steps, id) && CaughtUp(end, id)
    ensures end.log == s.log + [r] && SameChoice(s, end)
    ensures end.streams[id].received == s.streams[id].received + [|s.log|]
  {
    hide Inv, Reachable, CanRun, RunFrom, TagOf, RouteOf, Apply, Enabled, ClosedStreams;
    LeadsNowhere(s);
    RouteStep(s, r);
    StepReachable(s, RouteFrame(r));
    var held := Apply(s, RouteFrame(r));
    LeadsFurther(s, [], s, RouteFrame(r));
    DeliverEnabledExactly(held);
    StepReachable(held, Deliver);
    DeliveredTo(held, id);
    var full := Apply(held, Deliver);
    assert [] + [RouteFrame(r)] == [RouteFrame(r)];
    LeadsFurther(s, [RouteFrame(r)], held, Deliver);
    PhasesKeepChoice(s, full);
    var got;
    got, end := CatchUp(full, id);
    steps := [RouteFrame(r), Deliver] + got;
    assert [RouteFrame(r)] + [Deliver] == [RouteFrame(r), Deliver];
    LeadsOn(s, [RouteFrame(r), Deliver], full, got, end);
  }

  lemma RouteStep(s: World, r: Response)
    requires Inv(s) && s.reader == Idle
    ensures Enabled(s, RouteFrame(r))
    ensures var t := Apply(s, RouteFrame(r));
            t == s.(log := s.log + [r], reader := Holding(RouteOf(s, r)), place := t.place)
  {
    hide Inv, RouteOf;
  }

  lemma PhasesKeepChoice(s: World, t: World)
    requires t.collectors == s.collectors && t.streams.Keys == s.streams.Keys
    requires forall id :: id in s.streams ==> t.streams[id].phase == s.streams[id].phase
    ensures SameChoice(s, t)
  {
  }

  /** Any number of frames for the stream. */
  lemma {:induction false} ManyFrames(s: World, id: nat, rs: seq<Response>) returns (steps: seq<Step>, end: World)
    requires CaughtUp(s, id) && forall r :: r in rs ==> RouteOf(s, r) == ToStream(id)
    ensures Leads(s, steps, end) && Attends(steps, id) && CaughtUp(end, id)
    ensures end.log == s.log + rs && SameChoice(s, end)
    ensures end.streams[id].received == s.streams[id].received + Places(|s.log|, |rs|)
    decreases |rs|
  {
    hide Inv, Reachable, CanRun, RunFrom, TagOf, RouteOf, Apply, Leads, Waiting;
    if |rs| == 0 {
      assert Waiting(s, id) by { assert CaughtUp(s, id); }
      steps, end := CatchUp(s, id);
    } else {
      var first, one;
      assert rs[0] in rs;
      first, one := OneFrame(s, id, rs[0]);
      forall r | r in rs[1..] ensures RouteOf(one, r) == ToStream(id) {
        SameRoute(s, one, r);
      }
      var more;
      more, end := ManyFrames(one, id, rs[1..]);
      LeadsOn(s, first, one, more, end);
      steps := first + more;
      assert rs == [rs[0]] + rs[1..];
      assert Places(|s.log|, |rs|) == [|s.log|] + Places(|s.log| + 1, |rs| - 1);
    }
  }

  /** The command's own reply: it is answered, and its stream ends. */
  lemma ReplyStep(s: World, id: nat, last: Response) returns (end: World)
    requires CaughtUp(s, id) && TagIn(last) == Some(TagOf(id))
    ensures Leads(s, [RouteFrame(last), Deliver], end) && end.reader == Idle
    ensures end.log == s.log + [last] && end.streams == s.streams
    ensures id in end.answers && end.answers[id] == ByFrame(|s.log|)
    ensures SendersGone(end, id)
  {
    hide Inv, Reachable, CanRun, RunFrom, TagOf, Apply, Enabled, ClosedStreams;
    LeadsNowhere(s);
    RouteStep(s, last);
    StepReachable(s, RouteFrame(last));
    var held := Apply(s, RouteFrame(last));
    LeadsFurther(s, [], s, RouteFrame(last));
    DeliverEnabledExactly(held);
    StepReachable(held, Deliver);
    end := Apply(held, Deliver);
    assert [] + [RouteFrame(last)] == [RouteFrame(last)];
    LeadsFurther(s, [RouteFrame(last)], held, Deliver);
    assert [RouteFrame(last)] + [Deliver] == [RouteFrame(last), Deliver];
    Answered(held, id);
  }

  lemma Answered(s: World, id: nat)
    requires Inv(s) && Enabled(s, Deliver) && s.reader == Holding(ToTag(TagOf(id))) && IsPending(s, id)
    ensures var t := Apply(s, Deliver);
            && t.reader == Idle && t.log == s.log && t.streams == s.streams
            && id in t.answers && t.answers[id] == ByFrame(|s.log| - 1) && SendersGone(t, id)
  {
    hide StreamsInv, PlacesInv, TagOf, Without;
  }

  /** A pending command whose stream is the one the read loop chooses: whatever data the server sends
      for it, and however much, its caller receives all of it in order by going on receiving, and then
      the reply; its stream has ended then, and no step of anyone else was waited for. */
  lemma CommandCompletes(s: World, id: nat, rs: seq<Response>, last: Response)
      returns (steps: seq<Step>, end: World)
    requires Waiting(s, id) && (forall r :: r in rs ==> RouteOf(s, r) == ToStream(id))
    requires TagIn(last) == Some(TagOf(id))
    ensures Leads(s, steps, end) && Attends(steps, id)
    ensures end.log == s.log + rs + [last] && end.reader == Idle
    ensures id in end.streams && end.streams[id].phase == Open && end.streams[id].buffered == []
    ensures end.streams[id].received == s.streams[id].accepted + Places(|s.log|, |rs|)
    ensures id in end.answers && end.answers[id] == ByFrame(|s.log| + |rs|)
    ensures SendersGone(end, id)
  {
    hide Inv, Reachable, CanRun, RunFrom, TagOf, RouteOf, Apply, Leads, SendersGone;
    var first, ready := CatchUp(s, id);
    forall r | r in rs ensures RouteOf(ready, r) == ToStream(id) {
      SameRoute(s, ready, r);
    }
    var more, fed := ManyFrames(ready, id, rs);
    LeadsOn(s, first, ready, more, fed);
    end := ReplyStep(fed, id, last);
    LeadsOn(s, first + more, fed, [RouteFrame(last), Deliver], end);
    steps := first + more + [RouteFrame(last), Deliver];
  }

  // ---------------------------------------------------------------------------
  // The read loop and the write loop never get stuck
  // ---------------------------------------------------------------------------

  ghost predicate ReadsOn(steps: seq<Step>) {
    forall step :: step in steps ==> step.RouteFrame? || step.Deliver? || step.Receive?
  }

  /** Whatever the server sends is dispatched, if callers of open streams go on receiving. */
  lemma {:induction false} EverythingDispatched(s: World, rs: seq<Response>) returns (steps: seq<Step>, end: World)
    requires Reachable(s) && s.reader == Idle
    ensures Leads(s, steps, end) && ReadsOn(steps) && end.reader == Idle && end.log == s.log + rs
    decreases |rs|
  {
    hide Inv, Reachable, CanRun, RunFrom, TagOf, RouteOf, Apply, Enabled, Leads;
    ReachableInv(s);
    if |rs| == 0 {
      LeadsNowhere(s);
      steps, end := [], s;
    } else {
      RouteStep(s, rs[0]);
      StepReachable(s, RouteFrame(rs[0]));
      var held := Apply(s, RouteFrame(rs[0]));
      var id, moved, idle := HeldFrameLeaves(held);
      LeadsFirst(s, RouteFrame(rs[0]), moved, idle);
      LeadsReachable(held, moved, idle);
      var more;
      more, end := EverythingDispatched(idle, rs[1..]);
      LeadsOn(s, [RouteFrame(rs[0])] + moved, idle, more, end);
      steps := [RouteFrame(rs[0])] + moved + more;
      assert s.log + [rs[0]] + rs[1..] == s.log + rs;
    }
  }

  /** The numbers of the commands waiting in the queue. */
  function Queued(queue: seq<Request>): (ids: seq<nat>)
    ensures |ids| == |queue|
  {
    seq(|queue|, k requires 0 <= k < |queue| => queue[k].id)
  }

  ghost predicate WritesOn(steps: seq<Step>) {
    forall step :: step in steps ==> step == Register || step == Write
  }

  /** Every command in the queue is registered and then written, in order. */
  lemma {:induction false} QueueWritten(s: World) returns (steps: seq<Step>, end: World)
    requires Inv(s) && s.writer == Ready
    ensures Leads(s, steps, end) && WritesOn(steps) && end.writer == Ready && end.queue == []
    ensures end.written == s.written + Queued(s.queue)
    ensures end.registered == s.registered + set k | 0 <= k < |s.queue| :: s.queue[k].id
    decreases |s.queue|
  {
    hide Inv, CanRun, RunFrom, TagOf, Leads;
    LeadsNowhere(s);
    if |s.queue| == 0 {
      steps, end := [], s;
    } else {
      StepKeeps(s, Register);
      var busy := Apply(s, Register);
      StepKeeps(busy, Write);
      var next := Apply(busy, Write);
      var more;
      more, end := QueueWritten(next);
      LeadsFirst(busy, Write, more, end);
      LeadsFirst(s, Register, [Write] + more, end);
      steps := [Register] + ([Write] + more);
      assert Queued(s.queue) == [s.queue[0].id] + Queued(next.queue);
      assert (set k | 0 <= k < |s.queue| :: s.queue[k].id)
             == {s.queue[0].id} + (set k | 0 <= k < |next.queue| :: next.queue[k].id) by {
        assert forall k :: 0 <= k < |next.queue| ==> next.queue[k].id == s.queue[k + 1].id;
        assert forall k :: 1 <= k < |s.queue| ==> s.queue[k].id == next.queue[k - 1].id;
      }
    }
  }

  /** A command can be queued exactly while the write loop runs and fewer than 32 are waiting. */
  lemma QueueTakesExactly(s: World, wants: Option<FrameFilter>)
    requires Reachable(s)
    ensures Enabled(s, Enqueue(wants)) <==> s.writer != Down && |s.queue| < 32
    ensures s.writer == Ready && s.queue != [] ==> Enabled(s, Register)
    ensures s.writer.Writing? ==> Enabled(s, Write)
  {
  }

  ghost predicate OnlyDrains(steps: seq<Step>, id: nat) {
    forall step :: step in steps ==> step == Drain(id)
  }

  /** A closed stream's buffer is broadcast to its end, in order. */
  lemma {:induction false} ClosedBufferBroadcast(s: World, id: nat) returns (steps: seq<Step>, end: World)
    requires Inv(s) && id in s.streams && s.streams[id].phase == Closed
    ensures Leads(s, steps, end) && OnlyDrains(steps, id)
    ensures end.events == s.events + s.streams[id].buffered && end.log == s.log && end.replies == s.replies
    ensures id in end.streams && end.streams[id].buffered == [] && end.streams[id].phase == Closed
    ensures end.streams[id].received == s.streams[id].received
    decreases |s.streams[id].buffered|
  {
    hide Inv, CanRun, RunFrom, TagOf, Leads;
    LeadsNowhere(s);
    if s.streams[id].buffered == [] {
      steps, end := [], s;
    } else {
      StepKeeps(s, Drain(id));
      var next := Apply(s, Drain(id));
      var more;
      more, end := ClosedBufferBroadcast(next, id);
      LeadsFirst(s, Drain(id), more, end);
      steps := [Drain(id)] + more;
      var b := s.streams[id].buffered;
      assert b == [b[0]] + b[1..];
    }
  }

  /** `into_reply`: the caller closes its stream, and what it had not received is broadcast, in order. */
  lemma IntoReplyRebroadcasts(s: World, id: nat) returns (drains: seq<Step>, end: World)
    requires Reachable(s) && id in s.streams && s.streams[id].phase == Open
    ensures Leads(s, [Close(id)] + drains, end) && OnlyDrains(drains, id)
    ensures end.events == s.events + s.streams[id].buffered && end.log == s.log && end.replies == s.replies
    ensures id in end.streams && end.streams[id].buffered == [] && end.streams[id].phase == Closed
    ensures end.streams[id].received == s.streams[id].received
  {
    ReachableInv(s);
    hide Inv, Reachable, CanRun, RunFrom, TagOf, Leads;
    StepKeeps(s, Close(id));
    var closed := Apply(s, Close(id));
    drains, end := ClosedBufferBroadcast(closed, id);
    LeadsFirst(s, Close(id), drains, end);
  }

  /** A caller may drop its stream at any time: what was buffered is lost, and every other frame stays
      where it is. */
  lemma DroppingLoses(s: World, id: nat)
    requires Reachable(s) && id in s.streams && s.streams[id].phase == Open
    ensures Enabled(s, Drop(id)) && Inv(s)
    ensures var t := Apply(s, Drop(id));
            && t.log == s.log && |t.place| == |s.place| == |s.log| && t.events == s.events
            && forall i :: 0 <= i < |s.place| ==>
                 t.place[i] == if i in s.streams[id].buffered then Lost(id) else s.place[i]
  {
    ReachableInv(s);
    hide Reachable, TagOf, NumbersInv, RepliesInv, CollectorsInv, StreamsInv, HeldInv;
  }

  /** The connection can end at any time, once the frame in hand is delivered; then every registered
      command is answered and none waits any more. */
  lemma ConnectionEndSettles(s: World) returns (id: nat, steps: seq<Step>, end: World)
    requires Reachable(s) && s.reader != Stopped
    ensures Leads(s, steps + [StopReader], end) && Unattended(steps, id)
    ensures end.reader == Stopped && end.log == s.log && end.replies == map[] && end.collectors == []
    ensures end.answers.Keys == end.registered
  {
    hide Inv, Reachable, CanRun, RunFrom, TagOf, Leads, Apply;
    ReachableInv(s);
    LeadsNowhere(s);
    var idle;
    id, steps, idle := 0, [], s;
    if s.reader.Holding? {
      id, steps, idle := HeldFrameLeaves(s);
    }
    LeadsReachable(s, steps, idle);
    LeadsFurther(s, steps, idle, StopReader);
    end := Apply(idle, StopReader);
    StopIs(idle);
    StopSettles(idle);
  }

  lemma StopIs(s: World)
    requires Inv(s) && s.reader == Idle
    ensures Enabled(s, StopReader)
    ensures Apply(s, StopReader) == DoStop(s) && DoStop(s).reader == Stopped && DoStop(s).log == s.log
  {
    hide Inv;
  }
}
