/** The dispatcher as a concurrent protocol. Callers, the write loop and the read loop take atomic
    steps in any order; frames are named by their place in `log`, the wire order. */
module Dispatcher {
  import opened Bytes
  import opened Ast
  import opened Pending
  import opened Commands

  const STREAM_CHANNEL_CAP: nat := 32
  const WRITE_CHANNEL_CAP: nat := 32

  datatype Request = Request(id: nat, wants: Option<FrameFilter>)

  datatype Phase = Open | Closed | Dropped

  /** A streaming command's channel. `accepted` is every frame ever put in it, in order; those
      frames are `received` by the caller, `gone` (broadcast after closing, or lost when the stream
      was dropped), or still `buffered`. */
  datatype Stream = Stream(
    wants: FrameFilter,
    phase: Phase,
    accepted: seq<nat>,
    received: seq<nat>,
    gone: seq<nat>,
    buffered: seq<nat>)

  datatype Writer = Ready | Writing(id: nat) | Down

  datatype Route = ToTag(tag: bytes) | ToStream(id: nat) | ToEvents

  /** The read loop; the frame it holds between routing and delivery is the last of `log`. */
  datatype Reader = Idle | Holding(route: Route) | Stopped

  /** What a reply sender was used for. */
  datatype Answer = ByFrame(i: nat) | ByFailure

  datatype Place = Held | Replied(id: nat) | Buffered(id: nat) | Received(id: nat) | Lost(id: nat) | Broadcast

  datatype World = World(
    nextId: nat,
    queue: seq<Request>,
    writer: Writer,
    registered: set<nat>,
    written: seq<nat>,
    replies: map<bytes, nat>,
    collectors: seq<Collector>,
    streams: map<nat, Stream>,
    answers: map<nat, Answer>,
    sends: multiset<nat>,
    log: seq<Response>,
    reader: Reader,
    events: seq<nat>,
    place: seq<Place>)

  ghost const INITIAL: World :=
    World(1, [], Ready, {}, [], map[], [], map[], map[], multiset{}, [], Idle, [], [])

  datatype Step =
    | Enqueue(wants: Option<FrameFilter>)  // a caller allocates a tag and queues its command
    | Abandon                              // a caller gives up after allocating a tag
    | Register                             // the write loop registers the next command
    | Write                                // and then writes it
    | WriterFails
    | RouteFrame(r: Response)              // the read loop parses a frame and picks its route
    | Deliver
    | Receive(id: nat)                     // a caller takes the next frame of its stream
    | Close(id: nat)                       // `into_reply` closes the stream
    | Drain(id: nat)                       // and rebroadcasts what was buffered
    | Drop(id: nat)
    | StopReader                           // end of stream, I/O error or bad frame

  function TagIn(r: Response): Option<bytes> {
    if r.StatusResponse? then r.tag else None
  }

  ghost function ClosedStreams(s: World): set<nat> {
    set id | id in s.streams && s.streams[id].phase != Open
  }

  ghost function RouteOf(s: World, r: Response): Route {
    match TagIn(r)
    case Some(tag) => ToTag(tag)
    case None =>
      match FindCollector(s.collectors, ClosedStreams(s), r)
      case Some(id) => ToStream(id)
      case None => ToEvents
  }

  /** Delivery waits while the chosen stream is open and full. */
  ghost predicate Blocked(s: World, id: nat) {
    id in s.streams && s.streams[id].phase == Open && |s.streams[id].buffered| >= STREAM_CHANNEL_CAP
  }

  ghost predicate Enabled(s: World, step: Step) {
    match step
    case Enqueue(_) => s.writer != Down && |s.queue| < WRITE_CHANNEL_CAP
    case Abandon => true
    case Register => s.writer == Ready && |s.queue| > 0
    case Write => s.writer.Writing?
    case WriterFails => s.writer != Down
    case RouteFrame(_) => s.reader == Idle
    case Deliver => s.reader.Holding? && |s.log| > 0 && !(s.reader.route.ToStream? && Blocked(s, s.reader.route.id))
    case Receive(id) => id in s.streams && s.streams[id].phase == Open && |s.streams[id].buffered| > 0
    case Close(id) => id in s.streams && s.streams[id].phase == Open
    case Drain(id) => id in s.streams && s.streams[id].phase == Closed && |s.streams[id].buffered| > 0
    case Drop(id) => id in s.streams && s.streams[id].phase == Open
    case StopReader => s.reader == Idle
  }

  ghost function NewStream(wants: FrameFilter): Stream {
    Stream(wants, Open, [], [], [], [])
  }

  ghost function DoEnqueue(s: World, wants: Option<FrameFilter>): World {
    s.(nextId := s.nextId + 1,
       queue := s.queue + [Request(s.nextId, wants)],
       streams := if wants.Some? then s.streams[s.nextId := NewStream(wants.value)] else s.streams)
  }

  ghost function DoRegister(s: World): World
    requires |s.queue| > 0
  {
    var q := s.queue[0];
    s.(queue := s.queue[1..],
       writer := Writing(q.id),
       registered := s.registered + {q.id},
       replies := s.replies[TagOf(q.id) := q.id],
       collectors := s.collectors
                     + if q.wants.Some? then [Collector(TagOf(q.id), q.id, q.wants.value)] else [])
  }

  ghost function DoRoute(s: World, r: Response): World {
    s.(log := s.log + [r], reader := Holding(RouteOf(s, r)), place := s.place + [Held])
  }

  /** Broadcast the held frame. */
  ghost function Unclaimed(s: World): World
    requires |s.log| > 0 && |s.place| == |s.log|
  {
    var i := |s.log| - 1;
    s.(reader := Idle, events := s.events + [i], place := s.place[i := Broadcast])
  }

  ghost function DoDeliver(s: World): World
    requires s.reader.Holding? && |s.log| > 0 && |s.place| == |s.log|
  {
    var i := |s.log| - 1;
    match s.reader.route
    case ToTag(tag) =>
      if tag in s.replies then
        var id := s.replies[tag];
        s.(reader := Idle,
           collectors := Without(s.collectors, tag),
           replies := s.replies - {tag},
           answers := s.answers[id := ByFrame(i)],
           sends := s.sends + multiset{id},
           place := s.place[i := Replied(id)])
      else Unclaimed(s.(collectors := Without(s.collectors, tag)))
    case ToStream(id) =>
      if id in s.streams && s.streams[id].phase == Open then
        var st := s.streams[id];
        s.(reader := Idle,
           streams := s.streams[id := st.(accepted := st.accepted + [i], buffered := st.buffered + [i])],
           place := s.place[i := Buffered(id)])
      else Unclaimed(s)
    case ToEvents => Unclaimed(s)
  }

  ghost function DoReceive(s: World, id: nat): World
    requires id in s.streams && |s.streams[id].buffered| > 0 && s.streams[id].buffered[0] < |s.place|
  {
    var st := s.streams[id];
    var i := st.buffered[0];
    s.(streams := s.streams[id := st.(received := st.received + [i], buffered := st.buffered[1..])],
       place := s.place[i := Received(id)])
  }

  ghost function DoDrain(s: World, id: nat): World
    requires id in s.streams && |s.streams[id].buffered| > 0 && s.streams[id].buffered[0] < |s.place|
  {
    var st := s.streams[id];
    var i := st.buffered[0];
    s.(streams := s.streams[id := st.(gone := st.gone + [i], buffered := st.buffered[1..])],
       events := s.events + [i],
       place := s.place[i := Broadcast])
  }

  ghost function DoDrop(s: World, id: nat): World
    requires id in s.streams
  {
    var st := s.streams[id];
    s.(streams := s.streams[id := st.(phase := Dropped, gone := st.gone + st.buffered, buffered := [])],
       place := seq(|s.place|, i requires 0 <= i < |s.place| => if i in st.buffered then Lost(id) else s.place[i]))
  }

  /** Fail every pending command. */
  ghost function DoStop(s: World): World {
    s.(reader := Stopped,
       collectors := [],
       replies := map[],
       answers := map id | id in s.answers.Keys + s.replies.Values ::
         if id in s.answers then s.answers[id] else ByFailure,
       sends := s.sends + multiset(s.replies.Values))
  }

  lemma FrontBuffered(s: World, id: nat)
    requires StreamsInv(s) && PlacesInv(s) && id in s.streams && |s.streams[id].buffered| > 0
    ensures s.streams[id].buffered[0] < |s.place|
  {
    var st := s.streams[id];
    assert StreamInv(s, id);
    assert st.accepted[|st.received + st.gone|] == st.buffered[0];
  }

  ghost function Apply(s: World, step: Step): World
    requires Inv(s) && Enabled(s, step)
  {
    match step
    case Enqueue(wants) => DoEnqueue(s, wants)
    case Abandon => s.(nextId := s.nextId + 1)
    case Register => DoRegister(s)
    case Write => s.(writer := Ready, written := s.written + [s.writer.id])
    case WriterFails => s.(writer := Down, queue := [])
    case RouteFrame(r) => DoRoute(s, r)
    case Deliver => DoDeliver(s)
    case Receive(id) => FrontBuffered(s, id); DoReceive(s, id)
    case Close(id) => s.(streams := s.streams[id := s.streams[id].(phase := Closed)])
    case Drain(id) => FrontBuffered(s, id); DoDrain(s, id)
    case Drop(id) => DoDrop(s, id)
    case StopReader => DoStop(s)
  }

  // ---------------------------------------------------------------------------
  // What every reachable state satisfies
  // ---------------------------------------------------------------------------

  predicate Increasing(s: seq<nat>) {
    forall a, b :: 0 <= a < b < |s| ==> s[a] < s[b]
  }

  ghost predicate IsPending(s: World, id: nat) {
    TagOf(id) in s.replies && s.replies[TagOf(id)] == id
  }

  /** Command numbers: queued ones are fresh and in order, behind every registered one. */
  ghost predicate NumbersInv(s: World) {
    && (forall a, b :: 0 <= a < b < |s.queue| ==> s.queue[a].id < s.queue[b].id)
    && (forall a :: 0 <= a < |s.queue| ==>
          && s.queue[a].id < s.nextId
          && (s.queue[a].wants.Some? <==> s.queue[a].id in s.streams)
          && (s.queue[a].wants.Some? ==> s.streams[s.queue[a].id].wants == s.queue[a].wants.value))
    && (forall id :: id in s.registered ==> id < s.nextId)
    && (forall id, a :: id in s.registered && 0 <= a < |s.queue| ==> id < s.queue[a].id)
    && (forall id :: id in s.streams ==> id < s.nextId)
    && (forall a :: 0 <= a < |s.written| ==> s.written[a] in s.registered)
    && (s.writer.Writing? ==> s.writer.id in s.registered)
  }

  /** Replies: a registered command is pending or answered, never both, and its sender was used
      once or not at all accordingly. */
  ghost predicate RepliesInv(s: World) {
    && (forall tag :: tag in s.replies ==> tag == TagOf(s.replies[tag]) && s.replies[tag] in s.registered)
    && (forall id :: id in s.registered ==> (id in s.answers <==> !IsPending(s, id)))
    && s.answers.Keys <= s.registered
    && (forall id: nat :: s.sends[id] == if id in s.answers then 1 else 0)
  }

  predicate InCommandOrder(cs: seq<Collector>) {
    forall a, b :: 0 <= a < b < |cs| ==> cs[a].id < cs[b].id
  }

  /** Collectors: in command order, each for a pending command, and one for every pending command
      that has a stream. */
  ghost predicate CollectorsInv(s: World) {
    && InCommandOrder(s.collectors)
    && (forall c :: c in s.collectors ==>
          && c.tag == TagOf(c.id) && IsPending(s, c.id)
          && c.id in s.streams && s.streams[c.id].wants == c.wants)
    && (forall id :: id in s.streams && IsPending(s, id) ==> exists c :: c in s.collectors && c.id == id)
  }

  /** A stream's own accounts. */
  ghost predicate StreamInv(s: World, id: nat)
    requires id in s.streams
  {
    var st := s.streams[id];
    && st.accepted == st.received + st.gone + st.buffered
    && (st.phase == Open ==> st.gone == [])
    && (st.phase == Dropped ==> st.buffered == [])
    && |st.buffered| <= STREAM_CHANNEL_CAP
    && Increasing(st.accepted)
    && (forall k :: 0 <= k < |st.accepted| ==>
          var i := st.accepted[k];
          && i < |s.log| && TagIn(s.log[i]) == None && st.wants(s.log[i])
          && (id in s.answers && s.answers[id].ByFrame? ==> i < s.answers[id].i))
  }

  ghost predicate StreamsInv(s: World) {
    forall id :: id in s.streams ==> StreamInv(s, id)
  }

  /** The frame being delivered, and the answers given. */
  ghost predicate HeldInv(s: World) {
    && (s.reader.Holding? ==> |s.log| > 0)
    && (s.reader.Holding? && s.reader.route.ToTag? ==> TagIn(s.log[|s.log| - 1]) == Some(s.reader.route.tag))
    && (s.reader.Holding? && !s.reader.route.ToTag? ==> TagIn(s.log[|s.log| - 1]) == None)
    && (s.reader.Holding? && s.reader.route.ToStream? ==>
          var id := s.reader.route.id;
          && id in s.streams && IsPending(s, id)
          && s.streams[id].wants(s.log[|s.log| - 1])
          && (forall k :: 0 <= k < |s.streams[id].accepted| ==> s.streams[id].accepted[k] < |s.log| - 1))
    && (forall id :: id in s.answers && s.answers[id].ByFrame? ==>
          s.answers[id].i < |s.log| && TagIn(s.log[s.answers[id].i]) == Some(TagOf(id)))
  }

  /** Frame `i` is found at place `p`. */
  ghost predicate Found(s: World, i: nat, p: Place) {
    match p
    case Held => s.reader.Holding? && i + 1 == |s.log|
    case Replied(id) => id in s.answers && s.answers[id] == ByFrame(i)
    case Buffered(id) => id in s.streams && i in s.streams[id].buffered
    case Received(id) => id in s.streams && i in s.streams[id].received
    case Lost(id) => id in s.streams && s.streams[id].phase == Dropped && i in s.streams[id].gone
    case Broadcast => i in s.events
  }

  /** Every frame is in exactly one place, and a frame broadcast is broadcast once. */
  ghost predicate PlacesInv(s: World) {
    && |s.place| == |s.log|
    && (forall i, p :: 0 <= i < |s.log| ==> (Found(s, i, p) <==> s.place[i] == p))
    && (forall a :: 0 <= a < |s.events| ==> s.events[a] < |s.log|)
    && (forall a, b :: 0 <= a < b < |s.events| ==> s.events[a] != s.events[b])
    && (forall id, i :: id in s.streams && s.streams[id].phase == Closed && i in s.streams[id].gone ==> i in s.events)
  }

  ghost predicate Inv(s: World) {
    NumbersInv(s) && RepliesInv(s) && CollectorsInv(s) && StreamsInv(s) && HeldInv(s) && PlacesInv(s)
  }

  // ---------------------------------------------------------------------------
  // Every step keeps it
  // ---------------------------------------------------------------------------

  /** Frames in a stream's accounts are frames of the log. */
  lemma StreamFrames(s: World, id: nat, i: nat)
    requires StreamsInv(s) && id in s.streams
    requires var st := s.streams[id]; i in st.received || i in st.gone || i in st.buffered
    ensures i in s.streams[id].accepted && i < |s.log|
  {
    assert StreamInv(s, id);
  }

  // A step leaves most of the invariant's parts alone: these lemmas carry over what did not change.

  ghost predicate SameStreamHeads(s: World, s': World) {
    s'.streams.Keys == s.streams.Keys && forall id :: id in s.streams ==> s'.streams[id].wants == s.streams[id].wants
  }

  lemma SameNumbers(s: World, s': World)
    requires NumbersInv(s) && SameStreamHeads(s, s')
    requires s'.nextId == s.nextId && s'.queue == s.queue && s'.writer == s.writer
    requires s'.registered == s.registered && s'.written == s.written
    ensures NumbersInv(s')
  {
  }

  lemma SameReplies(s: World, s': World)
    requires RepliesInv(s)
    requires s'.registered == s.registered && s'.replies == s.replies && s'.answers == s.answers && s'.sends == s.sends
    ensures RepliesInv(s')
  {
    hide TagOf;
    forall id | id in s'.registered ensures id in s'.answers <==> !IsPending(s', id) {
      assert id in s.answers <==> !IsPending(s, id);
    }
  }

  lemma SameCollectors(s: World, s': World)
    requires CollectorsInv(s) && SameStreamHeads(s, s')
    requires s'.collectors == s.collectors && s'.replies == s.replies
    ensures CollectorsInv(s')
  {
    hide TagOf, InCommandOrder;
    forall c | c in s'.collectors ensures IsPending(s', c.id) {
      assert IsPending(s, c.id);
    }
    forall id | id in s'.streams && IsPending(s', id) ensures exists c :: c in s'.collectors && c.id == id {
      assert IsPending(s, id);
    }
  }

  lemma SameStreams(s: World, s': World)
    requires StreamsInv(s)
    requires s'.streams == s.streams && s.log <= s'.log && s'.answers == s.answers
    ensures StreamsInv(s')
  {
    forall id | id in s'.streams ensures StreamInv(s', id) {
      assert StreamInv(s, id);
    }
  }

  lemma NothingHeld(s: World, s': World)
    requires HeldInv(s) && !s'.reader.Holding? && s'.log == s.log
    requires forall id :: id in s'.answers && s'.answers[id].ByFrame? ==>
               id in s.answers && s'.answers[id] == s.answers[id]
    ensures HeldInv(s')
  {
    hide TagOf;
  }

  lemma EnqueuePlaces(s: World, wants: Option<FrameFilter>)
    requires Inv(s) && Enabled(s, Enqueue(wants))
    ensures PlacesInv(DoEnqueue(s, wants))
  {
    hide TagOf, RepliesInv, CollectorsInv, StreamsInv, HeldInv;
    var s' := DoEnqueue(s, wants);
    assert s.nextId !in s.streams;
    forall i, p | 0 <= i < |s.log| ensures Found(s', i, p) <==> s'.place[i] == p {
      assert Found(s, i, p) <==> s.place[i] == p;
    }
  }

  lemma EnqueueStreams(s: World, wants: Option<FrameFilter>)
    requires Inv(s) && Enabled(s, Enqueue(wants))
    ensures StreamsInv(DoEnqueue(s, wants))
  {
    hide PlacesInv, TagOf, RepliesInv, CollectorsInv, HeldInv;
    var s' := DoEnqueue(s, wants);
    assert s.nextId !in s.streams;
    forall id | id in s'.streams && id != s.nextId ensures StreamInv(s', id) {
      assert StreamInv(s, id);
    }
  }

  lemma EnqueueHeld(s: World, wants: Option<FrameFilter>)
    requires Inv(s) && Enabled(s, Enqueue(wants))
    ensures HeldInv(DoEnqueue(s, wants))
  {
    hide PlacesInv, TagOf, RepliesInv, CollectorsInv, StreamsInv;
    assert s.nextId !in s.streams;
  }

  lemma EnqueueNumbers(s: World, wants: Option<FrameFilter>)
    requires Inv(s) && Enabled(s, Enqueue(wants))
    ensures NumbersInv(DoEnqueue(s, wants))
  {
    hide PlacesInv, TagOf, RepliesInv, CollectorsInv, StreamsInv, HeldInv;
  }

  lemma EnqueueCollectors(s: World, wants: Option<FrameFilter>)
    requires Inv(s) && Enabled(s, Enqueue(wants))
    ensures CollectorsInv(DoEnqueue(s, wants))
  {
    hide PlacesInv, TagOf, StreamsInv, HeldInv, InCommandOrder;
    var s' := DoEnqueue(s, wants);
    assert s.nextId !in s.streams;
    forall c | c in s'.collectors ensures IsPending(s', c.id) && c.id != s.nextId {
      assert IsPending(s, c.id);
    }
    forall id | id in s'.streams && IsPending(s', id) ensures exists c :: c in s'.collectors && c.id == id {
      assert IsPending(s, id);
      assert s.replies[TagOf(id)] in s.registered;
      assert id in s.streams;
    }
  }

  lemma EnqueueKeeps(s: World, wants: Option<FrameFilter>)
    requires Inv(s) && Enabled(s, Enqueue(wants))
    ensures Inv(DoEnqueue(s, wants))
  {
    hide NumbersInv, RepliesInv, CollectorsInv, StreamsInv, HeldInv, PlacesInv;
    EnqueueNumbers(s, wants);
    SameReplies(s, DoEnqueue(s, wants));
    EnqueueCollectors(s, wants);
    EnqueueStreams(s, wants);
    EnqueueHeld(s, wants);
    EnqueuePlaces(s, wants);
  }

  lemma SamePlaces(s: World, s': World)
    requires PlacesInv(s)
    requires s'.log == s.log && s'.place == s.place && s'.events == s.events && s'.streams == s.streams
    requires s'.reader == s.reader && s'.answers == s.answers
    ensures PlacesInv(s')
  {
    forall i, p | 0 <= i < |s.log| ensures Found(s', i, p) <==> s'.place[i] == p {
      assert Found(s, i, p) <==> s.place[i] == p;
    }
  }

  lemma TagsInjective()
    ensures forall m, n :: TagOf(m) == TagOf(n) ==> m == n
  {
    hide TagOf;
    forall m, n | TagOf(m) == TagOf(n) ensures m == n {
      TagsDistinct(m, n);
    }
  }

  lemma RegisterNumbers(s: World)
    requires Inv(s) && Enabled(s, Register)
    ensures NumbersInv(DoRegister(s))
  {
    hide TagOf, RepliesInv, CollectorsInv, StreamsInv, HeldInv, PlacesInv;
  }

  lemma RegisterReplies(s: World)
    requires Inv(s) && Enabled(s, Register)
    ensures RepliesInv(DoRegister(s))
  {
    hide TagOf, CollectorsInv, StreamsInv, HeldInv, PlacesInv;
    TagsInjective();
    var q := s.queue[0];
    assert q.id !in s.registered;
  }

  lemma RegisterCollectors(s: World)
    requires Inv(s) && Enabled(s, Register)
    ensures CollectorsInv(DoRegister(s))
  {
    hide TagOf, StreamsInv, HeldInv, PlacesInv;
    TagsInjective();
    var s' := DoRegister(s);
    var q := s.queue[0];
    forall c | c in s.collectors ensures c.id < q.id && IsPending(s', c.id) {
      assert IsPending(s, c.id);
    }
    forall id | id in s'.streams && IsPending(s', id) ensures exists c :: c in s'.collectors && c.id == id {
      if id == q.id {
        assert s'.collectors[|s.collectors|].id == id;
      } else {
        assert IsPending(s, id);
        var c :| c in s.collectors && c.id == id;
        assert c in s'.collectors;
      }
    }
  }

  lemma RegisterHeld(s: World)
    requires Inv(s) && Enabled(s, Register)
    ensures StreamsInv(DoRegister(s)) && HeldInv(DoRegister(s))
  {
    hide TagOf, CollectorsInv, RepliesInv, PlacesInv;
    TagsInjective();
    var s' := DoRegister(s);
    forall id | id in s'.streams ensures StreamInv(s', id) {
      assert StreamInv(s, id);
    }
  }

  lemma RegisterKeeps(s: World)
    requires Inv(s) && Enabled(s, Register)
    ensures Inv(DoRegister(s))
  {
    hide NumbersInv, RepliesInv, CollectorsInv, StreamsInv, HeldInv, PlacesInv;
    RegisterNumbers(s);
    RegisterReplies(s);
    RegisterCollectors(s);
    RegisterHeld(s);
    SamePlaces(s, DoRegister(s));
  }

  lemma RoutePlaces(s: World, r: Response)
    requires Inv(s) && Enabled(s, RouteFrame(r))
    ensures PlacesInv(DoRoute(s, r))
  {
    hide RouteOf, TagOf, NumbersInv, RepliesInv, CollectorsInv, HeldInv;
    var s' := DoRoute(s, r);
    forall i, p | 0 <= i < |s'.log| ensures Found(s', i, p) <==> s'.place[i] == p {
      if i < |s.log| {
        assert Found(s, i, p) <==> s.place[i] == p;
      } else if p.Buffered? || p.Received? || p.Lost? {
        if Found(s', i, p) {
          StreamFrames(s, p.id, i);
        }
      } else {
        NewFrameElsewhere(s, r, p);
      }
    }
  }

  lemma NewFrameElsewhere(s: World, r: Response, p: Place)
    requires HeldInv(s) && PlacesInv(s) && !(p.Buffered? || p.Received? || p.Lost?)
    ensures Found(DoRoute(s, r), |s.log|, p) <==> p == Held
  {
    hide RouteOf, TagOf;
  }

  lemma RouteHeld(s: World, r: Response)
    requires Inv(s) && Enabled(s, RouteFrame(r))
    ensures HeldInv(DoRoute(s, r))
  {
    hide PlacesInv, TagOf, NumbersInv, RepliesInv;
    var route := RouteOf(s, r);
    if route.ToStream? {
      assert StreamInv(s, route.id);
    }
  }

  lemma RouteKeeps(s: World, r: Response)
    requires Inv(s) && Enabled(s, RouteFrame(r))
    ensures Inv(DoRoute(s, r))
  {
    hide NumbersInv, RepliesInv, CollectorsInv, StreamsInv, HeldInv, PlacesInv, RouteOf;
    var s' := DoRoute(s, r);
    SameNumbers(s, s');
    SameReplies(s, s');
    SameCollectors(s, s');
    SameStreams(s, s');
    RouteHeld(s, r);
    RoutePlaces(s, r);
  }

  /** Where a frame is after delivery, in terms of where it was. */
  ghost predicate Moved(s: World, s': World, i: nat, p: Place)
    requires i < |s.log| && i < |s'.place|
  {
    Found(s', i, p) <==> if i + 1 == |s.log| then p == s'.place[i] else Found(s, i, p)
  }

  lemma UnclaimedMoves(s: World, s': World, i: nat, p: Place)
    requires PlacesInv(s) && s.reader.Holding? && i < |s.log|
    requires s' == Unclaimed(s).(collectors := s'.collectors)
    ensures Moved(s, s', i, p)
  {
    assert Found(s, i, p) <==> s.place[i] == p;
    assert Found(s, |s.log| - 1, Held);
  }

  lemma ReplyMoves(s: World, i: nat, p: Place)
    requires PlacesInv(s) && s.reader.Holding? && i < |s.log|
    requires s.reader.route.ToTag? && s.reader.route.tag in s.replies
    requires s.replies[s.reader.route.tag] !in s.answers
    ensures Moved(s, DoDeliver(s), i, p)
  {
    hide TagOf, Without;
    assert Found(s, i, p) <==> s.place[i] == p;
    assert Found(s, |s.log| - 1, Held);
  }

  lemma StreamMoves(s: World, i: nat, p: Place)
    requires PlacesInv(s) && s.reader.Holding? && i < |s.log|
    requires s.reader.route.ToStream?
    requires s.reader.route.id in s.streams && s.streams[s.reader.route.id].phase == Open
    ensures Moved(s, DoDeliver(s), i, p)
  {
    assert Found(s, i, p) <==> s.place[i] == p;
    assert Found(s, |s.log| - 1, Held);
  }

  lemma DeliverMoves(s: World, i: nat, p: Place)
    requires PlacesInv(s) && s.reader.Holding? && i < |s.log|
    requires s.reader.route.ToTag? && s.reader.route.tag in s.replies ==> s.replies[s.reader.route.tag] !in s.answers
    ensures Moved(s, DoDeliver(s), i, p)
  {
    hide TagOf, Without, Moved, Found;
    match s.reader.route
    case ToTag(tag) =>
      if tag in s.replies {
        ReplyMoves(s, i, p);
      } else {
        UnclaimedMoves(s, DoDeliver(s), i, p);
      }
    case ToStream(id) =>
      if id in s.streams && s.streams[id].phase == Open {
        StreamMoves(s, i, p);
      } else {
        UnclaimedMoves(s, DoDeliver(s), i, p);
      }
    case ToEvents => UnclaimedMoves(s, DoDeliver(s), i, p);
  }

  /** Moving the held frame to a place of its own. */
  lemma DeliverPlaces(s: World)
    requires Inv(s) && Enabled(s, Deliver)
    ensures PlacesInv(DoDeliver(s))
  {
    hide TagOf, Without, NumbersInv, RepliesInv, CollectorsInv, StreamsInv, HeldInv;
    HeldFrame(s);
    var s' := DoDeliver(s);
    var held := |s.log| - 1;
    if s.reader.route.ToTag? && s.reader.route.tag in s.replies {
      PendingHasNoAnswer(s, s.reader.route.tag);
    }
    assert s.place[held] == Held by {
      assert Found(s, held, Held);
    }
    forall i, p | 0 <= i < |s'.log| ensures Found(s', i, p) <==> s'.place[i] == p {
      assert Found(s, i, p) <==> s.place[i] == p;
      DeliverMoves(s, i, p);
    }
    forall a | 0 <= a < |s.events| ensures s.events[a] != held {
      assert Found(s, s.events[a], Broadcast);
    }
  }

  lemma OneMoreInOrder(front: seq<Collector>, last: Collector)
    requires InCommandOrder(front) && forall c :: c in front ==> c.id < last.id
    ensures InCommandOrder(front + [last])
  {
  }

  lemma FrontInOrder(cs: seq<Collector>)
    requires |cs| > 0 && InCommandOrder(cs)
    ensures var k := |cs| - 1;
            InCommandOrder(cs[..k]) && forall c :: c in cs[..k] ==> c.id < cs[k].id
  {
  }

  lemma {:induction false} WithoutKeepsOrder(cs: seq<Collector>, tag: bytes)
    requires InCommandOrder(cs)
    ensures InCommandOrder(Without(cs, tag))
  {
    hide InCommandOrder, Without;
    if |cs| == 0 {
      EmptyInOrder(tag);
      assert cs == [];
    } else {
      var k := |cs| - 1;
      FrontInOrder(cs);
      WithoutKeepsOrder(cs[..k], tag);
      WithoutStep(cs, tag);
      if cs[k].tag != tag {
        OneMoreInOrder(Without(cs[..k], tag), cs[k]);
      }
    }
  }

  lemma EmptyInOrder(tag: bytes)
    ensures Without([], tag) == [] && InCommandOrder([])
  {
  }

  lemma WithoutStep(cs: seq<Collector>, tag: bytes)
    requires |cs| > 0
    ensures var k := |cs| - 1;
            var front := Without(cs[..k], tag);
            Without(cs, tag) == if cs[k].tag == tag then front else front + [cs[k]]
  {
  }

  lemma {:induction false} WithoutNone(cs: seq<Collector>, tag: bytes)
    requires forall c :: c in cs ==> c.tag != tag
    ensures Without(cs, tag) == cs
  {
    if |cs| > 0 {
      var k := |cs| - 1;
      assert cs[k] in cs;
      WithoutNone(cs[..k], tag);
      assert cs[..k] + [cs[k]] == cs;
    }
  }

  lemma HeldFrame(s: World)
    requires HeldInv(s) && PlacesInv(s) && s.reader.Holding?
    ensures |s.log| > 0 && |s.place| == |s.log|
  {
  }

  lemma DeliverUnclaimed(s: World)
    requires Inv(s) && s.reader.Holding?
    requires PlacesInv(Unclaimed(s))
    ensures Inv(Unclaimed(s))
  {
    hide NumbersInv, RepliesInv, CollectorsInv, StreamsInv, HeldInv, PlacesInv;
    HeldFrame(s);
    var s' := Unclaimed(s);
    SameNumbers(s, s');
    SameReplies(s, s');
    SameCollectors(s, s');
    SameStreams(s, s');
    NothingHeld(s, s');
  }

  lemma ReplyReplies(s: World)
    requires Inv(s) && Enabled(s, Deliver) && s.reader.route.ToTag? && s.reader.route.tag in s.replies
    ensures RepliesInv(DoDeliver(s))
  {
    hide TagOf, Without, NumbersInv, CollectorsInv, StreamsInv, HeldInv, PlacesInv;
    TagsInjective();
    HeldFrame(s);
    var s' := DoDeliver(s);
    var id := s.replies[s.reader.route.tag];
    assert IsPending(s, id);
    forall k | k in s.registered ensures k in s'.answers <==> !IsPending(s', k) {
      assert k in s.answers <==> !IsPending(s, k);
    }
  }

  lemma ReplyNumbers(s: World)
    requires Inv(s) && Enabled(s, Deliver) && s.reader.route.ToTag? && s.reader.route.tag in s.replies
    ensures NumbersInv(DoDeliver(s))
  {
    hide Without, NumbersInv, RepliesInv, CollectorsInv, StreamsInv, HeldInv, PlacesInv;
    HeldFrame(s);
    SameNumbers(s, DoDeliver(s));
  }

  lemma ReplyCollectors(s: World)
    requires Inv(s) && Enabled(s, Deliver) && s.reader.route.ToTag? && s.reader.route.tag in s.replies
    ensures CollectorsInv(DoDeliver(s))
  {
    hide TagOf, Without, StreamsInv, HeldInv, Found;
    TagsInjective();
    var s' := DoDeliver(s);
    var tag := s.reader.route.tag;
    WithoutKeepsOrder(s.collectors, tag);
    forall c | c in s'.collectors ensures IsPending(s', c.id) {
      assert IsPending(s, c.id);
    }
    forall id | id in s'.streams && IsPending(s', id) ensures exists c :: c in s'.collectors && c.id == id {
      assert IsPending(s, id);
      var c :| c in s.collectors && c.id == id;
      assert c in s'.collectors;
    }
  }

  lemma ReplyStreams(s: World)
    requires Inv(s) && Enabled(s, Deliver) && s.reader.route.ToTag? && s.reader.route.tag in s.replies
    ensures StreamsInv(DoDeliver(s))
  {
    hide TagOf, Without, CollectorsInv, NumbersInv, HeldInv, RepliesInv;
    var s' := DoDeliver(s);
    forall id | id in s'.streams ensures StreamInv(s', id) {
      assert StreamInv(s, id);
      var st := s.streams[id];
      forall k | 0 <= k < |st.accepted| ensures st.accepted[k] < |s.log| - 1 {
        AcceptedNotHeld(s, id, k);
      }
    }
  }

  lemma ReplyHeld(s: World)
    requires Inv(s) && Enabled(s, Deliver) && s.reader.route.ToTag? && s.reader.route.tag in s.replies
    ensures HeldInv(DoDeliver(s))
  {
    hide TagOf, Without, CollectorsInv, NumbersInv, StreamsInv, PlacesInv;
  }

  /** A frame still held has been accepted by no stream. */
  lemma AcceptedNotHeld(s: World, id: nat, k: nat)
    requires StreamsInv(s) && PlacesInv(s) && s.reader.Holding? && |s.log| > 0
    requires id in s.streams && k < |s.streams[id].accepted|
    ensures s.streams[id].accepted[k] < |s.log| - 1
  {
    var st := s.streams[id];
    var i := st.accepted[k];
    assert StreamInv(s, id);
    assert i in st.received + st.gone + st.buffered;
    var p := if i in st.received then Received(id) else if i in st.buffered then Buffered(id)
             else if st.phase == Dropped then Lost(id) else Broadcast;
    assert Found(s, i, p);
    assert Found(s, |s.log| - 1, Held);
  }

  lemma DeliverToStreamContents(s: World)
    requires Inv(s) && Enabled(s, Deliver) && s.reader.route.ToStream?
    requires s.streams[s.reader.route.id].phase == Open
    ensures StreamsInv(DoDeliver(s))
  {
    hide TagOf, CollectorsInv, NumbersInv, PlacesInv;
    HeldFrame(s);
    var s' := DoDeliver(s);
    var id := s.reader.route.id;
    assert id !in s.answers;
    forall k | k in s'.streams ensures StreamInv(s', k) {
      assert StreamInv(s, k);
    }
  }

  lemma DeliverToStream(s: World)
    requires Inv(s) && Enabled(s, Deliver) && s.reader.route.ToStream?
    requires s.streams[s.reader.route.id].phase == Open
    requires PlacesInv(DoDeliver(s))
    ensures Inv(DoDeliver(s))
  {
    hide NumbersInv, RepliesInv, CollectorsInv, StreamsInv, HeldInv, PlacesInv;
    HeldFrame(s);
    var s' := DoDeliver(s);
    SameNumbers(s, s');
    SameReplies(s, s');
    SameCollectors(s, s');
    DeliverToStreamContents(s);
    NothingHeld(s, s');
  }

  lemma DeliverKeeps(s: World)
    requires Inv(s) && Enabled(s, Deliver)
    ensures Inv(DoDeliver(s))
  {
    hide TagOf, Without, NumbersInv, RepliesInv, StreamsInv, PlacesInv;
    DeliverPlaces(s);
    match s.reader.route
    case ToTag(tag) =>
      if tag in s.replies {
        ReplyReplies(s);
        ReplyNumbers(s);
        ReplyCollectors(s);
        ReplyStreams(s);
        ReplyHeld(s);
      } else {
        WithoutNone(s.collectors, tag);
        DeliverUnclaimed(s);
      }
    case ToStream(id) =>
      if s.streams[id].phase == Open {
        DeliverToStream(s);
      } else {
        DeliverUnclaimed(s);
      }
    case ToEvents => DeliverUnclaimed(s);
  }

  lemma ReceivePlaces(s: World, id: nat)
    requires Inv(s) && Enabled(s, Receive(id))
    ensures PlacesInv(Apply(s, Receive(id)))
  {
    hide TagOf, NumbersInv, RepliesInv, CollectorsInv, HeldInv;
    FrontBuffered(s, id);
    FrontOnce(s, id);
    var s' := Apply(s, Receive(id));
    var st := s.streams[id];
    var front := st.buffered[0];
    forall i, p | 0 <= i < |s'.log| ensures Found(s', i, p) <==> s'.place[i] == p {
      assert Found(s, i, p) <==> s.place[i] == p;
      assert Found(s, front, Buffered(id));
    }
  }

  /** The front of a buffer does not occur again behind it. */
  lemma FrontOnce(s: World, id: nat)
    requires StreamsInv(s) && id in s.streams && |s.streams[id].buffered| > 0
    ensures var b := s.streams[id].buffered; b[0] !in b[1..] && b == [b[0]] + b[1..]
  {
    var st := s.streams[id];
    assert StreamInv(s, id);
    var n := |st.received + st.gone|;
    forall k | 1 <= k < |st.buffered| ensures st.buffered[0] < st.buffered[k] {
      assert st.accepted[n] == st.buffered[0] && st.accepted[n + k] == st.buffered[k];
    }
  }

  /** A change inside one stream that keeps its filter, its accepted frames and its own invariant,
      and leaves every frame in one place, keeps the whole invariant. */
  lemma StreamChangeKeeps(s: World, s': World, id: nat, st: Stream)
    requires Inv(s) && id in s.streams
    requires st.wants == s.streams[id].wants && st.accepted == s.streams[id].accepted
    requires s' == s.(streams := s.streams[id := st], events := s'.events, place := s'.place)
    requires StreamInv(s', id) && PlacesInv(s')
    ensures Inv(s')
  {
    hide NumbersInv, RepliesInv, CollectorsInv, StreamsInv, HeldInv, PlacesInv, StreamInv;
    SameNumbers(s, s');
    SameReplies(s, s');
    SameCollectors(s, s');
    StreamChangeStreams(s, s', id, st);
    StreamChangeHeld(s, s', id, st);
  }

  lemma StreamChangeStreams(s: World, s': World, id: nat, st: Stream)
    requires StreamsInv(s) && id in s.streams
    requires s' == s.(streams := s.streams[id := st], events := s'.events, place := s'.place)
    requires StreamInv(s', id)
    ensures StreamsInv(s')
  {
    forall k | k in s'.streams && k != id ensures StreamInv(s', k) {
      assert StreamInv(s, k);
    }
  }

  lemma StreamChangeHeld(s: World, s': World, id: nat, st: Stream)
    requires HeldInv(s) && id in s.streams
    requires st.wants == s.streams[id].wants && st.accepted == s.streams[id].accepted
    requires s' == s.(streams := s.streams[id := st], events := s'.events, place := s'.place)
    ensures HeldInv(s')
  {
    hide TagOf;
  }

  lemma ReceiveKeeps(s: World, id: nat)
    requires Inv(s) && Enabled(s, Receive(id))
    ensures Inv(Apply(s, Receive(id)))
  {
    hide PlacesInv, TagOf;
    ReceivePlaces(s, id);
    FrontOnce(s, id);
    assert StreamInv(s, id);
    var s' := Apply(s, Receive(id));
    StreamChangeKeeps(s, s', id, s'.streams[id]);
  }

  lemma ClosePlaces(s: World, id: nat)
    requires Inv(s) && Enabled(s, Close(id))
    ensures PlacesInv(Apply(s, Close(id)))
  {
    hide TagOf, NumbersInv, RepliesInv, CollectorsInv, HeldInv;
    assert StreamInv(s, id);
    hide StreamsInv;
    var s' := Apply(s, Close(id));
    forall i, p | 0 <= i < |s'.log| ensures Found(s', i, p) <==> s'.place[i] == p {
      assert Found(s, i, p) <==> s.place[i] == p;
    }
  }

  lemma CloseKeeps(s: World, id: nat)
    requires Inv(s) && Enabled(s, Close(id))
    ensures Inv(Apply(s, Close(id)))
  {
    hide PlacesInv, TagOf;
    ClosePlaces(s, id);
    assert StreamInv(s, id);
    var s' := Apply(s, Close(id));
    StreamChangeKeeps(s, s', id, s'.streams[id]);
  }

  lemma DrainPlaces(s: World, id: nat)
    requires Inv(s) && Enabled(s, Drain(id))
    ensures PlacesInv(Apply(s, Drain(id)))
  {
    hide TagOf, NumbersInv, RepliesInv, CollectorsInv, HeldInv;
    FrontBuffered(s, id);
    var s' := Apply(s, Drain(id));
    var st := s.streams[id];
    var front := st.buffered[0];
    FrontOnce(s, id);
    forall i, p | 0 <= i < |s'.log| ensures Found(s', i, p) <==> s'.place[i] == p {
      assert Found(s, i, p) <==> s.place[i] == p;
      assert Found(s, front, Buffered(id));
    }
    forall a | 0 <= a < |s.events| ensures s.events[a] != front {
      assert Found(s, s.events[a], Broadcast);
      assert Found(s, front, Buffered(id));
    }
  }

  lemma DrainKeeps(s: World, id: nat)
    requires Inv(s) && Enabled(s, Drain(id))
    ensures Inv(Apply(s, Drain(id)))
  {
    hide PlacesInv, TagOf;
    DrainPlaces(s, id);
    FrontOnce(s, id);
    assert StreamInv(s, id);
    var s' := Apply(s, Drain(id));
    StreamChangeKeeps(s, s', id, s'.streams[id]);
  }

  lemma DropPlaces(s: World, id: nat)
    requires Inv(s) && Enabled(s, Drop(id))
    ensures PlacesInv(DoDrop(s, id))
  {
    hide TagOf, NumbersInv, RepliesInv, CollectorsInv, HeldInv;
    var s' := DoDrop(s, id);
    assert StreamInv(s, id);
    forall i, p | 0 <= i < |s'.log| ensures Found(s', i, p) <==> s'.place[i] == p {
      assert Found(s, i, p) <==> s.place[i] == p;
      assert Found(s, i, Buffered(id)) <==> s.place[i] == Buffered(id);
      assert Found(s, i, Lost(id)) <==> s.place[i] == Lost(id);
    }
  }

  lemma DropKeeps(s: World, id: nat)
    requires Inv(s) && Enabled(s, Drop(id))
    ensures Inv(DoDrop(s, id))
  {
    hide PlacesInv, TagOf;
    DropPlaces(s, id);
    assert StreamInv(s, id);
    var s' := DoDrop(s, id);
    StreamChangeKeeps(s, s', id, s'.streams[id]);
  }

  lemma StopPlaces(s: World)
    requires Inv(s) && Enabled(s, StopReader)
    ensures PlacesInv(DoStop(s))
  {
    hide TagOf, NumbersInv, RepliesInv, CollectorsInv, HeldInv, StreamsInv;
    assert forall id :: id in DoStop(s).answers && DoStop(s).answers[id].ByFrame? ==>
                          id in s.answers && DoStop(s).answers[id] == s.answers[id];
    var s' := DoStop(s);
    forall i, p | 0 <= i < |s'.log| ensures Found(s', i, p) <==> s'.place[i] == p {
      assert Found(s, i, p) <==> s.place[i] == p;
    }
  }

  lemma StopAnswers(s: World)
    requires Inv(s)
    ensures s.answers.Keys + s.replies.Values == s.registered
    ensures s.answers.Keys * s.replies.Values == {}
  {
    hide TagOf, NumbersInv, CollectorsInv, StreamsInv, HeldInv, PlacesInv;
    forall id | id in s.registered ensures id in s.answers.Keys + s.replies.Values {
      assert id in s.answers <==> !IsPending(s, id);
      if IsPending(s, id) {
        assert s.replies[TagOf(id)] in s.replies.Values;
      }
    }
    forall id | id in s.replies.Values ensures id in s.registered && id !in s.answers {
      var tag :| tag in s.replies && s.replies[tag] == id;
      assert IsPending(s, id);
    }
  }

  lemma StopReplies(s: World)
    requires Inv(s) && Enabled(s, StopReader)
    ensures RepliesInv(DoStop(s))
  {
    hide TagOf, NumbersInv, RepliesInv, CollectorsInv, StreamsInv, HeldInv, PlacesInv;
    StopAnswers(s);
    StopSends(s);
    AllAnswered(DoStop(s));
  }

  lemma AllAnswered(s: World)
    requires s.replies == map[] && s.answers.Keys == s.registered
    requires forall id: nat :: s.sends[id] == if id in s.answers then 1 else 0
    ensures RepliesInv(s)
  {
  }

  /** Each pending command's sender is used once. */
  lemma StopSends(s: World)
    requires Inv(s)
    ensures forall id: nat :: DoStop(s).sends[id] == if id in DoStop(s).answers then 1 else 0
  {
    hide TagOf, NumbersInv, CollectorsInv, StreamsInv, HeldInv, PlacesInv;
    StopAnswers(s);
  }

  lemma StopCollectors(s: World)
    ensures CollectorsInv(DoStop(s))
  {
    hide TagOf;
  }

  lemma StopStreams(s: World)
    requires StreamsInv(s)
    ensures StreamsInv(DoStop(s))
  {
    var s' := DoStop(s);
    forall id | id in s'.streams ensures StreamInv(s', id) {
      assert StreamInv(s, id);
    }
  }

  lemma StopKeeps(s: World)
    requires Inv(s) && Enabled(s, StopReader)
    ensures Inv(DoStop(s))
  {
    hide RepliesInv, NumbersInv, CollectorsInv, StreamsInv, HeldInv, PlacesInv;
    SameNumbers(s, DoStop(s));
    StopReplies(s);
    StopCollectors(s);
    StopStreams(s);
    NothingHeld(s, DoStop(s));
    StopPlaces(s);
  }

  lemma WriterKeeps(s: World, s': World)
    requires Inv(s)
    requires s' == s.(nextId := s'.nextId, writer := s'.writer, written := s'.written, queue := s'.queue)
    requires s'.nextId >= s.nextId && (s'.queue == s.queue || s'.queue == [])
    requires s'.writer.Writing? ==> s'.writer.id in s.registered
    requires forall a :: 0 <= a < |s'.written| ==> s'.written[a] in s.registered
    ensures Inv(s')
  {
    hide TagOf, PlacesInv;
    SamePlaces(s, s');
    forall id | id in s'.streams ensures StreamInv(s', id) {
      assert StreamInv(s, id);
    }
  }

  lemma StepKeeps(s: World, step: Step)
    requires Inv(s) && Enabled(s, step)
    ensures Inv(Apply(s, step))
  {
    hide TagOf, PlacesInv, StreamsInv, RepliesInv, CollectorsInv, HeldInv;
    match step
    case Enqueue(wants) => EnqueueKeeps(s, wants);
    case Abandon => WriterKeeps(s, Apply(s, step));
    case Register => RegisterKeeps(s);
    case Write => WriterKeeps(s, Apply(s, step));
    case WriterFails => WriterKeeps(s, Apply(s, step));
    case RouteFrame(r) => RouteKeeps(s, r);
    case Deliver => DeliverKeeps(s);
    case Receive(id) => ReceiveKeeps(s, id);
    case Close(id) => CloseKeeps(s, id);
    case Drain(id) => DrainKeeps(s, id);
    case Drop(id) => DropKeeps(s, id);
    case StopReader => StopKeeps(s);
  }

  // ---------------------------------------------------------------------------
  // Runs
  // ---------------------------------------------------------------------------

  ghost predicate CanRun(s: World, steps: seq<Step>)
    requires Inv(s)
    decreases |steps|
  {
    |steps| == 0
    || (Enabled(s, steps[0]) && (StepKeeps(s, steps[0]); CanRun(Apply(s, steps[0]), steps[1..])))
  }

  /** The state a run ends in; the invariant holds there, and so in every reachable state. */
  ghost function RunFrom(s: World, steps: seq<Step>): (end: World)
    requires Inv(s) && CanRun(s, steps)
    ensures Inv(end)
    decreases |steps|
  {
    if |steps| == 0 then s
    else
      StepKeeps(s, steps[0]);
      RunFrom(Apply(s, steps[0]), steps[1..])
  }

  lemma InitialInv()
    ensures Inv(INITIAL)
  {
  }

  ghost predicate IsRun(steps: seq<Step>) {
    InitialInv();
    CanRun(INITIAL, steps)
  }

  ghost function EndOf(steps: seq<Step>): (end: World)
    requires IsRun(steps)
    ensures Inv(end)
  {
    InitialInv();
    RunFrom(INITIAL, steps)
  }

  ghost predicate EndsIn(steps: seq<Step>, s: World) {
    IsRun(steps) && EndOf(steps) == s
  }

  ghost predicate Reachable(s: World) {
    exists steps :: EndsIn(steps, s)
  }

  lemma ReachableInv(s: World)
    requires Reachable(s)
    ensures Inv(s)
  {
  }

  lemma InitialReachable()
    ensures Reachable(INITIAL)
  {
    InitialInv();
    assert EndsIn([], INITIAL);
  }

  lemma {:induction false} RunAppend(s: World, steps: seq<Step>, step: Step)
    requires Inv(s) && CanRun(s, steps) && Enabled(RunFrom(s, steps), step)
    requires Inv(Apply(RunFrom(s, steps), step))
    ensures CanRun(s, steps + [step]) && RunFrom(s, steps + [step]) == Apply(RunFrom(s, steps), step)
    decreases |steps|
  {
    hide Apply, Inv, Enabled;
    if |steps| == 0 {
      assert steps + [step] == [step];
      assert CanRun(Apply(s, step), []) && RunFrom(Apply(s, step), []) == Apply(s, step);
    } else {
      StepKeeps(s, steps[0]);
      assert (steps + [step])[1..] == steps[1..] + [step];
      RunAppend(Apply(s, steps[0]), steps[1..], step);
    }
  }

  lemma StepReachable(s: World, step: Step)
    requires Reachable(s) && Inv(s) && Enabled(s, step)
    ensures Reachable(Apply(s, step)) && Inv(Apply(s, step))
  {
    hide Inv, Apply, Enabled, RunFrom, CanRun;
    InitialInv();
    var steps :| EndsIn(steps, s);
    StepKeeps(s, step);
    RunAppend(INITIAL, steps, step);
    assert EndsIn(steps + [step], Apply(s, step));
  }

  /** In every reachable state each dispatched frame has exactly one fate. */
  lemma EveryFrameOneFate(s: World, i: nat)
    requires Reachable(s) && i < |s.log|
    ensures exists p :: Found(s, i, p) && forall q :: Found(s, i, q) ==> q == p
  {
    hide EndOf, IsRun;
    InitialInv();
    assert Found(s, i, s.place[i]);
  }

  /** In every reachable state a stream holds at most its capacity, and what was received followed
      by what is buffered is, in wire order, frames its filter accepts, all of them ahead of the
      frame that answered its command. */
  lemma StreamContents(s: World, id: nat)
    requires Reachable(s) && id in s.streams
    ensures var st := s.streams[id];
            var seen := st.received + st.buffered;
            && |st.buffered| <= 32
            && Increasing(seen)
            && (forall k :: 0 <= k < |seen| ==>
                  seen[k] < |s.log| && st.wants(s.log[seen[k]]) && TagIn(s.log[seen[k]]) == None)
            && (id in s.answers && s.answers[id].ByFrame? ==>
                  forall k :: 0 <= k < |seen| ==> seen[k] < s.answers[id].i)
  {
    hide EndOf, IsRun, PlacesInv, RepliesInv, CollectorsInv, NumbersInv, HeldInv;
    InitialInv();
    assert StreamInv(s, id);
    var st := s.streams[id];
    var seen := st.received + st.buffered;
    forall k | 0 <= k < |seen| ensures seen[k] == st.accepted[if k < |st.received| then k else k + |st.gone|] {
    }
  }

  /** Frames still buffered when a caller turned to `into_reply` end up broadcast. */
  lemma ClosedStreamRebroadcasts(s: World, id: nat)
    requires Reachable(s) && id in s.streams && s.streams[id].phase == Closed
    ensures var st := s.streams[id];
            && st.accepted == st.received + st.gone + st.buffered
            && forall i :: i in st.gone ==> i in s.events
  {
    hide EndOf, IsRun;
    InitialInv();
    assert StreamInv(s, id);
  }

  /** In every reachable state no reply sender was used twice, and one used for a frame was used for
      a response to its own command. */
  lemma RepliesExactlyOnce(s: World, id: nat)
    requires Reachable(s)
    ensures s.sends[id] <= 1
    ensures id in s.registered ==> (s.sends[id] == 0 <==> IsPending(s, id))
    ensures id in s.answers && s.answers[id].ByFrame? ==>
              s.answers[id].i < |s.log| && TagIn(s.log[s.answers[id].i]) == Some(TagOf(id))
    ensures forall c :: c in s.collectors ==> IsPending(s, c.id)
  {
    hide EndOf, IsRun, PlacesInv, StreamsInv, TagOf;
    InitialInv();
  }

  /** When the read loop stops, every command registered by then has been answered and no collector
      is left. */
  lemma StopSettles(s: World)
    requires Reachable(s) && Enabled(s, StopReader)
    ensures var s' := DoStop(s);
            && s'.collectors == [] && s'.replies == map[]
            && s'.registered == s.registered == s'.answers.Keys
            && (forall id :: id in s.answers ==> s'.answers[id] == s.answers[id])
  {
    hide EndOf, IsRun;
    InitialInv();
    StopAnswers(s);
  }

  /** An answer, once given, stands for the rest of the run, and the log only grows. */
  lemma {:induction false} AnswersStand(s: World, steps: seq<Step>)
    requires Inv(s) && CanRun(s, steps)
    ensures var end := RunFrom(s, steps);
            && s.log <= end.log
            && s.registered <= end.registered
            && forall id :: id in s.answers ==> id in end.answers && end.answers[id] == s.answers[id]
    decreases |steps|
  {
    if |steps| > 0 {
      StepKeeps(s, steps[0]);
      StepKeepsAnswers(s, steps[0]);
      AnswersStand(Apply(s, steps[0]), steps[1..]);
    }
  }

  lemma StepKeepsAnswers(s: World, step: Step)
    requires Inv(s) && Enabled(s, step)
    ensures var s' := Apply(s, step);
            && s.log <= s'.log
            && s.registered <= s'.registered
            && forall id :: id in s.answers ==> id in s'.answers && s'.answers[id] == s.answers[id]
  {
    hide PlacesInv, StreamsInv, CollectorsInv, NumbersInv, HeldInv, RepliesInv, TagOf, Without;
    if step.Deliver? && s.reader.route.ToTag? && s.reader.route.tag in s.replies {
      PendingHasNoAnswer(s, s.reader.route.tag);
    }
  }

  lemma PendingHasNoAnswer(s: World, tag: bytes)
    requires Inv(s) && tag in s.replies
    ensures s.replies[tag] !in s.answers
  {
    hide PlacesInv, StreamsInv, CollectorsInv, NumbersInv, HeldInv, TagOf;
    assert IsPending(s, s.replies[tag]);
  }

  lemma StepKeepsReceived(s: World, step: Step, id: nat)
    requires Inv(s) && Enabled(s, step) && id in s.streams
    ensures var s' := Apply(s, step);
            && id in s'.streams && s'.streams[id].wants == s.streams[id].wants
            && s.streams[id].received <= s'.streams[id].received
  {
    hide RepliesInv, CollectorsInv, StreamsInv, HeldInv, PlacesInv, TagOf, Without, InCommandOrder;
    NextIdIsFresh(s);
    hide NumbersInv;
  }

  lemma NextIdIsFresh(s: World)
    requires NumbersInv(s)
    ensures s.nextId !in s.streams
  {
  }

  /** What a caller has received from its stream it has received for good. */
  lemma {:induction false} ReceivedStands(s: World, steps: seq<Step>, id: nat)
    requires Inv(s) && CanRun(s, steps) && id in s.streams
    ensures var end := RunFrom(s, steps);
            && id in end.streams && end.streams[id].wants == s.streams[id].wants
            && s.streams[id].received <= end.streams[id].received
    decreases |steps|
  {
    hide Inv, Apply, Enabled;
    if |steps| > 0 {
      StepKeeps(s, steps[0]);
      StepKeepsReceived(s, steps[0], id);
      ReceivedStands(Apply(s, steps[0]), steps[1..], id);
    }
  }

  /** A run can be continued. */
  lemma {:induction false} RunReachable(s: World, steps: seq<Step>)
    requires Reachable(s) && Inv(s) && CanRun(s, steps)
    ensures Reachable(RunFrom(s, steps))
    decreases |steps|
  {
    hide Inv, Apply, Reachable, Enabled;
    if |steps| > 0 {
      StepReachable(s, steps[0]);
      RunReachable(Apply(s, steps[0]), steps[1..]);
    }
  }

  /** No sender of the stream is left: its request is not queued, it has no collector, and the read
      loop is not delivering to it. */
  ghost predicate SendersGone(s: World, id: nat) {
    && (forall a :: 0 <= a < |s.queue| ==> s.queue[a].id != id)
    && (forall c :: c in s.collectors ==> c.id != id)
    && !(s.reader.Holding? && s.reader.route == ToStream(id))
  }

  /** `next_frame` returns `None` only when the caller has received every frame ever meant for the
      stream and the command, once registered, has been answered: waiting for the reply then cannot
      hang. */
  lemma StreamEndMeansAnswered(s: World, id: nat)
    requires Reachable(s) && id in s.streams && s.streams[id].phase == Open
    requires s.streams[id].buffered == [] && SendersGone(s, id)
    ensures s.streams[id].received == s.streams[id].accepted
    ensures id in s.registered ==> id in s.answers
  {
    hide EndOf, IsRun, TagOf, PlacesInv;
    InitialInv();
    assert StreamInv(s, id);
  }
}
