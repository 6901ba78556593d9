/** Pipelined streaming commands that share one filter: which stream gets which frame, when the
    server answers the commands in order. `family` lists those commands by number. */
module Attribution {
  import opened Bytes
  import opened Ast
  import opened Pending
  import opened Commands
  import opened Dispatcher

  ghost predicate SameFilter(f: FrameFilter, g: FrameFilter) {
    forall r: Response :: f(r) == g(r)
  }

  ghost predicate Apart(f: FrameFilter, g: FrameFilter) {
    forall r: Response :: f(r) ==> !g(r)
  }

  /** How many commands of the family the frames of `log` complete, taken in order. */
  function Completed(log: seq<Response>, family: seq<nat>): (d: nat)
    ensures d <= |family|
  {
    if |log| == 0 then 0
    else
      var d := Completed(log[..|log| - 1], family);
      if d < |family| && TagIn(log[|log| - 1]) == Some(TagOf(family[d])) then d + 1 else d
  }

  /** The data frames sent while the `j`-th command of the family is the next to be completed. */
  ghost function Block(log: seq<Response>, family: seq<nat>, f: FrameFilter, j: nat): (b: seq<nat>)
    ensures forall k :: 0 <= k < |b| ==> b[k] < |log|
  {
    if |log| == 0 then []
    else
      var n := |log| - 1;
      var front := Block(log[..n], family, f, j);
      if TagIn(log[n]) == None && f(log[n]) && Completed(log[..n], family) == j then front + [n] else front
  }

  /** The server and the callers play by the rules: completions of the family come in order and only
      for commands already received, its data belongs to the command next in line, other streams use
      filters of their own, and the first `upTo` streams stay open until they are answered. */
  ghost predicate Disciplined(s: World, step: Step, f: FrameFilter, family: seq<nat>, upTo: nat) {
    match step
    case Enqueue(wants) =>
      if s.nextId in family then wants.Some? && SameFilter(wants.value, f)
      else wants.Some? ==> Apart(f, wants.value)
    case Abandon => s.nextId !in family
    case RouteFrame(r) =>
      var d := Completed(s.log, family);
      (match TagIn(r)
       case Some(tag) =>
         forall j :: 0 <= j < |family| && tag == TagOf(family[j]) ==> j == d && family[j] in s.registered
       case None => f(r) ==> d < |family| && family[d] in s.registered)
    case Close(id) => forall j :: 0 <= j < upTo && j < |family| && family[j] == id ==> id in s.answers
    case Drop(id) => forall j :: 0 <= j < upTo && j < |family| && family[j] == id ==> id in s.answers
    case _ => true
  }

  /** Completions the dispatcher has processed: a frame still held does not count. */
  ghost function Settled(s: World, family: seq<nat>): nat
    requires s.reader.Holding? ==> |s.log| > 0
  {
    if s.reader.Holding? then Completed(s.log[..|s.log| - 1], family) else Completed(s.log, family)
  }

  /** The frame on its way to stream `id`, if any. */
  ghost function OnItsWay(s: World, id: nat): seq<nat>
    requires s.reader.Holding? ==> |s.log| > 0
  {
    if s.reader == Holding(ToStream(id)) then [|s.log| - 1] else []
  }

  ghost predicate FamilyStreams(s: World, f: FrameFilter, family: seq<nat>) {
    && Increasing(family)
    && (forall j :: 0 <= j < |family| && family[j] < s.nextId ==>
          family[j] in s.streams && SameFilter(s.streams[family[j]].wants, f))
    && (forall id :: id in s.streams && id !in family ==> Apart(f, s.streams[id].wants))
  }

  ghost predicate InOrder(s: World, f: FrameFilter, family: seq<nat>, upTo: nat)
    requires HeldInv(s)
  {
    s.reader != Stopped ==>
      var p := Settled(s, family);
      && (forall j :: 0 <= j < |family| ==> (family[j] in s.answers <==> j < p))
      && (forall j :: 0 <= j < upTo && j < |family| && family[j] in s.streams && family[j] !in s.answers ==>
            s.streams[family[j]].phase == Open)
      && (s.reader.Holding? && s.reader.route.ToTag? ==>
            forall j :: 0 <= j < |family| && s.reader.route.tag == TagOf(family[j]) ==>
              j == p && family[j] in s.registered)
  }

  ghost predicate Attributed(s: World, f: FrameFilter, family: seq<nat>, upTo: nat)
    requires HeldInv(s)
  {
    forall j :: 0 <= j < upTo && j < |family| ==>
      if family[j] in s.streams then
        s.streams[family[j]].accepted + OnItsWay(s, family[j]) == Block(s.log, family, f, j)
      else Block(s.log, family, f, j) == []
  }

  ghost predicate Orderly(s: World, f: FrameFilter, family: seq<nat>, upTo: nat) {
    Inv(s) && FamilyStreams(s, f, family) && InOrder(s, f, family, upTo) && Attributed(s, f, family, upTo)
  }

  /** The oldest open collector that accepts a frame gets it. */
  lemma {:induction false} OldestWins(cs: seq<Collector>, closed: set<nat>, r: Response, c: Collector)
    requires InCommandOrder(cs) && c in cs && c.id !in closed && c.wants(r)
    requires forall b :: b in cs && b.id < c.id ==> !b.wants(r)
    ensures FindCollector(cs, closed, r) == Some(c.id)
  {
    if cs[0] != c {
      var k :| 0 < k < |cs| && cs[k] == c;
      assert cs[0].id < cs[k].id;
      assert cs[1..][k - 1] == c;
      OldestWins(cs[1..], closed, r, c);
    }
  }

  lemma FamilyWants(s: World, f: FrameFilter, family: seq<nat>, id: nat, r: Response)
    requires FamilyStreams(s, f, family) && Inv(s) && id in s.streams && f(r)
    ensures s.streams[id].wants(r) <==> id in family
  {
    hide TagOf, RepliesInv, CollectorsInv, StreamsInv, PlacesInv, HeldInv;
    if id !in family {
      assert Apart(f, s.streams[id].wants);
    } else {
      assert SameFilter(s.streams[id].wants, f);
    }
  }

  /** Data for the command next in line is routed to that command's stream. */
  lemma RoutesToNext(s: World, r: Response, f: FrameFilter, family: seq<nat>, upTo: nat)
    requires Orderly(s, f, family, upTo) && s.reader == Idle
    requires TagIn(r) == None && f(r)
    requires var d := Completed(s.log, family); d < upTo && d < |family| && family[d] in s.registered
    ensures RouteOf(s, r) == ToStream(family[Completed(s.log, family)])
  {
    hide Orderly, TagOf, FindCollector;
    var d := Completed(s.log, family);
    NextIsReady(s, f, family, upTo, d);
    assert Inv(s) && FamilyStreams(s, f, family) by {
      OrderlyParts(s, f, family, upTo);
    }
    var c :| c in s.collectors && c.id == family[d] && s.streams[c.id].wants == c.wants;
    FamilyWants(s, f, family, c.id, r);
    EarlierReject(s, r, f, family, upTo, d);
    hide Inv, FamilyStreams;
    OldestWins(s.collectors, ClosedStreams(s), r, c);
  }

  lemma OrderlyParts(s: World, f: FrameFilter, family: seq<nat>, upTo: nat)
    requires Orderly(s, f, family, upTo)
    ensures Inv(s) && FamilyStreams(s, f, family) && InOrder(s, f, family, upTo)
    ensures InCommandOrder(s.collectors)
  {
  }

  /** The command next in line is pending, its stream is open, and it has a collector. */
  lemma NextIsReady(s: World, f: FrameFilter, family: seq<nat>, upTo: nat, d: nat)
    requires Orderly(s, f, family, upTo) && s.reader == Idle && d == Completed(s.log, family)
    requires d < upTo && d < |family| && family[d] in s.registered
    ensures family[d] in s.streams && s.streams[family[d]].phase == Open
    ensures exists c :: c in s.collectors && c.id == family[d] && s.streams[c.id].wants == c.wants
    ensures InCommandOrder(s.collectors)
  {
    hide TagOf, PlacesInv, StreamsInv, Attributed, Completed, SameFilter, Apart;
    assert family[d] !in s.answers && IsPending(s, family[d]);
  }

  lemma AnsweredExactly(s: World, f: FrameFilter, family: seq<nat>, upTo: nat, j: nat)
    requires HeldInv(s) && InOrder(s, f, family, upTo) && s.reader == Idle && j < |family|
    ensures family[j] in s.answers <==> j < Completed(s.log, family)
  {
    hide HeldInv, TagOf, Completed;
  }

  /** A pending command older than the one next in line is not of the family. */
  lemma EarlierIsForeign(s: World, f: FrameFilter, family: seq<nat>, upTo: nat, d: nat, id: nat)
    requires Inv(s) && InOrder(s, f, family, upTo) && Increasing(family)
    requires s.reader == Idle && d == Completed(s.log, family) && d < |family|
    requires IsPending(s, id) && id < family[d]
    ensures id !in family
  {
    hide NumbersInv, RepliesInv, CollectorsInv, StreamsInv, HeldInv, PlacesInv, InOrder, Completed, TagOf;
    PendingHasNoAnswer(s, TagOf(id));
    forall j | 0 <= j < |family| ensures family[j] != id {
      AnsweredExactly(s, f, family, upTo, j);
      assert d <= j ==> family[d] <= family[j];
    }
  }

  /** Older collectors than the one next in line turn its data down. */
  lemma EarlierReject(s: World, r: Response, f: FrameFilter, family: seq<nat>, upTo: nat, d: nat)
    requires Orderly(s, f, family, upTo) && s.reader == Idle && d == Completed(s.log, family)
    requires f(r) && d < |family|
    ensures forall b :: b in s.collectors && b.id < family[d] ==> !b.wants(r)
  {
    hide TagOf, InOrder, Attributed, Completed, SameFilter, Apart, Inv;
    forall b | b in s.collectors && b.id < family[d] ensures !b.wants(r) {
      CollectorIsPending(s, b);
      EarlierIsForeign(s, f, family, upTo, d, b.id);
      FamilyWants(s, f, family, b.id, r);
    }
  }

  lemma CollectorIsPending(s: World, c: Collector)
    requires Inv(s) && c in s.collectors
    ensures IsPending(s, c.id) && c.id in s.streams && s.streams[c.id].wants == c.wants
  {
    hide TagOf, NumbersInv, RepliesInv, StreamsInv, HeldInv, PlacesInv, InCommandOrder;
  }

  lemma EnqueueOrderly(s: World, wants: Option<FrameFilter>, f: FrameFilter, family: seq<nat>, upTo: nat)
    requires Orderly(s, f, family, upTo) && Enabled(s, Enqueue(wants))
    requires Disciplined(s, Enqueue(wants), f, family, upTo)
    ensures Orderly(Apply(s, Enqueue(wants)), f, family, upTo)
  {
    hide TagOf, PlacesInv, StreamsInv, Completed, Block, RepliesInv, CollectorsInv;
    StepKeeps(s, Enqueue(wants));
  }

  lemma LogAppend(log: seq<Response>, r: Response, family: seq<nat>, f: FrameFilter, j: nat)
    ensures Completed(log + [r], family)
            == var d := Completed(log, family);
               if d < |family| && TagIn(r) == Some(TagOf(family[d])) then d + 1 else d
    ensures Block(log + [r], family, f, j)
            == Block(log, family, f, j)
               + if TagIn(r) == None && f(r) && Completed(log, family) == j then [|log|] else []
  {
    hide TagOf;
    assert (log + [r])[..|log|] == log;
  }

  lemma RouteAttributed(s: World, r: Response, f: FrameFilter, family: seq<nat>, upTo: nat)
    requires Orderly(s, f, family, upTo) && Enabled(s, RouteFrame(r))
    requires Disciplined(s, RouteFrame(r), f, family, upTo)
    requires HeldInv(DoRoute(s, r))
    ensures Attributed(DoRoute(s, r), f, family, upTo)
  {
    hide TagOf, PlacesInv, StreamsInv, Completed, Block;
    var s' := DoRoute(s, r);
    var d := Completed(s.log, family);
    var data := TagIn(r) == None && f(r);
    if data && d < upTo {
      RoutesToNext(s, r, f, family, upTo);
    }
    forall j | 0 <= j < upTo && j < |family|
      ensures if family[j] in s'.streams then
                s'.streams[family[j]].accepted + OnItsWay(s', family[j]) == Block(s'.log, family, f, j)
              else Block(s'.log, family, f, j) == []
    {
      LogAppend(s.log, r, family, f, j);
      if !(data && d == j) {
        NotRoutedTo(s, r, f, family, upTo, j);
      }
    }
  }

  /** No other frame is on its way to the `j`-th stream of the family. */
  lemma NotRoutedTo(s: World, r: Response, f: FrameFilter, family: seq<nat>, upTo: nat, j: nat)
    requires Orderly(s, f, family, upTo) && s.reader == Idle
    requires Disciplined(s, RouteFrame(r), f, family, upTo)
    requires j < upTo && j < |family|
    requires !(TagIn(r) == None && f(r) && Completed(s.log, family) == j)
    ensures RouteOf(s, r) != ToStream(family[j])
  {
    hide TagOf, PlacesInv, StreamsInv, Completed, Attributed;
    var d := Completed(s.log, family);
    if RouteOf(s, r) == ToStream(family[j]) {
      var c :| c in s.collectors && c.id == family[j] && c.wants(r);
      assert IsPending(s, c.id);
      assert SameFilter(s.streams[c.id].wants, f);
      RoutesToNext(s, r, f, family, upTo);
    }
  }

  lemma RouteOrderly(s: World, r: Response, f: FrameFilter, family: seq<nat>, upTo: nat)
    requires Orderly(s, f, family, upTo) && Enabled(s, RouteFrame(r))
    requires Disciplined(s, RouteFrame(r), f, family, upTo)
    ensures Orderly(Apply(s, RouteFrame(r)), f, family, upTo)
  {
    hide TagOf, PlacesInv, StreamsInv, RepliesInv, CollectorsInv, Completed, Block, Attributed;
    StepKeeps(s, RouteFrame(r));
    RouteAttributed(s, r, f, family, upTo);
    var s' := DoRoute(s, r);
    assert s'.log[..|s.log|] == s.log;
    if RouteOf(s, r).ToTag? {
      assert TagIn(r) == Some(RouteOf(s, r).tag);
    }
  }

  /** The answers after a delivery: the command whose tag the frame bears is answered, if pending. */
  lemma DeliverAnswers(s: World)
    requires Inv(s) && Enabled(s, Deliver)
    ensures var s' := DoDeliver(s);
            forall id :: id in s'.answers <==>
              id in s.answers || (s.reader.route == ToTag(TagOf(id)) && IsPending(s, id))
  {
    hide TagOf, Found, StreamsInv, CollectorsInv, HeldInv, Without;
    TagsInjective();
  }

  /** Completions counted once the held frame is. */
  lemma SettledNext(s: World, f: FrameFilter, family: seq<nat>)
    requires s.reader.Holding? && |s.log| > 0
    ensures var p := Settled(s, family);
            Completed(s.log, family)
            == if p < |family| && TagIn(s.log[|s.log| - 1]) == Some(TagOf(family[p])) then p + 1 else p
  {
    hide TagOf;
    var n := |s.log| - 1;
    assert s.log[..n] + [s.log[n]] == s.log;
    LogAppend(s.log[..n], s.log[n], family, f, 0);
  }

  /** Delivering a response to the family answers exactly the command next in line. */
  lemma DeliverInOrder(s: World, f: FrameFilter, family: seq<nat>, upTo: nat)
    requires Orderly(s, f, family, upTo) && Enabled(s, Deliver)
    requires HeldInv(DoDeliver(s))
    ensures InOrder(DoDeliver(s), f, family, upTo)
  {
    hide TagOf, Found, StreamsInv, Completed, Attributed, CollectorsInv, Without, FamilyStreams;
    TagsInjective();
    var s' := DoDeliver(s);
    var p := Settled(s, family);
    SettledNext(s, f, family);
    DeliverAnswers(s);
    DeliverPhases(s);
    assert FamilyStreams(s, f, family);
    FamilyDistinct(s, f, family);
    hide DoDeliver, RepliesInv;
    forall j | 0 <= j < |family|
      ensures family[j] in s'.answers <==> j < Settled(s', family)
    {
      assert family[j] in s.answers <==> j < p;
    }
  }

  lemma FamilyDistinct(s: World, f: FrameFilter, family: seq<nat>)
    requires FamilyStreams(s, f, family)
    ensures forall i, j :: 0 <= i < |family| && 0 <= j < |family| && family[i] == family[j] ==> i == j
  {
  }

  lemma DeliverPhases(s: World)
    requires Inv(s) && Enabled(s, Deliver)
    ensures var s' := DoDeliver(s);
            && s'.reader == Idle && s'.log == s.log && s'.registered == s.registered
            && s'.streams.Keys == s.streams.Keys
            && forall id :: id in s.streams ==> s'.streams[id].phase == s.streams[id].phase
  {
    hide TagOf, Found, StreamsInv, CollectorsInv, RepliesInv, Without;
  }

  /** The delivery gives stream `id` the held frame if it was on its way there, and nothing else. */
  ghost predicate AddsHeldFrame(s: World, id: nat) {
    && s.reader.Holding? && |s.log| > 0 && |s.place| == |s.log|
    && id in s.streams && id in DoDeliver(s).streams
    && DoDeliver(s).streams[id].accepted == s.streams[id].accepted + OnItsWay(s, id)
  }

  lemma AcceptedByDelivery(s: World, id: nat)
    requires HeldInv(s) && PlacesInv(s) && Enabled(s, Deliver) && id in s.streams
    requires s.reader == Holding(ToStream(id)) ==> s.streams[id].phase == Open
    ensures AddsHeldFrame(s, id)
  {
    hide TagOf, Found, Without;
  }

  /** A frame on its way to a command of the family finds its stream open. */
  lemma FamilyIsOpen(s: World, f: FrameFilter, family: seq<nat>, upTo: nat, j: nat)
    requires Orderly(s, f, family, upTo) && j < upTo && j < |family| && family[j] in s.streams
    requires s.reader == Holding(ToStream(family[j]))
    ensures s.streams[family[j]].phase == Open
  {
    hide TagOf, NumbersInv, CollectorsInv, StreamsInv, PlacesInv, Completed, Attributed, FamilyStreams;
    PendingHasNoAnswer(s, TagOf(family[j]));
  }

  lemma DeliverAccepted(s: World, f: FrameFilter, family: seq<nat>, upTo: nat, j: nat)
    requires Orderly(s, f, family, upTo) && Enabled(s, Deliver)
    requires j < upTo && j < |family| && family[j] in s.streams
    ensures AddsHeldFrame(s, family[j])
  {
    hide NumbersInv, RepliesInv, CollectorsInv, StreamsInv, HeldInv, PlacesInv, InOrder, Attributed, FamilyStreams;
    if s.reader == Holding(ToStream(family[j])) {
      FamilyIsOpen(s, f, family, upTo, j);
    }
    AcceptedByDelivery(s, family[j]);
  }

  lemma DeliverAttributed(s: World, f: FrameFilter, family: seq<nat>, upTo: nat)
    requires Orderly(s, f, family, upTo) && Enabled(s, Deliver)
    requires HeldInv(DoDeliver(s))
    ensures Attributed(DoDeliver(s), f, family, upTo)
  {
    hide TagOf, Found, StreamsInv, RepliesInv, NumbersInv, Completed, Block, CollectorsInv, Without;
    hide InOrder, FamilyStreams;
    DeliverPhases(s);
    var s' := DoDeliver(s);
    forall j | 0 <= j < upTo && j < |family| && family[j] in s.streams
      ensures s'.streams[family[j]].accepted == s.streams[family[j]].accepted + OnItsWay(s, family[j])
    {
      DeliverAccepted(s, f, family, upTo, j);
    }
  }

  lemma DeliverFamily(s: World, f: FrameFilter, family: seq<nat>)
    requires Inv(s) && FamilyStreams(s, f, family) && Enabled(s, Deliver)
    ensures FamilyStreams(DoDeliver(s), f, family)
  {
    hide TagOf, Found, StreamsInv, RepliesInv, NumbersInv, CollectorsInv, Without, SameFilter, Apart;
  }

  lemma DeliverOrderly(s: World, f: FrameFilter, family: seq<nat>, upTo: nat)
    requires Orderly(s, f, family, upTo) && Enabled(s, Deliver)
    ensures Orderly(Apply(s, Deliver), f, family, upTo)
  {
    hide NumbersInv, RepliesInv, CollectorsInv, StreamsInv, PlacesInv, FamilyStreams, InOrder, Attributed;
    StepKeeps(s, Deliver);
    DeliverInOrder(s, f, family, upTo);
    DeliverAttributed(s, f, family, upTo);
    DeliverFamily(s, f, family);
  }

  /** The log, every stream's filter and accepted frames, and what matters of the answers and phases
      are the same in `t` as in `s`. */
  ghost predicate SameAccounts(s: World, t: World, family: seq<nat>, upTo: nat) {
    && t.log == s.log
    && (t.reader == s.reader || (s.reader == Idle && t.reader == Stopped))
    && (t.answers == s.answers || t.reader == Stopped)
    && s.registered <= t.registered
    && t.streams.Keys == s.streams.Keys
    && (forall id :: id in s.streams ==>
          t.streams[id].wants == s.streams[id].wants && t.streams[id].accepted == s.streams[id].accepted)
    && (forall j :: 0 <= j < upTo && j < |family| && family[j] in s.streams && family[j] !in s.answers ==>
          t.streams[family[j]].phase == s.streams[family[j]].phase)
    && (forall j :: 0 <= j < |family| ==> (family[j] < t.nextId <==> family[j] < s.nextId))
  }

  lemma SameAccountsOrderly(s: World, t: World, f: FrameFilter, family: seq<nat>, upTo: nat)
    requires Orderly(s, f, family, upTo) && Inv(t) && SameAccounts(s, t, family, upTo)
    ensures Orderly(t, f, family, upTo)
  {
    hide TagOf, PlacesInv, StreamsInv, Completed, Block, RepliesInv, CollectorsInv, NumbersInv;
  }

  /** Steps other than enqueuing, routing and delivering keep the accounts. */
  lemma QuietSteps(s: World, step: Step, f: FrameFilter, family: seq<nat>, upTo: nat)
    requires Inv(s) && Enabled(s, step) && Disciplined(s, step, f, family, upTo)
    requires !step.Enqueue? && !step.RouteFrame? && !step.Deliver?
    ensures SameAccounts(s, Apply(s, step), family, upTo)
  {
    hide TagOf, Inv, Completed, FindCollector, Without;
    if step.Close? || step.Drop? {
      hide Apply, SameAccounts;
      ClosingKeepsAccounts(s, step, step.id, family, upTo);
    } else {
      OtherQuietSteps(s, step, f, family, upTo);
    }
  }

  lemma OtherQuietSteps(s: World, step: Step, f: FrameFilter, family: seq<nat>, upTo: nat)
    requires Inv(s) && Enabled(s, step) && Disciplined(s, step, f, family, upTo)
    requires !step.Enqueue? && !step.RouteFrame? && !step.Deliver? && !step.Close? && !step.Drop?
    ensures SameAccounts(s, Apply(s, step), family, upTo)
  {
    hide TagOf, Inv, Completed, FindCollector, Without;
  }

  lemma ClosingKeepsAccounts(s: World, step: Step, id: nat, family: seq<nat>, upTo: nat)
    requires Inv(s) && Enabled(s, step) && (step == Close(id) || step == Drop(id))
    requires forall j :: 0 <= j < upTo && j < |family| && family[j] == id ==> id in s.answers
    ensures SameAccounts(s, Apply(s, step), family, upTo)
  {
    hide TagOf, Inv;
  }

  lemma QuietOrderly(s: World, step: Step, f: FrameFilter, family: seq<nat>, upTo: nat)
    requires Orderly(s, f, family, upTo) && Enabled(s, step)
    requires Disciplined(s, step, f, family, upTo)
    requires !step.Enqueue? && !step.RouteFrame? && !step.Deliver?
    ensures Orderly(Apply(s, step), f, family, upTo)
  {
    hide Apply, Inv, FamilyStreams, InOrder, Attributed, SameAccounts, Disciplined, Enabled;
    StepKeeps(s, step);
    QuietSteps(s, step, f, family, upTo);
    SameAccountsOrderly(s, Apply(s, step), f, family, upTo);
  }

  lemma StepOrderly(s: World, step: Step, f: FrameFilter, family: seq<nat>, upTo: nat)
    requires Orderly(s, f, family, upTo) && Enabled(s, step)
    requires Disciplined(s, step, f, family, upTo)
    ensures Orderly(Apply(s, step), f, family, upTo)
  {
    hide Apply, Orderly, Disciplined, Enabled;
    match step
    case Enqueue(wants) => EnqueueOrderly(s, wants, f, family, upTo);
    case RouteFrame(r) => RouteOrderly(s, r, f, family, upTo);
    case Deliver => DeliverOrderly(s, f, family, upTo);
    case _ => QuietOrderly(s, step, f, family, upTo);
  }

  ghost predicate DisciplinedRun(s: World, steps: seq<Step>, f: FrameFilter, family: seq<nat>, upTo: nat)
    requires Inv(s) && CanRun(s, steps)
    decreases |steps|
  {
    |steps| == 0
    || (Disciplined(s, steps[0], f, family, upTo)
        && (StepKeeps(s, steps[0]); DisciplinedRun(Apply(s, steps[0]), steps[1..], f, family, upTo)))
  }

  ghost predicate DisciplinedFromStart(steps: seq<Step>, f: FrameFilter, family: seq<nat>, upTo: nat)
    requires IsRun(steps)
  {
    InitialInv();
    DisciplinedRun(INITIAL, steps, f, family, upTo)
  }

  lemma {:induction false} RunOrderly(s: World, steps: seq<Step>, f: FrameFilter, family: seq<nat>, upTo: nat)
    requires Inv(s) && CanRun(s, steps)
    requires Orderly(s, f, family, upTo) && DisciplinedRun(s, steps, f, family, upTo)
    ensures Orderly(RunFrom(s, steps), f, family, upTo)
    decreases |steps|
  {
    hide Apply, Orderly, Disciplined, Enabled, Inv;
    if |steps| > 0 {
      StepKeeps(s, steps[0]);
      StepOrderly(s, steps[0], f, family, upTo);
      RunOrderly(Apply(s, steps[0]), steps[1..], f, family, upTo);
    }
  }

  /** In every disciplined run, each of the first `upTo` streams has been given exactly its own
      block of data frames, once the frame in hand is delivered; a stream still open has them
      received or buffered, in wire order. */
  lemma PipelinedAttribution(steps: seq<Step>, f: FrameFilter, family: seq<nat>, upTo: nat, j: nat)
    requires Increasing(family) && (forall k :: 0 <= k < |family| ==> 1 <= family[k])
    requires IsRun(steps) && DisciplinedFromStart(steps, f, family, upTo)
    requires j < upTo && j < |family|
    ensures var s := EndOf(steps);
            family[j] in s.streams && !s.reader.Holding? ==>
              var st := s.streams[family[j]];
              && st.accepted == Block(s.log, family, f, j)
              && (st.phase == Open ==> st.received + st.buffered == Block(s.log, family, f, j))
  {
    hide RunFrom, CanRun, DisciplinedRun, Block, Completed, NumbersInv, RepliesInv, CollectorsInv;
    hide PlacesInv, FamilyStreams, InOrder;
    InitialInv();
    InitialOrderly(f, family, upTo);
    RunOrderly(INITIAL, steps, f, family, upTo);
    var s := EndOf(steps);
    if family[j] in s.streams {
      var st := s.streams[family[j]];
      assert StreamInv(s, family[j]);
      assert st.accepted + [] == st.accepted && st.received + [] + st.buffered == st.received + st.buffered;
    }
  }

  lemma InitialOrderly(f: FrameFilter, family: seq<nat>, upTo: nat)
    requires Increasing(family) && (forall k :: 0 <= k < |family| ==> 1 <= family[k])
    ensures Orderly(INITIAL, f, family, upTo)
  {
    InitialInv();
  }
}
