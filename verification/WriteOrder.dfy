/** In what order the write loop of the protocol writes commands, and what a server can read off. */
module WriteOrder {
  import opened Bytes
  import opened Commands
  import opened Dispatcher

  /** Commands were written in the order of their numbers, and the one being written comes next. */
  ghost predicate OrderInv(s: World) {
    && Increasing(s.written)
    && (s.writer.Writing? ==> forall a :: 0 <= a < |s.written| ==> s.written[a] < s.writer.id)
    && (forall a :: 0 <= a < |s.written| ==> 1 <= s.written[a])
    && (s.writer.Writing? ==> 1 <= s.writer.id)
    && (forall a :: 0 <= a < |s.queue| ==> 1 <= s.queue[a].id)
    && 1 <= s.nextId
  }

  lemma StepKeepsOrder(s: World, step: Step)
    requires Inv(s) && OrderInv(s) && Enabled(s, step)
    ensures OrderInv(Apply(s, step))
  {
    hide Apply, Inv, Enabled, OrderInv;
    if step.Enqueue? || step.Abandon? || step.Register? || step.Write? || step.WriterFails? {
      SendingKeepsOrder(s, step);
    } else {
      OthersDoNotWrite(s, step);
    }
  }

  lemma SendingKeepsOrder(s: World, step: Step)
    requires step.Enqueue? || step.Abandon? || step.Register? || step.Write? || step.WriterFails?
    requires Inv(s) && OrderInv(s) && Enabled(s, step)
    ensures OrderInv(Apply(s, step))
  {
    hide RepliesInv, CollectorsInv, StreamsInv, HeldInv, PlacesInv, TagOf, DoDeliver, DoReceive, DoDrain;
    hide DoDrop, DoStop;
  }

  lemma OthersDoNotWrite(s: World, step: Step)
    requires !(step.Enqueue? || step.Abandon? || step.Register? || step.Write? || step.WriterFails?)
    requires Inv(s) && OrderInv(s) && Enabled(s, step)
    ensures OrderInv(Apply(s, step))
  {
    hide NumbersInv, RepliesInv, CollectorsInv, StreamsInv, HeldInv, PlacesInv, TagOf, Increasing;
  }

  lemma {:induction false} RunKeepsOrder(s: World, steps: seq<Step>)
    requires Inv(s) && OrderInv(s) && CanRun(s, steps)
    ensures OrderInv(RunFrom(s, steps))
    decreases |steps|
  {
    hide Inv, OrderInv, Apply, Enabled;
    if |steps| > 0 {
      StepKeeps(s, steps[0]);
      StepKeepsOrder(s, steps[0]);
      RunKeepsOrder(Apply(s, steps[0]), steps[1..]);
    }
  }

  /** In every reachable state the commands written have strictly increasing numbers, and each was
      registered, with its reply waiting or given, before it was written. */
  lemma WrittenInOrder(s: World)
    requires Reachable(s)
    ensures Increasing(s.written)
    ensures forall a :: 0 <= a < |s.written| ==>
              && 1 <= s.written[a] < s.nextId && s.written[a] in s.registered
              && (IsPending(s, s.written[a]) || s.written[a] in s.answers)
  {
    hide CanRun, RunFrom, CollectorsInv, StreamsInv, HeldInv, PlacesInv, TagOf;
    InitialInv();
    var steps :| EndsIn(steps, s);
    RunKeepsOrder(INITIAL, steps);
  }

  /** The commands with the given numbers. */
  function CommandsOf(ids: seq<nat>, texts: nat -> bytes): (commands: seq<Command>)
    ensures |commands| == |ids|
  {
    seq(|ids|, k requires 0 <= k < |ids| => Command(ids[k], texts(ids[k])))
  }

  /** Whatever the interleaving, and whatever tags were given up, the bytes written so far decode to
      the commands written, each under its own tag, in increasing order. */
  lemma WrittenDecodes(s: World, texts: nat -> bytes)
    requires Reachable(s) && s.nextId <= U64_RANGE
    requires forall id :: IsOneLine(texts(id))
    ensures var commands := CommandsOf(s.written, texts);
            && NumbersGrow(commands, s.nextId)
            && Decode(Transcript(commands)) == Numbered(commands)
            && forall a :: 0 <= a < |s.written| ==> Numbered(commands)[a] == (TagOf(s.written[a]), texts(s.written[a]))
  {
    hide Decode, Transcript, IsOneLine, TagOf, Reachable;
    WrittenInOrder(s);
    var commands := CommandsOf(s.written, texts);
    assert AllOneLine(commands);
    TranscriptDecodes(commands, [], Command(0, []));
    assert Transcript(commands) + [] == Transcript(commands);
  }
}
