/** From the bytes a server writes to what `fetch` and `search` return: parser, read loop, dispatcher
    and collectors together. */
module EndToEnd {
  import opened Bytes
  import opened Ast
  import opened Grammar
  import opened BalancedValues
  import opened Forms
  import opened FetchRoundTrip
  import opened ResponseRoundTrip
  import opened ServerStream
  import opened Session
  import opened Replies
  import Attribution
  import Dispatcher
  import Framing
  import Commands
  import Words

  /** The server writes `rs`, the network delivers its bytes in the chunks `incoming`, and in state `s`
      the protocol has routed frames the read loop cut off, in order and from the first. */
  ghost predicate Served(rs: seq<SentResponse>, incoming: seq<Framing.Read>, max: nat, s: Dispatcher.World) {
    && AllSentOk(rs) && AllFitFrame(rs, max) && Framing.Received(incoming) == AllWritten(rs)
    && Routes(Framing.Run([], incoming, max).0, s.log)
  }

  ghost predicate Routes(wire: seq<Framing.Frame>, log: seq<Response>) {
    |log| <= |wire| && forall i :: 0 <= i < |log| ==> log[i] == wire[i].response
  }

  /** What was routed is what the server meant, and each frame is the bytes it wrote for it. */
  lemma RoutedAsMeant(rs: seq<SentResponse>, incoming: seq<Framing.Read>, max: nat, s: Dispatcher.World)
    requires Served(rs, incoming, max, s)
    ensures var log := s.log;
            && |log| <= |rs| && (forall i :: 0 <= i < |log| ==> log[i] == Meant(rs[i]))
            && Framing.Run([], incoming, max).0 == FramesOf(rs) && Framing.Logs(FramesOf(rs), log)
  {
    hide Framing.Run, Framing.Received, Framing.Reparses, Written, Meant, SentOk;
    ConversationDispatched(rs, incoming, max);
    Session.DispatchedFramesReparse(incoming, max, s.log);
  }

  // ---------------------------------------------------------------------------
  // Replies
  // ---------------------------------------------------------------------------

  /** The text of a status line, without its response code. */
  function TextWritten(l: SentStatusLine): bytes {
    match l.text
    case None => []
    case Some(x) => x.text
  }

  /** The reply to a command the server answered with `l`, written as `line`. */
  ghost predicate AnswersWith(reply: Reply, l: SentStatusLine, line: bytes) {
    && (reply == Completed(line) <==> EqCi(l.word, Words.OK))
    && (reply == Failed(ConnectionFailed) <==> EqCi(l.word, Words.BYE))
    && (reply == Failed(CommandRefused(TextWritten(l))) <==>
        EqCi(l.word, Words.NO) || EqCi(l.word, Words.BAD) || EqCi(l.word, Words.PREAUTH))
  }

  /** The caller of a command is told what the server wrote: its line for OK, its text for a refusal, and
      the loss of the connection for BYE, or when no answer came. */
  lemma ReplySaysWhatWasWritten(rs: seq<SentResponse>, incoming: seq<Framing.Read>, max: nat,
                                s: Dispatcher.World, id: nat, reply: Reply)
    requires Served(rs, incoming, max, s) && Dispatcher.Reachable(s) && IsReply(reply, FramesOf(rs), s, id)
    ensures reply == SenderGone <==> id !in s.answers
    ensures id in s.answers && s.answers[id] == Dispatcher.ByFailure ==> reply == Failed(ConnectionFailed)
    ensures id in s.answers && s.answers[id].ByFrame? ==>
              var i := s.answers[id].i;
              && i < |rs| && rs[i].StatusSent? && rs[i].tag == Some(Commands.TagOf(id))
              && AnswersWith(reply, rs[i].status, Written(rs[i]))
  {
    hide Routes, AllWritten, Framing.Run, Framing.Received, Framing.Logs, Written, AnswersWith, AllFitFrame;
    hide Dispatcher.Reachable, Commands.TagOf, StatusLineOk, DataMeaning;
    RoutedAsMeant(rs, incoming, max, s);
    AnsweredIsRegistered(s);
    Dispatcher.RepliesExactlyOnce(s, id);
    if id in s.answers && s.answers[id].ByFrame? {
      var i := s.answers[id].i;
      assert s.log[i] == Meant(rs[i]);
      assert rs[i] in rs;
      FrameAnswersWith(rs[i].tag, rs[i].status);
    }
  }

  lemma FrameAnswersWith(tag: Option<bytes>, l: SentStatusLine)
    requires StatusLineOk(l)
    ensures var r := StatusSent(tag, l);
            Meant(r).StatusResponse? && AnswersWith(ReplyByFrame(Framing.Frame(Written(r), Meant(r))), l, Written(r))
  {
    hide Written, SentTextOk, TextMeaning, EqCi;
    WordsDiffer(l.word);
    if l.text.Some? {
      TextIsText(l.text.value);
    }
  }

  lemma TextIsText(x: SentText)
    ensures TextMeaning(x).1 == x.text
  {
  }

  /** No word spells two keywords. */
  lemma WordsDiffer(w: bytes)
    ensures EqCi(w, Words.OK) ==> |w| == 2 && Lower(w[0]) == 111
    ensures EqCi(w, Words.NO) ==> |w| == 2 && Lower(w[0]) == 110
    ensures EqCi(w, Words.BAD) ==> |w| == 3 && Lower(w[1]) == 97
    ensures EqCi(w, Words.BYE) ==> |w| == 3 && Lower(w[1]) == 121
    ensures EqCi(w, Words.PREAUTH) ==> |w| == 7
  {
  }

  // ---------------------------------------------------------------------------
  // FETCH
  // ---------------------------------------------------------------------------

  /** The UID an attribute was written with. */
  function SentUidOf(s: SentAtt): Option<nat> {
    if s.value.SentUid? then Some(Decimal(s.value.n)) else None
  }

  /** The message data an attribute was written with, if it is of a kind the result keeps. */
  function SentBodyOf(s: SentAtt): Option<bytes> {
    match s.value
    case SentSection(_, _, value) => NStringValue(value)
    case SentGroup(BodyName, items) => Some(RenderGroup(items))
    case SentPart(WholeMessage, value) => Some(OrEmpty(NStringValue(value)))
    case _ => None
  }

  predicate IsSentFetch(r: SentResponse) {
    r.DataSent? && r.line.data.SentFetch?
  }

  /** The result says what the server wrote: the message number, the last UID and the last body. */
  ghost predicate SaysWhatWasSent(f: FetchResult, r: SentResponse)
    requires IsSentFetch(r)
  {
    && f.number == Decimal(r.line.data.n)
    && IsLast(r.line.data.atts, SentUidOf, f.uid)
    && IsLast(r.line.data.atts, SentBodyOf, f.body)
  }

  /** One result for each of the responses at places `at`, in order, saying what the server wrote there. */
  ghost predicate SayWhatWasSent(results: seq<FetchResult>, rs: seq<SentResponse>, at: seq<nat>) {
    && |results| == |at|
    && forall k :: 0 <= k < |at| ==>
         at[k] < |rs| && IsSentFetch(rs[at[k]]) && SaysWhatWasSent(results[k], rs[at[k]])
  }

  lemma MeaningKeepsUidAndBody(s: SentAtt)
    ensures UidOf(Meaning(s.value)) == SentUidOf(s) && BodyOf(Meaning(s.value)) == SentBodyOf(s)
  {
  }

  lemma LastOfMeanings<T>(atts: seq<SentAtt>, parsed: FetchAttribute -> Option<T>,
                          sent: SentAtt -> Option<T>, v: Option<T>)
    requires IsLast(Meanings(atts), parsed, v)
    requires forall k :: 0 <= k < |atts| ==> parsed(Meaning(atts[k].value)) == sent(atts[k])
    ensures IsLast(atts, sent, v)
  {
    hide Meaning;
    var m := Meanings(atts);
    assert forall k :: 0 <= k < |atts| ==> parsed(m[k]) == sent(atts[k]);
    if v.Some? {
      var k :| 0 <= k < |m| && parsed(m[k]) == v && forall j :: k < j < |m| ==> parsed(m[j]).None?;
      assert sent(atts[k]) == v;
      forall j | k < j < |atts| ensures sent(atts[j]).None? {
        assert parsed(m[j]).None?;
      }
    } else {
      forall k | 0 <= k < |atts| ensures sent(atts[k]).None? {
        assert parsed(m[k]).None?;
      }
    }
  }

  lemma ResultSaysWhatWasSent(f: FetchResult, r: SentResponse)
    requires IsFetch(Meant(r)) && IsResultOf(f, Meant(r))
    ensures IsSentFetch(r) && SaysWhatWasSent(f, r)
  {
    hide Meaning, IsLast, SentUidOf, SentBodyOf, UidOf, BodyOf, RenderValue;
    var atts := r.line.data.atts;
    forall k | 0 <= k < |atts|
      ensures UidOf(Meaning(atts[k].value)) == SentUidOf(atts[k])
      ensures BodyOf(Meaning(atts[k].value)) == SentBodyOf(atts[k])
    {
      MeaningKeepsUidAndBody(atts[k]);
    }
    LastOfMeanings(atts, UidOf, SentUidOf, f.uid);
    LastOfMeanings(atts, BodyOf, SentBodyOf, f.body);
  }

  /** The caller of command `id` has seen its stream end in state `s`, and then got `reply`, if one came
      in time. */
  ghost predicate RepliedWith(reply: Option<Reply>, rs: seq<SentResponse>, s: Dispatcher.World, id: nat) {
    && id in s.streams && OnWire(FramesOf(rs), s.streams[id].received)
    && (reply.Some? ==> IsReply(reply.value, FramesOf(rs), s, id))
  }

  /** `fetch`, called for command `id`, returns `returned`. */
  ghost predicate FetchGives(returned: Option<seq<FetchResult>>, reply: Option<Reply>, rs: seq<SentResponse>,
                             s: Dispatcher.World, id: nat) {
    RepliedWith(reply, rs, s, id) && FetchReturns(FramesAt(FramesOf(rs), s.streams[id].received), reply, returned)
  }

  /** Of any number of pipelined FETCH commands, each returns results exactly when the server answered
      that command with OK, and in time; and then it returns one result for each FETCH response the
      server wrote for it, with exactly the number, UID and body written there, in the order written:
      for every chunking of the bytes and every interleaving of the client's tasks. */
  lemma FetchReturnsWhatWasSent(rs: seq<SentResponse>, incoming: seq<Framing.Read>, max: nat,
                                steps: seq<Dispatcher.Step>, s: Dispatcher.World, family: seq<nat>, upTo: nat, j: nat,
                                reply: Option<Reply>, returned: Option<seq<FetchResult>>)
    requires Served(rs, incoming, max, s) && PipelineDone(steps, s, family, IsFetch, upTo, j)
    requires FetchGives(returned, reply, rs, s, family[j])
    ensures returned.Some? <==> reply.Some? && AnsweredOk(FramesOf(rs), s, family[j])
    ensures returned.Some? ==> SayWhatWasSent(returned.value, rs, Attribution.Block(s.log, family, IsFetch, j))
  {
    hide AllSentOk, AllFitFrame, Routes, AllWritten, Framing.Run, Framing.Received, Framing.Logs, FetchGives;
    hide Dispatcher.EndsIn, Attribution.DisciplinedFromStart, Attribution.Block, AnsweredOk, SayWhatWasSent;
    RoutedAsMeant(rs, incoming, max, s);
    DoneIsReachable(steps, s, family, IsFetch, upTo, j);
    FetchGivesParts(returned, reply, rs, s, family[j]);
    ReplyDecides(reply, rs, s, family[j]);
    if returned.Some? {
      CollectedAsSent(rs, steps, s, family, upTo, j, returned.value);
    }
  }

  lemma FetchGivesParts(returned: Option<seq<FetchResult>>, reply: Option<Reply>, rs: seq<SentResponse>,
                        s: Dispatcher.World, id: nat)
    requires FetchGives(returned, reply, rs, s, id)
    ensures RepliedWith(reply, rs, s, id)
    ensures returned.Some? <==> Completes(reply)
    ensures returned.Some? ==> CollectedFrom(FramesOf(rs), s, id, returned.value)
  {
    hide IsReply, Collects, FramesAt, Written, Meant;
  }

  lemma ReplyDecides(reply: Option<Reply>, rs: seq<SentResponse>, s: Dispatcher.World, id: nat)
    requires Dispatcher.Reachable(s) && Framing.Logs(FramesOf(rs), s.log) && RepliedWith(reply, rs, s, id)
    ensures Completes(reply) <==> reply.Some? && AnsweredOk(FramesOf(rs), s, id)
  {
    hide Dispatcher.Reachable, Framing.Logs, IsReply, AnsweredOk, FramesOf;
    if reply.Some? {
      CompletedExactly(reply.value, FramesOf(rs), s, id);
    }
  }

  lemma DoneIsReachable(steps: seq<Dispatcher.Step>, s: Dispatcher.World, family: seq<nat>,
                        f: Response -> bool, upTo: nat, j: nat)
    requires PipelineDone(steps, s, family, f, upTo, j)
    ensures Dispatcher.Reachable(s)
  {
    hide Dispatcher.EndsIn, Attribution.DisciplinedFromStart;
  }

  lemma CollectedAsSent(rs: seq<SentResponse>, steps: seq<Dispatcher.Step>, s: Dispatcher.World,
                        family: seq<nat>, upTo: nat, j: nat, results: seq<FetchResult>)
    requires PipelineDone(steps, s, family, IsFetch, upTo, j) && CollectedFrom(FramesOf(rs), s, family[j], results)
    requires Framing.Logs(FramesOf(rs), s.log)
    ensures SayWhatWasSent(results, rs, Attribution.Block(s.log, family, IsFetch, j))
  {
    hide Dispatcher.EndsIn, PipelineDone, Attribution.Block, Collects, FramesAt;
    hide IsResultOf, SaysWhatWasSent, Meant, Written, IsFetch, Framing.Reparses;
    PipelinedFetch(FramesOf(rs), steps, s, family, upTo, j, results);
    var block := Attribution.Block(s.log, family, IsFetch, j);
    forall k | 0 <= k < |block|
      ensures block[k] < |rs| && IsSentFetch(rs[block[k]]) && SaysWhatWasSent(results[k], rs[block[k]])
    {
      assert s.log[block[k]] == FramesOf(rs)[block[k]].response;
      ResultSaysWhatWasSent(results[k], rs[block[k]]);
    }
  }

  // ---------------------------------------------------------------------------
  // SEARCH
  // ---------------------------------------------------------------------------

  predicate IsSentSearch(r: SentResponse) {
    r.DataSent? && r.line.data.SentSearch?
  }

  ghost predicate AllSentSearch(rs: seq<SentResponse>, at: seq<nat>) {
    forall k :: 0 <= k < |at| ==> at[k] < |rs| && IsSentSearch(rs[at[k]])
  }

  /** The numbers the server wrote in the responses at places `at`, one list after the other. */
  ghost function SentIdsAt(rs: seq<SentResponse>, at: seq<nat>): seq<nat>
    requires AllSentSearch(rs, at)
  {
    if |at| == 0 then []
    else
      var n := |at| - 1;
      assert IsSentSearch(rs[at[n]]);
      SentIdsAt(rs, at[..n]) + IdValues(rs[at[n]].line.data.ids)
  }

  lemma {:induction false} IdsAsSent(rs: seq<SentResponse>, log: seq<Response>, at: seq<nat>)
    requires |log| <= |rs| && forall i :: 0 <= i < |log| ==> log[i] == Meant(rs[i])
    requires AllAccepted(log, at, IsSearch)
    ensures AllSentSearch(rs, at) && RoutedIds(log, at) == SentIdsAt(rs, at)
    decreases |at|
  {
    forall k | 0 <= k < |at| ensures at[k] < |rs| && IsSentSearch(rs[at[k]]) {
      assert log[at[k]] == Meant(rs[at[k]]);
    }
    if |at| > 0 {
      var n := |at| - 1;
      IdsAsSent(rs, log, at[..n]);
      assert log[at[n]] == Meant(rs[at[n]]);
    }
  }

  /** `search`, called for command `id`, returns `returned`. */
  ghost predicate SearchGives(returned: Option<seq<nat>>, reply: Option<Reply>, rs: seq<SentResponse>,
                              s: Dispatcher.World, id: nat) {
    && RepliedWith(reply, rs, s, id)
    && returned == if Completes(reply) then Some(SearchIds(FramesAt(FramesOf(rs), s.streams[id].received))) else None
  }

  /** What was returned are the numbers the server wrote in the responses at places `at`. */
  ghost predicate NumbersSent(returned: seq<nat>, rs: seq<SentResponse>, at: seq<nat>) {
    AllSentSearch(rs, at) && returned == SentIdsAt(rs, at)
  }

  /** Of any number of pipelined SEARCH commands, each returns numbers exactly when the server answered
      that command with OK, and in time; and then exactly those the server wrote for it, in the order
      written. */
  lemma SearchReturnsWhatWasSent(rs: seq<SentResponse>, incoming: seq<Framing.Read>, max: nat,
                                 steps: seq<Dispatcher.Step>, s: Dispatcher.World, family: seq<nat>, upTo: nat, j: nat,
                                 reply: Option<Reply>, returned: Option<seq<nat>>)
    requires Served(rs, incoming, max, s) && PipelineDone(steps, s, family, IsSearch, upTo, j)
    requires SearchGives(returned, reply, rs, s, family[j])
    ensures returned.Some? <==> reply.Some? && AnsweredOk(FramesOf(rs), s, family[j])
    ensures returned.Some? ==> NumbersSent(returned.value, rs, Attribution.Block(s.log, family, IsSearch, j))
  {
    hide AllSentOk, AllFitFrame, Routes, AllWritten, Framing.Run, Framing.Received, Framing.Logs, SearchGives;
    hide Dispatcher.EndsIn, Attribution.DisciplinedFromStart, Attribution.Block, AnsweredOk, NumbersSent;
    RoutedAsMeant(rs, incoming, max, s);
    DoneIsReachable(steps, s, family, IsSearch, upTo, j);
    SearchGivesParts(returned, reply, rs, s, family[j]);
    ReplyDecides(reply, rs, s, family[j]);
    if returned.Some? {
      FoundAsSent(rs, steps, s, family, upTo, j, returned.value);
    }
  }

  /** The ids `search` has collected from the frames its stream has received. */
  ghost predicate FoundBy(ids: seq<nat>, rs: seq<SentResponse>, s: Dispatcher.World, id: nat) {
    && id in s.streams && OnWire(FramesOf(rs), s.streams[id].received)
    && ids == SearchIds(FramesAt(FramesOf(rs), s.streams[id].received))
  }

  lemma SearchGivesParts(returned: Option<seq<nat>>, reply: Option<Reply>, rs: seq<SentResponse>,
                         s: Dispatcher.World, id: nat)
    requires SearchGives(returned, reply, rs, s, id)
    ensures RepliedWith(reply, rs, s, id)
    ensures returned.Some? <==> Completes(reply)
    ensures returned.Some? ==> FoundBy(returned.value, rs, s, id)
  {
    hide IsReply, SearchIds, FramesAt, Written, Meant;
  }

  lemma FoundAsSent(rs: seq<SentResponse>, steps: seq<Dispatcher.Step>, s: Dispatcher.World,
                    family: seq<nat>, upTo: nat, j: nat, ids: seq<nat>)
    requires PipelineDone(steps, s, family, IsSearch, upTo, j) && FoundBy(ids, rs, s, family[j])
    requires Framing.Logs(FramesOf(rs), s.log)
    ensures NumbersSent(ids, rs, Attribution.Block(s.log, family, IsSearch, j))
  {
    hide Dispatcher.EndsIn, PipelineDone, Attribution.Block, SearchIds, FramesAt, RoutedIds, SentIdsAt;
    hide Meant, Written, IsSearch, Framing.Reparses;
    PipelinedSearch(FramesOf(rs), steps, s, family, upTo, j);
    forall i | 0 <= i < |s.log| ensures s.log[i] == Meant(rs[i]) {
      assert s.log[i] == FramesOf(rs)[i].response;
    }
    IdsAsSent(rs, s.log, Attribution.Block(s.log, family, IsSearch, j));
  }
}
