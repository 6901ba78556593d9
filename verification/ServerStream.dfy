/** A whole conversation as a server writes it: the read loop gets back exactly the responses that were
    written, however the network cuts the bytes up. */
module ServerStream {
  import opened Bytes
  import opened Ast
  import opened Grammar
  import opened Stability
  import opened Framing
  import opened Forms
  import opened ResponseRoundTrip

  datatype SentResponse =
    | DataSent(line: SentLine)
    | StatusSent(tag: Option<bytes>, status: SentStatusLine)
    | ContinueSent(text: SentText)

  function Written(r: SentResponse): bytes {
    match r
    case DataSent(line) => RenderData(line)
    case StatusSent(tag, status) => RenderStatus(tag, status)
    case ContinueSent(text) => RenderContinue(text)
  }

  function Meant(r: SentResponse): Response {
    match r
    case DataSent(line) => Data(DataMeaning(line.data))
    case StatusSent(tag, status) => StatusMeaning(tag, status)
    case ContinueSent(text) => ContinueMeaning(text)
  }

  /** Written by the grammar, within the item budget. */
  ghost predicate SentOk(r: SentResponse) {
    && ResponseItems(Meant(r)) <= 65536
    && match r
       case DataSent(line) => LineOk(line)
       case StatusSent(tag, status) => StatusLineOk(status) && (tag.Some? ==> TagOk(tag.value))
       case ContinueSent(text) => SentTextOk(text)
  }

  lemma ReadsBack(r: SentResponse, rest: bytes)
    requires SentOk(r)
    ensures var p := ParseResponse(Written(r) + rest); p.Ok? && p.val == Meant(r) && p.pos == |Written(r)|
  {
    hide ParseResponse, LineOk, StatusLineOk, SentTextOk, TagOk, DataMeaning, DataItems, CodeItems;
    hide MeantText, TextMeaning;
    hide RenderData, RenderStatus, RenderContinue;
    match r
    case DataSent(line) => DataReadsBack(line, rest);
    case StatusSent(tag, status) => StatusReadsBack(tag, status, rest);
    case ContinueSent(text) => ContinueReadsBack(text, rest);
  }

  function AllWritten(rs: seq<SentResponse>): bytes {
    if |rs| == 0 then [] else Written(rs[0]) + AllWritten(rs[1..])
  }

  function FramesOf(rs: seq<SentResponse>): (frames: seq<Frame>)
    ensures |frames| == |rs|
  {
    seq(|rs|, i requires 0 <= i < |rs| => Frame(Written(rs[i]), Meant(rs[i])))
  }

  ghost predicate AllSentOk(rs: seq<SentResponse>) {
    forall r :: r in rs ==> SentOk(r)
  }

  lemma FramesCons(rs: seq<SentResponse>)
    requires |rs| > 0
    ensures FramesOf(rs) == [Frame(Written(rs[0]), Meant(rs[0]))] + FramesOf(rs[1..])
  {
  }

  /** Any front of a written conversation: the responses wholly in it are cut off as they were meant,
      and the rest is a part of the next one. */
  lemma {:induction false} FrontCut(rs: seq<SentResponse>, p: bytes) returns (n: nat)
    requires AllSentOk(rs) && p <= AllWritten(rs)
    ensures n <= |rs|
    ensures var c := CutAll(p);
            && c.frames == FramesOf(rs[..n]) && c.bad == None
            && c.tail <= AllWritten(rs[n..]) && p == AllWritten(rs[..n]) + c.tail
            && (if n < |rs| then |c.tail| < |Written(rs[n])| else c.tail == [])
    decreases |rs|
  {
    hide ParseResponse, CutAll, SentOk, Written, Meant;
    CutStep(p);
    if |rs| == 0 {
      n := 0;
      TailIsCut(p);
    } else {
      var first := Written(rs[0]);
      var rest := AllWritten(rs[1..]);
      assert rs[0] in rs;
      if |p| < |first| {
        n := 0;
        PartIsIncomplete(rs[0], p);
        assert rs[..0] == [] && rs[0..] == rs && p == AllWritten([]) + p;
      } else {
        var q := p[|first|..];
        assert p == first + q && q <= rest;
        ReadsBack(rs[0], q);
        var m := FrontCut(rs[1..], q);
        n := m + 1;
        assert rs[..n] == [rs[0]] + rs[1..][..m] && rs[n..] == rs[1..][m..];
        FramesCons(rs[..n]);
        assert rs[..n][1..] == rs[1..][..m];
        assert p == first + AllWritten(rs[1..][..m]) + CutAll(q).tail;
      }
    }
  }

  lemma PartIsIncomplete(r: SentResponse, p: bytes)
    requires SentOk(r) && p <= Written(r) && |p| < |Written(r)|
    ensures ParseResponse(p) == Err(Incomplete)
  {
    hide ParseResponse, SentOk, Written, Meant;
    var form := Written(r) + [];
    ReadsBack(r, []);
    PrefixSound(form, |p|);
    assert form[..|p|] == p;
  }

  /** The one-shot cut of a written conversation is the conversation. */
  lemma CutsBack(rs: seq<SentResponse>)
    requires AllSentOk(rs)
    ensures CutAll(AllWritten(rs)) == Cut(FramesOf(rs), [], None)
  {
    hide CutAll, SentOk, Written, Meant;
    var s := AllWritten(rs);
    var n := FrontCut(rs, s);
    AllWrittenSplit(rs, n);
    assert rs[..|rs|] == rs;
  }

  lemma {:induction false} AllWrittenSplit(rs: seq<SentResponse>, n: nat)
    requires n <= |rs|
    ensures AllWritten(rs) == AllWritten(rs[..n]) + AllWritten(rs[n..])
    decreases n
  {
    hide Written;
    if n == 0 {
      assert rs[..0] == [] && rs[0..] == rs;
    } else {
      AllWrittenSplit(rs[1..], n - 1);
      assert rs[1..][..n - 1] == rs[..n][1..] && rs[1..][n - 1..] == rs[n..];
    }
  }

  ghost predicate AllFitFrame(rs: seq<SentResponse>, max: nat) {
    forall r :: r in rs ==> |Written(r)| <= max
  }

  /** Reading a conversation whose responses are no longer than the limit never leaves too much over. */
  lemma {:induction false} NeverOversized(rs: seq<SentResponse>, buffer: bytes, incoming: seq<Read>, max: nat)
    requires AllSentOk(rs) && AllFitFrame(rs, max) && buffer + Received(incoming) <= AllWritten(rs)
    ensures !OversizedTail(buffer, incoming, max)
    decreases |incoming|
  {
    hide CutAll, SentOk, Written, Meant;
    if |incoming| > 0 && incoming[0] != ReadError && incoming[0] != Chunk([]) {
      var p := buffer + incoming[0].data;
      var later := Received(incoming[1..]);
      assert buffer + Received(incoming) == p + later;
      assert p <= AllWritten(rs);
      var n := FrontCut(rs, p);
      var tail := CutAll(p).tail;
      if n < |rs| {
        assert rs[n] in rs;
      }
      assert |tail| <= max;
      AllWrittenSplit(rs, n);
      var done := AllWritten(rs[..n]);
      assert p + later == done + (tail + later);
      assert AllWritten(rs) == done + AllWritten(rs[n..]);
      FrontOfRest(done, tail + later, AllWritten(rs[n..]));
      forall r | r in rs[n..] ensures r in rs {
      }
      NeverOversized(rs[n..], tail, incoming[1..], max);
    }
  }

  lemma FrontOfRest(done: bytes, x: bytes, y: bytes)
    requires done + x <= done + y
    ensures x <= y
  {
    assert forall k :: 0 <= k < |x| ==> x[k] == (done + x)[|done| + k] == (done + y)[|done| + k] == y[k];
  }

  /** However the network cuts the bytes of a conversation up, the read loop dispatches its responses,
      each with the bytes it was written in and as it was meant, in order, and then sees the end. */
  lemma ConversationDispatched(rs: seq<SentResponse>, incoming: seq<Read>, max: nat)
    requires AllSentOk(rs) && AllFitFrame(rs, max) && Received(incoming) == AllWritten(rs)
    ensures Run([], incoming, max) == (FramesOf(rs), Closed)
  {
    hide CutAll, Run, OversizedTail, SentOk, Written, Meant, Received;
    assert [] + Received(incoming) == AllWritten(rs);
    NeverOversized(rs, [], incoming, max);
    TailIsCut([]);
    RunCuts([], incoming, max);
    TooLargeExactly([], incoming, max);
    CutsBack(rs);
  }
}
