/** The session layer: credentials as sent, and the collectors behind `fetch` and `search`, which
    parse every frame a second time. */
module Session {
  import opened Bytes
  import opened Ast
  import Grammar
  import Parser = ResponseParser
  import Framing
  import opened Replies
  import Commands
  import Wire
  import Base64
  import Dispatcher
  import Attribution
  import Words

  // ---------------------------------------------------------------------------
  // Credentials
  // ---------------------------------------------------------------------------

  predicate NulFree(s: bytes) {
    forall k :: 0 <= k < |s| ==> s[k] != NUL
  }

  /** Empty authorization identity, user, password (section 2 of RFC 4616). */
  function PlainMessage(user: bytes, pass: bytes): bytes {
    [NUL] + user + [NUL] + pass
  }

  function PlainLine(user: bytes, pass: bytes): bytes {
    Base64.Encode(PlainMessage(user, pass)) + CRLF
  }

  /** `sasl_plain_line`: each of its two buffers gets exactly the capacity reserved for it. */
  method SaslPlainLine(user: bytes, pass: bytes) returns (line: bytes, messageCapacity: nat, lineCapacity: nat)
    ensures line == PlainLine(user, pass)
    ensures |PlainMessage(user, pass)| == messageCapacity
    ensures |line| == lineCapacity
  {
    hide Base64.Encode;
    messageCapacity := 2 + |user| + |pass|;
    var sasl: bytes := [NUL];
    sasl := sasl + user;
    sasl := sasl + [NUL];
    sasl := sasl + pass;
    lineCapacity := Base64.EncodedLen(|sasl|) + |CRLF|;
    line := Base64.EncodeInto(sasl, []);
    line := line + CRLF;
  }

  /** What a server reads: the three NUL-separated parts of the decoded message. */
  function ReadPlain(line: bytes): Option<(bytes, bytes)> {
    if |line| < 2 || line[|line| - 2..] != CRLF then None
    else
      match Base64.Decode(line[..|line| - 2])
      case None => None
      case Some(message) =>
        if |message| == 0 || message[0] != NUL then None
        else
          var j := NulAt(message, 1);
          if j < |message| then Some((message[1..j], message[j + 1..])) else None
  }

  function NulAt(s: bytes, i: nat): (j: nat)
    requires i <= |s|
    ensures i <= j <= |s|
    decreases |s| - i
  {
    if i < |s| && s[i] != NUL then NulAt(s, i + 1) else i
  }

  lemma {:induction false} NulAtFirst(s: bytes, i: nat, j: nat)
    requires i <= j < |s| && s[j] == NUL && forall k :: i <= k < j ==> s[k] != NUL
    ensures NulAt(s, i) == j
    decreases j - i
  {
    if i < j {
      NulAtFirst(s, i + 1, j);
    }
  }

  /** The server gets the user and the password back; the user must hold no NUL. */
  lemma PlainReadsBack(user: bytes, pass: bytes)
    requires NulFree(user)
    ensures ReadPlain(PlainLine(user, pass)) == Some((user, pass))
  {
    hide Base64.Encode, Base64.Decode;
    var message := PlainMessage(user, pass);
    var line := PlainLine(user, pass);
    assert line[|line| - 2..] == CRLF && line[..|line| - 2] == Base64.Encode(message);
    Base64.DecodeExactly(Base64.Encode(message), message);
    var j := |user| + 1;
    forall k | 1 <= k < j ensures message[k] != NUL {
      assert message[k] == user[k - 1];
    }
    NulAtFirst(message, 1, j);
    assert message[1..j] == user && message[j + 1..] == pass;
  }

  /** Different credentials never give the same line. */
  lemma PlainLineInjective(user: bytes, pass: bytes, user': bytes, pass': bytes)
    requires NulFree(user) && NulFree(user')
    ensures PlainLine(user, pass) == PlainLine(user', pass') <==> user == user' && pass == pass'
  {
    hide ReadPlain, PlainLine;
    PlainReadsBack(user, pass);
    PlainReadsBack(user', pass');
  }

  const LOGIN: bytes := [76, 79, 71, 73, 78]

  /** `login` up to sending: refused when a quoted string cannot carry the credentials. */
  method LoginCommand(user: bytes, pass: bytes) returns (command: Option<bytes>)
    requires Utf8(user) && Utf8(pass)
    ensures command.Some? <==> Quotable(user) && Quotable(pass)
    ensures command.Some? ==> command.value == LoginLine(user, pass)
  {
    hide Utf8, Wire.Escape;
    var u := Wire.ImapQuoted(user);
    if u.None? {
      return None;
    }
    var p := Wire.ImapQuoted(pass);
    if p.None? {
      return None;
    }
    command := Some(LOGIN + [SP] + u.value + [SP] + p.value);
  }

  predicate Quotable(s: bytes) {
    Commands.IsOneLine(s) && Ascii(s)
  }

  function LoginLine(user: bytes, pass: bytes): bytes {
    LOGIN + [SP] + Wire.QuotedForm(user) + [SP] + Wire.QuotedForm(pass)
  }

  /** Two astrings with a space between, unescaped, and nothing after them. */
  function ReadLogin(line: bytes): Option<(bytes, bytes)> {
    if !At(line, 0, Words.LOGIN + [SP]) then None
    else
      match Grammar.AString(line, |Words.LOGIN| + 1, 0)
      case Err(_) => None
      case Ok(user, i, _) =>
        if !Grammar.Next(line, i, SP) then None
        else
          match Grammar.AString(line, i + 1, 0)
          case Err(_) => None
          case Ok(pass, e, _) => if e == |line| then Some((Wire.Unescape(user), Wire.Unescape(pass))) else None
  }

  lemma QuotedArgumentAt(a: bytes, i: nat, s: bytes)
    requires At(a, i, Wire.QuotedForm(s)) && Utf8(s) && Commands.IsOneLine(s)
    ensures i <= |a|
    ensures var r := Grammar.AString(a, i, 0); r.Ok? && r.pos == i + |Wire.QuotedForm(s)| && Wire.Unescape(r.val) == s
  {
    hide Grammar.Quoted, Wire.Escape, Wire.Unescape, Utf8, At;
    Wire.QuotedFormAt(a, i, 0, s);
    AtFirst(a, i, Wire.QuotedForm(s));
    Wire.UnescapeEscape(s);
  }

  /** A server reads the credentials of a `LOGIN` line back as they were given. */
  lemma LoginReadsBack(user: bytes, pass: bytes)
    requires Quotable(user) && Quotable(pass)
    ensures ReadLogin(LoginLine(user, pass)) == Some((user, pass))
  {
    hide At, Wire.QuotedForm, Wire.Unescape, Utf8, Grammar.AString;
    var u, p := Wire.QuotedForm(user), Wire.QuotedForm(pass);
    var line := LoginLine(user, pass);
    AsciiIsUtf8(user);
    AsciiIsUtf8(pass);
    AtWhole(line);
    assert Words.LOGIN == LOGIN;
    assert line == (LOGIN + [SP]) + (u + ([SP] + p));
    AtConcat(line, 0, LOGIN + [SP], u + ([SP] + p));
    AtConcat(line, |LOGIN| + 1, u, [SP] + p);
    AtByte(line, |LOGIN| + 1 + |u|, SP, p);
    QuotedArgumentAt(line, |LOGIN| + 1, user);
    QuotedArgumentAt(line, |LOGIN| + 1 + |u| + 1, pass);
  }

  // ---------------------------------------------------------------------------
  // FETCH and SEARCH results
  // ---------------------------------------------------------------------------

  predicate IsFetch(r: Response) {
    r.Data? && r.data.Fetch?
  }

  predicate IsSearch(r: Response) {
    r.Data? && r.data.Search?
  }

  datatype FetchResult = FetchResult(number: nat, uid: Option<nat>, body: Option<bytes>)

  /** The message data an attribute carries, if it is one the result keeps. */
  function BodyOf(att: FetchAttribute): Option<bytes> {
    match att
    case BodySection(_, _, content) => content
    case Body(raw) => Some(raw)
    case Rfc822(data) => Some(data)
    case _ => None
  }

  function UidOf(att: FetchAttribute): Option<nat> {
    if att.Uid? then Some(att.n) else None
  }

  /** `v` is what the last of `atts` that has a value under `value` says. */
  ghost predicate IsLast<A, T>(atts: seq<A>, value: A -> Option<T>, v: Option<T>) {
    match v
    case None => forall k :: 0 <= k < |atts| ==> value(atts[k]).None?
    case Some(_) =>
      exists k :: 0 <= k < |atts| && value(atts[k]) == v && forall j :: k < j < |atts| ==> value(atts[j]).None?
  }

  /** The result of a FETCH response: its number, and the last UID and body among its attributes. */
  ghost predicate IsResultOf(f: FetchResult, r: Response)
    requires IsFetch(r)
  {
    f.number == r.data.n && IsLast(r.data.attributes, UidOf, f.uid) && IsLast(r.data.attributes, BodyOf, f.body)
  }

  lemma IsLastNext<A, T>(atts: seq<A>, i: nat, value: A -> Option<T>, v: Option<T>)
    requires i < |atts| && IsLast(atts[..i], value, v)
    ensures IsLast(atts[..i + 1], value, if value(atts[i]).Some? then value(atts[i]) else v)
  {
    var next := atts[..i + 1];
    assert next == atts[..i] + [atts[i]];
    if value(atts[i]).Some? {
      assert value(next[i]) == value(atts[i]);
    } else if v.Some? {
      var k :| 0 <= k < i && value(atts[..i][k]) == v && forall j :: k < j < i ==> value(atts[..i][j]).None?;
      assert value(next[k]) == v;
      forall j | k < j < i + 1 ensures value(next[j]).None? {
        if j < i {
          assert next[j] == atts[..i][j];
        }
      }
    } else {
      forall j | 0 <= j < i + 1 ensures value(next[j]).None? {
        if j < i {
          assert next[j] == atts[..i][j];
        }
      }
    }
  }

  /** `fetch_result`: parse the frame again and pick out what the result keeps. */
  method FetchResultOf(frame: bytes) returns (result: Option<FetchResult>)
    ensures var r := Grammar.ParseResponse(frame);
            && (result.Some? <==> r.Ok? && IsFetch(r.val))
            && (result.Some? ==> IsResultOf(result.value, r.val))
  {
    hide Grammar.ParseResponse;
    var parsed := Parser.ParseResponse(frame);
    if parsed.Failure? || !IsFetch(parsed.value.1) {
      return None;
    }
    var data := parsed.value.1.data;
    var atts := data.attributes;
    var uid: Option<nat> := None;
    var body: Option<bytes> := None;
    for i := 0 to |atts|
      invariant IsLast(atts[..i], UidOf, uid) && IsLast(atts[..i], BodyOf, body)
    {
      IsLastNext(atts, i, UidOf, uid);
      IsLastNext(atts, i, BodyOf, body);
      match atts[i] {
        case Uid(n) => uid := Some(n);
        case BodySection(_, _, Some(d)) => body := Some(d);
        case Body(raw) => body := Some(raw);
        case Rfc822(d) => body := Some(d);
        case _ =>
      }
    }
    assert atts[..|atts|] == atts;
    result := Some(FetchResult(data.n, uid, body));
  }

  /** The collecting loop behind `fetch`: results for the frames that parse as FETCH responses. */
  ghost predicate Collects(frames: seq<bytes>, results: seq<FetchResult>) {
    if |frames| == 0 then results == []
    else
      var n := |frames| - 1;
      var r := Grammar.ParseResponse(frames[n]);
      if r.Ok? && IsFetch(r.val)
      then |results| > 0 && IsResultOf(results[|results| - 1], r.val) && Collects(frames[..n], results[..|results| - 1])
      else Collects(frames[..n], results)
  }

  /** What `fetch` returns for the frames its stream delivered and the reply it got, if one came in
      time: the results if that is the tagged OK, and an error otherwise. */
  ghost predicate FetchReturns(frames: seq<bytes>, reply: Option<Reply>, returned: Option<seq<FetchResult>>) {
    (returned.Some? <==> Completes(reply)) && (returned.Some? ==> Collects(frames, returned.value))
  }

  /** `fetch` after sending. */
  method Fetch(frames: seq<bytes>, reply: Option<Reply>) returns (results: Option<seq<FetchResult>>)
    ensures FetchReturns(frames, reply, results)
  {
    hide Grammar.ParseResponse, IsResultOf;
    var collected: seq<FetchResult> := [];
    for i := 0 to |frames|
      invariant Collects(frames[..i], collected)
    {
      var result := FetchResultOf(frames[i]);
      assert frames[..i + 1][..i] == frames[..i];
      if result.Some? {
        assert (collected + [result.value])[..|collected|] == collected;
        collected := collected + [result.value];
      }
    }
    assert frames[..|frames|] == frames;
    results := if Completes(reply) then Some(collected) else None;
  }

  /** The numbers of the frames that parse as SEARCH responses, one list after the other. */
  function SearchIds(frames: seq<bytes>): seq<nat> {
    if |frames| == 0 then []
    else
      var n := |frames| - 1;
      match Grammar.ParseResponse(frames[n])
      case Ok(Data(Search(ids)), _, _) => SearchIds(frames[..n]) + ids
      case _ => SearchIds(frames[..n])
  }

  /** `run_search` after sending. */
  method RunSearch(frames: seq<bytes>, reply: Option<Reply>) returns (ids: Option<seq<nat>>)
    ensures ids == if Completes(reply) then Some(SearchIds(frames)) else None
  {
    hide Grammar.ParseResponse;
    var all: seq<nat> := [];
    for i := 0 to |frames|
      invariant all == SearchIds(frames[..i])
    {
      var parsed := Parser.ParseResponse(frames[i]);
      assert frames[..i + 1][..i] == frames[..i];
      if parsed.Success? && IsSearch(parsed.value.1) {
        all := all + parsed.value.1.data.ids;
      }
    }
    assert frames[..|frames|] == frames;
    ids := if Completes(reply) then Some(all) else None;
  }

  // ---------------------------------------------------------------------------
  // What the collectors make of a connection
  // ---------------------------------------------------------------------------

  /** The bytes of the frames at places `at`. */
  function FramesAt(wire: seq<Framing.Frame>, at: seq<nat>): (frames: seq<bytes>)
    requires OnWire(wire, at)
    ensures |frames| == |at|
  {
    seq(|at|, k requires 0 <= k < |at| => wire[at[k]].raw)
  }

  /** The id lists of the responses at places `at`, one after the other. */
  function RoutedIds(log: seq<Response>, at: seq<nat>): seq<nat>
    requires forall k :: 0 <= k < |at| ==> at[k] < |log| && IsSearch(log[at[k]])
  {
    if |at| == 0 then []
    else
      var n := |at| - 1;
      assert IsSearch(log[at[n]]);
      RoutedIds(log, at[..n]) + log[at[n]].data.ids
  }

  lemma FramesAtSnoc(wire: seq<Framing.Frame>, at: seq<nat>)
    requires |at| > 0 && OnWire(wire, at)
    ensures var n := |at| - 1;
            FramesAt(wire, at)[n] == wire[at[n]].raw && FramesAt(wire, at)[..n] == FramesAt(wire, at[..n])
  {
  }

  /** Routed FETCH frames give one result each, in order, and each the result of the response the
      router saw. */
  lemma {:induction false} OneResultPerFrame(wire: seq<Framing.Frame>, log: seq<Response>, at: seq<nat>,
                                             results: seq<FetchResult>)
    requires Framing.Logs(wire, log)
    requires forall k :: 0 <= k < |at| ==> at[k] < |log| && IsFetch(log[at[k]])
    requires Collects(FramesAt(wire, at), results)
    ensures |results| == |at|
    ensures forall k :: 0 <= k < |at| ==> IsResultOf(results[k], log[at[k]])
    decreases |at|
  {
    hide Grammar.ParseResponse, IsResultOf;
    if |at| > 0 {
      FramesAtSnoc(wire, at);
      OneResultPerFrame(wire, log, at[..|at| - 1], results[..|results| - 1]);
    }
  }

  lemma {:induction false} IdsConcatenated(wire: seq<Framing.Frame>, log: seq<Response>, at: seq<nat>)
    requires Framing.Logs(wire, log)
    requires forall k :: 0 <= k < |at| ==> at[k] < |log| && IsSearch(log[at[k]])
    ensures SearchIds(FramesAt(wire, at)) == RoutedIds(log, at)
    decreases |at|
  {
    hide Grammar.ParseResponse;
    if |at| > 0 {
      FramesAtSnoc(wire, at);
      IdsConcatenated(wire, log, at[..|at| - 1]);
    }
  }

  /** In every reachable state the results a `fetch` has collected are one per frame its stream
      received, each read off the very response that was routed to it, in wire order. */
  lemma FetchSeesRouted(wire: seq<Framing.Frame>, s: Dispatcher.World, id: nat, results: seq<FetchResult>)
    requires Dispatcher.Reachable(s) && id in s.streams && Framing.Logs(wire, s.log)
    requires Attribution.SameFilter(s.streams[id].wants, IsFetch)
    requires CollectedFrom(wire, s, id, results)
    ensures var at := s.streams[id].received;
            && Dispatcher.Increasing(at)
            && |results| == |at|
            && forall k :: 0 <= k < |at| ==>
                 at[k] < |s.log| && IsFetch(s.log[at[k]]) && IsResultOf(results[k], s.log[at[k]])
  {
    hide Dispatcher.Reachable, Collects, FramesAt, IsResultOf, IsFetch;
    Dispatcher.StreamContents(s, id);
    var st := s.streams[id];
    var seen := st.received + st.buffered;
    forall k | 0 <= k < |st.received| ensures seen[k] == st.received[k] {
    }
    assert forall k :: 0 <= k < |st.received| ==> IsFetch(s.log[seen[k]]);
    OneResultPerFrame(wire, s.log, st.received, results);
  }

  predicate OnWire(wire: seq<Framing.Frame>, at: seq<nat>) {
    forall k :: 0 <= k < |at| ==> at[k] < |wire|
  }

  /** `results` is what `fetch` has collected from the frames its stream has received. */
  ghost predicate CollectedFrom(wire: seq<Framing.Frame>, s: Dispatcher.World, id: nat, results: seq<FetchResult>) {
    && id in s.streams && OnWire(wire, s.streams[id].received)
    && Collects(FramesAt(wire, s.streams[id].received), results)
  }

  /** Every frame the read loop dispatches, however the stream was chunked, parses on its own to the
      response it was routed by. */
  lemma DispatchedFramesReparse(incoming: seq<Framing.Read>, max: nat, log: seq<Response>)
    requires var wire := Framing.Run([], incoming, max).0;
             |log| <= |wire| && forall i :: 0 <= i < |log| ==> log[i] == wire[i].response
    ensures Framing.Logs(Framing.Run([], incoming, max).0, log)
  {
    hide Framing.Run, Framing.CutAll, Framing.Received, Framing.Reparses;
    var wire := Framing.Run([], incoming, max).0;
    var stream := [] + Framing.Received(incoming);
    Framing.TailIsCut([]);
    Framing.RunCuts([], incoming, max);
    Framing.CutAllFaithful(stream);
    forall i | 0 <= i < |wire| ensures Framing.Reparses(wire[i]) {
      assert wire[i] == Framing.CutAll(stream).frames[i];
    }
  }

  /** The stream's caller has been told that no frame is left, with the stream still open. */
  ghost predicate StreamEnded(s: Dispatcher.World, id: nat) {
    && id in s.streams && s.streams[id].phase == Dispatcher.Open
    && s.streams[id].buffered == [] && Dispatcher.SendersGone(s, id)
  }

  ghost predicate AllAccepted(log: seq<Response>, at: seq<nat>, f: Response -> bool) {
    forall k :: 0 <= k < |at| ==> at[k] < |log| && f(log[at[k]])
  }

  lemma {:induction false} BlockIsAccepted(log: seq<Response>, family: seq<nat>, f: Response -> bool, j: nat)
    ensures AllAccepted(log, Attribution.Block(log, family, f, j), f)
    decreases |log|
  {
    if |log| > 0 {
      var n := |log| - 1;
      BlockIsAccepted(log[..n], family, f, j);
      var front := Attribution.Block(log[..n], family, f, j);
      assert forall k :: 0 <= k < |front| ==> log[..n][front[k]] == log[front[k]];
    }
  }

  /** `s` ends the run `steps` of pipelined commands with filter `f`, answered in order, and there the
      stream of the `j`-th one has ended. */
  ghost predicate PipelineDone(steps: seq<Dispatcher.Step>, s: Dispatcher.World, family: seq<nat>,
                               f: Response -> bool, upTo: nat, j: nat) {
    && j < upTo && j < |family|
    && Dispatcher.Increasing(family) && (forall k :: 0 <= k < |family| ==> 1 <= family[k])
    && Dispatcher.EndsIn(steps, s) && Attribution.DisciplinedFromStart(steps, f, family, upTo)
    && StreamEnded(s, family[j]) && !s.reader.Holding?
  }

  /** The stream received its command's own block of frames, whole and in order. */
  lemma EndedStreamHasItsBlock(steps: seq<Dispatcher.Step>, s: Dispatcher.World, family: seq<nat>,
                               f: Response -> bool, upTo: nat, j: nat)
    requires PipelineDone(steps, s, family, f, upTo, j)
    ensures var block := Attribution.Block(s.log, family, f, j);
            s.streams[family[j]].received == block && AllAccepted(s.log, block, f)
  {
    hide Attribution.DisciplinedFromStart, Attribution.Block, Dispatcher.IsRun, Dispatcher.EndOf;
    Attribution.PipelinedAttribution(steps, f, family, upTo, j);
    assert Dispatcher.EndsIn(steps, s);
    Dispatcher.StreamEndMeansAnswered(s, family[j]);
    BlockIsAccepted(s.log, family, f, j);
  }

  /** The `j`-th of any number of pipelined SEARCH commands returns exactly the ids the server sent
      for it, concatenated in wire order. */
  lemma PipelinedSearch(wire: seq<Framing.Frame>, steps: seq<Dispatcher.Step>, s: Dispatcher.World,
                        family: seq<nat>, upTo: nat, j: nat)
    requires PipelineDone(steps, s, family, IsSearch, upTo, j) && Framing.Logs(wire, s.log)
    ensures var block := Attribution.Block(s.log, family, IsSearch, j);
            && AllAccepted(s.log, block, IsSearch)
            && s.streams[family[j]].received == block
            && SearchIds(FramesAt(wire, block)) == RoutedIds(s.log, block)
  {
    hide Dispatcher.EndsIn, Attribution.Block, RoutedIds, SearchIds, FramesAt;
    EndedStreamHasItsBlock(steps, s, family, IsSearch, upTo, j);
    IdsConcatenated(wire, s.log, Attribution.Block(s.log, family, IsSearch, j));
  }

  /** The `j`-th of any number of pipelined FETCH commands returns one result for each FETCH
      response the server sent for it, in wire order, and nothing else. */
  lemma PipelinedFetch(wire: seq<Framing.Frame>, steps: seq<Dispatcher.Step>, s: Dispatcher.World,
                       family: seq<nat>, upTo: nat, j: nat, results: seq<FetchResult>)
    requires PipelineDone(steps, s, family, IsFetch, upTo, j) && Framing.Logs(wire, s.log)
    requires CollectedFrom(wire, s, family[j], results)
    ensures var block := Attribution.Block(s.log, family, IsFetch, j);
            && AllAccepted(s.log, block, IsFetch)
            && |results| == |block|
            && forall k :: 0 <= k < |block| ==> IsResultOf(results[k], s.log[block[k]])
  {
    hide Dispatcher.EndsIn, Attribution.Block, Collects, FramesAt, IsResultOf;
    EndedStreamHasItsBlock(steps, s, family, IsFetch, upTo, j);
    OneResultPerFrame(wire, s.log, Attribution.Block(s.log, family, IsFetch, j), results);
  }
}
