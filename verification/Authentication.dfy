/** `AUTHENTICATE PLAIN`: when the credentials go out, and what its outcome says about the server. The
    command's stream takes continuation requests; what the caller sees of it comes from the protocol. */
module Authentication {
  import opened Bytes
  import opened Ast
  import opened Commands
  import opened Dispatcher
  import opened Session
  import opened Replies
  import Attribution
  import Framing
  import Grammar
  import Words

  predicate IsContinuation(r: Response) {
    r.Continue?
  }

  /** What follows the command: nothing in time; the end of its stream, and then the reply; or a first
      frame, and then the reply to the credentials, if one comes in time. */
  datatype Exchange = NothingInTime | Ended(reply: Reply) | Continued(frame: bytes, outcome: Option<Reply>)

  /** The last thing heard of the command. */
  function LastReply(exchange: Exchange): Option<Reply> {
    match exchange
    case NothingInTime => None
    case Ended(reply) => Some(reply)
    case Continued(_, outcome) => outcome
  }

  /** The caller of command `id` sees `exchange`: what it says of the stream it sees in state `s`, and
      the reply later, in state `end`. */
  ghost predicate Sees(exchange: Exchange, wire: seq<Framing.Frame>, s: World, end: World, id: nat) {
    match exchange
    case NothingInTime => true
    case Ended(reply) => StreamEnded(s, id) && s.streams[id].received == [] && IsReply(reply, wire, end, id)
    case Continued(frame, outcome) =>
      && id in s.streams && |s.streams[id].received| == 1 && s.streams[id].received[0] < |wire|
      && frame == wire[s.streams[id].received[0]].raw
      && (outcome.Some? ==> IsReply(outcome.value, wire, end, id))
  }

  /** Command `id` was sent with a stream for continuation requests, and `wire` is what the read loop
      cut off in a run through the reachable state `s` and `steps` more. */
  ghost predicate Setting(wire: seq<Framing.Frame>, s: World, steps: seq<Step>, id: nat) {
    && Reachable(s) && id in s.streams && Attribution.SameFilter(s.streams[id].wants, IsContinuation)
    && (ReachableInv(s);
        CanRun(s, steps) && Framing.Logs(wire, RunFrom(s, steps).log))
  }

  ghost function Later(s: World, steps: seq<Step>): (end: World)
    requires Reachable(s) && (ReachableInv(s); CanRun(s, steps))
    ensures Inv(end)
  {
    ReachableInv(s);
    RunFrom(s, steps)
  }

  /** The first frame of the stream is a continuation request of the server, sent ahead of whatever
      frame answers the command, before or after. */
  lemma FirstFrameIsContinuation(wire: seq<Framing.Frame>, s: World, steps: seq<Step>, id: nat)
    requires Setting(wire, s, steps, id) && |s.streams[id].received| == 1
    ensures var i := s.streams[id].received[0];
            var end := Later(s, steps);
            && i < |s.log| && |s.log| <= |end.log| && i < |wire|
            && end.log[i] == s.log[i] && s.log[i].Continue?
            && Grammar.ParseResponse(wire[i].raw).Ok? && Grammar.ParseResponse(wire[i].raw).val == s.log[i]
            && (id in end.answers && end.answers[id].ByFrame? ==>
                  && i < end.answers[id].i < |end.log|
                  && TagIn(end.log[end.answers[id].i]) == Some(TagOf(id)))
  {
    hide Inv, Reachable, CanRun, RunFrom, Grammar.ParseResponse, TagOf;
    ReachableInv(s);
    StreamContents(s, id);
    AnswersStand(s, steps);
    ReceivedStands(s, steps, id);
    RunReachable(s, steps);
    var end := RunFrom(s, steps);
    StreamContents(end, id);
    RepliesExactlyOnce(end, id);
    var i := s.streams[id].received[0];
    assert i == (s.streams[id].received + s.streams[id].buffered)[0];
    assert i == (end.streams[id].received + end.streams[id].buffered)[0];
    assert IsContinuation(s.log[i]);
    assert Framing.Reparses(wire[i]);
  }

  datatype AuthResult =
    | Authenticated
    | InvalidCredentials
    | ServerFailed(error: ReplyError)
    | CompletedWithoutContinuation
    | ConnectionClosed
    | Timeout

  const AUTHENTICATE_PLAIN: bytes :=
    [65, 85, 84, 72, 69, 78, 84, 73, 67, 65, 84, 69, 32, 80, 76, 65, 73, 78]

  /** The server asked for the credentials at place `i` of the wire, in what it sent for command `id`. */
  ghost predicate AskedAt(i: nat, wire: seq<Framing.Frame>, s: World, id: nat)
    requires id in s.streams
  {
    i in s.streams[id].received && i < |wire| && wire[i].response.Continue?
  }

  /** The server accepted the credentials: it answered command `id` with OK, after asking at `i`. */
  ghost predicate AcceptedAfter(i: nat, wire: seq<Framing.Frame>, end: World, id: nat) {
    && id in end.answers && end.answers[id].ByFrame?
    && var k := end.answers[id].i;
       i < k < |wire| && wire[k].response.StatusResponse?
       && wire[k].response.tag == Some(TagOf(id)) && wire[k].response.status == StOk
  }

  /** `authenticate_plain` with `await_continuation`. `written` lists what is handed to the connection.
      The credentials are written at most once, and only after a continuation request
      of the server on this command's stream; success means that it then answered the command with OK. When the stream
      ends first, the command, once registered, has been answered, so that waiting for its reply
      without a timeout cannot hang, and its error is reported. */
  method AuthenticatePlain(user: bytes, pass: bytes, exchange: Exchange,
                           ghost wire: seq<Framing.Frame>, ghost s: World, ghost steps: seq<Step>, ghost id: nat)
      returns (written: seq<bytes>, result: AuthResult)
    requires Setting(wire, s, steps, id) && Sees(exchange, wire, s, Later(s, steps), id)
    ensures result.InvalidCredentials? <==> !NulFree(user) || !NulFree(pass)
    ensures |written| == if result.InvalidCredentials? then 0 else if exchange.Continued? then 2 else 1
    ensures |written| > 0 ==> written[0] == Words.Spell("AUTHENTICATE PLAIN")
    ensures |written| == 2 ==> ReadPlain(written[1]) == Some((user, pass))
    ensures |written| == 2 ==> exists i :: AskedAt(i, wire, s, id)
    ensures result.Authenticated? ==>
              exists i :: AskedAt(i, wire, s, id) && AcceptedAfter(i, wire, Later(s, steps), id)
    ensures !result.InvalidCredentials? ==>
              var reply := LastReply(exchange);
              && (result == Timeout <==> reply.None?)
              && (result == ConnectionClosed <==> reply == Some(SenderGone))
              && (forall e :: result == ServerFailed(e) <==> reply == Some(Failed(e)))
              && (result == Authenticated <==> Completes(reply) && exchange.Continued?)
              && (result == CompletedWithoutContinuation <==> Completes(reply) && exchange.Ended?)
    ensures exchange.Ended? && id in s.registered ==> id in s.answers && !exchange.reply.SenderGone?
  {
    hide PlainLine, ReadPlain, Setting, Inv, Reachable, CanRun, RunFrom, TagOf;
    if exchange.Ended? {
      EndedIsAnswered(wire, s, steps, id);
    } else if exchange.Continued? {
      AskedFirst(wire, s, steps, id);
    }
    if !NulFree(user) || !NulFree(pass) {
      return [], InvalidCredentials;
    }
    written := [AUTHENTICATE_PLAIN];
    assert AUTHENTICATE_PLAIN == Words.Spell("AUTHENTICATE PLAIN");
    match exchange
    case NothingInTime => result := Timeout;
    case Ended(Completed(_)) => result := CompletedWithoutContinuation;
    case Ended(Failed(e)) => result := ServerFailed(e);
    case Ended(SenderGone) => result := ConnectionClosed;
    case Continued(_, outcome) =>
      PlainReadsBack(user, pass);
      var line, _, _ := SaslPlainLine(user, pass);
      written := written + [line];
      match outcome
      case None => result := Timeout;
      case Some(Completed(_)) => result := Authenticated;
      case Some(Failed(e)) => result := ServerFailed(e);
      case Some(SenderGone) => result := ConnectionClosed;
  }

  lemma EndedIsAnswered(wire: seq<Framing.Frame>, s: World, steps: seq<Step>, id: nat)
    requires Setting(wire, s, steps, id) && StreamEnded(s, id)
    ensures id in s.registered ==> id in s.answers && id in Later(s, steps).registered
  {
    hide Inv, Reachable, CanRun, RunFrom, TagOf;
    ReachableInv(s);
    StreamEndMeansAnswered(s, id);
    AnswersStand(s, steps);
  }

  lemma AskedFirst(wire: seq<Framing.Frame>, s: World, steps: seq<Step>, id: nat)
    requires Setting(wire, s, steps, id) && |s.streams[id].received| == 1
    ensures id in s.streams
    ensures var i := s.streams[id].received[0];
            var end := Later(s, steps);
            && AskedAt(i, wire, s, id)
            && forall reply: Reply ::
                 reply.Completed? && IsReply(reply, wire, end, id) ==> AcceptedAfter(i, wire, end, id)
  {
    hide Inv, Reachable, CanRun, RunFrom, TagOf, Grammar.ParseResponse;
    FirstFrameIsContinuation(wire, s, steps, id);
    var i := s.streams[id].received[0];
    var end := Later(s, steps);
    assert wire[i].response == end.log[i];
    if id in end.answers && end.answers[id].ByFrame? {
      assert wire[end.answers[id].i].response == end.log[end.answers[id].i];
    }
  }
}
