/** What the caller of a command gets back, in terms of the frame that answered it. */
module Replies {
  import opened Bytes
  import opened Ast
  import opened Commands
  import opened Dispatcher
  import Framing

  datatype ReplyError = CommandRefused(text: bytes) | ConnectionFailed

  /** What a reply receiver yields: the tagged OK, an error, or nothing because its sender is gone. */
  datatype Reply = Completed(frame: bytes) | Failed(error: ReplyError) | SenderGone

  /** The reply made from the frame that answered a command, as `dispatch_frame` makes it. */
  function ReplyByFrame(f: Framing.Frame): Reply
    requires f.response.StatusResponse?
  {
    match f.response.status
    case StOk => Completed(f.raw)
    case StNo => Failed(CommandRefused(f.response.text))
    case StBad => Failed(CommandRefused(f.response.text))
    case StPreAuth => Failed(CommandRefused(f.response.text))
    case StBye => Failed(ConnectionFailed)
  }

  /** `reply` is what command `id`'s receiver yields in state `s`. */
  ghost predicate IsReply(reply: Reply, wire: seq<Framing.Frame>, s: World, id: nat) {
    if reply.SenderGone? then id !in s.registered
    else
      id in s.answers
      && match s.answers[id]
         case ByFrame(i) => i < |wire| && wire[i].response.StatusResponse? && reply == ReplyByFrame(wire[i])
         case ByFailure => reply == Failed(ConnectionFailed)
  }

  /** A reply that came in time and is the tagged OK. */
  predicate Completes(reply: Option<Reply>) {
    reply.Some? && reply.value.Completed?
  }

  /** The server answered command `id` with OK. */
  ghost predicate AnsweredOk(wire: seq<Framing.Frame>, s: World, id: nat) {
    && id in s.answers && s.answers[id].ByFrame?
    && var i := s.answers[id].i;
       i < |wire| && wire[i].response.StatusResponse?
       && wire[i].response.tag == Some(TagOf(id)) && wire[i].response.status == StOk
  }

  /** The reply is a completion exactly when the server answered the very command with OK. */
  lemma CompletedExactly(reply: Reply, wire: seq<Framing.Frame>, s: World, id: nat)
    requires Reachable(s) && Framing.Logs(wire, s.log) && IsReply(reply, wire, s, id)
    ensures reply.Completed? <==> AnsweredOk(wire, s, id)
  {
    hide Reachable, Framing.Reparses, TagOf;
    RepliesExactlyOnce(s, id);
    AnsweredIsRegistered(s);
    if id in s.answers && s.answers[id].ByFrame? {
      assert wire[s.answers[id].i].response == s.log[s.answers[id].i];
    }
  }

  lemma AnsweredIsRegistered(s: World)
    requires Reachable(s)
    ensures s.answers.Keys <= s.registered
  {
    ReachableInv(s);
    hide NumbersInv, CollectorsInv, StreamsInv, HeldInv, PlacesInv, TagOf, Reachable;
  }
}
