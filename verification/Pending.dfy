/** Commands awaiting their tagged response, and the streaming commands' claims on untagged data.
    A command is known by its number; its reply sender and its stream go by that number. */
module Pending {
  import opened Bytes
  import opened Ast

  type FrameFilter = Response -> bool

  /** A streaming command's claim on untagged frames. */
  datatype Collector = Collector(tag: bytes, id: nat, wants: FrameFilter)

  /** The oldest collector whose stream is still open and whose filter accepts `r`. */
  function FindCollector(collectors: seq<Collector>, closed: set<nat>, r: Response): (found: Option<nat>)
    ensures found.Some? ==>
              exists c :: c in collectors && c.id == found.value && c.id !in closed && c.wants(r)
  {
    if |collectors| == 0 then None
    else if collectors[0].id !in closed && collectors[0].wants(r) then Some(collectors[0].id)
    else FindCollector(collectors[1..], closed, r)
  }

  /** The collectors that are not `tag`'s. */
  function Without(collectors: seq<Collector>, tag: bytes): (rest: seq<Collector>)
    ensures forall c :: c in rest <==> c in collectors && c.tag != tag
  {
    if |collectors| == 0 then []
    else
      var front := Without(collectors[..|collectors| - 1], tag);
      var last := collectors[|collectors| - 1];
      assert collectors == collectors[..|collectors| - 1] + [last];
      if last.tag == tag then front else front + [last]
  }

  class PendingCommands {
    var replies: map<bytes, nat>
    var collectors: seq<Collector>

    constructor ()
      ensures replies == map[] && collectors == []
    {
      replies := map[];
      collectors := [];
    }

    method CollectorFor(r: Response, closed: set<nat>) returns (found: Option<nat>)
      ensures found == FindCollector(collectors, closed, r)
    {
      var k := 0;
      assert collectors[0..] == collectors;
      while k < |collectors|
        invariant k <= |collectors|
        invariant FindCollector(collectors[k..], closed, r) == FindCollector(collectors, closed, r)
      {
        if collectors[k].id !in closed && collectors[k].wants(r) {
          return Some(collectors[k].id);
        }
        k := k + 1;
        assert collectors[k - 1..][1..] == collectors[k..];
      }
      found := None;
    }

    /** Take `tag`'s reply sender and end its stream, if it has one. */
    method Complete(tag: bytes) returns (reply: Option<nat>)
      modifies this
      ensures collectors == Without(old(collectors), tag)
      ensures replies == old(replies) - {tag}
      ensures reply == if tag in old(replies) then Some(old(replies)[tag]) else None
    {
      var kept: seq<Collector> := [];
      var k := 0;
      while k < |collectors|
        invariant k <= |collectors|
        invariant collectors == old(collectors) && replies == old(replies)
        invariant kept == Without(collectors[..k], tag)
      {
        assert collectors[..k + 1][..k] == collectors[..k];
        if collectors[k].tag != tag {
          kept := kept + [collectors[k]];
        }
        k := k + 1;
      }
      assert collectors[..k] == collectors;
      collectors := kept;
      reply := if tag in replies then Some(replies[tag]) else None;
      replies := replies - {tag};
    }

    /** Record a command before its bytes are written. */
    method Register(tag: bytes, id: nat, wants: Option<FrameFilter>)
      modifies this
      ensures replies == old(replies)[tag := id]
      ensures collectors == old(collectors) + if wants.Some? then [Collector(tag, id, wants.value)] else []
    {
      if wants.Some? {
        collectors := collectors + [Collector(tag, id, wants.value)];
      }
      replies := replies[tag := id];
    }

    /** Give up on every waiter; returns the commands to fail. */
    method FailAll() returns (failed: set<nat>)
      modifies this
      ensures collectors == [] && replies == map[]
      ensures failed == old(replies).Values
    {
      collectors := [];
      failed := replies.Values;
      replies := map[];
    }
  }
}
