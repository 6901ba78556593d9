/** Cutting a byte stream into frames. The read loop sees the stream in pieces of any size; what it
    dispatches is compared with cutting the whole stream at once. */
module Framing {
  import opened Bytes
  import opened Ast
  import opened Grammar
  import opened Stability
  import Parser = ResponseParser

  /** A complete frame: its bytes, and the response the router saw when it cut them off. */
  datatype Frame = Frame(raw: bytes, response: Response)

  /** Complete frames at the front of a stream, what is left, and the hard error found there if any. */
  datatype Cut = Cut(frames: seq<Frame>, tail: bytes, bad: Option<ParseError>)

  function CutAll(s: bytes): Cut
    decreases |s|
  {
    match ParseResponse(s)
    case Ok(response, k, _) =>
      var rest := CutAll(s[k..]);
      Cut([Frame(s[..k], response)] + rest.frames, rest.tail, rest.bad)
    case Err(e) => Cut([], s, if e == Incomplete then None else Some(e))
  }

  function Raw(frames: seq<Frame>): bytes {
    if |frames| == 0 then [] else frames[0].raw + Raw(frames[1..])
  }

  lemma {:induction false} RawAppend(f: seq<Frame>, g: seq<Frame>)
    ensures Raw(f + g) == Raw(f) + Raw(g)
  {
    if |f| == 0 {
      assert f + g == g;
    } else {
      assert (f + g)[1..] == f[1..] + g;
      RawAppend(f[1..], g);
    }
  }

  /** The frame parses, with nothing left over, to the response it was routed by. */
  predicate Reparses(f: Frame) {
    ParseResponse(f.raw).Ok? && ParseResponse(f.raw).val == f.response && ParseResponse(f.raw).pos == |f.raw|
  }

  lemma FrameReparses(s: bytes)
    requires ParseResponse(s).Ok?
    ensures var r := ParseResponse(s); Reparses(Frame(s[..r.pos], r.val))
  {
    hide ParseResponse;
    FrameStandsAlone(s, []);
    assert s[..ParseResponse(s).pos] + [] == s[..ParseResponse(s).pos];
  }

  /** Cutting loses nothing, every frame re-parses to what was routed, and the tail holds no frame. */
  lemma {:induction false} CutAllFaithful(s: bytes)
    ensures var c := CutAll(s);
            && s == Raw(c.frames) + c.tail
            && (forall f :: f in c.frames ==> Reparses(f))
            && CutAll(c.tail) == Cut([], c.tail, c.bad)
            && ParseResponse(c.tail) == Err(if c.bad.Some? then c.bad.value else Incomplete)
            && c.bad != Some(Incomplete)
    decreases |s|
  {
    hide ParseResponse, Reparses, CutAll;
    CutStep(s);
    match ParseResponse(s)
    case Ok(response, k, _) =>
      FrameReparses(s);
      CutAllFaithful(s[k..]);
      var rest := CutAll(s[k..]).frames;
      assert ([Frame(s[..k], response)] + rest)[1..] == rest;
      assert s == s[..k] + s[k..];
    case Err(e) =>
  }

  /** Appending bytes keeps the frames already cut and goes on from the tail, unless the tail was
      already broken; then nothing more is ever cut. */
  lemma {:induction false} CutAllAppend(p: bytes, s: bytes)
    ensures var c := CutAll(p);
            var d := CutAll(p + s);
            if c.bad.Some? then d.frames == c.frames && d.bad.Some?
            else var e := CutAll(c.tail + s); d == Cut(c.frames + e.frames, e.tail, e.bad)
    decreases |p|
  {
    hide ParseResponse, CutAll;
    VerdictStable(p, s);
    CutStep(p);
    CutStep(p + s);
    match ParseResponse(p)
    case Ok(response, k, _) =>
      assert (p + s)[..k] == p[..k];
      assert (p + s)[k..] == p[k..] + s;
      CutAllAppend(p[k..], s);
      var first := [Frame(p[..k], response)];
      var front := CutAll(p[k..]).frames;
      assert first + (front + CutAll(CutAll(p).tail + s).frames) == first + front + CutAll(CutAll(p).tail + s).frames;
    case Err(e) =>
      assert [] + CutAll(p + s).frames == CutAll(p + s).frames;
  }

  lemma CutStep(s: bytes)
    ensures var r := ParseResponse(s);
            if r.Ok? then
              var rest := CutAll(s[r.pos..]);
              CutAll(s) == Cut([Frame(s[..r.pos], r.val)] + rest.frames, rest.tail, rest.bad)
            else CutAll(s) == Cut([], s, if r.err == Incomplete then None else Some(r.err))
  {
    hide ParseResponse;
  }

  // ---------------------------------------------------------------------------
  // The read loop
  // ---------------------------------------------------------------------------

  /** One `read`: a chunk (an empty one means end of stream) or an I/O error. */
  datatype Read = Chunk(data: bytes) | ReadError

  datatype Stop = Closed | BadFrame(err: ParseError) | FrameTooLarge(max: nat)

  /** The bytes delivered before the stream ends or fails. */
  function Received(incoming: seq<Read>): bytes {
    if |incoming| == 0 || incoming[0] == ReadError || incoming[0] == Chunk([]) then []
    else incoming[0].data + Received(incoming[1..])
  }

  /** What the loop dispatches and why it stops, starting with `buffer` unread. */
  function Run(buffer: bytes, incoming: seq<Read>, max: nat): (seq<Frame>, Stop)
    decreases |incoming|
  {
    if |incoming| == 0 || incoming[0] == ReadError || incoming[0] == Chunk([]) then ([], Closed)
    else
      var c := CutAll(buffer + incoming[0].data);
      if c.bad.Some? then (c.frames, BadFrame(c.bad.value))
      else if |c.tail| > max then (c.frames, FrameTooLarge(max))
      else
        var r := Run(c.tail, incoming[1..], max);
        (c.frames + r.0, r.1)
  }

  /** The inner loop: dispatch every complete frame in `buffer`, stopping at an incomplete one or at
      a hard error. */
  method Drain(buffer: bytes) returns (dispatched: seq<Frame>, residue: bytes, bad: Option<ParseError>)
    ensures Cut(dispatched, residue, bad) == CutAll(buffer)
  {
    hide ParseResponse;
    dispatched, residue, bad := [], buffer, None;
    while |residue| > 0
      invariant var c := CutAll(residue);
                CutAll(buffer) == Cut(dispatched + c.frames, c.tail, c.bad)
      invariant bad == None
      decreases |residue|
    {
      var parsed := Parser.ParseResponse(residue);
      match parsed {
        case Success((remaining, response)) =>
          var consumed := |residue| - |remaining|;
          var frame := Frame(residue[..consumed], response);
          residue := residue[consumed..];
          dispatched := dispatched + [frame];
        case Failure(e) =>
          if e != Incomplete {
            bad := Some(e);
          }
          assert dispatched + [] == dispatched;
          return;
      }
    }
    TailIsCut(residue);
  }

  /** The dispatcher's read loop. `dispatched` lists the frames handed to `dispatch_frame`. */
  method ReadLoop(incoming: seq<Read>, maxFrameSize: nat) returns (dispatched: seq<Frame>, stop: Stop)
    ensures (dispatched, stop) == Run([], incoming, maxFrameSize)
  {
    hide CutAll;
    var buffer: bytes := [];
    dispatched := [];
    var next := 0;
    assert incoming[0..] == incoming;
    assert dispatched + Run([], incoming, maxFrameSize).0 == Run([], incoming, maxFrameSize).0;
    while true
      invariant next <= |incoming|
      invariant var r := Run(buffer, incoming[next..], maxFrameSize);
                Run([], incoming, maxFrameSize) == (dispatched + r.0, r.1)
      decreases |incoming| - next
    {
      if next == |incoming| || incoming[next] == ReadError || incoming[next] == Chunk([]) {
        stop := Closed;
        assert dispatched + [] == dispatched;
        return;
      }
      ghost var before := dispatched;
      assert incoming[next..][1..] == incoming[next + 1..];
      var frames, residue, bad := Drain(buffer + incoming[next].data);
      dispatched := dispatched + frames;
      buffer := residue;
      next := next + 1;
      if bad.Some? {
        stop := BadFrame(bad.value);
        return;
      }
      if |buffer| > maxFrameSize {
        stop := FrameTooLarge(maxFrameSize);
        return;
      }
      ghost var rest := Run(buffer, incoming[next..], maxFrameSize).0;
      assert before + (frames + rest) == dispatched + rest;
    }
  }

  lemma TailIsCut(buffer: bytes)
    ensures |buffer| == 0 ==> CutAll(buffer) == Cut([], buffer, None)
  {
  }

  /** However the stream is chunked, the loop dispatches frames of the one-shot cut, in order and
      from the first. Unless it gave up on an oversized frame it dispatches all of them, and it
      reports a bad frame exactly when the one-shot cut meets one. */
  lemma {:induction false} RunCuts(buffer: bytes, incoming: seq<Read>, max: nat)
    requires CutAll(buffer) == Cut([], buffer, None)
    ensures var r := Run(buffer, incoming, max);
            var c := CutAll(buffer + Received(incoming));
            && r.0 <= c.frames
            && (!r.1.FrameTooLarge? ==> r.0 == c.frames && (r.1.BadFrame? <==> c.bad.Some?))
    decreases |incoming|
  {
    hide ParseResponse, CutAll;
    if |incoming| == 0 || incoming[0] == ReadError || incoming[0] == Chunk([]) {
      assert buffer + Received(incoming) == buffer;
    } else {
      var p := buffer + incoming[0].data;
      var s := Received(incoming[1..]);
      assert buffer + Received(incoming) == p + s;
      CutAllAppend(p, s);
      CutAllFaithful(p);
      var c := CutAll(p);
      if c.bad.None? {
        RunCuts(c.tail, incoming[1..], max);
      }
    }
  }

  /** An incomplete tail longer than `max` is left after some read of the run. */
  predicate OversizedTail(buffer: bytes, incoming: seq<Read>, max: nat)
    decreases |incoming|
  {
    |incoming| > 0 && incoming[0] != ReadError && incoming[0] != Chunk([])
    && var c := CutAll(buffer + incoming[0].data);
       c.bad.None? && (|c.tail| > max || OversizedTail(c.tail, incoming[1..], max))
  }

  lemma {:induction false} TooLargeExactly(buffer: bytes, incoming: seq<Read>, max: nat)
    ensures Run(buffer, incoming, max).1.FrameTooLarge? <==> OversizedTail(buffer, incoming, max)
    decreases |incoming|
  {
    hide ParseResponse;
    if |incoming| > 0 && incoming[0] != ReadError && incoming[0] != Chunk([]) {
      var c := CutAll(buffer + incoming[0].data);
      if c.bad.None? && |c.tail| <= max {
        TooLargeExactly(c.tail, incoming[1..], max);
      }
    }
  }

  /** Two ways of chunking one stream give the same frames in the same order and the same kind of
      stop, provided neither leaves an incomplete tail over the limit. */
  lemma ChunkingIndependent(a: seq<Read>, b: seq<Read>, max: nat)
    requires Received(a) == Received(b)
    requires !OversizedTail([], a, max) && !OversizedTail([], b, max)
    ensures Run([], a, max).0 == Run([], b, max).0 == CutAll(Received(a)).frames
    ensures Run([], a, max).1.BadFrame? <==> Run([], b, max).1.BadFrame?
    ensures Run([], a, max).1.BadFrame? <==> CutAll(Received(a)).bad.Some?
  {
    hide ParseResponse;
    TailIsCut([]);
    assert [] + Received(a) == Received(a);
    RunCuts([], a, max);
    RunCuts([], b, max);
    TooLargeExactly([], a, max);
    TooLargeExactly([], b, max);
  }

  /** Once a prefix of the stream is broken, nothing that follows is dispatched. */
  lemma NothingAfterBadFrame(p: bytes, s: bytes, incoming: seq<Read>, max: nat)
    requires CutAll(p).bad.Some? && Received(incoming) == p + s
    ensures Run([], incoming, max).0 <= CutAll(p).frames
  {
    hide ParseResponse;
    TailIsCut([]);
    assert [] + Received(incoming) == p + s;
    RunCuts([], incoming, max);
    CutAllAppend(p, s);
  }

  /** `wire` lists the frames the read loop cut off, `log` the responses it routed them by. */
  ghost predicate Logs(wire: seq<Frame>, log: seq<Response>) {
    |log| <= |wire| && forall i :: 0 <= i < |log| ==> Reparses(wire[i]) && wire[i].response == log[i]
  }
}
