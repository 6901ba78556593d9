/** The cleartext exchange before STARTTLS: a frame reader with a bounded buffer, and the steps that
    lead to the TLS handshake. */
module PreTls {
  import opened Bytes
  import opened Ast
  import opened Grammar
  import opened Stability
  import Parser = ResponseParser
  import Words

  const MAX_PRE_TLS_FRAME: nat := 64 * 1024

  /** "T0001 CAPABILITY" and "T0002 STARTTLS" with their CRLF. */
  const T0001: bytes := [84, 48, 48, 48, 49]
  const T0002: bytes := [84, 48, 48, 48, 50]
  const STARTTLS: bytes := [83, 84, 65, 82, 84, 84, 76, 83]
  const CAPABILITY_LINE: bytes := T0001 + [32] + CAPABILITY + CRLF
  const STARTTLS_LINE: bytes := T0002 + [32] + STARTTLS + CRLF

  datatype Failure = Timeout | Io | ConnectionClosed | FrameTooLarge | MalformedResponse | Refused(why: string)

  datatype Outcome<+T> = Done(value: T) | Failed(failure: Failure) {
    predicate IsFailure() { Failed? }
    function PropagateFailure<U>(): Outcome<U>
      requires Failed?
    {
      Failed(failure)
    }
    function Extract(): T
      requires Done?
    {
      value
    }
  }

  /** A network stream: the bytes the peer has still to deliver before it closes, and the bytes
      written to it. Chunk sizes, deadlines and I/O errors are left to chance. */
  class Stream {
    var unread: bytes
    var written: bytes

    constructor (unread: bytes)
      ensures this.unread == unread && written == []
    {
      this.unread := unread;
      written := [];
    }

    /** Read at most `room` bytes; no bytes means the peer has closed. */
    method Read(room: nat) returns (r: Outcome<bytes>)
      requires room > 0
      modifies this`unread
      ensures r.Done? ==> |r.value| <= room && old(unread) == r.value + unread && (r.value == [] <==> old(unread) == [])
      ensures r.Failed? ==> (r.failure == Timeout || r.failure == Io) && unread == old(unread)
    {
      var late: bool := *;
      var broken: bool := *;
      if late {
        return Failed(Timeout);
      }
      if broken {
        return Failed(Io);
      }
      if unread == [] {
        return Done([]);
      }
      var n: nat :| 1 <= n <= |unread| && n <= room;
      r := Done(unread[..n]);
      unread := unread[n..];
    }

    /** Write all of `data`, or fail having written some `n` bytes of it. */
    method WriteAll(data: bytes) returns (r: Outcome<()>, ghost n: nat)
      modifies this`written
      ensures n <= |data| && written == old(written) + data[..n]
      ensures r.Done? ==> n == |data|
      ensures r.Failed? ==> r.failure == Timeout || r.failure == Io
    {
      var sent: nat :| sent <= |data|;
      var late: bool := *;
      written := written + data[..sent];
      n := sent;
      r := if late then Failed(Timeout) else if sent < |data| then Failed(Io) else Done(());
    }
  }

  /** The bytes on which the reader's answer depends: all it may buffer of what is on offer. */
  function Window(buf: bytes, unread: bytes): bytes {
    if |buf| >= MAX_PRE_TLS_FRAME then buf
    else
      var all := buf + unread;
      if |all| <= MAX_PRE_TLS_FRAME then all else all[..MAX_PRE_TLS_FRAME]
  }

  /** The frame at the front of a window, or the reason there is none. */
  function FirstFrame(window: bytes): Outcome<bytes> {
    match ParseResponse(window)
    case Ok(_, k, _) => Done(window[..k])
    case Err(e) =>
      if e != Incomplete then Failed(MalformedResponse)
      else if |window| >= MAX_PRE_TLS_FRAME then Failed(FrameTooLarge)
      else Failed(ConnectionClosed)
  }

  predicate Aborted<T>(r: Outcome<T>) {
    r == Failed(Timeout) || r == Failed(Io)
  }

  /** Whatever part of the window is buffered, a verdict other than `Incomplete` on it is the
      window's own. */
  lemma WindowDecides(window: bytes, buf: bytes)
    requires buf <= window
    ensures ParseResponse(buf) != Err(Incomplete) ==> FirstFrame(buf) == FirstFrame(window)
  {
    hide ParseResponse;
    VerdictStable(buf, window[|buf|..]);
    assert buf + window[|buf|..] == window;
    if ParseResponse(buf).Ok? {
      assert buf[..ParseResponse(buf).pos] == window[..ParseResponse(buf).pos];
    }
  }

  method ReadOneFrame(stream: Stream, buf: bytes) returns (r: Outcome<bytes>, rest: bytes)
    modifies stream`unread
    ensures Aborted(r) || r == FirstFrame(Window(buf, old(stream.unread)))
    ensures r.Done? ==> r.value + rest + stream.unread == buf + old(stream.unread)
    ensures !r.Done? ==> rest + stream.unread == buf + old(stream.unread)
    ensures |rest| <= 65536 || |rest| <= |buf|
    ensures r.Done? ==> 0 < |r.value|
  {
    hide ParseResponse;
    rest := buf;
    ghost var window := Window(buf, stream.unread);
    while true
      invariant rest + stream.unread == buf + old(stream.unread)
      invariant buf <= rest <= window
      invariant |rest| <= MAX_PRE_TLS_FRAME || rest == buf
      decreases |stream.unread|
    {
      WindowDecides(window, rest);
      EmptyIsIncomplete();
      if |rest| > 0 {
        var parsed := Parser.ParseResponse(rest);
        match parsed {
          case Success((remaining, _)) =>
            var consumed := |rest| - |remaining|;
            r, rest := Done(rest[..consumed]), rest[consumed..];
            return;
          case Failure(e) =>
            if e != Incomplete {
              return Failed(MalformedResponse), rest;
            }
        }
      }
      var room := if |rest| >= MAX_PRE_TLS_FRAME then 0 else MAX_PRE_TLS_FRAME - |rest|;
      if room == 0 {
        assert rest == window;
        return Failed(FrameTooLarge), rest;
      }
      var got := stream.Read(room);
      if got.Failed? {
        return Failed(got.failure), rest;
      }
      if got.value == [] {
        assert rest == window;
        return Failed(ConnectionClosed), rest;
      }
      rest := rest + got.value;
    }
  }

  lemma EmptyIsIncomplete()
    ensures ParseResponse([]) == Err(Incomplete)
  {
  }

  /** The reader returns the first frame of the stream exactly when that frame fits the limit. */
  lemma FirstFrameFits(unread: bytes)
    ensures FirstFrame(Window([], unread)).Done?
            <==> ParseResponse(unread).Ok? && ParseResponse(unread).pos <= 65536
    ensures FirstFrame(Window([], unread)).Done?
            ==> FirstFrame(Window([], unread)).value == unread[..ParseResponse(unread).pos]
  {
    hide ParseResponse;
    var window := Window([], unread);
    assert [] + unread == unread;
    var rest := unread[|window|..];
    assert window + rest == unread;
    VerdictStable(window, rest);
    if ParseResponse(unread).Ok? && ParseResponse(unread).pos <= |window| {
      ParseResponseCarries(unread, window, |window|);
    }
  }

  /** What the reader answers, by the bytes on offer alone. */
  lemma OutcomeExactly(buf: bytes, unread: bytes)
    requires |buf| <= 65536
    ensures var all := buf + unread;
            var r := FirstFrame(Window(buf, unread));
            && (r.Done? <==> ParseResponse(all).Ok? && ParseResponse(all).pos <= 65536)
            && (r.Done? ==> r.value == all[..ParseResponse(all).pos])
            && (r == Failed(MalformedResponse) <==>
                exists n :: 0 <= n <= |all| && n <= 65536 && ParseResponse(all[..n]).Hard())
            && (r == Failed(FrameTooLarge) <==> |all| >= 65536 && ParseResponse(all[..65536]) == Err(Incomplete))
            && (r == Failed(ConnectionClosed) <==> |all| < 65536 && ParseResponse(all) == Err(Incomplete))
            && (r.Failed? ==> r.failure in {MalformedResponse, FrameTooLarge, ConnectionClosed})
  {
    hide ParseResponse;
    var all := buf + unread;
    var window := Window(buf, unread);
    var k := if |all| <= 65536 then |all| else 65536;
    assert window == all[..k];
    assert all[..|all|] == all;
    FrontDecides(all, k);
    assert ParseResponse(window).Hard() ==> ParseResponse(all[..k]).Hard();
    forall n | 0 <= n <= k && ParseResponse(all[..n]).Hard() ensures ParseResponse(window).Hard() {
      assert all[..k] == all[..n] + all[n..k];
      VerdictStable(all[..n], all[n..k]);
    }
  }

  /** Whether a front of the stream holds a whole frame. */
  lemma FrontDecides(all: bytes, k: nat)
    requires k <= |all|
    ensures ParseResponse(all[..k]).Ok? <==> ParseResponse(all).Ok? && ParseResponse(all).pos <= k
    ensures ParseResponse(all[..k]).Ok? ==> all[..k][..ParseResponse(all[..k]).pos] == all[..ParseResponse(all).pos]
  {
    hide ParseResponse;
    VerdictStable(all[..k], all[k..]);
    assert all[..k] + all[k..] == all;
    if ParseResponse(all).Ok? && ParseResponse(all).pos <= k {
      ParseResponseCarries(all, all[..k], k);
    }
  }

  // ---------------------------------------------------------------------------
  // The exchange
  // ---------------------------------------------------------------------------

  /** The capability list a response carries, if any. */
  function CapabilityList(r: Response): Option<seq<bytes>> {
    match r
    case Data(Capability(caps)) => Some(caps)
    case StatusResponse(_, _, Some(CodeCapability(caps)), _) => Some(caps)
    case _ => None
  }

  predicate Advertises(caps: seq<bytes>) {
    exists k :: 0 <= k < |caps| && EqCi(caps[k], STARTTLS)
  }

  /** Whether STARTTLS is advertised after `r`, given whether it was before. */
  function UpdateStarttls(starttls: bool, r: Response): bool {
    match CapabilityList(r)
    case Some(caps) => Advertises(caps)
    case None => starttls
  }

  function ResponseOf(frame: bytes): Option<Response> {
    match ParseResponse(frame)
    case Ok(response, _, _) => Some(response)
    case Err(_) => None
  }

  /** STARTTLS support after a series of frames: what the last capability list among them says. */
  function StarttlsAfter(frames: seq<bytes>): bool {
    if |frames| == 0 then false
    else
      var before := StarttlsAfter(frames[..|frames| - 1]);
      match ResponseOf(frames[|frames| - 1])
      case Some(r) => UpdateStarttls(before, r)
      case None => before
  }

  /** The frame carries a capability list: as data, or as the code of a status response. */
  predicate Lists(frame: bytes, caps: seq<bytes>) {
    var r := ParseResponse(frame);
    r.Ok? && (r.val == Data(Capability(caps)) || (r.val.StatusResponse? && r.val.code == Some(CodeCapability(caps))))
  }

  predicate NamesStarttls(caps: seq<bytes>) {
    exists k :: 0 <= k < |caps| && EqCi(caps[k], Words.STARTTLS)
  }

  /** The last frame that carries a list names STARTTLS. */
  ghost predicate LastListOffers(frames: seq<bytes>) {
    exists k, caps ::
      && 0 <= k < |frames| && Lists(frames[k], caps) && NamesStarttls(caps)
      && forall m, later :: k < m < |frames| ==> !Lists(frames[m], later)
  }

  lemma ListedIs(frame: bytes, caps: seq<bytes>)
    ensures Lists(frame, caps) <==> ResponseOf(frame).Some? && CapabilityList(ResponseOf(frame).value) == Some(caps)
    ensures Advertises(caps) <==> NamesStarttls(caps)
  {
    hide ParseResponse;
  }

  /** Going through the frames one by one, each list replacing the one before, comes down to the last
      list. */
  lemma {:induction false} LastListDecides(frames: seq<bytes>)
    ensures StarttlsAfter(frames) <==> LastListOffers(frames)
    decreases |frames|
  {
    hide ParseResponse, ResponseOf, Lists, CapabilityList, Advertises, NamesStarttls, LastListOffers;
    if |frames| == 0 {
      NoListOffers();
      assert frames == [];
    } else {
      var front, last := frames[..|frames| - 1], frames[|frames| - 1];
      assert frames == front + [last];
      LastListDecides(front);
      var r := ResponseOf(last);
      if r.Some? && CapabilityList(r.value).Some? {
        var caps := CapabilityList(r.value).value;
        ListedIs(last, caps);
        OneMoreList(front, last, caps);
      } else {
        forall caps ensures !Lists(last, caps) {
          ListedIs(last, caps);
        }
        OneMoreOther(front, last);
      }
    }
  }

  lemma NoListOffers()
    ensures !LastListOffers([])
  {
  }

  lemma OneMoreList(front: seq<bytes>, last: bytes, caps: seq<bytes>)
    requires Lists(last, caps)
    ensures LastListOffers(front + [last]) <==> NamesStarttls(caps)
  {
    hide ParseResponse, ResponseOf, Lists, NamesStarttls;
    var all := front + [last];
    assert all[|front|] == last;
    if LastListOffers(all) {
      var k, listed :| 0 <= k < |all| && Lists(all[k], listed) && NamesStarttls(listed)
                       && forall m, later :: k < m < |all| ==> !Lists(all[m], later);
      assert k == |front|;
      OneListOnly(last, caps, listed);
    }
  }

  lemma OneListOnly(frame: bytes, caps: seq<bytes>, other: seq<bytes>)
    requires Lists(frame, caps) && Lists(frame, other)
    ensures caps == other
  {
    hide ParseResponse;
  }

  lemma OneMoreOther(front: seq<bytes>, last: bytes)
    requires forall caps :: !Lists(last, caps)
    ensures LastListOffers(front + [last]) <==> LastListOffers(front)
  {
    hide ParseResponse, ResponseOf, Lists, NamesStarttls;
    var all := front + [last];
    assert forall m :: 0 <= m < |front| ==> all[m] == front[m];
    if LastListOffers(all) {
      var k, caps :| 0 <= k < |all| && Lists(all[k], caps) && NamesStarttls(caps)
                     && forall m, later :: k < m < |all| ==> !Lists(all[m], later);
      assert k < |front| && Lists(front[k], caps);
      assert forall m, later :: k < m < |front| ==> !Lists(front[m], later);
    }
    if LastListOffers(front) {
      var k, caps :| 0 <= k < |front| && Lists(front[k], caps) && NamesStarttls(caps)
                     && forall m, later :: k < m < |front| ==> !Lists(front[m], later);
      assert Lists(all[k], caps);
      assert forall m, later :: k < m < |all| ==> !Lists(all[m], later);
    }
  }

  predicate Answers(frame: bytes, tag: bytes) {
    match ResponseOf(frame)
    case Some(StatusResponse(Some(t), _, _, _)) => t == tag
    case _ => false
  }

  predicate Accepts(frame: bytes, tag: bytes) {
    Answers(frame, tag) && ResponseOf(frame).value.status == StOk
  }

  function BytesOf(frames: seq<bytes>): bytes {
    if |frames| == 0 then [] else BytesOf(frames[..|frames| - 1]) + frames[|frames| - 1]
  }

  /** A conversation that may go on to TLS: greeting, frames up to the answer to `T0001`, frames up
      to the answer to `T0002`; both answers are OK and the last capability list between the
      greeting and the first of them offers STARTTLS. */
  ghost predicate Agreed(frames: seq<bytes>, j: nat) {
    && 1 <= j < |frames| - 1
    && (forall i :: 1 <= i < j ==> !Answers(frames[i], T0001))
    && Accepts(frames[j], T0001)
    && LastListOffers(frames[1..j])
    && (forall i :: j < i < |frames| - 1 ==> !Answers(frames[i], T0002))
    && Accepts(frames[|frames| - 1], T0002)
  }

  lemma Regroup(x: bytes, frame: bytes, rest: bytes, unread: bytes)
    ensures x + (frame + rest + unread) == x + frame + rest + unread
    ensures x + frame + rest + unread == x + (frame + rest) + unread
  {
  }

  lemma SplitAfter(all: bytes, greeting: bytes, buf: bytes, unread: bytes)
    requires greeting + buf + unread == [] + all
    ensures all == greeting + (buf + unread)
  {
    assert [] + all == all;
  }

  lemma RegroupThree(greeting: bytes, seen: bytes, a1: bytes, rest: bytes, unread: bytes)
    ensures greeting + (seen + a1 + rest + unread) == greeting + seen + a1 + (rest + unread)
  {
  }

  lemma RegroupFour(heard: bytes, more: bytes, a2: bytes, unread: bytes)
    ensures heard + (more + a2 + unread) == heard + more + a2 + unread
  {
  }

  lemma FrontOfBoth(x: bytes, y: bytes, n: nat)
    requires n <= |x|
    ensures (x + y)[..n] == x[..n] && x[..|x|] == x
  {
  }

  lemma BackOfBoth(before: bytes, x: bytes, y: bytes, k: nat)
    requires k <= |y|
    ensures before + (x + y)[..|x| + k] == before + x + y[..k]
    ensures k == |y| ==> y[..k] == y
  {
    assert (x + y)[..|x| + k] == x + y[..k];
  }

  lemma FrontIsPrefix(front: bytes, behind: bytes)
    ensures front <= front + behind
  {
  }

  lemma BytesOfNothing()
    ensures BytesOf([]) == []
  {
  }

  lemma BytesOfAppend(frames: seq<bytes>, f: bytes)
    ensures BytesOf(frames + [f]) == BytesOf(frames) + f
  {
    assert (frames + [f])[..|frames|] == frames;
  }

  lemma StarttlsAppend(frames: seq<bytes>, f: bytes)
    ensures StarttlsAfter(frames + [f])
            == match ResponseOf(f)
               case Some(r) => UpdateStarttls(StarttlsAfter(frames), r)
               case None => StarttlsAfter(frames)
  {
    assert (frames + [f])[..|frames|] == frames;
  }

  /** Read until `tag` is answered, tracking whether STARTTLS is advertised. `seen` are the frames
      before the answer. */
  method AwaitCapability(stream: Stream, buf: bytes)
    returns (r: Outcome<bool>, rest: bytes, ghost seen: seq<bytes>, ghost answer: bytes)
    modifies stream`unread
    ensures r.Done? || r.failure.Refused? ==>
              && Answers(answer, T0001)
              && (forall f :: f in seen ==> !Answers(f, T0001))
              && buf + old(stream.unread) == BytesOf(seen) + answer + rest + stream.unread
              && (r.Done? <==> Accepts(answer, T0001))
    ensures r.Done? ==> (r.value <==> LastListOffers(seen))
    ensures r.Failed? && r.failure.Refused? ==> r.failure.why == "CAPABILITY failed"
  {
    hide ParseResponse, LastListOffers;
    var starttls := false;
    rest := buf;
    seen, answer := [], [];
    while true
      invariant forall f :: f in seen ==> !Answers(f, T0001)
      invariant starttls == StarttlsAfter(seen)
      invariant buf + old(stream.unread) == BytesOf(seen) + rest + stream.unread
      decreases |rest| + |stream.unread|
    {
      ghost var before := rest + stream.unread;
      var frame: bytes;
      r, frame, rest := Next(stream, rest, starttls);
      if r.Failed? {
        return;
      }
      Regroup(BytesOf(seen), frame, rest, stream.unread);
      var parsed := Parser.ParseResponse(frame);
      if parsed.Success? {
        var response := parsed.value.1;
        if response.StatusResponse? && response.tag == Some(T0001) {
          answer := frame;
          LastListDecides(seen);
          if response.status != StOk {
            r := Failed(Refused("CAPABILITY failed"));
          }
          return;
        }
        starttls := UpdateStarttls(starttls, response);
      }
      BytesOfAppend(seen, frame);
      StarttlsAppend(seen, frame);
      seen := seen + [frame];
    }
  }

  /** `ReadOneFrame`, with its failure carried over. */
  method Next<T>(stream: Stream, buf: bytes, value: T) returns (r: Outcome<T>, frame: bytes, rest: bytes)
    modifies stream`unread
    ensures r.Done? ==> r.value == value && 0 < |frame| && frame + rest + stream.unread == buf + old(stream.unread)
    ensures r.Failed? ==> !r.failure.Refused?
  {
    var got;
    got, rest := ReadOneFrame(stream, buf);
    match got
    case Done(f) => r, frame := Done(value), f;
    case Failed(e) => r, frame := Failed(e), [];
  }

  /** Read until `T0002` is answered; nothing may be left in the buffer then. */
  method AwaitStarttls(stream: Stream, buf: bytes)
    returns (r: Outcome<()>, ghost seen: seq<bytes>, ghost answer: bytes, ghost left: bytes)
    modifies stream`unread
    ensures r.Done? || r.failure.Refused? ==>
              && Answers(answer, T0002)
              && (forall f :: f in seen ==> !Answers(f, T0002))
              && buf + old(stream.unread) == BytesOf(seen) + answer + left + stream.unread
              && (r.Done? <==> Accepts(answer, T0002) && left == [])
    ensures r.Failed? && r.failure.Refused? ==>
              r.failure.why == if Accepts(answer, T0002) then "server sent cleartext data after STARTTLS OK"
                               else "STARTTLS rejected"
  {
    hide ParseResponse;
    var rest := buf;
    seen, answer, left := [], [], [];
    while true
      invariant forall f :: f in seen ==> !Answers(f, T0002)
      invariant buf + old(stream.unread) == BytesOf(seen) + rest + stream.unread
      decreases |rest| + |stream.unread|
    {
      ghost var before := rest + stream.unread;
      var frame: bytes;
      r, frame, rest := Next(stream, rest, ());
      if r.Failed? {
        return;
      }
      Regroup(BytesOf(seen), frame, rest, stream.unread);
      var parsed := Parser.ParseResponse(frame);
      if parsed.Success? {
        var response := parsed.value.1;
        if response.StatusResponse? && response.tag == Some(T0002) {
          answer, left := frame, rest;
          if response.status != StOk {
            r := Failed(Refused("STARTTLS rejected"));
          } else if rest != [] {
            r := Failed(Refused("server sent cleartext data after STARTTLS OK"));
          }
          return;
        }
      }
      BytesOfAppend(seen, frame);
      seen := seen + [frame];
    }
  }

  lemma {:induction false} BytesOfConcat(f: seq<bytes>, g: seq<bytes>)
    ensures BytesOf(f + g) == BytesOf(f) + BytesOf(g)
    decreases |g|
  {
    if |g| == 0 {
      assert f + g == f;
    } else {
      hide BytesOf;
      var front, last := g[..|g| - 1], g[|g| - 1];
      assert g == front + [last] && f + g == f + front + [last];
      BytesOfConcat(f, front);
      BytesOfAppend(front, last);
      BytesOfAppend(f + front, last);
    }
  }

  /** And the last capability list among them, the greeting apart, offers STARTTLS. */
  ghost predicate Offered(heard: seq<bytes>) {
    Introduced(heard) && LastListOffers(heard[1..|heard| - 1])
  }

  /** `heard` is the greeting and the frames up to the first answer to `T0001`, which is OK. */
  predicate Introduced(heard: seq<bytes>) {
    && |heard| >= 2
    && (forall i :: 1 <= i < |heard| - 1 ==> !Answers(heard[i], T0001))
    && Accepts(heard[|heard| - 1], T0001)
  }

  /** The first `n` bytes of the two command lines were written, and none of the second line
      before STARTTLS was offered. */
  ghost predicate WrotePrefix(before: bytes, after: bytes, heard: seq<bytes>, n: nat) {
    && n <= |CAPABILITY_LINE + STARTTLS_LINE|
    && after == before + (CAPABILITY_LINE + STARTTLS_LINE)[..n]
    && (n > |CAPABILITY_LINE| ==> Offered(heard))
  }

  /** The frames of an agreed conversation, put together from its parts. */
  lemma Assemble(heard: seq<bytes>, more: seq<bytes>, a2: bytes)
    requires Introduced(heard) && LastListOffers(heard[1..|heard| - 1])
    requires (forall f :: f in more ==> !Answers(f, T0002)) && Accepts(a2, T0002)
    ensures var frames := heard + more + [a2];
            Agreed(frames, |heard| - 1) && BytesOf(frames) == BytesOf(heard) + BytesOf(more) + a2
  {
    hide Answers, Accepts, LastListOffers;
    var frames := heard + more + [a2];
    var j := |heard| - 1;
    assert frames[1..j] == heard[1..j];
    forall i | 1 <= i < j ensures !Answers(frames[i], T0001) {
      assert frames[i] == heard[i];
    }
    forall i | j < i < |frames| - 1 ensures !Answers(frames[i], T0002) {
      assert frames[i] == more[i - j - 1];
    }
    BytesOfConcat(heard, more);
    BytesOfAppend(heard + more, a2);
  }

  /** The first half: greeting, CAPABILITY and its answer. `heard` are the frames consumed up to that
      answer, if it came and is OK; `n` bytes of the command line were written. */
  method Introduce(stream: Stream)
      returns (r: Outcome<bool>, rest: bytes, ghost heard: seq<bytes>, ghost n: nat)
    modifies stream
    ensures n <= |CAPABILITY_LINE| && stream.written == old(stream.written) + CAPABILITY_LINE[..n]
    ensures r.Done? ==> n == |CAPABILITY_LINE| && Introduced(heard)
    ensures r.Done? ==> old(stream.unread) == BytesOf(heard) + (rest + stream.unread)
    ensures r.Done? ==> (r.value <==> LastListOffers(heard[1..|heard| - 1]))
    ensures r.Failed? ==> heard == [] && (r.failure.Refused? ==> r.failure.why == "CAPABILITY failed")
  {
    hide ParseResponse, Answers, Accepts, StarttlsAfter, LastListOffers, BytesOf, CAPABILITY_LINE, T0001, Introduced;
    heard, n, rest := [], 0, [];
    var greeting, buf, met;
    met, greeting, buf := Next(stream, [], ());
    if met.Failed? {
      return Failed(met.failure), rest, heard, n;
    }
    SplitAfter(old(stream.unread), greeting, buf, stream.unread);
    met, n := stream.WriteAll(CAPABILITY_LINE);
    if met.Failed? {
      return Failed(met.failure), rest, heard, n;
    }
    ghost var seen, a1;
    r, rest, seen, a1 := AwaitCapability(stream, buf);
    if r.Done? {
      heard := [greeting] + seen + [a1];
      RegroupThree(greeting, BytesOf(seen), a1, rest, stream.unread);
      Heard(greeting, seen, a1);
    }
  }

  /** The second half, once STARTTLS was offered: STARTTLS and its answer. `k` bytes of the command line
      were written; when it succeeds, `frames` are all frames of the exchange. */
  method Upgrade(stream: Stream, rest: bytes, ghost heard: seq<bytes>)
      returns (r: Outcome<()>, ghost frames: seq<bytes>, ghost k: nat)
    requires Introduced(heard) && LastListOffers(heard[1..|heard| - 1])
    modifies stream
    ensures k <= |STARTTLS_LINE| && stream.written == old(stream.written) + STARTTLS_LINE[..k]
    ensures r.Done? ==> k == |STARTTLS_LINE| && Agreed(frames, |heard| - 1)
    ensures r.Done? ==> BytesOf(heard) + (rest + old(stream.unread)) == BytesOf(frames) + stream.unread
    ensures r != Failed(Refused("server does not advertise STARTTLS"))
  {
    hide ParseResponse, Answers, Accepts, LastListOffers, Agreed, BytesOf, STARTTLS_LINE, T0001, T0002, Introduced;
    frames := [];
    r, k := stream.WriteAll(STARTTLS_LINE);
    if r.Failed? {
      return;
    }
    ghost var more, a2, behindAnswer;
    r, more, a2, behindAnswer := AwaitStarttls(stream, rest);
    if r.Done? {
      AnswerAlone(a2);
      Assemble(heard, more, a2);
      frames := heard + more + [a2];
      RegroupFour(BytesOf(heard), BytesOf(more), a2, stream.unread);
    }
  }

  /** The whole exchange. `heard` are the frames consumed before STARTTLS is written; when the
      exchange succeeds, `frames` are all frames consumed and `j` the place of the `T0001` answer.
      However it ends, `n` bytes of the two command lines were written. */
  method StarttlsSteps(stream: Stream)
      returns (r: Outcome<()>, ghost frames: seq<bytes>, ghost j: nat, ghost heard: seq<bytes>, ghost n: nat)
    modifies stream
    ensures r.Done? ==> Agreed(frames, j)
    ensures r.Done? ==> stream.written == old(stream.written) + CAPABILITY_LINE + STARTTLS_LINE
    ensures r.Done? ==> old(stream.unread) == BytesOf(frames) + stream.unread
    ensures WrotePrefix(old(stream.written), stream.written, heard, n)
    ensures BytesOf(heard) <= old(stream.unread)
    ensures heard == [] || (Introduced(heard) && n >= |CAPABILITY_LINE|)
    ensures r == Failed(Refused("server does not advertise STARTTLS"))
            <==> heard != [] && !LastListOffers(heard[1..|heard| - 1])
  {
    hide ParseResponse, Answers, Accepts, LastListOffers, Agreed, BytesOf, CAPABILITY_LINE, STARTTLS_LINE;
    hide T0001, T0002, Introduced;
    BytesOfNothing();
    frames, j := [], 0;
    var offers, rest;
    offers, rest, heard, n := Introduce(stream);
    FrontOfBoth(CAPABILITY_LINE, STARTTLS_LINE, n);
    if offers.Failed? {
      return Failed(offers.failure), frames, j, heard, n;
    }
    HeardIsSome(heard);
    FrontIsPrefix(BytesOf(heard), rest + stream.unread);
    if !offers.value {
      return Failed(Refused("server does not advertise STARTTLS")), frames, j, heard, n;
    }
    ghost var k;
    r, frames, k := Upgrade(stream, rest, heard);
    j, n := |heard| - 1, |CAPABILITY_LINE| + k;
    BackOfBoth(old(stream.written), CAPABILITY_LINE, STARTTLS_LINE, k);
  }

  lemma AnswerAlone(a2: bytes)
    ensures a2 + [] == a2
  {
  }

  lemma HeardIsSome(heard: seq<bytes>)
    requires Introduced(heard)
    ensures |heard| >= 2
  {
  }

  lemma Heard(greeting: bytes, seen: seq<bytes>, a1: bytes)
    requires Accepts(a1, T0001) && forall f :: f in seen ==> !Answers(f, T0001)
    ensures var heard := [greeting] + seen + [a1];
            && Introduced(heard) && heard[1..|heard| - 1] == seen
            && BytesOf(heard) == greeting + BytesOf(seen) + a1
  {
    hide Accepts, Answers;
    var heard := [greeting] + seen + [a1];
    assert heard[1..|heard| - 1] == seen;
    forall i | 1 <= i < |heard| - 1 ensures !Answers(heard[i], T0001) {
      assert heard[i] == seen[i - 1];
    }
    BytesOfAppend([], greeting);
    assert [] + [greeting] == [greeting];
    BytesOfConcat([greeting], seen);
    BytesOfAppend([greeting] + seen, a1);
  }

  /** The two command lines, byte for byte. */
  lemma LinesSpelled()
    ensures T0001 == Words.Spell("T0001") && T0002 == Words.Spell("T0002")
    ensures CAPABILITY_LINE == Words.Spell("T0001 CAPABILITY") + [13, 10]
    ensures STARTTLS_LINE == Words.Spell("T0002 STARTTLS") + [13, 10]
  {
  }
}
