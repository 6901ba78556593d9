/** Tags and command lines: what the client writes, and why it can be read back. */
module Commands {
  import opened Bytes

  const TAG_LETTER: byte := 65
  const TAG_DIGITS: nat := 4
  /** The tag counter is a 64-bit integer that wraps. */
  const U64_RANGE: nat := 0x1_0000_0000_0000_0000

  /** Decimal digits of `n`, without leading zeros. */
  function Digits(n: nat): (d: bytes)
    ensures 0 < |d| && AllDigits(d)
  {
    if n < 10 then [48 + n] else Digits(n / 10) + [48 + n % 10]
  }

  lemma {:induction false} DigitsValue(n: nat)
    ensures Decimal(Digits(n)) == n
  {
    if n >= 10 {
      DigitsValue(n / 10);
      assert Digits(n)[..|Digits(n)| - 1] == Digits(n / 10);
    } else {
      assert Digits(n)[..0] == [];
    }
  }

  /** `d` with zeros in front, up to `width` digits. */
  function Pad(d: bytes, width: nat): (r: bytes)
    requires AllDigits(d)
    ensures AllDigits(r) && |d| <= |r|
    decreases width - |d|
  {
    if |d| >= width then d else Pad([48] + d, width)
  }

  lemma {:induction false} LeadingZero(d: bytes)
    requires AllDigits(d)
    ensures Decimal([48] + d) == Decimal(d)
  {
    var z := [48] + d;
    if |d| == 0 {
      assert z[..0] == [];
    } else {
      assert z[..|z| - 1] == [48] + d[..|d| - 1];
      LeadingZero(d[..|d| - 1]);
    }
  }

  lemma {:induction false} PadValue(d: bytes, width: nat)
    requires AllDigits(d)
    ensures Decimal(Pad(d, width)) == Decimal(d)
    decreases width - |d|
  {
    if |d| < width {
      LeadingZero(d);
      PadValue([48] + d, width);
    }
  }

  /** `A` and the counter in at least four digits. */
  function TagOf(n: nat): bytes {
    [TAG_LETTER] + Pad(Digits(n), TAG_DIGITS)
  }

  /** The counter can be read off a tag, also past four digits, so no two commands share one. */
  lemma TagValue(n: nat)
    ensures |TagOf(n)| > 1 && TagOf(n)[0] == TAG_LETTER && AllDigits(TagOf(n)[1..])
    ensures Decimal(TagOf(n)[1..]) == n
  {
    assert TagOf(n)[1..] == Pad(Digits(n), TAG_DIGITS);
    PadValue(Digits(n), TAG_DIGITS);
    DigitsValue(n);
  }

  /** Tags are `A` and at least four digits, without a leading zero beyond four. */
  lemma TagShape(n: nat)
    ensures TagOf(n)[0] == 65 && |TagOf(n)| >= 5
    ensures n < 10000 <==> |TagOf(n)| == 5
    ensures |TagOf(n)| > 5 ==> TagOf(n)[1] != 48
  {
    DigitsCount(n);
    PadWidth(Digits(n), TAG_DIGITS);
  }

  lemma {:induction false} PadWidth(d: bytes, width: nat)
    requires AllDigits(d)
    ensures |Pad(d, width)| == if |d| < width then width else |d|
    ensures |d| >= width ==> Pad(d, width) == d
    decreases width - |d|
  {
    if |d| < width {
      PadWidth([48] + d, width);
    }
  }

  lemma {:induction false} DigitsCount(n: nat)
    ensures |Digits(n)| > 4 <==> n >= 10000
    ensures |Digits(n)| > 3 <==> n >= 1000
    ensures |Digits(n)| > 2 <==> n >= 100
    ensures |Digits(n)| > 1 <==> n >= 10
    ensures n > 0 ==> Digits(n)[0] != 48
  {
    if n >= 10 {
      DigitsCount(n / 10);
    }
  }

  lemma TagsDistinct(m: nat, n: nat)
    ensures TagOf(m) == TagOf(n) <==> m == n
  {
    TagValue(m);
    TagValue(n);
  }

  // ---------------------------------------------------------------------------
  // Command lines
  // ---------------------------------------------------------------------------

  /** Text `reject_line_breaks` lets through. */
  predicate IsOneLine(cmd: bytes) {
    forall k :: 0 <= k < |cmd| ==> cmd[k] != CR && cmd[k] != LF && cmd[k] != NUL
  }

  function CommandLine(tag: bytes, cmd: bytes): bytes {
    tag + [SP] + cmd + CRLF
  }

  /** A command with its number, counting the tags issued from 1. */
  datatype Command = Command(number: nat, text: bytes)

  /** The tag of the `k`-th command. */
  function TagAt(k: nat): bytes {
    TagOf(k % U64_RANGE)
  }

  function LineOf(c: Command): bytes {
    CommandLine(TagAt(c.number), c.text)
  }

  /** The lines of some commands, in order. */
  function Transcript(commands: seq<Command>): bytes {
    if |commands| == 0 then [] else LineOf(commands[0]) + Transcript(commands[1..])
  }

  lemma {:induction false} TranscriptAppend(commands: seq<Command>, more: seq<Command>)
    ensures Transcript(commands + more) == Transcript(commands) + Transcript(more)
  {
    if |commands| == 0 {
      assert commands + more == more;
    } else {
      assert (commands + more)[1..] == commands[1..] + more;
      TranscriptAppend(commands[1..], more);
    }
  }

  lemma TranscriptOne(c: Command)
    ensures Transcript([c]) == LineOf(c)
  {
  }

  ghost predicate AllOneLine(commands: seq<Command>) {
    forall k :: 0 <= k < |commands| ==> IsOneLine(commands[k].text)
  }

  /** Numbers grow along the list, and lie between 1 and `last`. There may be gaps. */
  ghost predicate NumbersGrow(commands: seq<Command>, last: nat) {
    && (forall k :: 0 <= k < |commands| ==> 1 <= commands[k].number <= last)
    && (forall j, k :: 0 <= j < k < |commands| ==> commands[j].number < commands[k].number)
  }

  datatype Enqueued = Refused | NotSent | Queued(tag: bytes)

  /** The sending side: the tag counter, the queue of lines, and what the write loop has written. */
  class RawClient {
    var tagCounter: nat
    var queue: seq<bytes>
    var down: bool
    var sent: bytes
    ghost var issued: nat
    ghost var accepted: seq<Command>
    ghost var done: nat
    ghost var part: bytes

    /** Of the accepted commands the first `done` were written, in order; the others are queued, or
        lost with the connection, of the next one of which `part` was still written. */
    ghost predicate Valid()
      reads this
    {
      && tagCounter == (issued + 1) % U64_RANGE
      && NumbersGrow(accepted, issued) && AllOneLine(accepted)
      && done <= |accepted|
      && (!down ==> part == [] && queue == LinesOf(accepted[done..]))
      && (part != [] ==> done < |accepted| && part < LineOf(accepted[done]))
      && sent == Transcript(accepted[..done]) + part
    }

    constructor ()
      ensures Valid() && accepted == [] && !down && sent == []
    {
      tagCounter, queue, down, sent := 1, [], false, [];
      issued, accepted, done, part := 0, [], 0, [];
    }

    method NextTag() returns (tag: bytes)
      modifies this`tagCounter
      ensures tag == TagOf(old(tagCounter)) && tagCounter == (old(tagCounter) + 1) % U64_RANGE
    {
      tag := TagOf(tagCounter);
      tagCounter := (tagCounter + 1) % U64_RANGE;
    }

    /** Queue `cmd` under a fresh tag. A command that would span lines is refused and leaves the client
        as it was; a send that fails or is given up has used up its tag and nothing else. */
    method EnqueueCommand(cmd: bytes) returns (r: Enqueued)
      requires Valid()
      modifies this
      ensures Valid() && sent == old(sent) && down == old(down)
      ensures r.Refused? <==> !IsOneLine(cmd)
      ensures r.Refused? ==> tagCounter == old(tagCounter) && queue == old(queue)
      ensures !r.Refused? ==> issued == old(issued) + 1
      ensures r.Queued? ==> !down && r.tag == TagAt(issued) && accepted == old(accepted) + [Command(issued, cmd)]
      ensures !r.Queued? ==> accepted == old(accepted) && queue == old(queue)
    {
      hide LineOf, TagOf, IsOneLine, Transcript, NumbersGrow, AllOneLine, LinesOf, CommandLine;
      OneMoreCommand(accepted, issued, cmd);
      if !IsOneLine(cmd) {
        return Refused;
      }
      var tag := NextTag();
      issued := issued + 1;
      var givenUp: bool := *;
      if down || givenUp {
        return NotSent;
      }
      queue := queue + [CommandLine(tag, cmd)];
      LinesOfSnoc(accepted[done..], Command(issued, cmd));
      LineIs(Command(issued, cmd));
      assert (accepted + [Command(issued, cmd)])[done..] == accepted[done..] + [Command(issued, cmd)];
      assert (accepted + [Command(issued, cmd)])[..done] == accepted[..done];
      accepted := accepted + [Command(issued, cmd)];
      r := Queued(tag);
    }

    /** One round of the write loop: write the next line whole, or fail in the middle of it and end. */
    method WriteNext() returns (ok: bool)
      requires Valid() && !down && |queue| > 0
      modifies this
      ensures Valid() && accepted == old(accepted) && issued == old(issued) && tagCounter == old(tagCounter)
      ensures ok ==> !down && sent == old(sent) + old(queue)[0] && queue == old(queue)[1..] && done == old(done) + 1
      ensures !ok ==> down && done == old(done) && old(sent) <= sent < old(sent) + old(queue)[0]
    {
      hide LineOf, TagOf, IsOneLine, Transcript, NumbersGrow;
      var line := queue[0];
      LinesOfFirst(accepted[done..]);
      assert accepted[done..][0] == accepted[done] && accepted[done..][1..] == accepted[done + 1..];
      queue := queue[1..];
      var n: nat :| n <= |line|;
      sent := sent + line[..n];
      ok := n == |line|;
      if ok {
        assert line[..n] == line;
        assert accepted[..done + 1] == accepted[..done] + [accepted[done]];
        TranscriptAppend(accepted[..done], [accepted[done]]);
        TranscriptOne(accepted[done]);
        done := done + 1;
      } else {
        down := true;
        part := line[..n];
      }
    }
  }

  lemma OneMoreCommand(commands: seq<Command>, last: nat, cmd: bytes)
    requires NumbersGrow(commands, last) && AllOneLine(commands)
    ensures NumbersGrow(commands, last + 1)
    ensures NumbersGrow(commands + [Command(last + 1, cmd)], last + 1)
    ensures IsOneLine(cmd) ==> AllOneLine(commands + [Command(last + 1, cmd)])
  {
  }

  function LinesOf(commands: seq<Command>): (lines: seq<bytes>)
    ensures |lines| == |commands|
  {
    seq(|commands|, k requires 0 <= k < |commands| => LineOf(commands[k]))
  }

  lemma LinesOfSnoc(commands: seq<Command>, c: Command)
    ensures LinesOf(commands + [c]) == LinesOf(commands) + [LineOf(c)]
  {
  }

  lemma LinesOfFirst(commands: seq<Command>)
    requires |commands| > 0
    ensures LinesOf(commands)[0] == LineOf(commands[0]) && LinesOf(commands)[1..] == LinesOf(commands[1..])
  {
  }

  lemma LineIs(c: Command)
    ensures LineOf(c) == CommandLine(TagAt(c.number), c.text)
  {
  }

  /** Offset of the first CRLF at or after `i`. */
  function LineEnd(s: bytes, i: nat): (e: nat)
    requires i <= |s|
    ensures i <= e <= |s|
    decreases |s| - i
  {
    if i + 1 < |s| && !(s[i] == CR && s[i + 1] == LF) then LineEnd(s, i + 1)
    else if i + 1 < |s| then i
    else |s|
  }

  /** A server's view: split at CRLF, then each line at its first space. */
  function Decode(s: bytes): seq<(bytes, bytes)>
    decreases |s|
  {
    var e := LineEnd(s, 0);
    if e + 2 > |s| then []
    else
      var k := Scan(s[..e], 0, TagChar);
      [(s[..k], if k < e then s[k + 1..e] else [])] + Decode(s[e + 2..])
  }

  /** Commands with the tags they were sent under. */
  function Numbered(commands: seq<Command>): (pairs: seq<(bytes, bytes)>)
    ensures |pairs| == |commands|
  {
    seq(|commands|, k requires 0 <= k < |commands| => (TagAt(commands[k].number), commands[k].text))
  }

  lemma {:induction false} LineEndSkips(s: bytes, i: nat, e: nat)
    requires i <= e && e + 2 <= |s| && s[e] == CR && s[e + 1] == LF
    requires forall k :: i <= k < e ==> s[k] != CR
    ensures LineEnd(s, i) == e
    decreases e - i
  {
    if i < e {
      LineEndSkips(s, i + 1, e);
    }
  }

  lemma TagIsTagText(n: nat)
    ensures AllIn(TagChar, TagOf(n))
  {
    var p := Pad(Digits(n), TAG_DIGITS);
    forall k | 0 <= k < |TagOf(n)| ensures InClass(TagChar, TagOf(n)[k]) {
      if k > 0 {
        assert IsDigit(p[k - 1]);
      }
    }
  }

  /** A line holds no CR but its last but one byte. */
  lemma LineHasOneCr(c: Command)
    requires IsOneLine(c.text)
    ensures var e := |TagAt(c.number)| + 1 + |c.text|;
            && |LineOf(c)| == e + 2 && LineOf(c)[e] == CR && LineOf(c)[e + 1] == LF
            && forall k :: 0 <= k < e ==> LineOf(c)[k] != CR
  {
    hide TagOf;
    var tag := TagAt(c.number);
    var e := |tag| + 1 + |c.text|;
    TagIsTagText(c.number % U64_RANGE);
    forall k | 0 <= k < e ensures LineOf(c)[k] != CR {
      if k < |tag| {
        assert LineOf(c)[k] == tag[k] && InClass(TagChar, tag[k]);
      } else if k > |tag| {
        assert LineOf(c)[k] == c.text[k - |tag| - 1];
      }
    }
  }

  /** Decoding reads the first line back and goes on behind it. */
  lemma DecodeLine(c: Command, rest: bytes)
    requires IsOneLine(c.text)
    ensures Decode(LineOf(c) + rest) == [(TagAt(c.number), c.text)] + Decode(rest)
  {
    hide TagOf, IsOneLine;
    var tag := TagAt(c.number);
    var s := LineOf(c) + rest;
    var e := |tag| + 1 + |c.text|;
    LineHasOneCr(c);
    forall k | 0 <= k < e ensures s[k] != CR {
      assert s[k] == LineOf(c)[k];
    }
    LineEndSkips(s, 0, e);
    var line := s[..e];
    assert line == tag + [SP] + c.text;
    assert At(line, 0, tag);
    TagIsTagText(c.number % U64_RANGE);
    ScanAt(line, 0, TagChar, tag);
    assert s[..|tag|] == tag && s[|tag| + 1..e] == c.text && s[e + 2..] == rest;
  }

  lemma {:induction false} NoLineEnd(s: bytes, i: nat)
    requires i <= |s| && forall k :: i <= k < |s| - 1 ==> s[k] != CR
    ensures LineEnd(s, i) == |s|
    decreases |s| - i
  {
    if i + 1 < |s| {
      NoLineEnd(s, i + 1);
    }
  }

  /** A line cut short does not show. */
  lemma DecodePart(part: bytes, c: Command)
    requires IsOneLine(c.text) && part < LineOf(c)
    ensures Decode(part) == []
  {
    hide LineOf, IsOneLine;
    LineHasOneCr(c);
    forall k | 0 <= k < |part| - 1 ensures part[k] != CR {
      assert part[k] == LineOf(c)[k];
    }
    NoLineEnd(part, 0);
  }

  lemma DecodeNothing()
    ensures Decode([]) == []
  {
  }

  /** Splitting what was written at CRLF and then at the first space gives back every command written
      whole, under its own tag and in order, whatever tags were skipped and however much of the next
      line went out before the connection failed. */
  lemma {:induction false} TranscriptDecodes(commands: seq<Command>, part: bytes, next: Command)
    requires AllOneLine(commands)
    requires part == [] || (IsOneLine(next.text) && part < LineOf(next))
    ensures Decode(Transcript(commands) + part) == Numbered(commands)
    decreases |commands|
  {
    hide Decode, LineOf, TagAt, IsOneLine;
    if |commands| == 0 {
      assert Transcript(commands) + part == part;
      DecodeNothing();
      if part != [] {
        DecodePart(part, next);
      }
    } else {
      var c := commands[0];
      DecodeLine(c, Transcript(commands[1..]) + part);
      assert LineOf(c) + Transcript(commands[1..]) + part == LineOf(c) + (Transcript(commands[1..]) + part);
      TranscriptDecodes(commands[1..], part, next);
      assert Numbered(commands) == [(TagAt(c.number), c.text)] + Numbered(commands[1..]);
    }
  }

  /** What the server reads off the connection, at any time: the commands written so far. */
  lemma SentDecodes(client: RawClient)
    requires client.Valid()
    ensures Decode(client.sent) == Numbered(client.accepted[..client.done])
    ensures client.issued <= U64_RANGE ==>
              forall i, j :: 0 <= i < j < client.done ==>
                TagAt(client.accepted[i].number) != TagAt(client.accepted[j].number)
  {
    hide Decode, LineOf, TagAt, IsOneLine, Transcript, Numbered;
    var commands := client.accepted[..client.done];
    var next := if client.part == [] then Command(0, []) else client.accepted[client.done];
    assert AllOneLine(commands);
    TranscriptDecodes(commands, client.part, next);
    TagsDistinctExactly(client.issued);
  }

  /** Tags repeat only when the 64-bit counter has run through all its values. */
  lemma TagsDistinctExactly(count: nat)
    ensures count <= U64_RANGE
            <==> (forall i, j :: 1 <= i < j <= count ==> TagAt(i) != TagAt(j))
  {
    forall i, j | 1 <= i < j <= count && count <= U64_RANGE ensures TagAt(i) != TagAt(j) {
      TagsDistinct(i % U64_RANGE, j % U64_RANGE);
    }
    if count > U64_RANGE {
      assert TagAt(1) == TagAt(U64_RANGE + 1);
    }
  }
}
