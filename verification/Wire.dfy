/** Caller values rendered into command lines: quoted strings and flag lists, and how the response
    parser reads them back. */
module Wire {
  import opened Bytes
  import opened Grammar
  import Commands
  import Words

  // ---------------------------------------------------------------------------
  // Quoted strings
  // ---------------------------------------------------------------------------

  /** The quoted-specials: the two bytes a quoted string has to escape. */
  predicate Special(b: byte) {
    b == DQUOTE || b == BACKSLASH
  }

  function Escape(s: bytes): (e: bytes)
    ensures |e| >= |s|
  {
    if |s| == 0 then [] else (if Special(s[0]) then [BACKSLASH, s[0]] else [s[0]]) + Escape(s[1..])
  }

  /** What an escaped text stands for (section 4.3 of RFC 9051). */
  function Unescape(e: bytes): bytes {
    if |e| == 0 then []
    else if e[0] == BACKSLASH && |e| > 1 then [e[1]] + Unescape(e[2..])
    else [e[0]] + Unescape(e[1..])
  }

  function QuotedForm(s: bytes): bytes {
    [DQUOTE] + Escape(s) + [DQUOTE]
  }

  function EscapeCount(s: bytes): nat {
    if |s| == 0 then 0 else (if Special(s[0]) then 1 else 0) + EscapeCount(s[1..])
  }

  lemma {:induction false} EscapeLength(s: bytes)
    ensures |Escape(s)| == |s| + EscapeCount(s)
  {
    if |s| > 0 {
      EscapeLength(s[1..]);
    }
  }

  lemma {:induction false} EscapeAppend(s: bytes, u: bytes)
    ensures Escape(s + u) == Escape(s) + Escape(u)
  {
    if |s| == 0 {
      assert s + u == u;
    } else {
      assert (s + u)[1..] == s[1..] + u;
      EscapeAppend(s[1..], u);
    }
  }

  lemma {:induction false} UnescapeEscape(s: bytes)
    ensures Unescape(Escape(s)) == s
  {
    if |s| > 0 {
      UnescapeEscape(s[1..]);
      var e := Escape(s[1..]);
      if Special(s[0]) {
        assert Escape(s)[2..] == e;
      } else {
        assert Escape(s)[1..] == e;
      }
    }
  }

  lemma {:induction false} EscapePlain(s: bytes)
    requires forall k :: 0 <= k < |s| ==> !Special(s[k])
    ensures Escape(s) == s
  {
    if |s| > 0 {
      EscapePlain(s[1..]);
    }
  }

  /** `quote`: character by character into a buffer of exactly the capacity it asks for. */
  method Quote(text: bytes) returns (out: bytes, capacity: nat)
    requires Utf8(text)
    ensures out == QuotedForm(text)
    ensures capacity == |out|
  {
    hide CharWidth, Utf8, Escape, EscapeCount;
    EscapeLength(text);
    EscapeHead([]);
    capacity := |text| + EscapeCount(text) + 2;
    out := [DQUOTE];
    var i := 0;
    assert text[0..] == text;
    while i < |text|
      invariant 0 <= i <= |text|
      invariant Utf8(text[i..])
      invariant out == [DQUOTE] + Escape(text[..i])
    {
      EscapeNextChar(text, i);
      var w := CharWidth(text[i..]);
      var c := text[i..i + w];
      ghost var before := out;
      if c == [DQUOTE] || c == [BACKSLASH] {
        out := out + [BACKSLASH];
      }
      out := out + c;
      assert out == before + if c == [DQUOTE] || c == [BACKSLASH] then [BACKSLASH] + c else c;
      i := i + w;
    }
    assert text[..i] == text;
    out := out + [DQUOTE];
  }

  /** The character at the front is a quoted-special or holds none. */
  lemma NextChar(text: bytes)
    requires |text| > 0 && Utf8(text)
    ensures var w := CharWidth(text);
            var c := text[..w];
            && 0 < w
            && Utf8(text[w..])
            && Escape(c) == if c == [DQUOTE] || c == [BACKSLASH] then [BACKSLASH] + c else c
  {
    var w := CharWidth(text);
    var c := text[..w];
    if w > 1 {
      WideChar(text);
    } else {
      assert c == [text[0]];
    }
    if c != [DQUOTE] && c != [BACKSLASH] {
      EscapePlain(c);
    } else {
      assert c[1..] == [];
    }
  }

  lemma EscapeNextChar(text: bytes, i: nat)
    requires i < |text| && Utf8(text[i..])
    ensures var w := CharWidth(text[i..]);
            && 0 < w <= |text| - i
            && Utf8(text[i + w..])
            && var c := text[i..i + w];
               Escape(text[..i + w]) ==
               Escape(text[..i]) + if c == [DQUOTE] || c == [BACKSLASH] then [BACKSLASH] + c else c
  {
    hide CharWidth, Utf8, Escape;
    NextChar(text[i..]);
    var w := CharWidth(text[i..]);
    var c := text[i..i + w];
    assert text[i..][..w] == c && text[i..][w..] == text[i + w..];
    EscapeAppend(text[..i], c);
    assert text[..i] + c == text[..i + w];
  }

  /** Only the bytes of the character itself decide its width. */
  lemma WidthIsLocal(s: bytes, u: bytes)
    requires 0 < CharWidth(s) <= |u| && s[..CharWidth(s)] == u[..CharWidth(s)]
    ensures CharWidth(u) == CharWidth(s)
  {
    assert forall k :: 0 <= k < CharWidth(s) ==> s[..CharWidth(s)][k] == u[..CharWidth(s)][k];
  }

  /** A stretch of an escaped text without quoted-specials stands for itself. */
  lemma {:induction false} EscapedPrefix(s: bytes, w: nat)
    requires w <= |Escape(s)| && forall k :: 0 <= k < w ==> !Special(Escape(s)[k])
    ensures w <= |s| && s[..w] == Escape(s)[..w] && Escape(s[w..]) == Escape(s)[w..]
  {
    var e := Escape(s);
    if w > 0 {
      assert |s| > 0;
      assert !Special(e[0]);
      assert e[1..] == Escape(s[1..]);
      EscapedPrefix(s[1..], w - 1);
      assert s[1..][w - 1..] == s[w..];
      assert e[1..][w - 1..] == e[w..];
      assert s[..w] == [s[0]] + s[1..][..w - 1];
    } else {
      assert s[0..] == s && e[0..] == e;
    }
  }

  lemma {:induction false} EscapeUtf8(s: bytes)
    ensures Utf8(Escape(s)) <==> Utf8(s)
    decreases |s|
  {
    hide CharWidth, Escape;
    var e := Escape(s);
    EscapeHead(s);
    if |s| > 0 && s[0] < 0x80 {
      AsciiWidth(s);
      AsciiWidth(e);
      EscapeUtf8(s[1..]);
      if Special(s[0]) {
        AsciiWidth(e[1..]);
        assert e[1..][1..] == e[2..];
      }
    } else if |s| > 0 && CharWidth(s) > 0 {
      var w := CharWidth(s);
      WideChar(s);
      EscapePlain(s[..w]);
      EscapeAppend(s[..w], s[w..]);
      assert s[..w] + s[w..] == s;
      assert e[..w] == s[..w];
      WidthIsLocal(s, e);
      EscapeUtf8(s[w..]);
    } else if |s| > 0 && CharWidth(e) > 0 {
      var w := CharWidth(e);
      WideChar(e);
      EscapedPrefix(s, w);
      WidthIsLocal(e, s);
    }
  }

  lemma EscapeHead(s: bytes)
    ensures |s| == 0 ==> Escape(s) == []
    ensures |s| > 0 && Special(s[0]) ==>
              |Escape(s)| >= 2 && Escape(s)[0] == BACKSLASH && Escape(s)[1] == s[0] && Escape(s)[2..] == Escape(s[1..])
    ensures |s| > 0 && !Special(s[0]) ==>
              |Escape(s)| >= 1 && Escape(s)[0] == s[0] && Escape(s)[1..] == Escape(s[1..])
  {
  }

  lemma AsciiWidth(s: bytes)
    ensures |s| > 0 && s[0] < 0x80 ==> CharWidth(s) == 1
  {
  }

  /** A character that does not start in the 7-bit range has no byte in it. */
  lemma WideChar(s: bytes)
    requires |s| > 0 && s[0] >= 0x80
    ensures forall k :: 0 <= k < CharWidth(s) ==> s[k] >= 0x80
  {
  }

  /** The parser's scan over an escaped text stops at its closing quote; a text that is not a
      single line breaks it. */
  lemma {:induction false} EscapedTextEnds(a: bytes, i: nat, t: nat, s: bytes)
    requires At(a, i, Escape(s) + [DQUOTE])
    ensures Commands.IsOneLine(s) ==> QuotedEnd(a, i, t) == Ok((), i + |Escape(s)|, t)
    ensures !Commands.IsOneLine(s) ==> QuotedEnd(a, i, t).Hard()
    decreases |s|
  {
    hide At;
    var q := Escape(s) + [DQUOTE];
    if |s| == 0 {
      AtFirst(a, i, q);
    } else {
      var rest := Escape(s[1..]) + [DQUOTE];
      if Special(s[0]) {
        assert q == [BACKSLASH] + ([s[0]] + rest);
        AtByte(a, i, BACKSLASH, [s[0]] + rest);
        AtByte(a, i + 1, s[0], rest);
        EscapedTextEnds(a, i + 2, t, s[1..]);
      } else {
        assert q == [s[0]] + rest;
        AtByte(a, i, s[0], rest);
        EscapedTextEnds(a, i + 1, t, s[1..]);
      }
    }
  }

  lemma QuotedFormAt(a: bytes, i: nat, t: nat, s: bytes)
    requires At(a, i, QuotedForm(s)) && Utf8(s)
    ensures var r := Quoted(a, i, t);
            if Commands.IsOneLine(s) then r == Ok(Escape(s), i + |QuotedForm(s)|, t) else r.Hard()
  {
    hide At, QuotedEnd, Utf8, Escape, Commands.IsOneLine;
    var body := Escape(s) + [DQUOTE];
    assert QuotedForm(s) == [DQUOTE] + body;
    AtByte(a, i, DQUOTE, body);
    EscapedTextEnds(a, i + 1, t, s);
    AtConcat(a, i + 1, Escape(s), [DQUOTE]);
    AtSlice(a, i + 1, Escape(s));
    EscapeUtf8(s);
  }

  /** The parser reads a quoted argument up to exactly its end, whatever follows, and gets the
      caller's text back; it does so for one-line texts only. */
  lemma QuoteReadsBack(s: bytes, rest: bytes, t: nat)
    requires Utf8(s)
    ensures var r := Quoted(QuotedForm(s) + rest, 0, t);
            && (r.Ok? <==> Commands.IsOneLine(s))
            && (r.Ok? ==> r.pos == |QuotedForm(s)| && r.items == t && Unescape(r.val) == s)
  {
    var q := QuotedForm(s);
    assert (q + rest)[0..0 + |q|] == q;
    QuotedFormAt(q + rest, 0, t, s);
    UnescapeEscape(s);
  }

  /** `x` is the escaped form of a one-line text. */
  predicate IsEscaped(x: bytes) {
    Escape(Unescape(x)) == x && Commands.IsOneLine(Unescape(x))
  }

  lemma EscapedPair(b: byte, y: bytes)
    requires Special(b) && IsEscaped(y)
    ensures IsEscaped([BACKSLASH, b] + y)
  {
    var x := [BACKSLASH, b] + y;
    var u := Unescape(y);
    assert x[2..] == y;
    assert Unescape(x) == [b] + u;
    assert ([b] + u)[1..] == u;
  }

  lemma EscapedByte(b: byte, y: bytes)
    requires !Special(b) && b != CR && b != LF && b != NUL && IsEscaped(y)
    ensures IsEscaped([b] + y)
  {
    var x := [b] + y;
    var u := Unescape(y);
    assert x[1..] == y;
    assert Unescape(x) == [b] + u;
    assert ([b] + u)[1..] == u;
  }

  /** What the scan passes over is an escaped text. */
  lemma {:induction false} ScannedTextIsEscaped(a: bytes, i: nat, t: nat)
    requires i <= |a| && QuotedEnd(a, i, t).Ok?
    ensures IsEscaped(a[i..QuotedEnd(a, i, t).pos])
    decreases |a| - i
  {
    hide IsEscaped;
    var e := QuotedEnd(a, i, t).pos;
    if a[i] == DQUOTE {
      NothingIsEscaped();
      assert a[i..e] == [];
    } else if a[i] == BACKSLASH {
      ScannedTextIsEscaped(a, i + 2, t);
      EscapedPair(a[i + 1], a[i + 2..e]);
      assert a[i..e] == [BACKSLASH, a[i + 1]] + a[i + 2..e];
    } else {
      ScannedTextIsEscaped(a, i + 1, t);
      EscapedByte(a[i], a[i + 1..e]);
      assert a[i..e] == [a[i]] + a[i + 1..e];
    }
  }

  lemma NothingIsEscaped()
    ensures IsEscaped([])
  {
  }

  /** Every quoted string the parser accepts is the quoted form of a one-line text. */
  lemma QuotedIsQuotedForm(a: bytes, i: nat, t: nat)
    requires i <= |a| && Quoted(a, i, t).Ok?
    ensures var r := Quoted(a, i, t);
            var s := Unescape(r.val);
            Utf8(s) && Commands.IsOneLine(s) && r.val == Escape(s) && a[i..r.pos] == QuotedForm(s)
  {
    hide Escape, Unescape, QuotedEnd, Utf8, Commands.IsOneLine;
    var r := Quoted(a, i, t);
    ScannedTextIsEscaped(a, i + 1, t);
    EscapeUtf8(Unescape(r.val));
    assert a[i..r.pos] == [a[i]] + a[i + 1..r.pos - 1] + [a[r.pos - 1]];
  }

  /** `imap_quoted`: refuse what a quoted string of 7-bit characters cannot carry, quote the rest. */
  method ImapQuoted(s: bytes) returns (r: Option<bytes>)
    requires Utf8(s)
    ensures r.Some? <==> Commands.IsOneLine(s) && Ascii(s)
    ensures r.Some? ==> r.value == QuotedForm(s)
  {
    if exists k :: 0 <= k < |s| && (s[k] == CR || s[k] == LF || s[k] == NUL || s[k] > 0x7F) {
      return None;
    }
    var q, _ := Quote(s);
    return Some(q);
  }

  // ---------------------------------------------------------------------------
  // Flag lists
  // ---------------------------------------------------------------------------

  datatype Flag = Seen | Answered | Flagged | Deleted | Draft | Recent | Custom(keyword: bytes)

  const SEEN: bytes := [92, 83, 101, 101, 110]
  const ANSWERED: bytes := [92, 65, 110, 115, 119, 101, 114, 101, 100]
  const FLAGGED: bytes := [92, 70, 108, 97, 103, 103, 101, 100]
  const DELETED: bytes := [92, 68, 101, 108, 101, 116, 101, 100]
  const DRAFT: bytes := [92, 68, 114, 97, 102, 116]
  const RECENT_FLAG: bytes := [92, 82, 101, 99, 101, 110, 116]

  function Display(f: Flag): bytes {
    match f
    case Seen => SEEN
    case Answered => ANSWERED
    case Flagged => FLAGGED
    case Deleted => DELETED
    case Draft => DRAFT
    case Recent => RECENT_FLAG
    case Custom(k) => k
  }

  function Displayed(flags: seq<Flag>): (names: seq<bytes>)
    ensures |names| == |flags|
  {
    seq(|flags|, i requires 0 <= i < |flags| => Display(flags[i]))
  }

  /** ATOM-CHAR of the sending side: as the parser's, and 7-bit. */
  predicate IsAsciiAtomChar(b: byte) {
    IsAtomChar(b) && b < 0x80
  }

  /** A flag without the backslash it may start with. */
  function Unslashed(k: bytes): bytes {
    if |k| > 0 && k[0] == BACKSLASH then k[1..] else k
  }

  predicate IsFlagKeyword(k: bytes) {
    var atom := Unslashed(k);
    |atom| > 0 && forall i :: 0 <= i < |atom| ==> IsAsciiAtomChar(atom[i])
  }

  predicate ValidFlag(f: Flag) {
    f.Custom? ==> IsFlagKeyword(f.keyword)
  }

  /** The items with one space between neighbours. */
  function Join(items: seq<bytes>): bytes {
    if |items| == 0 then []
    else if |items| == 1 then items[0]
    else items[0] + [SP] + Join(items[1..])
  }

  function Parenthesised(items: seq<bytes>): bytes {
    [LPAREN] + Join(items) + [RPAREN]
  }

  lemma {:induction false} JoinSnoc(items: seq<bytes>, x: bytes)
    ensures Join(items + [x]) == if |items| == 0 then x else Join(items) + [SP] + x
  {
    if |items| == 0 {
      assert items + [x] == [x];
    } else {
      assert (items + [x])[1..] == items[1..] + [x];
      JoinSnoc(items[1..], x);
      if |items| == 1 {
        assert items[1..] == [];
      }
    }
  }

  lemma JoinNextFlag(flags: seq<Flag>, i: nat)
    ensures Join([]) == []
    ensures i < |flags| ==>
              Join(Displayed(flags)[..i + 1]) ==
              (if i > 0 then Join(Displayed(flags)[..i]) + [SP] else []) + Display(flags[i])
  {
    if i < |flags| {
      var names := Displayed(flags);
      JoinSnoc(names[..i], names[i]);
      assert names[..i + 1] == names[..i] + [names[i]];
    }
  }

  /** Text that the parser takes whole as one element of a flag list. */
  predicate FlagText(n: bytes) {
    || n == [BACKSLASH, STAR]
    || (|n| > 0 && Utf8(n) && AllIn(AtomChar, Unslashed(n)))
  }

  lemma KeywordIsText(k: bytes)
    requires IsFlagKeyword(k)
    ensures FlagText(k) && Commands.IsOneLine(k)
  {
    hide Utf8;
    var atom := Unslashed(k);
    forall j | 0 <= j < |k| ensures k[j] == BACKSLASH || IsAsciiAtomChar(k[j]) {
      if k[0] != BACKSLASH {
        assert k[j] == atom[j];
      } else if j > 0 {
        assert k[j] == atom[j - 1];
      }
    }
    AsciiIsUtf8(k);
  }

  lemma ValidFlagIsText(f: Flag)
    requires ValidFlag(f)
    ensures FlagText(Display(f)) && Commands.IsOneLine(Display(f))
  {
    hide Utf8;
    KeywordIsText(Display(f));
  }

  lemma FlagTextAt(a: bytes, i: nat, t: nat, n: bytes)
    requires At(a, i, n) && FlagText(n)
    requires i + |n| < |a| && (a[i + |n|] == SP || a[i + |n|] == RPAREN)
    ensures FlagOrAtom(a, i, t) == Ok(n, i + |n|, t)
  {
    hide At, Utf8;
    AtSlice(a, i, n);
    AtFirst(a, i, n);
    var j := i + |n|;
    if n[0] == BACKSLASH {
      var atom := n[1..];
      assert n == [BACKSLASH] + atom;
      AtByte(a, i, BACKSLASH, atom);
      if |atom| > 0 {
        AtFirst(a, i + 1, atom);
      }
      if n == [BACKSLASH, STAR] {
        AsciiIsUtf8(n);
      } else {
        assert |atom| > 0 ==> InClass(AtomChar, atom[0]);
        ScanAt(a, i + 1, AtomChar, atom);
      }
    } else {
      ScanAt(a, i, AtomChar, n);
    }
  }

  /** A written flag list is read back element by element; it fails exactly when it overruns the
      item budget. */
  lemma {:induction false} FlagsRestAt(a: bytes, i: nat, t: nat, names: seq<bytes>, acc: seq<bytes>)
    requires |names| > 0 && forall n :: n in names ==> FlagText(n)
    requires At(a, i, Join(names) + [RPAREN])
    ensures AtomListRest(a, i, t, acc) ==
            Within(|names|, t, acc + names, i + |Join(names)| + 1)
    decreases |names|
  {
    hide At, FlagText, FlagOrAtom;
    var n := names[0];
    if |names| == 1 {
      AtConcat(a, i, n, [RPAREN]);
      AtFirst(a, i + |n|, [RPAREN]);
      FlagTextAt(a, i, t, n);
      assert names == [n];
    } else {
      var rest := Join(names[1..]) + [RPAREN];
      assert Join(names) + [RPAREN] == n + ([SP] + rest);
      AtConcat(a, i, n, [SP] + rest);
      AtByte(a, i + |n|, SP, rest);
      FlagTextAt(a, i, t, n);
      if t > 0 {
        FlagsRestAt(a, i + |n| + 1, t - 1, names[1..], acc + [n]);
        assert acc + [n] + names[1..] == acc + names;
      }
    }
  }

  lemma FlagListAt(a: bytes, i: nat, t: nat, names: seq<bytes>)
    requires forall n :: n in names ==> FlagText(n)
    requires At(a, i, Parenthesised(names))
    ensures AtomList(a, i, t) ==
            Within(|names|, t, names, i + |Parenthesised(names)|)
  {
    hide At, FlagText, AtomListRest;
    var body := Join(names) + [RPAREN];
    assert Parenthesised(names) == [LPAREN] + body;
    AtByte(a, i, LPAREN, body);
    AtFirst(a, i + 1, body);
    if |names| > 0 {
      FlagTextStarts(names[0]);
      FlagsRestAt(a, i + 1, t, names, []);
      assert [] + names == names;
    }
  }

  lemma FlagTextStarts(n: bytes)
    requires FlagText(n)
    ensures |n| > 0 && n[0] != RPAREN
  {
    if n[0] != BACKSLASH {
      assert InClass(AtomChar, n[0]);
    }
  }

  /** The parser reads the flag list of a `STORE` command back as the flags that were put in,
      stopping where the list does; a list over the item budget is the only one refused. */
  lemma StoreListReadsBack(flags: seq<Flag>, rest: bytes, t: nat)
    requires forall f :: f in flags ==> ValidFlag(f)
    ensures var list := Parenthesised(Displayed(flags));
            AtomList(list + rest, 0, t) == Within(|flags|, t, Displayed(flags), |list|)
  {
    hide ValidFlag, FlagText;
    var list := Parenthesised(Displayed(flags));
    assert (list + rest)[0..0 + |list|] == list;
    forall n | n in Displayed(flags) ensures FlagText(n) {
      var i :| 0 <= i < |flags| && n == Display(flags[i]);
      ValidFlagIsText(flags[i]);
    }
    FlagListAt(list + rest, 0, t, Displayed(flags));
  }

  /** The name spells a system flag, in whatever case. */
  predicate SpellsSystemFlag(name: bytes) {
    || EqCi(name, Words.SEEN_FLAG) || EqCi(name, Words.ANSWERED_FLAG) || EqCi(name, Words.FLAGGED_FLAG)
    || EqCi(name, Words.DELETED_FLAG) || EqCi(name, Words.DRAFT_FLAG) || EqCi(name, Words.RECENT_FLAG)
  }

  /** What a server takes a flag name for: flag names are the same in any case (section 2.3.2 of
      RFC 9051). */
  function FlagOf(name: bytes): Flag {
    if EqCi(name, Words.SEEN_FLAG) then Seen
    else if EqCi(name, Words.ANSWERED_FLAG) then Answered
    else if EqCi(name, Words.FLAGGED_FLAG) then Flagged
    else if EqCi(name, Words.DELETED_FLAG) then Deleted
    else if EqCi(name, Words.DRAFT_FLAG) then Draft
    else if EqCi(name, Words.RECENT_FLAG) then Recent
    else Custom(name)
  }

  /** A keyword that spells a system flag: the server takes it for that flag. */
  predicate Masquerades(f: Flag) {
    f.Custom? && SpellsSystemFlag(f.keyword)
  }

  /** The server takes the name of a flag for that flag, unless it is a keyword spelling a system flag. */
  lemma NamedFlagIsRead(f: Flag)
    ensures FlagOf(Display(f)) == f <==> !Masquerades(f)
    ensures !FlagOf(Display(f)).Custom? <==> !f.Custom? || Masquerades(f)
  {
    NamesDiffer();
    match f
    case Seen => assert EqCi(Display(f), Words.SEEN_FLAG);
    case Answered => assert EqCi(Display(f), Words.ANSWERED_FLAG);
    case Flagged => assert EqCi(Display(f), Words.FLAGGED_FLAG);
    case Deleted => assert EqCi(Display(f), Words.DELETED_FLAG);
    case Draft => assert EqCi(Display(f), Words.DRAFT_FLAG);
    case Recent => assert EqCi(Display(f), Words.RECENT_FLAG);
    case Custom(_) =>
  }

  lemma NamesDiffer()
    ensures !EqCi(Words.FLAGGED_FLAG, Words.DELETED_FLAG)
  {
    assert Words.FLAGGED_FLAG[1] == 70 && Words.DELETED_FLAG[1] == 68;
  }

  /** A reader of `list` within budget `t`, whatever follows, takes it for these flags, in order, up to
      keywords that spell system flags; it refuses the list only when it overruns the budget. */
  predicate ReadAs(list: bytes, rest: bytes, t: nat, flags: seq<Flag>) {
    var read := AtomList(list + rest, 0, t);
    && (read.Ok? <==> |flags| <= t)
    && (read.Ok? ==>
        && read.pos == |list| && |read.val| == |flags|
        && forall i :: 0 <= i < |flags| ==> (FlagOf(read.val[i]) == flags[i] <==> !Masquerades(flags[i])))
  }

  /** The server gets the very flags the caller gave. */
  lemma StoreListMeans(flags: seq<Flag>, rest: bytes, t: nat)
    requires forall f :: f in flags ==> ValidFlag(f)
    ensures ReadAs(Parenthesised(Displayed(flags)), rest, t, flags)
  {
    hide ValidFlag, AtomList, FlagOf, Masquerades, Display;
    StoreListReadsBack(flags, rest, t);
    forall i | 0 <= i < |flags| ensures FlagOf(Displayed(flags)[i]) == flags[i] <==> !Masquerades(flags[i]) {
      NamedFlagIsRead(flags[i]);
    }
  }

  /** The flag list of a `STORE` command, refused when a custom flag is not a keyword. */
  method StoreList(flags: seq<Flag>) returns (list: Option<bytes>)
    ensures list.Some? <==> forall f :: f in flags ==> ValidFlag(f)
    ensures list.Some? ==> list.value == Parenthesised(Displayed(flags))
    ensures list.Some? ==> forall rest: bytes, t: nat :: ReadAs(list.value, rest, t, flags)
  {
    hide Join, Displayed, Display, ReadAs, ValidFlag;
    JoinNextFlag(flags, 0);
    for i := 0 to |flags|
      invariant forall k :: 0 <= k < i ==> ValidFlag(flags[k])
    {
      if !ValidFlag(flags[i]) {
        return None;
      }
    }
    var joined: bytes := [];
    for i := 0 to |flags|
      invariant joined == Join(Displayed(flags)[..i])
    {
      JoinNextFlag(flags, i);
      if i > 0 {
        joined := joined + [SP];
      }
      joined := joined + Display(flags[i]);
    }
    assert Displayed(flags)[..|flags|] == Displayed(flags);
    list := Some([LPAREN] + joined + [RPAREN]);
    forall rest: bytes, t: nat ensures ReadAs(list.value, rest, t, flags) {
      StoreListMeans(flags, rest, t);
    }
  }
}
