/** The other direction of the round trips: whatever the parser recognises was written by the grammar,
    and means what was read. Each lemma finds the writing of what one routine accepted. */
module Completeness {
  import opened Bytes
  import opened Ast
  import opened Grammar
  import opened BalancedValues
  import opened Forms
  import opened FetchRoundTrip
  import opened ResponseRoundTrip
  import opened ServerStream
  import Commands
  import Wire

  // ---------------------------------------------------------------------------
  // Tokens and strings
  // ---------------------------------------------------------------------------

  lemma NumberIs(a: bytes, i: nat, t: nat) returns (d: Numeral)
    requires i <= |a| && Number(a, i, t).Ok?
    ensures var r := Number(a, i, t); Fits(d) && Spans(a, i, r.pos, d) && Decimal(d) == r.val
  {
    DigitsScanned(a, i, t);
    hide Decimal, Number;
    d := a[i..Number(a, i, t).pos];
    SpansSlice(a, i, Number(a, i, t).pos);
  }

  lemma AtomIs(a: bytes, i: nat, t: nat)
    requires i <= |a| && Atom(a, i, t).Ok?
    ensures var r := Atom(a, i, t); AtomOk(r.val) && Spans(a, i, r.pos, r.val)
  {
    hide Utf8, AllIn;
    ScannedAllIn(a, i, AtomChar);
    SpansSlice(a, i, Atom(a, i, t).pos);
  }

  lemma TagIs(a: bytes, i: nat, t: nat)
    requires i <= |a| && Tag(a, i, t).Ok?
    ensures var r := Tag(a, i, t);
            && |r.val| > 0 && AllIn(TagChar, r.val) && Utf8(r.val)
            && Spans(a, i, r.pos, r.val) && r.val[0] == a[i]
  {
    hide Utf8, AllIn;
    ScannedAllIn(a, i, TagChar);
    SpansSlice(a, i, Tag(a, i, t).pos);
  }

  lemma TextIs(a: bytes, i: nat, t: nat)
    requires i <= |a| && Text(a, i, t).Ok?
    ensures var r := Text(a, i, t); TextOk(r.val) && Spans(a, i, r.pos, r.val)
  {
    hide Utf8, AllIn;
    ScannedAllIn(a, i, TextChar);
    SpansSlice(a, i, Text(a, i, t).pos);
  }

  lemma SectionTextIs(a: bytes, i: nat, t: nat)
    requires i <= |a| && ReadSection(a, i, t).Ok?
    ensures var r := ReadSection(a, i, t); AllIn(SectionChar, r.val) && Utf8(r.val) && Spans(a, i, r.pos, r.val)
  {
    hide Utf8, AllIn;
    ScannedAllIn(a, i, SectionChar);
    SpansSlice(a, i, ReadSection(a, i, t).pos);
  }

  lemma CrlfIs(a: bytes, i: nat, t: nat)
    requires i <= |a| && ConsumeCrlf(a, i, t).Ok?
    ensures Spans(a, i, i + 2, CRLF)
  {
    assert a[i..i + 2] == CRLF;
  }

  lemma QuotedIs(a: bytes, i: nat, t: nat) returns (text: bytes)
    requires i <= |a| && Quoted(a, i, t).Ok?
    ensures var r := Quoted(a, i, t);
            QuotedTextOk(text) && Spans(a, i, r.pos, Wire.QuotedForm(text)) && r.val == Wire.Escape(text)
  {
    hide Quoted, Wire.Unescape, Wire.Escape, Wire.QuotedForm;
    Wire.QuotedIsQuotedForm(a, i, t);
    text := Wire.Unescape(Quoted(a, i, t).val);
    SpansSlice(a, i, Quoted(a, i, t).pos);
  }

  lemma LiteralIs(a: bytes, i: nat, t: nat) returns (length: bytes)
    requires i <= |a| && Literal(a, i, t).Ok?
    ensures var r := Literal(a, i, t); LiteralOk(length, r.val) && Spans(a, i, r.pos, LiteralForm(length, r.val))
  {
    hide Literal, LiteralOk, LiteralForm;
    LiteralIsForm(a, i, t);
    var r := Literal(a, i, t);
    length :| LiteralOk(length, r.val) && a[i..r.pos] == LiteralForm(length, r.val);
    SpansSlice(a, i, r.pos);
  }

  lemma NilIs(a: bytes, i: nat, t: nat)
    requires i <= |a| && ExpectNil(a, i, t).Ok?
    ensures var e := ExpectNil(a, i, t).pos; EqCi(a[i..e], NIL) && Spans(a, i, e, a[i..e])
  {
    var e := ExpectNil(a, i, t).pos;
    SpansSlice(a, i, e);
    forall k | 0 <= k < 3 ensures Lower(a[i..e][k]) == Lower(NIL[k]) {
      assert a[i..e][k] == a[i + k];
    }
  }

  lemma NStringIs(a: bytes, i: nat, t: nat) returns (v: NStringForm)
    requires i <= |a| && NStringBytesOptional(a, i, t).Ok?
    ensures var r := NStringBytesOptional(a, i, t);
            NStringOk(v) && Spans(a, i, r.pos, RenderNString(v)) && NStringValue(v) == r.val
  {
    hide Quoted, Literal, ExpectNil, Spans, EqCi, QuotedTextOk, LiteralOk, LiteralForm, Wire.QuotedForm, Wire.Escape;
    if a[i] == DQUOTE {
      var text := QuotedIs(a, i, t);
      v := QuotedText(text);
    } else if a[i] == LBRACE {
      var length := LiteralIs(a, i, t);
      v := LiteralData(length, Literal(a, i, t).val);
    } else {
      NilIs(a, i, t);
      v := NilForm(a[i..ExpectNil(a, i, t).pos]);
    }
  }

  lemma NStringTextIs(a: bytes, i: nat, t: nat) returns (v: NStringForm)
    requires i <= |a| && NString(a, i, t).Ok?
    ensures var r := NString(a, i, t);
            TextFormOk(v) && Spans(a, i, r.pos, RenderNString(v)) && NStringValue(v) == r.val
  {
    hide Quoted, Literal, ExpectNil, Spans, EqCi, Utf8, QuotedTextOk, LiteralOk, LiteralForm;
    hide Wire.QuotedForm, Wire.Escape;
    if a[i] == DQUOTE {
      var text := QuotedIs(a, i, t);
      v := QuotedText(text);
    } else if a[i] == LBRACE {
      var length := LiteralIs(a, i, t);
      v := LiteralData(length, Literal(a, i, t).val);
    } else {
      NilIs(a, i, t);
      v := NilForm(a[i..ExpectNil(a, i, t).pos]);
    }
  }

  lemma AStringIs(a: bytes, i: nat, t: nat) returns (v: AStringForm)
    requires i <= |a| && AString(a, i, t).Ok?
    ensures var r := AString(a, i, t);
            AStringOk(v) && Spans(a, i, r.pos, RenderAString(v)) && AStringValue(v) == r.val
  {
    hide Quoted, Literal, Atom, Spans, Utf8, AtomOk, QuotedTextOk, LiteralOk, LiteralForm, Wire.QuotedForm, Wire.Escape;
    if a[i] == DQUOTE {
      var text := QuotedIs(a, i, t);
      v := QuotedName(text);
    } else if a[i] == LBRACE {
      var length := LiteralIs(a, i, t);
      v := LiteralName(length, Literal(a, i, t).val);
    } else {
      AtomIs(a, i, t);
      v := AtomText(Atom(a, i, t).val);
    }
  }

  // ---------------------------------------------------------------------------
  // Lists
  // ---------------------------------------------------------------------------

  lemma FlagIs(a: bytes, i: nat, t: nat)
    requires i <= |a| && FlagOrAtom(a, i, t).Ok?
    ensures var r := FlagOrAtom(a, i, t); Wire.FlagText(r.val) && Spans(a, i, r.pos, r.val)
  {
    hide Utf8, AllIn;
    var r := FlagOrAtom(a, i, t);
    SpansSlice(a, i, r.pos);
    if a[i] == BACKSLASH {
      if Next(a, i + 1, STAR) {
        assert r.val == [BACKSLASH, STAR];
      } else {
        ScannedAllIn(a, i + 1, AtomChar);
        assert r.val[1..] == a[i + 1..r.pos];
      }
    } else {
      ScannedAllIn(a, i, AtomChar);
    }
  }

  lemma JoinFirst(x: bytes, rest: seq<bytes>)
    ensures Wire.Join([x] + rest) == if |rest| == 0 then x else x + [SP] + Wire.Join(rest)
  {
    assert ([x] + rest)[1..] == rest;
  }

  /** One element, and then the end of the list or the rest of it. */
  lemma ListSpans(a: bytes, i: nat, q: nat, e: nat, x: bytes, rest: seq<bytes>)
    requires Spans(a, i, q, x) && q < |a|
    requires if |rest| == 0 then a[q] == RPAREN && e == q + 1
             else a[q] == SP && Spans(a, q + 1, e, Wire.Join(rest) + [RPAREN])
    ensures Spans(a, i, e, Wire.Join([x] + rest) + [RPAREN])
  {
    hide Spans, Wire.Join;
    JoinFirst(x, rest);
    if |rest| == 0 {
      SpansOne(a, q);
      SpansConcat(a, i, q, e, x, [RPAREN]);
    } else {
      SpansByte(a, q, e, SP, Wire.Join(rest) + [RPAREN]);
      SpansConcat(a, i, q, e, x, [SP] + (Wire.Join(rest) + [RPAREN]));
      assert x + [SP] + Wire.Join(rest) + [RPAREN] == x + ([SP] + (Wire.Join(rest) + [RPAREN]));
    }
  }

  lemma {:induction false} FlagsRestIs(a: bytes, i: nat, t: nat, acc: seq<bytes>) returns (names: seq<bytes>)
    requires i <= |a| && AtomListRest(a, i, t, acc).Ok?
    ensures var r := AtomListRest(a, i, t, acc);
            && |names| > 0 && AllFlagText(names) && r.val == acc + names
            && Spans(a, i, r.pos, Wire.Join(names) + [RPAREN])
    decreases |a| - i
  {
    hide FlagOrAtom, Wire.FlagText, Spans, Wire.Join;
    FlagIs(a, i, t);
    var x := FlagOrAtom(a, i, t);
    var rest: seq<bytes> := [];
    if a[x.pos] == SP {
      rest := FlagsRestIs(a, x.pos + 1, t - 1, acc + [x.val]);
      assert acc + [x.val] + rest == acc + ([x.val] + rest);
    }
    names := [x.val] + rest;
    ListSpans(a, i, x.pos, AtomListRest(a, i, t, acc).pos, x.val, rest);
  }

  lemma ParenthesisedIs(a: bytes, i: nat, e: nat, items: seq<bytes>)
    requires i < |a| && a[i] == LPAREN && Spans(a, i + 1, e, Wire.Join(items) + [RPAREN])
    ensures Spans(a, i, e, Wire.Parenthesised(items))
  {
    hide Spans, Wire.Join;
    SpansByte(a, i, e, LPAREN, Wire.Join(items) + [RPAREN]);
    assert Wire.Parenthesised(items) == [LPAREN] + (Wire.Join(items) + [RPAREN]);
  }

  lemma EmptyListIs(a: bytes, i: nat)
    requires i + 1 < |a| && a[i] == LPAREN && a[i + 1] == RPAREN
    ensures Spans(a, i, i + 2, Wire.Parenthesised([]))
  {
    hide Spans;
    SpansOne(a, i + 1);
    assert Wire.Join([]) + [RPAREN] == [RPAREN];
    ParenthesisedIs(a, i, i + 2, []);
  }

  lemma FlagListIs(a: bytes, i: nat, t: nat)
    requires i <= |a| && AtomList(a, i, t).Ok?
    ensures var r := AtomList(a, i, t); AllFlagText(r.val) && Spans(a, i, r.pos, Wire.Parenthesised(r.val))
  {
    hide AtomListRest, Wire.FlagText, Spans, Wire.Parenthesised, Wire.Join;
    if Next(a, i + 1, RPAREN) {
      EmptyListIs(a, i);
    } else {
      var names := FlagsRestIs(a, i + 1, t, []);
      assert [] + names == names;
      ParenthesisedIs(a, i, AtomList(a, i, t).pos, names);
    }
  }

  lemma SpFlagListIs(a: bytes, i: nat, t: nat)
    requires i <= |a| && SpAtomList(a, i, t).Ok?
    ensures var r := SpAtomList(a, i, t); AllFlagText(r.val) && Spans(a, i, r.pos, SpList(r.val))
  {
    hide AtomList, AllFlagText, Spans, Wire.Parenthesised;
    FlagListIs(a, i + 1, t);
    var r := SpAtomList(a, i, t);
    SpansByte(a, i, r.pos, SP, Wire.Parenthesised(r.val));
  }

  lemma {:induction false} CapsIs(a: bytes, i: nat, t: nat, acc: seq<bytes>) returns (caps: seq<bytes>)
    requires i <= |a| && CapsRest(a, i, t, acc).Ok?
    ensures var r := CapsRest(a, i, t, acc);
            AllAtoms(caps) && r.val == acc + caps && Spans(a, i, r.pos, RenderCaps(caps))
    decreases |a| - i
  {
    hide Atom, AtomOk, Spans;
    if !Next(a, i, SP) {
      caps := [];
      SpansSlice(a, i, i);
      assert a[i..i] == [] && acc + caps == acc;
    } else {
      AtomIs(a, i + 1, t);
      var x := Atom(a, i + 1, t);
      var rest := CapsIs(a, x.pos, t - 1, acc + [x.val]);
      caps := [x.val] + rest;
      assert acc + [x.val] + rest == acc + caps && caps[1..] == rest;
      var e := CapsRest(a, i, t, acc).pos;
      SpansConcat(a, i + 1, x.pos, e, x.val, RenderCaps(rest));
      SpansByte(a, i, e, SP, x.val + RenderCaps(rest));
      assert RenderCaps(caps) == [SP] + (x.val + RenderCaps(rest));
    }
  }

  lemma {:induction false} IdsIs(a: bytes, i: nat, t: nat, acc: seq<nat>) returns (ids: seq<Numeral>)
    requires i <= |a| && SearchRest(a, i, t, acc).Ok?
    ensures var r := SearchRest(a, i, t, acc);
            AllFit(ids) && r.val == acc + IdValues(ids) && Spans(a, i, r.pos, RenderIds(ids))
    decreases |a| - i
  {
    hide Number, Fits, Decimal, Spans;
    if !Next(a, i, SP) {
      ids := [];
      SpansSlice(a, i, i);
      assert a[i..i] == [] && acc + IdValues(ids) == acc;
    } else {
      var x := Number(a, i + 1, t);
      var d := NumberIs(a, i + 1, t);
      var rest := IdsIs(a, x.pos, t, acc + [x.val]);
      ids := [d] + rest;
      assert ids[1..] == rest && IdValues(ids) == [x.val] + IdValues(rest);
      assert acc + [x.val] + IdValues(rest) == acc + IdValues(ids);
      var e := SearchRest(a, i, t, acc).pos;
      SpansConcat(a, i + 1, x.pos, e, d, RenderIds(rest));
      SpansByte(a, i, e, SP, d + RenderIds(rest));
      assert RenderIds(ids) == [SP] + (d + RenderIds(rest));
    }
  }

  // ---------------------------------------------------------------------------
  // STATUS items
  // ---------------------------------------------------------------------------

  /** The kind of item a key names. */
  function KindOfKey(key: bytes): ItemKind {
    if EqCi(key, MESSAGES) then MessagesItem
    else if EqCi(key, RECENT) then RecentItem
    else if EqCi(key, UIDNEXT) then UidNextItem
    else if EqCi(key, UIDVALIDITY) then UidValidityItem
    else if EqCi(key, UNSEEN) then UnseenItem
    else OtherItem
  }

  lemma SpNumberIs(a: bytes, i: nat, t: nat) returns (d: Numeral)
    requires i <= |a| && SpNumber(a, i, t).Ok?
    ensures var r := SpNumber(a, i, t); Fits(d) && Spans(a, i, r.pos, [SP] + d) && Decimal(d) == r.val
  {
    hide Number, Decimal, Fits, Spans;
    d := NumberIs(a, i + 1, t);
    SpansByte(a, i, SpNumber(a, i, t).pos, SP, d);
  }

  lemma ItemIs(a: bytes, i: nat, t: nat) returns (s: SentItem)
    requires i <= |a| && OneStatusItem(a, i, t).Ok?
    ensures var r := OneStatusItem(a, i, t);
            ItemOk(s) && Spans(a, i, r.pos, RenderItem(s)) && ItemMeaning(s) == r.val
  {
    hide Atom, SpNumber, AtomOk, Spans, EqCi, Decimal, Fits;
    AtomIs(a, i, t);
    var x := Atom(a, i, t);
    var n := SpNumberIs(a, x.pos, t);
    s := SentItem(x.val, KindOfKey(x.val), n);
    SpansConcat(a, i, x.pos, OneStatusItem(a, i, t).pos, x.val, [SP] + n);
    assert RenderItem(s) == x.val + ([SP] + n);
  }

  lemma {:induction false} ItemsRestIs(a: bytes, i: nat, t: nat, acc: seq<StatusItem>) returns (items: seq<SentItem>)
    requires i <= |a| && StatusItemsRest(a, i, t, acc).Ok?
    ensures var r := StatusItemsRest(a, i, t, acc);
            && |items| > 0 && AllItemsOk(items) && r.val == acc + ItemMeanings(items)
            && Spans(a, i, r.pos, Wire.Join(RenderItems(items)) + [RPAREN])
    decreases |a| - i
  {
    hide OneStatusItem, ItemOk, ItemMeaning, RenderItem, Spans, Wire.Join;
    var s := ItemIs(a, i, t);
    var x := OneStatusItem(a, i, t);
    var rest: seq<SentItem> := [];
    if a[x.pos] == SP {
      rest := ItemsRestIs(a, x.pos + 1, t - 1, acc + [x.val]);
    }
    items := [s] + rest;
    ItemsCons(items);
    assert items[1..] == rest;
    assert acc + [x.val] + ItemMeanings(rest) == acc + ItemMeanings(items);
    ListSpans(a, i, x.pos, StatusItemsRest(a, i, t, acc).pos, RenderItem(s), RenderItems(rest));
  }

  lemma ItemsAreIs(a: bytes, i: nat, t: nat) returns (items: seq<SentItem>)
    requires i <= |a| && StatusItems(a, i, t).Ok?
    ensures var r := StatusItems(a, i, t);
            && AllItemsOk(items) && r.val == ItemMeanings(items)
            && Spans(a, i, r.pos, Wire.Parenthesised(RenderItems(items)))
  {
    hide StatusItemsRest, ItemOk, Spans, Wire.Parenthesised, Wire.Join;
    if Next(a, i + 1, RPAREN) {
      items := [];
      EmptyListIs(a, i);
      assert RenderItems(items) == [] && ItemMeanings(items) == [];
    } else {
      items := ItemsRestIs(a, i + 1, t, []);
      assert [] + ItemMeanings(items) == ItemMeanings(items);
      ParenthesisedIs(a, i, StatusItems(a, i, t).pos, RenderItems(items));
    }
  }

  // ---------------------------------------------------------------------------
  // FETCH attributes
  // ---------------------------------------------------------------------------

  lemma BalancedIs(a: bytes, i: nat, t: nat) returns (x: Items)
    requires i <= |a| && Balanced(a, i, t).Ok?
    ensures var r := Balanced(a, i, t);
            WellFormed(x) && Nesting(x) < U32_MAX && r.val == RenderGroup(x) && Spans(a, i, r.pos, RenderGroup(x))
  {
    CapturedIsGroup(a, i, t);
    SpansSlice(a, i, Balanced(a, i, t).pos);
    hide Balanced, WellFormed, Nesting, RenderGroup;
    x :| WellFormed(x) && Nesting(x) < U32_MAX && Balanced(a, i, t).val == RenderGroup(x);
  }

  lemma SpBalancedIs(a: bytes, i: nat, t: nat) returns (x: Items)
    requires i <= |a| && SpBalanced(a, i, t).Ok?
    ensures var r := SpBalanced(a, i, t);
            && WellFormed(x) && Nesting(x) < U32_MAX && r.val == RenderGroup(x)
            && Spans(a, i, r.pos, [SP] + RenderGroup(x)) && a[i] == SP && r.items == t
  {
    hide Balanced, WellFormed, Nesting, RenderGroup, Spans;
    x := BalancedIs(a, i + 1, t);
    SpansByte(a, i, SpBalanced(a, i, t).pos, SP, RenderGroup(x));
  }

  lemma SpQuotedIs(a: bytes, i: nat, t: nat) returns (text: bytes)
    requires i <= |a| && SpQuoted(a, i, t).Ok?
    ensures var r := SpQuoted(a, i, t);
            QuotedTextOk(text) && Spans(a, i, r.pos, [SP] + Wire.QuotedForm(text)) && r.val == Wire.Escape(text)
  {
    hide Quoted, QuotedTextOk, Wire.QuotedForm, Wire.Escape, Spans;
    text := QuotedIs(a, i + 1, t);
    SpansByte(a, i, SpQuoted(a, i, t).pos, SP, Wire.QuotedForm(text));
  }

  lemma SpNStringIs(a: bytes, i: nat, t: nat) returns (v: NStringForm)
    requires i <= |a| && SpNStringBytes(a, i, t).Ok?
    ensures var r := SpNStringBytes(a, i, t);
            && NStringOk(v) && Spans(a, i, r.pos, [SP] + RenderNString(v))
            && r.val == OrEmpty(NStringValue(v))
  {
    hide NStringBytesOptional, NStringOk, RenderNString, NStringValue, Spans;
    v := NStringIs(a, i + 1, t);
    SpansByte(a, i, SpNStringBytes(a, i, t).pos, SP, RenderNString(v));
  }

  lemma OriginIs(a: bytes, i: nat, t: nat) returns (origin: Option<Numeral>)
    requires i <= |a| && Origin(a, i, t).Ok?
    ensures var r := Origin(a, i, t);
            && (origin.Some? ==> Fits(origin.value))
            && Spans(a, i, r.pos, RenderOrigin(origin)) && OriginValue(origin) == r.val
  {
    hide Number, Decimal, Fits, Spans;
    if Next(a, i, LESS) {
      var d := NumberIs(a, i + 1, t);
      var q := Number(a, i + 1, t).pos;
      origin := Some(d);
      SpansOne(a, q);
      SpansConcat(a, i + 1, q, q + 1, d, [GREATER]);
      SpansByte(a, i, q + 1, LESS, d + [GREATER]);
      assert [LESS] + d + [GREATER] == [LESS] + (d + [GREATER]);
    } else {
      origin := None;
      SpansSlice(a, i, i);
      assert a[i..i] == [];
    }
  }

  lemma SectionSpans(a: bytes, i: nat, j: nat, k: nat, e: nat, text: bytes, origin: bytes, value: bytes)
    requires i < |a| && a[i] == LBRACKET && Spans(a, i + 1, j, text)
    requires j < |a| && a[j] == RBRACKET && Spans(a, j + 1, k, origin)
    requires k < |a| && a[k] == SP && Spans(a, k + 1, e, value)
    ensures Spans(a, i, e, [LBRACKET] + text + [RBRACKET] + origin + [SP] + value)
  {
    hide Spans;
    var tail := [SP] + value;
    SpansByte(a, k, e, SP, value);
    SpansConcat(a, j + 1, k, e, origin, tail);
    SpansByte(a, j, e, RBRACKET, origin + tail);
    SpansConcat(a, i + 1, j, e, text, [RBRACKET] + (origin + tail));
    SpansByte(a, i, e, LBRACKET, text + ([RBRACKET] + (origin + tail)));
    assert [LBRACKET] + text + [RBRACKET] + origin + [SP] + value
        == [LBRACKET] + (text + ([RBRACKET] + (origin + tail)));
  }

  /** The section as the attribute keeps it. */
  function SectionOf(text: bytes): Option<bytes> {
    if text == [] then None else Some(text)
  }

  lemma BodySectionIs(a: bytes, i: nat, t: nat) returns (s: SentValue)
    requires i < |a| && a[i] == LBRACKET && BodySectionRest(a, i + 1, t).Ok?
    ensures var r := BodySectionRest(a, i + 1, t);
            s.SentSection? && ValueOk(s) && Meaning(s) == r.val && Spans(a, i, r.pos, RenderValue(s))
  {
    hide ReadSection, Origin, NStringBytesOptional, NStringOk, RenderNString, NStringValue, Fits;
    hide RenderOrigin, OriginValue, Spans, Utf8, AllIn;
    SectionTextIs(a, i + 1, t);
    var text := ReadSection(a, i + 1, t);
    var origin := OriginIs(a, text.pos + 1, t);
    var o := Origin(a, text.pos + 1, t);
    var value := NStringIs(a, o.pos + 1, t);
    s := SentSection(SectionOf(text.val), origin, value);
    SectionSpans(a, i, text.pos, o.pos, BodySectionRest(a, i + 1, t).pos,
                 text.val, RenderOrigin(origin), RenderNString(value));
  }

  /** `s` is a writing of the value that was read with kind `kind`. */
  ghost predicate ValueWritten(a: bytes, i: nat, t: nat, kind: AttKind, s: SentValue)
    requires i <= |a|
  {
    var r := AttValue(a, i, t, kind);
    r.Ok? && ValueOk(s) && KindOf(s) == kind && Meaning(s) == r.val && Spans(a, i, r.pos, RenderValue(s))
  }

  lemma NumberValueIs(a: bytes, i: nat, t: nat, kind: AttKind) returns (s: SentValue)
    requires i <= |a| && AttValue(a, i, t, kind).Ok? && (kind == KUid || kind == KSize)
    ensures ValueWritten(a, i, t, kind, s)
  {
    hide SpNumber, Decimal, Fits, Spans;
    var d := SpNumberIs(a, i, t);
    s := if kind == KUid then SentUid(d) else SentSize(d);
  }

  lemma FlagsValueIs(a: bytes, i: nat, t: nat) returns (s: SentValue)
    requires i <= |a| && AttValue(a, i, t, KFlags).Ok?
    ensures ValueWritten(a, i, t, KFlags, s)
  {
    hide SpAtomList, Spans, Wire.FlagText, Wire.Parenthesised;
    SpFlagListIs(a, i, t);
    s := SentFlags(SpAtomList(a, i, t).val);
  }

  lemma DateValueIs(a: bytes, i: nat, t: nat) returns (s: SentValue)
    requires i <= |a| && AttValue(a, i, t, KInternalDate).Ok?
    ensures ValueWritten(a, i, t, KInternalDate, s)
  {
    hide SpQuoted, QuotedTextOk, Wire.QuotedForm, Wire.Escape, Spans;
    var text := SpQuotedIs(a, i, t);
    s := SentDate(text);
  }

  lemma PartValueIs(a: bytes, i: nat, t: nat, kind: AttKind) returns (s: SentValue)
    requires i <= |a| && AttValue(a, i, t, kind).Ok? && (kind == KRfc822 || kind == KHeader || kind == KText)
    ensures ValueWritten(a, i, t, kind, s)
  {
    hide SpNStringBytes, NStringOk, RenderNString, NStringValue, Spans;
    var v := SpNStringIs(a, i, t);
    s := SentPart(if kind == KRfc822 then WholeMessage else if kind == KHeader then HeaderPart else TextPart, v);
  }

  lemma GroupValueIs(a: bytes, i: nat, t: nat, kind: AttKind) returns (s: SentValue)
    requires i <= |a| && AttValue(a, i, t, kind).Ok?
    requires kind == KEnvelope || kind == KBodyStructure || (kind == KBody && !Next(a, i, LBRACKET))
    ensures ValueWritten(a, i, t, kind, s)
  {
    hide SpBalanced, BodySectionRest, WellFormed, Nesting, RenderGroup, Spans;
    var x := SpBalancedIs(a, i, t);
    var name := if kind == KEnvelope then EnvelopeName else if kind == KBody then BodyName else BodyStructureName;
    s := SentGroup(name, x);
  }

  lemma SectionValueIs(a: bytes, i: nat, t: nat) returns (s: SentValue)
    requires i <= |a| && AttValue(a, i, t, KBody).Ok? && Next(a, i, LBRACKET)
    ensures ValueWritten(a, i, t, KBody, s)
  {
    hide BodySectionRest, ValueOk, Meaning, RenderValue, Spans;
    s := BodySectionIs(a, i, t);
  }

  lemma ValueIs(a: bytes, i: nat, t: nat, kind: AttKind) returns (s: SentValue)
    requires i <= |a| && AttValue(a, i, t, kind).Ok?
    ensures ValueWritten(a, i, t, kind, s)
  {
    if kind == KUnknown {
      assert false;
    }
    hide AttValue, ValueWritten;
    match kind
    case KUid => s := NumberValueIs(a, i, t, kind);
    case KSize => s := NumberValueIs(a, i, t, kind);
    case KFlags => s := FlagsValueIs(a, i, t);
    case KInternalDate => s := DateValueIs(a, i, t);
    case KRfc822 => s := PartValueIs(a, i, t, kind);
    case KHeader => s := PartValueIs(a, i, t, kind);
    case KText => s := PartValueIs(a, i, t, kind);
    case KEnvelope => s := GroupValueIs(a, i, t, kind);
    case KBodyStructure => s := GroupValueIs(a, i, t, kind);
    case KBody =>
      if Next(a, i, LBRACKET) {
        s := SectionValueIs(a, i, t);
      } else {
        s := GroupValueIs(a, i, t, kind);
      }
  }

  lemma KindNamesKeyword(name: bytes, s: SentValue)
    requires AttKindOf(name) == KindOf(s)
    ensures EqCi(name, NameOf(s))
  {
    hide EqCi;
  }

  lemma AttIs(a: bytes, i: nat, t: nat) returns (s: SentAtt)
    requires i <= |a| && OneFetchAtt(a, i, t).Ok?
    ensures var r := OneFetchAtt(a, i, t);
            AttOk(s) && Meaning(s.value) == r.val && Spans(a, i, r.pos, RenderAtt(s))
  {
    hide AttKindOf, AttValue, ValueOk, Meaning, RenderValue, NameOf, EqCi, Utf8, Spans;
    var name := FetchAttName(a, i, t);
    var kind := AttKindOf(name.val);
    var value := ValueIs(a, name.pos, t, kind);
    KindNamesKeyword(name.val, value);
    s := SentAtt(name.val, value);
    SpansSlice(a, i, name.pos);
    SpansConcat(a, i, name.pos, OneFetchAtt(a, i, t).pos, name.val, RenderValue(value));
  }

  lemma {:induction false} AttsRestIs(a: bytes, i: nat, t: nat, acc: seq<FetchAttribute>) returns (sent: seq<SentAtt>)
    requires i <= |a| && FetchAttsRest(a, i, t, acc).Ok?
    ensures var r := FetchAttsRest(a, i, t, acc);
            && |sent| > 0 && AllOk(sent) && r.val == acc + Meanings(sent)
            && Spans(a, i, r.pos, Wire.Join(RenderAtts(sent)) + [RPAREN])
    decreases |a| - i
  {
    hide OneFetchAtt, AttOk, Meaning, RenderAtt, AttItems, AttsItems, Spans, Wire.Join;
    var s := AttIs(a, i, t);
    var x := OneFetchAtt(a, i, t);
    var rest: seq<SentAtt> := [];
    if a[x.pos] == SP {
      rest := AttsRestIs(a, x.pos + 1, x.items - 1, acc + [x.val]);
    }
    sent := [s] + rest;
    ListsCons(sent);
    assert sent[1..] == rest;
    assert acc + [x.val] + Meanings(rest) == acc + Meanings(sent);
    ListSpans(a, i, x.pos, FetchAttsRest(a, i, t, acc).pos, RenderAtt(s), RenderAtts(rest));
  }

  lemma MsgAttIs(a: bytes, i: nat, t: nat) returns (sent: seq<SentAtt>)
    requires i <= |a| && FetchMsgAtt(a, i, t).Ok?
    ensures var r := FetchMsgAtt(a, i, t);
            && AllOk(sent) && r.val == Meanings(sent)
            && Spans(a, i, r.pos, Wire.Parenthesised(RenderAtts(sent)))
  {
    hide FetchAttsRest, AttOk, AttsItems, Spans, Wire.Parenthesised, Wire.Join;
    if Next(a, i + 1, RPAREN) {
      sent := [];
      EmptyListIs(a, i);
      assert RenderAtts(sent) == [] && Meanings(sent) == [];
    } else {
      sent := AttsRestIs(a, i + 1, t, []);
      assert [] + Meanings(sent) == Meanings(sent);
      ParenthesisedIs(a, i, FetchMsgAtt(a, i, t).pos, RenderAtts(sent));
    }
  }

  // ---------------------------------------------------------------------------
  // Data responses
  // ---------------------------------------------------------------------------

  lemma ListBodyIs(a: bytes, i: nat, t: nat) returns (delimiter: NStringForm, mailbox: AStringForm)
    requires i <= |a| && ListBody(a, i, t).Ok?
    ensures var r := ListBody(a, i, t);
            && AllFlagText(r.val.0) && TextFormOk(delimiter) && AStringOk(mailbox)
            && r.val.1 == NStringValue(delimiter) && r.val.2 == AStringValue(mailbox)
            && Spans(a, i, r.pos, RenderListBody(r.val.0, delimiter, mailbox))
  {
    hide SpAtomList, NString, AString, AllFlagText, TextFormOk, AStringOk, NStringValue, AStringValue, Spans;
    hide SpList, RenderNString, RenderAString;
    SpFlagListIs(a, i, t);
    var l := SpAtomList(a, i, t);
    delimiter := NStringTextIs(a, l.pos + 1, l.items);
    var d := NString(a, l.pos + 1, l.items);
    mailbox := AStringIs(a, d.pos + 1, l.items);
    var e := ListBody(a, i, t).pos;
    var f, v, m := SpList(l.val), RenderNString(delimiter), RenderAString(mailbox);
    SpansByte(a, d.pos, e, SP, m);
    SpansConcat(a, l.pos + 1, d.pos, e, v, [SP] + m);
    SpansByte(a, l.pos, e, SP, v + ([SP] + m));
    SpansConcat(a, i, l.pos, e, f, [SP] + (v + ([SP] + m)));
    assert f + [SP] + v + [SP] + m == f + ([SP] + (v + ([SP] + m)));
  }

  /** `d` is a writing of the body that gave `r`. */
  ghost predicate BodyWritten(r: Res<DataResponse>, d: SentData, a: bytes, i: nat) {
    r.Ok? && DataOk(d) && DataMeaning(d) == r.val && Spans(a, i, r.pos, RenderBody(d))
  }

  lemma ListKindIs(a: bytes, i: nat, t: nat, kind: NamedKind) returns (d: SentData)
    requires i <= |a| && (kind == KList || kind == KLsub) && NamedBody(a, i, t, kind).Ok?
    ensures BodyWritten(NamedBody(a, i, t, kind), d, a, i) && NamedKindIs(d) == kind && !IsNumbered(d)
  {
    hide ListBody, AllFlagText, TextFormOk, AStringOk, NStringValue, AStringValue, Spans, RenderListBody;
    var delimiter, mailbox := ListBodyIs(a, i, t);
    var flags := ListBody(a, i, t).val.0;
    d := if kind == KList then SentList(flags, delimiter, mailbox) else SentLsub(flags, delimiter, mailbox);
  }

  lemma StatusBodyIs(a: bytes, i: nat, t: nat) returns (d: SentData)
    requires i <= |a| && StatusBody(a, i, t).Ok?
    ensures BodyWritten(StatusBody(a, i, t), d, a, i) && d.SentStatus?
  {
    hide AString, StatusItems, AStringOk, AllItemsOk, AStringValue, ItemMeanings, Spans, RenderAString;
    hide Wire.Parenthesised, RenderItems;
    var mailbox := AStringIs(a, i + 1, t);
    var m := AString(a, i + 1, t);
    var items := ItemsAreIs(a, m.pos + 1, t);
    d := SentStatus(mailbox, items);
    var e := StatusBody(a, i, t).pos;
    var w, l := RenderAString(mailbox), Wire.Parenthesised(RenderItems(items));
    SpansByte(a, m.pos, e, SP, l);
    SpansConcat(a, i + 1, m.pos, e, w, [SP] + l);
    SpansByte(a, i, e, SP, w + ([SP] + l));
    assert [SP] + w + ([SP] + l) == [SP] + (w + ([SP] + l));
  }

  lemma NamedBodyIs(a: bytes, i: nat, t: nat, kind: NamedKind) returns (d: SentData)
    requires i <= |a| && kind != KOtherNamed && NamedBody(a, i, t, kind).Ok?
    ensures BodyWritten(NamedBody(a, i, t, kind), d, a, i) && NamedKindIs(d) == kind && !IsNumbered(d)
  {
    hide CapsRest, SearchRest, ListBody, SpAtomList, StatusBody, AllAtoms, AllFit, AllFlagText, Spans;
    hide RenderCaps, RenderIds, SpList, IdValues;
    match kind
    case KCapability =>
      var caps := CapsIs(a, i, t, []);
      assert [] + caps == caps;
      d := SentCapability(caps);
    case KSearch =>
      var ids := IdsIs(a, i, t, []);
      assert [] + IdValues(ids) == IdValues(ids);
      d := SentSearch(ids);
    case KFlagsData =>
      SpFlagListIs(a, i, t);
      d := SentFlagsData(SpAtomList(a, i, t).val);
    case KStatus => d := StatusBodyIs(a, i, t);
    case KList => d := ListKindIs(a, i, t, kind);
    case KLsub => d := ListKindIs(a, i, t, kind);
  }

  lemma NumberedBodyIs(a: bytes, i: nat, t: nat, n: Numeral, kind: NumericKind) returns (d: SentData)
    requires i <= |a| && kind != KOtherNumeric && Fits(n) && NumericBody(a, i, t, Decimal(n), kind).Ok?
    ensures BodyWritten(NumericBody(a, i, t, Decimal(n), kind), d, a, i)
    ensures IsNumbered(d) && d.n == n && NumericKindIs(d) == kind
  {
    hide FetchMsgAtt, AllOk, Meanings, Decimal, Fits, Spans, Wire.Parenthesised, RenderAtts;
    if kind == KFetch {
      var sent := MsgAttIs(a, i + 1, t);
      d := SentFetch(n, sent);
      SpansByte(a, i, NumericBody(a, i, t, Decimal(n), kind).pos, SP, Wire.Parenthesised(RenderAtts(sent)));
    } else {
      d := if kind == KExists then SentExists(n) else if kind == KRecent then SentRecent(n) else SentExpunge(n);
      SpansSlice(a, i, i);
      assert a[i..i] == [];
    }
  }

  lemma KindNamesData(name: bytes, d: SentData)
    requires if IsNumbered(d) then NumericKindOf(name) == NumericKindIs(d) else NamedKindOf(name) == NamedKindIs(d)
    ensures EqCi(name, DataName(d))
  {
    hide EqCi;
  }

  /** `l` is a writing of the line that gave `r`. */
  ghost predicate LineWritten(r: Res<Response>, l: SentLine, a: bytes, i: nat) {
    r.Ok? && LineOk(l) && r.val == Data(DataMeaning(l.data)) && Spans(a, i, r.pos, RenderLine(l) + CRLF)
  }

  lemma NamedLineIs(a: bytes, i: nat, t: nat) returns (l: SentLine)
    requires i <= |a| && NamedData(a, i, t).Ok? && !NamedData(a, i, t).val.data.OtherData?
    ensures LineWritten(NamedData(a, i, t), l, a, i) && !IsNumbered(l.data)
  {
    hide Atom, NamedKindOf, NamedBody, AtomOk, DataOk, DataMeaning, DataItems, RenderBody, DataName, EqCi, Spans;
    AtomIs(a, i, t);
    var x := Atom(a, i, t);
    var kind := NamedKindOf(x.val);
    var d := NamedBodyIs(a, x.pos, t, kind);
    KindNamesData(x.val, d);
    l := SentLine(x.val, d);
    var b := NamedBody(a, x.pos, t, kind);
    var e := b.pos + 2;
    CrlfIs(a, b.pos, b.items);
    SpansConcat(a, x.pos, b.pos, e, RenderBody(d), CRLF);
    SpansConcat(a, i, x.pos, e, x.val, RenderBody(d) + CRLF);
    assert RenderLine(l) + CRLF == x.val + (RenderBody(d) + CRLF);
  }

  lemma NumberedLineIs(a: bytes, i: nat, t: nat) returns (l: SentLine)
    requires i <= |a| && NumericData(a, i, t).Ok? && !NumericData(a, i, t).val.data.OtherData?
    ensures LineWritten(NumericData(a, i, t), l, a, i) && IsNumbered(l.data)
  {
    hide Number, Atom, NumericKindOf, NumericBody, AtomOk, DataOk, DataMeaning, DataItems, RenderBody, LineStart;
    hide DataName, EqCi, Spans, Decimal, Fits;
    var n := NumberIs(a, i, t);
    var j := Number(a, i, t).pos;
    AtomIs(a, j + 1, t);
    var x := Atom(a, j + 1, t);
    var kind := NumericKindOf(x.val);
    var d := NumberedBodyIs(a, x.pos, t, n, kind);
    KindNamesData(x.val, d);
    l := SentLine(x.val, d);
    var b := NumericBody(a, x.pos, t, Decimal(n), kind);
    var e := b.pos + 2;
    CrlfIs(a, b.pos, b.items);
    SpansConcat(a, x.pos, b.pos, e, RenderBody(d), CRLF);
    SpansConcat(a, j + 1, x.pos, e, x.val, RenderBody(d) + CRLF);
    SpansByte(a, j, e, SP, x.val + (RenderBody(d) + CRLF));
    SpansConcat(a, i, j, e, n, [SP] + (x.val + (RenderBody(d) + CRLF)));
    assert RenderLine(l) + CRLF == n + ([SP] + (x.val + (RenderBody(d) + CRLF)));
  }

  // ---------------------------------------------------------------------------
  // Response codes and texts
  // ---------------------------------------------------------------------------

  /** `c` is a writing of the argument read after `atom`. */
  ghost predicate ArgumentWritten(a: bytes, i: nat, t: nat, s: SpelledCode)
    requires i <= |a|
  {
    var r := CodeArgument(a, i, t, s.atom);
    && r.Ok? && ArgumentOk(s.code) && CodeKindIs(s.code) == CodeKindOf(s.atom)
    && CodeMeaning(s) == r.val && Spans(a, i, r.pos, RenderArgument(s.code))
  }

  lemma NumberArgumentIs(a: bytes, i: nat, t: nat, atom: bytes) returns (s: SpelledCode)
    requires i <= |a| && CodeArgument(a, i, t, atom).Ok?
    requires var k := CodeKindOf(atom); k == KUidNext || k == KUidValidity || k == KUnseen
    ensures s.atom == atom && ArgumentWritten(a, i, t, s)
  {
    hide SpNumber, CodeKindOf, Decimal, Fits, Spans;
    var d := SpNumberIs(a, i, t);
    var k := CodeKindOf(atom);
    var c := if k == KUidNext then CodeUidNext(d)
             else if k == KUidValidity then CodeUidValidity(d)
             else CodeUnseen(d);
    s := SpelledCode(atom, c);
  }

  lemma ListArgumentIs(a: bytes, i: nat, t: nat, atom: bytes) returns (s: SpelledCode)
    requires i <= |a| && CodeArgument(a, i, t, atom).Ok?
    requires var k := CodeKindOf(atom); k == KCodeCapability || k == KPermanentFlags
    ensures s.atom == atom && ArgumentWritten(a, i, t, s)
  {
    hide CapsRest, SpAtomList, CodeKindOf, AllAtoms, AllFlagText, RenderCaps, SpList, Spans;
    if CodeKindOf(atom) == KCodeCapability {
      var caps := CapsIs(a, i, t, []);
      assert [] + caps == caps;
      s := SpelledCode(atom, CodeCapabilities(caps));
    } else {
      SpFlagListIs(a, i, t);
      s := SpelledCode(atom, CodePermanentFlags(SpAtomList(a, i, t).val));
    }
  }

  lemma NothingSpans(a: bytes, i: nat)
    requires i <= |a|
    ensures Spans(a, i, i, [])
  {
    SpansSlice(a, i, i);
    assert a[i..i] == [];
  }

  lemma CharsetsIs(a: bytes, i: nat, t: nat, atom: bytes) returns (s: SpelledCode)
    requires i <= |a| && CodeArgument(a, i, t, atom).Ok? && CodeKindOf(atom) == KBadCharset
    ensures s.atom == atom && ArgumentWritten(a, i, t, s)
  {
    hide AtomList, CodeKindOf, AllFlagText, Spans, Wire.Parenthesised;
    if Next(a, i, SP) {
      FlagListIs(a, i + 1, t);
      var r := AtomList(a, i + 1, t);
      SpansByte(a, i, r.pos, SP, Wire.Parenthesised(r.val));
      s := SpelledCode(atom, CodeBadCharset(Some(r.val)));
    } else {
      NothingSpans(a, i);
      s := SpelledCode(atom, CodeBadCharset(None));
    }
  }

  lemma OtherArgumentIs(a: bytes, i: nat, t: nat, atom: bytes) returns (s: SpelledCode)
    requires i <= |a| && CodeArgument(a, i, t, atom).Ok? && CodeKindOf(atom) == KOtherCode
    ensures s.atom == atom && ArgumentWritten(a, i, t, s)
  {
    hide ReadSection, CodeKindOf, AllIn, Utf8, Spans;
    if Next(a, i, SP) {
      SectionTextIs(a, i + 1, t);
      var r := ReadSection(a, i + 1, t);
      SpansByte(a, i, r.pos, SP, r.val);
      s := SpelledCode(atom, CodeOther(Some(r.val)));
    } else {
      NothingSpans(a, i);
      s := SpelledCode(atom, CodeOther(None));
    }
  }

  lemma BareCodeIs(a: bytes, i: nat, t: nat, atom: bytes) returns (s: SpelledCode)
    requires i <= |a| && CodeArgument(a, i, t, atom).Ok?
    requires CodeKindOf(atom) in {KAlert, KParse, KReadOnly, KReadWrite, KTryCreate}
    ensures s.atom == atom && ArgumentWritten(a, i, t, s)
  {
    hide CodeKindOf, Spans;
    NothingSpans(a, i);
    var c := match CodeKindOf(atom)
             case KAlert => CodeAlert
             case KParse => CodeParse
             case KReadOnly => CodeReadOnly
             case KReadWrite => CodeReadWrite
             case _ => CodeTryCreate;
    s := SpelledCode(atom, c);
  }

  lemma ArgumentIs(a: bytes, i: nat, t: nat, atom: bytes) returns (s: SpelledCode)
    requires i <= |a| && CodeArgument(a, i, t, atom).Ok?
    ensures s.atom == atom && ArgumentWritten(a, i, t, s)
  {
    hide CodeArgument, CodeKindOf, ArgumentWritten;
    match CodeKindOf(atom)
    case KUidNext => s := NumberArgumentIs(a, i, t, atom);
    case KUidValidity => s := NumberArgumentIs(a, i, t, atom);
    case KUnseen => s := NumberArgumentIs(a, i, t, atom);
    case KCodeCapability => s := ListArgumentIs(a, i, t, atom);
    case KPermanentFlags => s := ListArgumentIs(a, i, t, atom);
    case KBadCharset => s := CharsetsIs(a, i, t, atom);
    case KOtherCode => s := OtherArgumentIs(a, i, t, atom);
    case KAlert => s := BareCodeIs(a, i, t, atom);
    case KParse => s := BareCodeIs(a, i, t, atom);
    case KReadOnly => s := BareCodeIs(a, i, t, atom);
    case KReadWrite => s := BareCodeIs(a, i, t, atom);
    case KTryCreate => s := BareCodeIs(a, i, t, atom);
  }

  lemma KindNamesCode(s: SpelledCode)
    requires CodeKindIs(s.code) == CodeKindOf(s.atom) && CodeAtomOk(s.atom) && ArgumentOk(s.code)
    ensures CodeOk(s)
  {
    hide EqCi, CodeAtomOk, ArgumentOk;
  }

  lemma CodeIs(a: bytes, i: nat, t: nat) returns (s: SpelledCode)
    requires i <= |a| && RespTextCode(a, i, t).Ok?
    ensures var r := RespTextCode(a, i, t);
            CodeOk(s) && CodeMeaning(s) == r.val && Spans(a, i, r.pos, RenderCode(s))
  {
    hide CodeArgument, CodeKindOf, ArgumentOk, CodeOk, CodeMeaning, RenderArgument, Utf8, AllIn, Spans;
    var j := Scan(a, i, CodeChar);
    ScannedAllIn(a, i, CodeChar);
    SpansSlice(a, i, j);
    s := ArgumentIs(a, j, t, a[i..j]);
    KindNamesCode(s);
    SpansConcat(a, i, j, RespTextCode(a, i, t).pos, a[i..j], RenderArgument(s.code));
  }

  lemma CodedSpans(a: bytes, i: nat, j: nat, e: nat, code: bytes, gap: bool, text: bytes)
    requires i < |a| && a[i] == LBRACKET && Spans(a, i + 1, j, code)
    requires j < |a| && a[j] == RBRACKET && gap == Next(a, j + 1, SP)
    requires Spans(a, if gap then j + 2 else j + 1, e, text)
    ensures Spans(a, i, e, [LBRACKET] + code + [RBRACKET] + Gap(gap) + text)
  {
    hide Spans;
    var tail := Gap(gap) + text;
    if gap {
      SpansByte(a, j + 1, e, SP, text);
    } else {
      assert [] + text == text;
    }
    SpansByte(a, j, e, RBRACKET, tail);
    SpansConcat(a, i + 1, j, e, code, [RBRACKET] + tail);
    SpansByte(a, i, e, LBRACKET, code + ([RBRACKET] + tail));
    assert [LBRACKET] + code + [RBRACKET] + Gap(gap) + text == [LBRACKET] + (code + ([RBRACKET] + tail));
  }

  lemma TextStarts(a: bytes, i: nat, e: nat, text: bytes)
    requires Spans(a, i, e, text) && |text| > 0
    ensures i < |a| && a[i] == text[0]
  {
    AtFirst(a, i, text);
  }

  lemma RespTextIs(a: bytes, i: nat, t: nat) returns (x: SentText)
    requires i <= |a| && RespText(a, i, t).Ok?
    ensures var r := RespText(a, i, t);
            SentTextOk(x) && TextMeaning(x) == r.val && Spans(a, i, r.pos, RenderText(x))
  {
    hide RespTextCode, Text, CodeOk, CodeMeaning, RenderCode, TextOk, Spans;
    var r := RespText(a, i, t);
    if Next(a, i, LBRACKET) {
      var c := CodeIs(a, i + 1, t);
      var q := RespTextCode(a, i + 1, t);
      var gap := Next(a, q.pos + 1, SP);
      var k := if gap then q.pos + 2 else q.pos + 1;
      TextIs(a, k, q.items);
      x := Coded(c, gap, r.val.1);
      CodedSpans(a, i, q.pos, r.pos, RenderCode(c), gap, r.val.1);
      if |r.val.1| > 0 {
        TextStarts(a, k, r.pos, r.val.1);
      }
    } else {
      TextIs(a, i, t);
      x := NoCode(r.val.1);
      if |r.val.1| > 0 {
        TextStarts(a, i, r.pos, r.val.1);
      }
    }
  }

  // ---------------------------------------------------------------------------
  // Status responses and continuation requests
  // ---------------------------------------------------------------------------

  lemma AfterWordIs(a: bytes, i: nat, t: nat) returns (text: Option<SentText>)
    requires i <= |a| && RespTextAfterKeyword(a, i, t).Ok?
    ensures var r := RespTextAfterKeyword(a, i, t);
            && (text.Some? ==> SentTextOk(text.value))
            && MeantText(text) == r.val && Spans(a, i, r.pos, RenderAfterWord(text))
  {
    hide RespText, SentTextOk, TextMeaning, RenderText, Spans;
    if Next(a, i, SP) {
      var x := RespTextIs(a, i + 1, t);
      text := Some(x);
      SpansByte(a, i, RespTextAfterKeyword(a, i, t).pos, SP, RenderText(x));
    } else {
      text := None;
      NothingSpans(a, i);
    }
  }

  lemma MatchIsWord(a: bytes, i: nat, kw: bytes)
    requires MatchesCi(a, i, kw)
    ensures i + |kw| <= |a| && EqCi(a[i..i + |kw|], kw)
  {
    var w := a[i..i + |kw|];
    forall k | 0 <= k < |kw| ensures Lower(w[k]) == Lower(kw[k]) {
      assert w[k] == a[i + k];
    }
  }

  lemma StatusWordIs(a: bytes, i: nat)
    requires StatusKeyword(a, i).Some?
    ensures var k := StatusKeyword(a, i).value;
            i + k.1 <= |a| && EqCi(a[i..i + k.1], StatusWord(k.0))
  {
    hide EqCi, MatchesCi;
    var k := StatusKeyword(a, i).value;
    MatchIsWord(a, i, StatusWord(k.0));
  }

  /** `l` is a writing of the status line from `i` on. */
  ghost predicate StatusWritten(r: Res<Response>, l: SentStatusLine, tag: Option<bytes>, a: bytes, i: nat) {
    r.Ok? && StatusLineOk(l) && r.val == StatusMeaning(tag, l) && Spans(a, i, r.pos, RenderStatusLine(l))
  }

  lemma StatusLineIs(a: bytes, i: nat, t: nat, tag: Option<bytes>) returns (l: SentStatusLine)
    requires StatusKeyword(a, i).Some?
    requires var k := StatusKeyword(a, i).value; StatusRest(a, i + k.1, t, tag, k.0).Ok?
    ensures var k := StatusKeyword(a, i).value;
            StatusWritten(StatusRest(a, i + k.1, t, tag, k.0), l, tag, a, i)
  {
    hide StatusKeyword, RespTextAfterKeyword, SentTextOk, MeantText, RenderAfterWord, EqCi, StatusWord, Spans;
    StatusWordIs(a, i);
    var k := StatusKeyword(a, i).value;
    var j := i + k.1;
    var text := AfterWordIs(a, j, t);
    var q := RespTextAfterKeyword(a, j, t);
    l := SentStatusLine(a[i..j], k.0, text);
    SpansSlice(a, i, j);
    CrlfIs(a, q.pos, q.items);
    var e := q.pos + 2;
    SpansConcat(a, j, q.pos, e, RenderAfterWord(text), CRLF);
    SpansConcat(a, i, j, e, a[i..j], RenderAfterWord(text) + CRLF);
  }

  // ---------------------------------------------------------------------------
  // Whole responses
  // ---------------------------------------------------------------------------

  predicate IsOther(r: Response) {
    r.Data? && r.data.OtherData?
  }

  /** `s` is a writing of the response at the front of `a`, its items apart. */
  ghost predicate ResponseWritten(r: Res<Response>, s: SentResponse, a: bytes) {
    && r.Ok? && Meant(s) == r.val && Spans(a, 0, r.pos, Written(s))
    && match s
       case DataSent(line) => LineOk(line)
       case StatusSent(tag, status) => StatusLineOk(status) && (tag.Some? ==> TagOk(tag.value))
       case ContinueSent(text) => SentTextOk(text)
  }

  lemma ContinueIs(a: bytes, t: nat) returns (s: SentResponse)
    requires ContinueReq(a, 0, t).Ok?
    ensures ResponseWritten(ContinueReq(a, 0, t), s, a)
  {
    hide RespText, SentTextOk, TextMeaning, RenderText, Spans;
    var x := RespTextIs(a, 2, t);
    var q := RespText(a, 2, t);
    s := ContinueSent(x);
    var e := q.pos + 2;
    CrlfIs(a, q.pos, q.items);
    SpansConcat(a, 2, q.pos, e, RenderText(x), CRLF);
    SpansByte(a, 1, e, SP, RenderText(x) + CRLF);
    SpansByte(a, 0, e, PLUS, [SP] + (RenderText(x) + CRLF));
    assert RenderContinue(x) == [PLUS] + ([SP] + (RenderText(x) + CRLF));
  }

  lemma TaggedIs(a: bytes, t: nat) returns (s: SentResponse)
    requires Tagged(a, 0, t).Ok? && a[0] != STAR && a[0] != PLUS
    ensures ResponseWritten(Tagged(a, 0, t), s, a)
  {
    hide Tag, StatusKeyword, StatusRest, StatusLineOk, MeantText, RenderStatusLine, Utf8, AllIn, Spans;
    TagIs(a, 0, t);
    var tag := Tag(a, 0, t);
    var l := StatusLineIs(a, tag.pos + 1, t, Some(tag.val));
    s := StatusSent(Some(tag.val), l);
    var e := Tagged(a, 0, t).pos;
    SpansByte(a, tag.pos, e, SP, RenderStatusLine(l));
    SpansConcat(a, 0, tag.pos, e, tag.val, [SP] + RenderStatusLine(l));
    assert RenderStatus(Some(tag.val), l) == tag.val + ([SP] + RenderStatusLine(l));
  }

  lemma UntaggedStatusIs(a: bytes, t: nat) returns (s: SentResponse)
    requires Untagged(a, 0, t).Ok? && |a| >= 2 && StatusKeyword(a, 2).Some?
    ensures ResponseWritten(Untagged(a, 0, t), s, a)
  {
    hide StatusKeyword, StatusRest, StatusLineOk, MeantText, RenderStatusLine, NumericData, NamedData, Spans;
    var l := StatusLineIs(a, 2, t, None);
    s := StatusSent(None, l);
    var e := Untagged(a, 0, t).pos;
    SpansByte(a, 1, e, SP, RenderStatusLine(l));
    SpansByte(a, 0, e, STAR, [SP] + RenderStatusLine(l));
    assert RenderStatus(None, l) == [STAR] + ([SP] + RenderStatusLine(l));
  }

  lemma UntaggedDataIs(a: bytes, t: nat) returns (s: SentResponse)
    requires Untagged(a, 0, t).Ok? && |a| >= 2 && StatusKeyword(a, 2).None? && !IsOther(Untagged(a, 0, t).val)
    ensures ResponseWritten(Untagged(a, 0, t), s, a)
  {
    hide StatusKeyword, StatusRest, NumericData, NamedData, LineOk, DataMeaning, RenderLine, Spans;
    DataHasData(a, t);
    var l: SentLine;
    if IsDigit(a[2]) {
      l := NumberedLineIs(a, 2, t);
    } else {
      l := NamedLineIs(a, 2, t);
    }
    s := DataSent(l);
    var e := Untagged(a, 0, t).pos;
    SpansByte(a, 1, e, SP, RenderLine(l) + CRLF);
    SpansByte(a, 0, e, STAR, [SP] + (RenderLine(l) + CRLF));
    assert RenderData(l) == [STAR] + ([SP] + (RenderLine(l) + CRLF));
  }

  lemma DataHasData(a: bytes, t: nat)
    requires |a| >= 2
    ensures NumericData(a, 2, t).Ok? ==> NumericData(a, 2, t).val.Data?
    ensures NamedData(a, 2, t).Ok? ==> NamedData(a, 2, t).val.Data?
  {
    hide Number, Atom, NumericKindOf, NamedKindOf, NumericBody, NamedBody, LineStart;
  }

  /** Whatever the parser recognises is the writing, by the grammar and within the item budget, of a
      response that means what was read. */
  lemma RecognisedIsWritten(a: bytes) returns (s: SentResponse)
    requires ParseResponse(a).Ok? && !IsOther(ParseResponse(a).val)
    ensures SentOk(s) && a[..ParseResponse(a).pos] == Written(s) && Meant(s) == ParseResponse(a).val
  {
    var t := MAX_ITEMS_PER_RESPONSE;
    ItemsWithin(a);
    hide ContinueReq, Tagged, Untagged, StatusKeyword, Meant, Written, LineOk, StatusLineOk, TagOk, SentTextOk, Spans;
    hide ResponseItems;
    if a[0] == PLUS {
      s := ContinueIs(a, t);
    } else if a[0] != STAR {
      s := TaggedIs(a, t);
    } else {
      UntaggedHasPrefix(a, t);
      if StatusKeyword(a, 2).Some? {
        s := UntaggedStatusIs(a, t);
      } else {
        s := UntaggedDataIs(a, t);
      }
    }
    SpansBounds(a, 0, ParseResponse(a).pos, Written(s));
  }

  lemma UntaggedHasPrefix(a: bytes, t: nat)
    requires Untagged(a, 0, t).Ok?
    ensures |a| >= 2
  {
    hide StatusKeyword, StatusRest, NumericData, NamedData;
  }

  lemma ItemsWithin(a: bytes)
    requires ParseResponse(a).Ok?
    ensures ResponseItems(ParseResponse(a).val) <= 65536
  {
    hide ContinueReq, Tagged, Untagged, ResponseItems;
  }

  ghost predicate IsWritten(v: bytes) {
    exists s :: SentOk(s) && v == Written(s)
  }

  /** The parser recognises `v` as one response, whatever follows it, exactly when `v` was written by
      the grammar. */
  lemma RecognisesExactly(v: bytes, rest: bytes)
    ensures var r := ParseResponse(v + rest);
            (r.Ok? && r.pos == |v| && !IsOther(r.val)) <==> IsWritten(v)
  {
    hide ParseResponse, SentOk, Written, Meant;
    var r := ParseResponse(v + rest);
    if r.Ok? && r.pos == |v| && !IsOther(r.val) {
      var s := RecognisedIsWritten(v + rest);
      assert (v + rest)[..|v|] == v;
    }
    if IsWritten(v) {
      var s :| SentOk(s) && v == Written(s);
      ReadsBack(s, rest);
      MeantIsKnown(s);
    }
  }

  lemma MeantIsKnown(s: SentResponse)
    ensures !IsOther(Meant(s))
  {
  }
}
