/** FETCH attributes written by section 7.5.2 of RFC 9051 are read back as they were meant. */
module FetchRoundTrip {
  import opened Bytes
  import opened Ast
  import opened Grammar
  import opened BalancedValues
  import opened Forms
  import Wire
  import Words

  datatype MessagePart = WholeMessage | HeaderPart | TextPart
  datatype GroupName = EnvelopeName | BodyName | BodyStructureName

  datatype SentValue =
    | SentUid(n: Numeral)
    | SentSize(n: Numeral)
    | SentFlags(flags: seq<bytes>)
    | SentDate(text: bytes)
    | SentPart(part: MessagePart, value: NStringForm)
    | SentGroup(group: GroupName, items: Items)
    | SentSection(section: Option<bytes>, origin: Option<Numeral>, value: NStringForm)

  /** An attribute with its name as the server spells it. */
  datatype SentAtt = SentAtt(name: bytes, value: SentValue)

  function NameOf(s: SentValue): bytes {
    match s
    case SentUid(_) => Words.UID
    case SentSize(_) => Words.RFC822_SIZE
    case SentFlags(_) => Words.FLAGS
    case SentDate(_) => Words.INTERNALDATE
    case SentPart(WholeMessage, _) => Words.RFC822
    case SentPart(HeaderPart, _) => Words.RFC822_HEADER
    case SentPart(TextPart, _) => Words.RFC822_TEXT
    case SentGroup(EnvelopeName, _) => Words.ENVELOPE
    case SentGroup(BodyName, _) => Words.BODY
    case SentGroup(BodyStructureName, _) => Words.BODYSTRUCTURE
    case SentSection(_, _, _) => Words.BODY
  }

  function RenderOrigin(origin: Option<Numeral>): bytes {
    match origin
    case None => []
    case Some(n) => [LESS] + n + [GREATER]
  }

  function OriginValue(origin: Option<Numeral>): Option<nat> {
    match origin
    case None => None
    case Some(n) => Some(Decimal(n))
  }

  function OrEmpty(v: Option<bytes>): bytes {
    match v
    case None => []
    case Some(d) => d
  }

  /** What follows the attribute's name. */
  function RenderValue(s: SentValue): bytes {
    match s
    case SentUid(n) => [SP] + n
    case SentSize(n) => [SP] + n
    case SentFlags(flags) => [SP] + Wire.Parenthesised(flags)
    case SentDate(text) => [SP] + Wire.QuotedForm(text)
    case SentPart(_, value) => [SP] + RenderNString(value)
    case SentGroup(_, items) => [SP] + RenderGroup(items)
    case SentSection(section, origin, value) =>
      [LBRACKET] + OrEmpty(section) + [RBRACKET] + RenderOrigin(origin) + [SP] + RenderNString(value)
  }

  function RenderAtt(s: SentAtt): bytes {
    s.name + RenderValue(s.value)
  }

  /** The attribute the server means. */
  function Meaning(s: SentValue): FetchAttribute {
    match s
    case SentUid(n) => Uid(Decimal(n))
    case SentSize(n) => Rfc822Size(Decimal(n))
    case SentFlags(flags) => Flags(flags)
    case SentDate(text) => InternalDate(Wire.Escape(text))
    case SentPart(WholeMessage, value) => Rfc822(OrEmpty(NStringValue(value)))
    case SentPart(HeaderPart, value) => Rfc822Header(OrEmpty(NStringValue(value)))
    case SentPart(TextPart, value) => Rfc822Text(OrEmpty(NStringValue(value)))
    case SentGroup(EnvelopeName, items) => Envelope(RenderGroup(items))
    case SentGroup(BodyName, items) => Body(RenderGroup(items))
    case SentGroup(BodyStructureName, items) => BodyStructure(RenderGroup(items))
    case SentSection(section, origin, value) => BodySection(section, OriginValue(origin), NStringValue(value))
  }

  predicate SectionOk(section: Option<bytes>) {
    section.Some? ==> |section.value| > 0 && Utf8(section.value) && AllIn(SectionChar, section.value)
  }

  predicate ValueOk(s: SentValue) {
    match s
    case SentUid(n) => Fits(n)
    case SentSize(n) => Fits(n)
    case SentFlags(flags) => forall f :: f in flags ==> Wire.FlagText(f)
    case SentDate(text) => QuotedTextOk(text)
    case SentPart(_, value) => NStringOk(value)
    case SentGroup(_, items) => WellFormed(items) && Nesting(items) < U32_MAX
    case SentSection(section, origin, value) =>
      SectionOk(section) && (origin.Some? ==> Fits(origin.value)) && NStringOk(value)
  }

  predicate AttOk(s: SentAtt) {
    EqCi(s.name, NameOf(s.value)) && ValueOk(s.value)
  }

  function Meanings(sent: seq<SentAtt>): (atts: seq<FetchAttribute>)
    ensures |atts| == |sent|
  {
    seq(|sent|, i requires 0 <= i < |sent| => Meaning(sent[i].value))
  }

  function RenderAtts(sent: seq<SentAtt>): (forms: seq<bytes>)
    ensures |forms| == |sent|
  {
    seq(|sent|, i requires 0 <= i < |sent| => RenderAtt(sent[i]))
  }

  // ---------------------------------------------------------------------------
  // Values
  // ---------------------------------------------------------------------------

  lemma OriginParts(a: bytes, i: nat, d: bytes)
    requires At(a, i, [LESS] + d + [GREATER])
    ensures i < |a| && a[i] == LESS && At(a, i + 1, d)
    ensures i + 1 + |d| < |a| && a[i + 1 + |d|] == GREATER
  {
    hide At;
    assert [LESS] + d + [GREATER] == [LESS] + (d + [GREATER]);
    AtByte(a, i, LESS, d + [GREATER]);
    AtConcat(a, i + 1, d, [GREATER]);
    AtFirst(a, i + 1 + |d|, [GREATER]);
  }

  lemma OriginAt(a: bytes, i: nat, t: nat, origin: Option<Numeral>)
    requires At(a, i, RenderOrigin(origin)) && (origin.Some? ==> Fits(origin.value))
    requires var e := i + |RenderOrigin(origin)|; e < |a| && a[e] == SP
    ensures Origin(a, i, t) == Ok(OriginValue(origin), i + |RenderOrigin(origin)|, t)
  {
    hide At, Number, Decimal, Fits;
    if origin.Some? {
      OriginParts(a, i, origin.value);
      NumeralAt(a, i + 1, t, origin.value);
    }
  }

  lemma SectionParts(a: bytes, i: nat, text: bytes, origin: bytes, value: bytes)
    requires At(a, i, [LBRACKET] + text + [RBRACKET] + origin + [SP] + value)
    ensures i < |a| && a[i] == LBRACKET && At(a, i + 1, text)
    ensures var j := i + 1 + |text|;
            && j < |a| && a[j] == RBRACKET && At(a, j + 1, origin)
            && var k := j + 1 + |origin|;
               k < |a| && a[k] == SP && At(a, k + 1, value)
  {
    hide At;
    var tail := [SP] + value;
    assert [LBRACKET] + text + [RBRACKET] + origin + [SP] + value
        == [LBRACKET] + (text + ([RBRACKET] + (origin + tail)));
    AtByte(a, i, LBRACKET, text + ([RBRACKET] + (origin + tail)));
    AtConcat(a, i + 1, text, [RBRACKET] + (origin + tail));
    var j := i + 1 + |text|;
    AtByte(a, j, RBRACKET, origin + tail);
    AtConcat(a, j + 1, origin, tail);
    AtByte(a, j + 1 + |origin|, SP, value);
  }

  lemma SectionTextAt(a: bytes, i: nat, t: nat, section: Option<bytes>)
    requires SectionOk(section) && At(a, i, OrEmpty(section))
    requires var e := i + |OrEmpty(section)|; e < |a| && a[e] == RBRACKET
    ensures ReadSection(a, i, t) == Ok(OrEmpty(section), i + |OrEmpty(section)|, t)
  {
    hide At, Utf8, ReadSection;
    AsciiIsUtf8([]);
    SectionBytesAt(a, i, t, OrEmpty(section));
  }

  lemma SectionAt(a: bytes, i: nat, t: nat, s: SentValue)
    requires s.SentSection? && ValueOk(s) && At(a, i, RenderValue(s)) && Delimited(a, i + |RenderValue(s)|)
    ensures i < |a| && a[i] == LBRACKET
    ensures BodySectionRest(a, i + 1, t) == Ok(Meaning(s), i + |RenderValue(s)|, t)
  {
    hide At, Delimited, RenderNString, NStringValue, NStringOk, NStringBytesOptional;
    hide Origin, RenderOrigin, OriginValue, Fits, ReadSection, Utf8, AllIn;
    var text := OrEmpty(s.section);
    var origin := RenderOrigin(s.origin);
    SectionParts(a, i, text, origin, RenderNString(s.value));
    var j := i + 1 + |text|;
    SectionTextAt(a, i + 1, t, s.section);
    OriginAt(a, j + 1, t, s.origin);
    NStringAt(a, j + 1 + |origin| + 1, t, s.value);
  }

  function KindOf(s: SentValue): AttKind {
    match s
    case SentUid(_) => KUid
    case SentSize(_) => KSize
    case SentFlags(_) => KFlags
    case SentDate(_) => KInternalDate
    case SentPart(WholeMessage, _) => KRfc822
    case SentPart(HeaderPart, _) => KHeader
    case SentPart(TextPart, _) => KText
    case SentGroup(EnvelopeName, _) => KEnvelope
    case SentGroup(BodyName, _) => KBody
    case SentGroup(BodyStructureName, _) => KBodyStructure
    case SentSection(_, _, _) => KBody
  }

  lemma KindOfKeyword(s: SentValue)
    ensures AttKindOf(NameOf(s)) == KindOf(s)
  {
    assert Lower(RFC822_SIZE[7]) != Lower(RFC822_TEXT[7]);
    assert Lower(BODYSTRUCTURE[0]) != Lower(RFC822_HEADER[0]);
  }

  lemma KindIgnoresCase(x: bytes, y: bytes)
    requires EqCi(x, y)
    ensures AttKindOf(x) == AttKindOf(y)
  {
    hide EqCi;
    SameWord(x, y, UID);
    SameWord(x, y, FLAGS);
    SameWord(x, y, INTERNALDATE);
    SameWord(x, y, RFC822_SIZE);
    SameWord(x, y, RFC822);
    SameWord(x, y, RFC822_HEADER);
    SameWord(x, y, RFC822_TEXT);
    SameWord(x, y, ENVELOPE);
    SameWord(x, y, BODYSTRUCTURE);
    SameWord(x, y, BODY);
  }

  /** The value of `s` at `i` is read as meant, unless the budget is too small for its flags. */
  ghost predicate ReadAt(a: bytes, i: nat, t: nat, s: SentValue)
    requires i <= |a|
  {
    AttValue(a, i, t, KindOf(s)) == Within(AttItems(Meaning(s)), t, Meaning(s), i + |RenderValue(s)|)
  }

  lemma PartAt(a: bytes, i: nat, t: nat, s: SentValue)
    requires s.SentPart? && ValueOk(s) && i < |a| && a[i] == SP
    requires At(a, i + 1, RenderNString(s.value)) && Delimited(a, i + 1 + |RenderNString(s.value)|)
    ensures ReadAt(a, i, t, s)
  {
    hide At, NStringBytesOptional, RenderNString, NStringOk, NStringValue;
    hide BodySectionRest, SpNumber, SpAtomList, SpQuoted, SpBalanced;
    NStringAt(a, i + 1, t, s.value);
    match s.part
    case WholeMessage =>
    case HeaderPart =>
    case TextPart =>
  }

  lemma GroupKinds(a: bytes, i: nat, t: nat)
    requires i < |a| && a[i] == SP && Balanced(a, i + 1, t).Ok?
    ensures var r := Balanced(a, i + 1, t);
            && AttValue(a, i, t, KEnvelope) == Ok(Envelope(r.val), r.pos, t)
            && AttValue(a, i, t, KBody) == Ok(Body(r.val), r.pos, t)
            && AttValue(a, i, t, KBodyStructure) == Ok(BodyStructure(r.val), r.pos, t)
  {
    hide Balanced;
  }

  lemma GroupValueAt(a: bytes, i: nat, t: nat, s: SentValue)
    requires s.SentGroup? && ValueOk(s) && i < |a| && a[i] == SP
    requires At(a, i + 1, RenderGroup(s.items))
    ensures ReadAt(a, i, t, s)
  {
    hide At, AttValue, Balanced, RenderGroup, WellFormed, Nesting;
    GroupAt(a, i + 1, t, s.items);
    GroupKinds(a, i, t);
    match s.group
    case EnvelopeName =>
    case BodyName =>
    case BodyStructureName =>
  }

  lemma FlagsAt(a: bytes, i: nat, t: nat, s: SentValue)
    requires s.SentFlags? && ValueOk(s) && i < |a| && a[i] == SP
    requires At(a, i + 1, Wire.Parenthesised(s.flags))
    ensures ReadAt(a, i, t, s)
  {
    hide At, AtomList, Wire.FlagText, Wire.Parenthesised;
    Wire.FlagListAt(a, i + 1, t, s.flags);
  }

  lemma NumberValueAt(a: bytes, i: nat, t: nat, s: SentValue)
    requires (s.SentUid? || s.SentSize?) && ValueOk(s) && i < |a| && a[i] == SP
    requires At(a, i + 1, s.n) && Delimited(a, i + 1 + |s.n|)
    ensures ReadAt(a, i, t, s)
  {
    hide At, Number, Decimal, Fits;
    NumeralAt(a, i + 1, t, s.n);
  }

  lemma DateAt(a: bytes, i: nat, t: nat, s: SentValue)
    requires s.SentDate? && ValueOk(s) && i < |a| && a[i] == SP
    requires At(a, i + 1, Wire.QuotedForm(s.text))
    ensures ReadAt(a, i, t, s)
  {
    hide At, Quoted, QuotedTextOk, Wire.QuotedForm, Wire.Escape;
    QuotedTextAt(a, i + 1, t, s.text);
  }

  lemma SectionValueAt(a: bytes, i: nat, t: nat, s: SentValue)
    requires s.SentSection? && ValueOk(s)
    requires At(a, i, RenderValue(s)) && Delimited(a, i + |RenderValue(s)|)
    ensures i < |a| && ReadAt(a, i, t, s)
  {
    hide At, RenderValue, ValueOk, BodySectionRest;
    SectionAt(a, i, t, s);
  }

  lemma ValueAt(a: bytes, i: nat, t: nat, s: SentValue)
    requires At(a, i, RenderValue(s)) && ValueOk(s) && Delimited(a, i + |RenderValue(s)|)
    ensures i <= |a| && ReadAt(a, i, t, s)
  {
    hide At, ReadAt, ValueOk, Delimited, Wire.Parenthesised, RenderGroup, RenderNString, RenderOrigin, Wire.QuotedForm;
    if s.SentSection? {
      SectionValueAt(a, i, t, s);
    } else {
      var value := RenderValue(s)[1..];
      assert RenderValue(s) == [SP] + value;
      AtByte(a, i, SP, value);
      match s {
        case SentUid(_) => NumberValueAt(a, i, t, s);
        case SentSize(_) => NumberValueAt(a, i, t, s);
        case SentFlags(_) => FlagsAt(a, i, t, s);
        case SentDate(_) => DateAt(a, i, t, s);
        case SentPart(_, _) => PartAt(a, i, t, s);
        case SentGroup(_, _) => GroupValueAt(a, i, t, s);
      }
    }
  }

  predicate NameBytes(s: bytes) {
    |s| > 0 && Ascii(s) && AllIn(AttNameChar, s)
  }

  lemma KeywordIsName(s: SentValue)
    ensures NameBytes(NameOf(s))
  {
    hide NameBytes;
    match s {
      case SentPart(_, _) => PartNames();
      case SentGroup(_, _) => GroupNames();
      case _ => ValueNames(); GroupNames();
    }
  }

  lemma PartNames()
    ensures NameBytes(RFC822) && NameBytes(RFC822_HEADER) && NameBytes(RFC822_TEXT)
  {
  }

  lemma GroupNames()
    ensures NameBytes(ENVELOPE) && NameBytes(BODY) && NameBytes(BODYSTRUCTURE)
  {
  }

  lemma ValueNames()
    ensures NameBytes(UID) && NameBytes(RFC822_SIZE) && NameBytes(FLAGS) && NameBytes(INTERNALDATE)
  {
  }

  lemma NameIsName(s: SentAtt)
    requires AttOk(s)
    ensures NameBytes(s.name) && AttKindOf(s.name) == KindOf(s.value)
  {
    hide NameOf, ValueOk;
    KeywordIsName(s.value);
    SpelledInClass(AttNameChar, s.name, NameOf(s.value));
    SpelledAscii(s.name, NameOf(s.value));
    KindIgnoresCase(s.name, NameOf(s.value));
    KindOfKeyword(s.value);
  }

  lemma ValueStarts(s: SentValue)
    ensures |RenderValue(s)| > 0 && !InClass(AttNameChar, RenderValue(s)[0])
  {
  }

  lemma AttNameAt(a: bytes, i: nat, t: nat, name: bytes)
    requires At(a, i, name) && NameBytes(name)
    requires i + |name| < |a| && !InClass(AttNameChar, a[i + |name|])
    ensures FetchAttName(a, i, t) == Ok(name, i + |name|, t)
  {
    hide At, Utf8;
    ScanAt(a, i, AttNameChar, name);
    AtSlice(a, i, name);
    AsciiIsUtf8(name);
  }

  lemma AttAt(a: bytes, i: nat, t: nat, s: SentAtt)
    requires At(a, i, RenderAtt(s)) && AttOk(s) && Delimited(a, i + |RenderAtt(s)|)
    ensures OneFetchAtt(a, i, t) ==
            Within(AttItems(Meaning(s.value)), t, Meaning(s.value), i + |RenderAtt(s)|)
  {
    hide At, FetchAttName, NameBytes, EqCi, RenderValue, Meaning, ValueOk, AttValue, AttKindOf, AttItems;
    var value := RenderValue(s.value);
    AtConcat(a, i, s.name, value);
    NameIsName(s);
    ValueStarts(s.value);
    AtFirst(a, i + |s.name|, value);
    AttNameAt(a, i, t, s.name);
    ValueAt(a, i + |s.name|, t, s.value);
  }

  // ---------------------------------------------------------------------------
  // Lists and whole responses
  // ---------------------------------------------------------------------------

  lemma {:induction false} AttsItemsFirst(x: FetchAttribute, rest: seq<FetchAttribute>)
    ensures AttsItems([x] + rest) == AttItems(x) + 1 + AttsItems(rest)
  {
    var all := [x] + rest;
    if |rest| == 0 {
      assert all[..0] == [];
    } else {
      assert all[..|all| - 1] == [x] + rest[..|rest| - 1];
      AttsItemsFirst(x, rest[..|rest| - 1]);
    }
  }

  lemma ListsCons(sent: seq<SentAtt>)
    requires |sent| > 0
    ensures Meanings(sent) == [Meaning(sent[0].value)] + Meanings(sent[1..])
    ensures RenderAtts(sent) == [RenderAtt(sent[0])] + RenderAtts(sent[1..])
  {
    hide Meaning, RenderAtt;
    var m := [Meaning(sent[0].value)] + Meanings(sent[1..]);
    assert forall k :: 0 <= k < |sent| ==> Meanings(sent)[k] == m[k];
    var r := [RenderAtt(sent[0])] + RenderAtts(sent[1..]);
    assert forall k :: 0 <= k < |sent| ==> RenderAtts(sent)[k] == r[k];
  }

  ghost predicate AllOk(sent: seq<SentAtt>) {
    forall s :: s in sent ==> AttOk(s)
  }

  lemma {:induction false} AttsRestAt(a: bytes, i: nat, t: nat, sent: seq<SentAtt>, acc: seq<FetchAttribute>)
    requires |sent| > 0 && AllOk(sent)
    requires At(a, i, Wire.Join(RenderAtts(sent)) + [RPAREN])
    ensures FetchAttsRest(a, i, t, acc) ==
            Within(AttsItems(Meanings(sent)), t, acc + Meanings(sent), i + |Wire.Join(RenderAtts(sent))| + 1)
    decreases |sent|
  {
    hide At, OneFetchAtt, RenderAtt, Meaning, AttOk, AttItems, AttsItems, RenderAtts, Meanings;
    var form := RenderAtt(sent[0]);
    var att := Meaning(sent[0].value);
    ListsCons(sent);
    AttsItemsFirst(att, Meanings(sent[1..]));
    if |sent| == 1 {
      EmptyCost(sent[1..]);
      assert Wire.Join(RenderAtts(sent)) == form;
      AtConcat(a, i, form, [RPAREN]);
      AtFirst(a, i + |form|, [RPAREN]);
      AttAt(a, i, t, sent[0]);
      assert Meanings(sent) == [att];
    } else {
      var rest := Wire.Join(RenderAtts(sent[1..])) + [RPAREN];
      assert RenderAtts(sent)[1..] == RenderAtts(sent[1..]);
      assert Wire.Join(RenderAtts(sent)) + [RPAREN] == form + ([SP] + rest);
      AtConcat(a, i, form, [SP] + rest);
      AtByte(a, i + |form|, SP, rest);
      AttAt(a, i, t, sent[0]);
      if AttItems(att) < t {
        AttsRestAt(a, i + |form| + 1, t - AttItems(att) - 1, sent[1..], acc + [att]);
        assert acc + [att] + Meanings(sent[1..]) == acc + Meanings(sent);
      }
    }
  }

  lemma EmptyCost(sent: seq<SentAtt>)
    requires |sent| == 0
    ensures AttsItems(Meanings(sent)) == 0 && RenderAtts(sent) == [] && Meanings(sent) == []
  {
  }

  lemma JoinStarts(sent: seq<SentAtt>)
    requires |sent| > 0 && AllOk(sent)
    ensures var j := Wire.Join(RenderAtts(sent)); |j| > 0 && j[0] != RPAREN
  {
    hide RenderValue, AttOk;
    assert RenderAtts(sent)[0] == RenderAtt(sent[0]);
    assert sent[0] in sent;
    NameIsName(sent[0]);
    assert InClass(AttNameChar, sent[0].name[0]);
  }

  /** A written attribute list, whatever follows its closing parenthesis. */
  lemma MsgAttAt(a: bytes, i: nat, t: nat, sent: seq<SentAtt>)
    requires AllOk(sent) && At(a, i, Wire.Parenthesised(RenderAtts(sent)))
    ensures FetchMsgAtt(a, i, t) ==
            Within(AttsItems(Meanings(sent)), t, Meanings(sent), i + |Wire.Parenthesised(RenderAtts(sent))|)
  {
    hide At, FetchAttsRest, RenderAtts, Meanings, AttsItems, AllOk;
    var body := Wire.Join(RenderAtts(sent)) + [RPAREN];
    assert Wire.Parenthesised(RenderAtts(sent)) == [LPAREN] + body;
    AtByte(a, i, LPAREN, body);
    AtFirst(a, i + 1, body);
    if |sent| == 0 {
      EmptyCost(sent);
    } else {
      JoinStarts(sent);
      AttsRestAt(a, i + 1, t, sent, []);
      assert [] + Meanings(sent) == Meanings(sent);
    }
  }

  // ---------------------------------------------------------------------------
  // Attributes the parser does not know
  // ---------------------------------------------------------------------------

  predicate KnownAttribute(name: bytes) {
    || EqCi(name, Words.UID) || EqCi(name, Words.FLAGS) || EqCi(name, Words.INTERNALDATE)
    || EqCi(name, Words.RFC822_SIZE)
    || EqCi(name, Words.RFC822) || EqCi(name, Words.RFC822_HEADER) || EqCi(name, Words.RFC822_TEXT)
    || EqCi(name, Words.ENVELOPE) || EqCi(name, Words.BODYSTRUCTURE) || EqCi(name, Words.BODY)
  }

  predicate AttNameOk(name: bytes) {
    |name| > 0 && AllIn(AttNameChar, name) && Utf8(name)
  }

  /** An attribute is refused for its name exactly when the parser does not know the name; its value is
      never looked at. */
  lemma UnknownAttribute(a: bytes, i: nat, t: nat, name: bytes)
    requires At(a, i, name) && AttNameOk(name)
    requires i + |name| < |a| && !InClass(AttNameChar, a[i + |name|])
    ensures OneFetchAtt(a, i, t) == if KnownAttribute(name) then AttValue(a, i + |name|, t, AttKindOf(name))
                                    else Err(Malformed("unknown FETCH attribute"))
    ensures KnownAttribute(name) <==> AttKindOf(name) != KUnknown
  {
    hide At, Utf8, EqCi;
    ScanAt(a, i, AttNameChar, name);
    AtSlice(a, i, name);
  }

  /** Written attributes with a space after them are read, and the list goes on behind it. */
  lemma JoinedAtts(sent: seq<SentAtt>)
    requires |sent| > 0
    ensures |sent| == 1 ==> Wire.Join(RenderAtts(sent)) == RenderAtt(sent[0])
    ensures |sent| > 1 ==>
              var rest := Wire.Join(RenderAtts(sent[1..]));
              && Wire.Join(RenderAtts(sent)) == RenderAtt(sent[0]) + [SP] + rest
              && Wire.Join(RenderAtts(sent)) + [SP] == RenderAtt(sent[0]) + ([SP] + (rest + [SP]))
  {
    hide RenderAtt;
    assert RenderAtts(sent)[1..] == RenderAtts(sent[1..]);
  }

  lemma {:induction false} AttsThrough(a: bytes, i: nat, t: nat, sent: seq<SentAtt>, acc: seq<FetchAttribute>)
    requires |sent| > 0 && AllOk(sent)
    requires At(a, i, Wire.Join(RenderAtts(sent)) + [SP])
    ensures i + |Wire.Join(RenderAtts(sent))| + 1 <= |a|
    ensures FetchAttsRest(a, i, t, acc) ==
            var cost := AttsItems(Meanings(sent));
            if cost <= t
            then FetchAttsRest(a, i + |Wire.Join(RenderAtts(sent))| + 1, t - cost, acc + Meanings(sent))
            else Err(TooManyItems(MAX_ITEMS_PER_RESPONSE))
    decreases |sent|
  {
    hide At, OneFetchAtt, RenderAtt, Meaning, AttOk, AttItems, AttsItems, RenderAtts, Meanings, Wire.Join;
    var form := RenderAtt(sent[0]);
    var att := Meaning(sent[0].value);
    ListsCons(sent);
    JoinedAtts(sent);
    AttsItemsFirst(att, Meanings(sent[1..]));
    AtSlice(a, i, Wire.Join(RenderAtts(sent)) + [SP]);
    if |sent| == 1 {
      EmptyCost(sent[1..]);
      AtConcat(a, i, form, [SP]);
      AtFirst(a, i + |form|, [SP]);
      AttAt(a, i, t, sent[0]);
      assert Meanings(sent) == [att];
    } else {
      var rest := Wire.Join(RenderAtts(sent[1..])) + [SP];
      AtConcat(a, i, form, [SP] + rest);
      AtByte(a, i + |form|, SP, rest);
      AttAt(a, i, t, sent[0]);
      if AttItems(att) < t {
        AttsThrough(a, i + |form| + 1, t - AttItems(att) - 1, sent[1..], acc + [att]);
        assert acc + [att] + Meanings(sent[1..]) == acc + Meanings(sent);
      }
    }
  }

  /** The attributes ahead of another one, each with the space after it. */
  function Ahead(before: seq<SentAtt>): bytes {
    if |before| == 0 then [] else Wire.Join(RenderAtts(before)) + [SP]
  }

  /** A list with an unknown name in it breaks, whatever stands before and after. */
  lemma UnknownInList(a: bytes, i: nat, t: nat, before: seq<SentAtt>, name: bytes)
    requires AllOk(before) && AttNameOk(name) && !KnownAttribute(name)
    requires At(a, i, [LPAREN] + (Ahead(before) + name))
    requires var e := i + 1 + |Ahead(before)| + |name|; e < |a| && !InClass(AttNameChar, a[e])
    ensures FetchMsgAtt(a, i, t).Hard()
  {
    hide At, FetchAttsRest, RenderAtts, Meanings, AttsItems, AllOk, KnownAttribute, AttNameOk;
    AtByte(a, i, LPAREN, Ahead(before) + name);
    AtConcat(a, i + 1, Ahead(before), name);
    AheadStarts(a, i + 1, before, name);
    var j := i + 1 + |Ahead(before)|;
    if |before| == 0 {
      UnknownFirst(a, j, t, name, []);
    } else {
      AttsThrough(a, i + 1, t, before, []);
      var cost := AttsItems(Meanings(before));
      if cost <= t {
        UnknownFirst(a, j, t - cost, name, [] + Meanings(before));
      }
    }
  }

  lemma UnknownFirst(a: bytes, i: nat, t: nat, name: bytes, acc: seq<FetchAttribute>)
    requires At(a, i, name) && AttNameOk(name) && !KnownAttribute(name)
    requires i + |name| < |a| && !InClass(AttNameChar, a[i + |name|])
    ensures FetchAttsRest(a, i, t, acc) == Err(Malformed("unknown FETCH attribute"))
  {
    hide At, OneFetchAtt, KnownAttribute;
    UnknownAttribute(a, i, t, name);
  }

  lemma AheadStarts(a: bytes, i: nat, before: seq<SentAtt>, name: bytes)
    requires AllOk(before) && AttNameOk(name) && At(a, i, Ahead(before)) && At(a, i + |Ahead(before)|, name)
    ensures i < |a| && a[i] != RPAREN
  {
    hide At, AllOk;
    if |before| == 0 {
      AtFirst(a, i, name);
      assert InClass(AttNameChar, name[0]);
    } else {
      JoinStarts(before);
      AtFirst(a, i, Ahead(before));
    }
  }
}
