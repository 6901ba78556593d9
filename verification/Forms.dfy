/** The ways a server may write numbers, words and strings, and how the parser reads each of them:
    keywords in any case, numbers with leading zeros, strings quoted or as literals. */
module Forms {
  import opened Bytes
  import opened Ast
  import opened Grammar
  import opened BalancedValues
  import Wire
  import Words

  /** A number as written. */
  type Numeral = d: bytes | |d| > 0 && AllDigits(d) witness [48]

  predicate Fits(d: Numeral) {
    Decimal(d) <= 4294967295
  }

  /** A list goes on or ends here. */
  predicate Delimited(a: bytes, i: nat) {
    i < |a| && (a[i] == SP || a[i] == RPAREN)
  }

  predicate AtomEnds(a: bytes, e: nat) {
    e < |a| && !IsAtomChar(a[e])
  }

  lemma DelimiterEndsAtom(a: bytes, e: nat)
    requires e < |a| && (a[e] == SP || a[e] == RPAREN || a[e] == CR || a[e] == RBRACKET)
    ensures AtomEnds(a, e)
  {
  }

  // ---------------------------------------------------------------------------
  // Case
  // ---------------------------------------------------------------------------

  lemma SameWord(x: bytes, y: bytes, z: bytes)
    requires EqCi(x, y)
    ensures EqCi(x, z) <==> EqCi(y, z)
  {
    if |x| == |z| {
      forall k | 0 <= k < |z| ensures Lower(x[k]) == Lower(z[k]) <==> Lower(y[k]) == Lower(z[k]) {
        assert Lower(x[k]) == Lower(y[k]);
      }
    }
  }

  /** Changing case changes letters into letters, and no class used for words tells letters apart. */
  lemma SpelledInClass(c: Class, x: bytes, y: bytes)
    requires EqCi(x, y) && AllIn(c, y) && (c == AtomChar || c == AttNameChar || c == CodeChar)
    ensures AllIn(c, x)
  {
    forall k | 0 <= k < |x| ensures InClass(c, x[k]) {
      assert Lower(x[k]) == Lower(y[k]) && InClass(c, y[k]);
    }
  }

  lemma SpelledAscii(x: bytes, y: bytes)
    requires EqCi(x, y) && Ascii(y)
    ensures Ascii(x)
  {
    forall k | 0 <= k < |x| ensures x[k] < 0x80 {
      assert Lower(x[k]) == Lower(y[k]);
    }
  }

  /** Whatever its case, a keyword that follows is found. */
  lemma SpelledMatches(a: bytes, i: nat, word: bytes, kw: bytes)
    requires At(a, i, word) && EqCi(word, kw)
    ensures MatchesCi(a, i, kw)
  {
    AtIndex(a, i, word);
    forall k | 0 <= k < |kw| ensures Lower(a[i + k]) == Lower(kw[k]) {
      assert a[i + k] == word[k] && Lower(word[k]) == Lower(kw[k]);
    }
  }

  // ---------------------------------------------------------------------------
  // Tokens
  // ---------------------------------------------------------------------------

  lemma NumeralAt(a: bytes, i: nat, t: nat, d: Numeral)
    requires At(a, i, d) && Fits(d)
    requires i + |d| < |a| ==> !IsDigit(a[i + |d|])
    ensures Number(a, i, t) == Ok(Decimal(d), i + |d|, t)
  {
    hide At, Number, Decimal;
    NumberAt(a, i, t, d);
  }

  predicate AtomOk(w: bytes) {
    |w| > 0 && AllIn(AtomChar, w) && Utf8(w)
  }

  lemma AtomAt(a: bytes, i: nat, t: nat, w: bytes)
    requires At(a, i, w) && AtomOk(w) && AtomEnds(a, i + |w|)
    ensures Atom(a, i, t) == Ok(w, i + |w|, t)
  {
    hide At, Utf8;
    ScanAt(a, i, AtomChar, w);
    AtSlice(a, i, w);
  }

  lemma AtomStarts(w: bytes)
    requires AtomOk(w)
    ensures |w| > 0 && IsAtomChar(w[0])
  {
    assert InClass(AtomChar, w[0]);
  }

  lemma SpelledAtom(w: bytes, kw: bytes)
    requires EqCi(w, kw) && |kw| > 0 && AllLetters(kw)
    ensures AtomOk(w)
  {
    hide Utf8;
    assert AllIn(AtomChar, kw);
    SpelledInClass(AtomChar, w, kw);
    SpelledAscii(w, kw);
    AsciiIsUtf8(w);
  }

  lemma SectionBytesAt(a: bytes, i: nat, t: nat, text: bytes)
    requires At(a, i, text) && AllIn(SectionChar, text) && Utf8(text)
    requires i + |text| < |a| && a[i + |text|] == RBRACKET
    ensures ReadSection(a, i, t) == Ok(text, i + |text|, t)
  {
    hide At, Utf8, AllIn;
    ScanAt(a, i, SectionChar, text);
    AtSlice(a, i, text);
  }

  lemma CrlfAt(a: bytes, i: nat, t: nat)
    requires At(a, i, CRLF)
    ensures i + 2 <= |a| && a[i] == CR && a[i + 1] == LF && ConsumeCrlf(a, i, t) == Ok((), i + 2, t)
  {
    AtIndex(a, i, CRLF);
    assert a[i + 0] == CRLF[0] && a[i + 1] == CRLF[1];
  }

  lemma QuotedTextAt(a: bytes, i: nat, t: nat, text: bytes)
    requires At(a, i, Wire.QuotedForm(text)) && QuotedTextOk(text)
    ensures i < |a| && a[i] == DQUOTE
    ensures Quoted(a, i, t) == Ok(Wire.Escape(text), i + |Wire.QuotedForm(text)|, t)
  {
    hide Quoted, Wire.Escape;
    Wire.QuotedFormAt(a, i, t, text);
    QuotedItemAt(a, i, t, text);
  }

  lemma LiteralDataAt(a: bytes, i: nat, t: nat, length: bytes, data: bytes)
    requires At(a, i, LiteralForm(length, data)) && LiteralOk(length, data)
    ensures i < |a| && a[i] == LBRACE
    ensures Literal(a, i, t) == Ok(data, i + |LiteralForm(length, data)|, t)
  {
    hide Literal, LiteralForm, LiteralOk;
    LiteralAt(a, i, t, length, data);
    LiteralItemAt(a, i, t, length, data);
  }

  // ---------------------------------------------------------------------------
  // nstring and astring
  // ---------------------------------------------------------------------------

  /** The ways a server may send an nstring. */
  datatype NStringForm = NilForm(word: bytes) | QuotedText(text: bytes) | LiteralData(length: bytes, data: bytes)

  function RenderNString(v: NStringForm): bytes {
    match v
    case NilForm(word) => word
    case QuotedText(text) => Wire.QuotedForm(text)
    case LiteralData(length, data) => LiteralForm(length, data)
  }

  /** The parser hands out quoted content as it stands between the quotes, escapes included. */
  function NStringValue(v: NStringForm): Option<bytes> {
    match v
    case NilForm(_) => None
    case QuotedText(text) => Some(Wire.Escape(text))
    case LiteralData(_, data) => Some(data)
  }

  predicate NStringOk(v: NStringForm) {
    match v
    case NilForm(word) => EqCi(word, Words.NIL)
    case QuotedText(text) => QuotedTextOk(text)
    case LiteralData(length, data) => LiteralOk(length, data)
  }

  lemma NilAt(a: bytes, i: nat, t: nat, word: bytes)
    requires At(a, i, word) && EqCi(word, NIL) && Delimited(a, i + |word|)
    ensures ExpectNil(a, i, t) == Ok((), i + |word|, t) && i < |a| && a[i] != DQUOTE && a[i] != LBRACE
  {
    SpelledMatches(a, i, word, NIL);
    assert Lower(a[i + 0]) == Lower(NIL[0]);
  }

  lemma NStringAt(a: bytes, i: nat, t: nat, v: NStringForm)
    requires At(a, i, RenderNString(v)) && NStringOk(v) && Delimited(a, i + |RenderNString(v)|)
    ensures NStringBytesOptional(a, i, t) == Ok(NStringValue(v), i + |RenderNString(v)|, t)
  {
    hide At, ExpectNil, Quoted, Literal, EqCi, QuotedTextOk, LiteralOk, Wire.QuotedForm, LiteralForm;
    match v
    case NilForm(word) => NilAt(a, i, t, word);
    case QuotedText(text) => QuotedTextAt(a, i, t, text);
    case LiteralData(length, data) => LiteralDataAt(a, i, t, length, data);
  }

  /** Where the parser hands out text, a literal has to be UTF-8. */
  predicate TextFormOk(v: NStringForm) {
    NStringOk(v) && (v.LiteralData? ==> Utf8(v.data))
  }

  lemma NStringTextAt(a: bytes, i: nat, t: nat, v: NStringForm)
    requires At(a, i, RenderNString(v)) && TextFormOk(v) && Delimited(a, i + |RenderNString(v)|)
    ensures NString(a, i, t) == Ok(NStringValue(v), i + |RenderNString(v)|, t)
  {
    hide At, ExpectNil, Quoted, Literal, EqCi, Utf8, QuotedTextOk, LiteralOk, Wire.QuotedForm, LiteralForm;
    match v
    case NilForm(word) => NilAt(a, i, t, word);
    case QuotedText(text) => QuotedTextAt(a, i, t, text);
    case LiteralData(length, data) => LiteralDataAt(a, i, t, length, data);
  }

  /** The ways a server may send an astring. */
  datatype AStringForm = AtomText(atom: bytes) | QuotedName(text: bytes) | LiteralName(length: bytes, data: bytes)

  predicate AStringOk(v: AStringForm) {
    match v
    case AtomText(atom) => AtomOk(atom)
    case QuotedName(text) => QuotedTextOk(text)
    case LiteralName(length, data) => LiteralOk(length, data) && Utf8(data)
  }

  function RenderAString(v: AStringForm): bytes {
    match v
    case AtomText(atom) => atom
    case QuotedName(text) => Wire.QuotedForm(text)
    case LiteralName(length, data) => LiteralForm(length, data)
  }

  function AStringValue(v: AStringForm): bytes {
    match v
    case AtomText(atom) => atom
    case QuotedName(text) => Wire.Escape(text)
    case LiteralName(_, data) => data
  }

  lemma AStringAt(a: bytes, i: nat, t: nat, v: AStringForm)
    requires At(a, i, RenderAString(v)) && AStringOk(v)
    requires v.AtomText? ==> AtomEnds(a, i + |v.atom|)
    ensures AString(a, i, t) == Ok(AStringValue(v), i + |RenderAString(v)|, t)
  {
    hide At, Atom, AtomOk, Quoted, Literal, Utf8, QuotedTextOk, LiteralOk, LiteralForm, Wire.QuotedForm;
    match v
    case AtomText(atom) =>
      AtomStarts(atom);
      AtFirst(a, i, atom);
      AtomAt(a, i, t, atom);
    case QuotedName(text) => QuotedTextAt(a, i, t, text);
    case LiteralName(length, data) => LiteralDataAt(a, i, t, length, data);
  }

  // ---------------------------------------------------------------------------
  // Status keywords
  // ---------------------------------------------------------------------------

  lemma NotKeyword(a: bytes, i: nat, kw: bytes)
    requires i < |a| && |kw| > 0 && Lower(a[i]) != Lower(kw[0])
    ensures !KeywordAt(a, i, kw)
  {
    assert Lower(a[i + 0]) != Lower(kw[0]);
  }

  /** The first letters of the status keywords, in lower case: b, n, o and p. */
  predicate StartsNoStatus(b: byte) {
    Lower(b) !in {98, 110, 111, 112}
  }

  lemma NoStatusKeyword(a: bytes, i: nat)
    requires i < |a| && StartsNoStatus(a[i])
    ensures StatusKeyword(a, i) == None
  {
    hide KeywordAt;
    NotKeyword(a, i, PREAUTH);
    NotKeyword(a, i, OK);
    NotKeyword(a, i, NO);
    NotKeyword(a, i, BAD);
    NotKeyword(a, i, BYE);
  }
}
