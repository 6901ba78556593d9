/** How each parser routine's answer carries over from an input `a` to an input `b` that agrees with
    it on the first `m` bytes. Two uses matter: `b` extends `a` (then `m == |a|`), and `b` is the
    front of `a` that one response consumed. The results for whole responses are at the end. */
module Stability {
  import opened Bytes
  import opened Ast
  import opened Grammar

  ghost predicate Agree(a: bytes, b: bytes, m: nat) {
    m <= |a| && m <= |b| && forall j :: 0 <= j < m ==> a[j] == b[j]
  }

  /** A success that looked at shared bytes only is repeated; so is any success on a shorter input,
      and a hard error there stays hard. */
  ghost predicate Carries<T>(ra: Res<T>, rb: Res<T>, m: nat, n: nat) {
    && (ra.Ok? && (ra.pos < m || m == n) ==> rb == ra)
    && (m == n && ra.Hard() ==> rb.Hard())
  }

  /** As `Carries`, for a routine that may stop at the end of the input although its token goes on:
      there the longer input gives a hard error or charges the budget alike. */
  ghost predicate CarriesCut<T>(ra: Res<T>, rb: Res<T>, m: nat, n: nat) {
    && (ra.Ok? && ra.pos < m ==> rb == ra)
    && (m == n && ra.Hard() ==> rb.Hard())
    && (m == n && ra.Ok? && ra.pos == n ==> rb.Hard() || (rb.Ok? && rb.items == ra.items))
  }

  /** As `Carries`, with no promise for a success at the end of the input. */
  ghost predicate CarriesInside<T>(ra: Res<T>, rb: Res<T>, m: nat, n: nat) {
    && (ra.Ok? && ra.pos < m ==> rb == ra)
    && (m == n && ra.Hard() ==> rb.Hard())
  }

  // ---------------------------------------------------------------------------
  // Scans and tokens
  // ---------------------------------------------------------------------------

  lemma SliceAgrees(a: bytes, b: bytes, m: nat, i: nat, j: nat)
    requires Agree(a, b, m) && i <= j <= m
    ensures a[i..j] == b[i..j]
  {
  }

  lemma {:induction false} ScanAgrees(a: bytes, b: bytes, m: nat, i: nat, c: Class)
    requires Agree(a, b, m) && i <= m
    ensures Scan(a, i, c) < m ==> Scan(b, i, c) == Scan(a, i, c)
    ensures m == |a| && Scan(a, i, c) == m ==> Scan(b, i, c) >= m
    decreases m - i
  {
    if i < m && InClass(c, a[i]) {
      ScanAgrees(a, b, m, i + 1, c);
    }
  }

  lemma ScannedTextCarries(a: bytes, b: bytes, m: nat, i: nat, c: Class, t: nat)
    requires Agree(a, b, m) && i <= m
    ensures Carries(ScannedText(a, i, Scan(a, i, c), t), ScannedText(b, i, Scan(b, i, c), t), m, |a|)
  {
    ScanAgrees(a, b, m, i, c);
    var j := Scan(a, i, c);
    if j < m {
      SliceAgrees(a, b, m, i, j);
    }
  }

  lemma NumberCarries(a: bytes, b: bytes, m: nat, i: nat, t: nat)
    requires Agree(a, b, m) && i <= m
    ensures CarriesCut(Number(a, i, t), Number(b, i, t), m, |a|)
    ensures m == |a| && Number(a, i, t).Ok? && Number(b, i, t).Ok? ==> Number(a, i, t).val <= Number(b, i, t).val
  {
    ScanAgrees(a, b, m, i, Digit);
    var j := Scan(a, i, Digit);
    if j < m {
      SliceAgrees(a, b, m, i, j);
    } else if m == |a| && i < j {
      var k := Scan(b, i, Digit);
      DecimalGrows(b[i..k], j - i);
      SliceAgrees(a, b, m, i, j);
      assert b[i..k][..j - i] == b[i..j];
    }
  }

  lemma AtomCarries(a: bytes, b: bytes, m: nat, i: nat, t: nat)
    requires Agree(a, b, m) && i <= m
    ensures Carries(Atom(a, i, t), Atom(b, i, t), m, |a|)
  {
    ScanAgrees(a, b, m, i, AtomChar);
    ScannedTextCarries(a, b, m, i, AtomChar, t);
  }

  lemma TagCarries(a: bytes, b: bytes, m: nat, i: nat, t: nat)
    requires Agree(a, b, m) && i <= m
    ensures Carries(Tag(a, i, t), Tag(b, i, t), m, |a|)
  {
    ScanAgrees(a, b, m, i, TagChar);
    ScannedTextCarries(a, b, m, i, TagChar, t);
  }

  lemma ExpectNilCarries(a: bytes, b: bytes, m: nat, i: nat, t: nat)
    requires Agree(a, b, m) && i <= m
    ensures CarriesCut(ExpectNil(a, i, t), ExpectNil(b, i, t), m, |a|)
  {
    if KeywordAt(a, i, NIL) && i + 3 <= m {
      assert MatchesCi(b, i, NIL);
    }
    if m == |a| && ExpectNil(a, i, t).Hard() {
      if MatchesCi(b, i, NIL) || CutKeyword(b, i, NIL) {
        forall k | 0 <= k < |NIL| && i + k < m ensures Lower(a[i + k]) == Lower(NIL[k]) {
          assert a[i + k] == b[i + k];
        }
      }
    }
  }

  // ---------------------------------------------------------------------------
  // Strings
  // ---------------------------------------------------------------------------

  lemma {:induction false} QuotedEndCarries(a: bytes, b: bytes, m: nat, i: nat, t: nat)
    requires Agree(a, b, m) && i <= m
    ensures Carries(QuotedEnd(a, i, t), QuotedEnd(b, i, t), m, |a|)
    decreases m - i
  {
    if i < m && a[i] != DQUOTE {
      if a[i] != BACKSLASH {
        QuotedEndCarries(a, b, m, i + 1, t);
      } else if i + 2 <= m {
        QuotedEndCarries(a, b, m, i + 2, t);
      }
    }
  }

  lemma QuotedCarries(a: bytes, b: bytes, m: nat, i: nat, t: nat)
    requires Agree(a, b, m) && i <= m
    ensures Carries(Quoted(a, i, t), Quoted(b, i, t), m, |a|)
  {
    if i < m && a[i] == DQUOTE {
      QuotedEndCarries(a, b, m, i + 1, t);
      var e := QuotedEnd(a, i + 1, t);
      if e.Ok? && e.pos <= m {
        SliceAgrees(a, b, m, i + 1, e.pos);
      }
    }
  }

  lemma LiteralCarries(a: bytes, b: bytes, m: nat, i: nat, t: nat)
    requires Agree(a, b, m) && i <= m
    ensures Carries(Literal(a, i, t), Literal(b, i, t), m, |a|)
  {
    hide Number;
    if i < m && a[i] == LBRACE {
      NumberCarries(a, b, m, i + 1, t);
      var r := Literal(a, i, t);
      if r.Ok? && r.pos <= m {
        SliceAgrees(a, b, m, r.pos - |r.val|, r.pos);
      }
    }
  }

  lemma LiteralTextCarries(a: bytes, b: bytes, m: nat, i: nat, t: nat)
    requires Agree(a, b, m) && i <= m
    ensures Carries(LiteralText(a, i, t), LiteralText(b, i, t), m, |a|)
  {
    LiteralCarries(a, b, m, i, t);
  }

  lemma AStringCarries(a: bytes, b: bytes, m: nat, i: nat, t: nat)
    requires Agree(a, b, m) && i <= m
    ensures Carries(AString(a, i, t), AString(b, i, t), m, |a|)
  {
    QuotedCarries(a, b, m, i, t);
    LiteralTextCarries(a, b, m, i, t);
    AtomCarries(a, b, m, i, t);
  }

  lemma NStringCarries(a: bytes, b: bytes, m: nat, i: nat, t: nat)
    requires Agree(a, b, m) && i <= m
    ensures CarriesCut(NString(a, i, t), NString(b, i, t), m, |a|)
  {
    hide Quoted, LiteralText, ExpectNil;
    QuotedCarries(a, b, m, i, t);
    LiteralTextCarries(a, b, m, i, t);
    ExpectNilCarries(a, b, m, i, t);
  }

  lemma NStringBytesOptionalCarries(a: bytes, b: bytes, m: nat, i: nat, t: nat)
    requires Agree(a, b, m) && i <= m
    ensures CarriesCut(NStringBytesOptional(a, i, t), NStringBytesOptional(b, i, t), m, |a|)
  {
    hide Quoted, Literal, ExpectNil;
    QuotedCarries(a, b, m, i, t);
    LiteralCarries(a, b, m, i, t);
    ExpectNilCarries(a, b, m, i, t);
  }

  lemma NStringBytesCarries(a: bytes, b: bytes, m: nat, i: nat, t: nat)
    requires Agree(a, b, m) && i <= m
    ensures CarriesCut(NStringBytes(a, i, t), NStringBytes(b, i, t), m, |a|)
  {
    hide NStringBytesOptional;
    NStringBytesOptionalCarries(a, b, m, i, t);
  }

  // ---------------------------------------------------------------------------
  // Lists and nested values
  // ---------------------------------------------------------------------------

  lemma FlagOrAtomCarries(a: bytes, b: bytes, m: nat, i: nat, t: nat)
    requires Agree(a, b, m) && i <= m
    ensures Carries(FlagOrAtom(a, i, t), FlagOrAtom(b, i, t), m, |a|)
  {
    if i < m {
      var s := if a[i] == BACKSLASH then i + 1 else i;
      ScanAgrees(a, b, m, s, AtomChar);
      var j := Scan(a, s, AtomChar);
      if j < m {
        SliceAgrees(a, b, m, i, j);
      }
      if i + 2 <= m {
        SliceAgrees(a, b, m, i, i + 2);
      }
    }
  }

  lemma AtomListRestAtEnd(a: bytes, t: nat, acc: seq<bytes>)
    ensures AtomListRest(a, |a|, t, acc) == Err(Incomplete)
  {
  }

  lemma {:induction false} AtomListRestCarries(a: bytes, b: bytes, m: nat, i: nat, t: nat, acc: seq<bytes>)
    requires Agree(a, b, m) && i <= m
    ensures Carries(AtomListRest(a, i, t, acc), AtomListRest(b, i, t, acc), m, |a|)
    ensures i == |a| ==> AtomListRest(a, i, t, acc) == Err(Incomplete)
    decreases m - i
  {
    hide FlagOrAtom;
    AtomListRestAtEnd(a, t, acc);
    FlagOrAtomCarries(a, b, m, i, t);
    var r := FlagOrAtom(a, i, t);
    if r.Ok? && r.pos < m && t > 0 && a[r.pos] == SP {
      AtomListRestCarries(a, b, m, r.pos + 1, t - 1, acc + [r.val]);
    }
  }

  lemma AtomListCarries(a: bytes, b: bytes, m: nat, i: nat, t: nat)
    requires Agree(a, b, m) && i <= m
    ensures Carries(AtomList(a, i, t), AtomList(b, i, t), m, |a|)
  {
    hide AtomListRest;
    if i < m && a[i] == LPAREN {
      AtomListRestCarries(a, b, m, i + 1, t, []);
    }
  }

  lemma {:induction false} BalancedEndCarries(a: bytes, b: bytes, m: nat, i: nat, t: nat, depth: nat)
    requires Agree(a, b, m) && i <= m
    ensures Carries(BalancedEnd(a, i, t, depth), BalancedEnd(b, i, t, depth), m, |a|)
    decreases m - i
  {
    hide Quoted, Literal;
    if depth > 0 && i < m {
      if a[i] == DQUOTE {
        QuotedCarries(a, b, m, i, t);
        var r := Quoted(a, i, t);
        if r.Ok? && r.pos <= m {
          BalancedEndCarries(a, b, m, r.pos, t, depth);
        }
      } else if a[i] == LBRACE {
        LiteralCarries(a, b, m, i, t);
        var r := Literal(a, i, t);
        if r.Ok? && r.pos <= m {
          BalancedEndCarries(a, b, m, r.pos, t, depth);
        }
      } else {
        var d: nat := if a[i] == LPAREN then depth + 1 else if a[i] == RPAREN then depth - 1 else depth;
        BalancedEndCarries(a, b, m, i + 1, t, d);
      }
    }
  }

  lemma BalancedCarries(a: bytes, b: bytes, m: nat, i: nat, t: nat)
    requires Agree(a, b, m) && i <= m
    ensures Carries(Balanced(a, i, t), Balanced(b, i, t), m, |a|)
  {
    hide BalancedEnd;
    if i < m && a[i] == LPAREN {
      BalancedEndCarries(a, b, m, i + 1, t, 1);
      var r := BalancedEnd(a, i + 1, t, 1);
      if r.Ok? && r.pos <= m {
        SliceAgrees(a, b, m, i, r.pos);
      }
    }
  }

  lemma {:induction false} CapsRestCarries(a: bytes, b: bytes, m: nat, i: nat, t: nat, acc: seq<bytes>)
    requires Agree(a, b, m) && i <= m
    ensures CarriesInside(CapsRest(a, i, t, acc), CapsRest(b, i, t, acc), m, |a|)
    decreases m - i
  {
    hide Atom;
    if i < m && a[i] == SP {
      AtomCarries(a, b, m, i + 1, t);
      var r := Atom(a, i + 1, t);
      if r.Ok? && r.pos <= m && t > 0 {
        CapsRestCarries(a, b, m, r.pos, t - 1, acc + [r.val]);
      }
    }
  }

  lemma {:induction false} SearchRestCarries(a: bytes, b: bytes, m: nat, i: nat, t: nat, acc: seq<nat>)
    requires Agree(a, b, m) && i <= m
    ensures CarriesInside(SearchRest(a, i, t, acc), SearchRest(b, i, t, acc), m, |a|)
    decreases m - i
  {
    hide Number;
    if i < m && a[i] == SP {
      NumberCarries(a, b, m, i + 1, t);
      var r := Number(a, i + 1, t);
      if r.Ok? && r.pos <= m {
        SearchRestCarries(a, b, m, r.pos, t, acc + [r.val]);
      }
    }
  }

  lemma SpNumberCarries(a: bytes, b: bytes, m: nat, i: nat, t: nat)
    requires Agree(a, b, m) && i <= m
    ensures CarriesCut(SpNumber(a, i, t), SpNumber(b, i, t), m, |a|)
  {
    if i < m {
      NumberCarries(a, b, m, i + 1, t);
    }
  }

  lemma SpAtomListCarries(a: bytes, b: bytes, m: nat, i: nat, t: nat)
    requires Agree(a, b, m) && i <= m
    ensures Carries(SpAtomList(a, i, t), SpAtomList(b, i, t), m, |a|)
  {
    hide AtomList;
    if i < m {
      AtomListCarries(a, b, m, i + 1, t);
    }
  }

  lemma ReadSectionCarries(a: bytes, b: bytes, m: nat, i: nat, t: nat)
    requires Agree(a, b, m) && i <= m
    ensures Carries(ReadSection(a, i, t), ReadSection(b, i, t), m, |a|)
  {
    ScanAgrees(a, b, m, i, SectionChar);
    ScannedTextCarries(a, b, m, i, SectionChar, t);
  }

  // ---------------------------------------------------------------------------
  // Status responses
  // ---------------------------------------------------------------------------

  lemma CodeArgumentCarries(a: bytes, b: bytes, m: nat, i: nat, t: nat, atom: bytes)
    requires Agree(a, b, m) && i < m
    ensures CarriesInside(CodeArgument(a, i, t, atom), CodeArgument(b, i, t, atom), m, |a|)
  {
    hide SpNumber, SpAtomList, AtomList, ReadSection, CapsRest, CodeKindOf;
    match CodeKindOf(atom)
    case KUidNext => SpNumberCarries(a, b, m, i, t);
    case KUidValidity => SpNumberCarries(a, b, m, i, t);
    case KUnseen => SpNumberCarries(a, b, m, i, t);
    case KPermanentFlags => SpAtomListCarries(a, b, m, i, t);
    case KBadCharset => AtomListCarries(a, b, m, i + 1, t);
    case KOtherCode => ReadSectionCarries(a, b, m, i + 1, t);
    case KCodeCapability => CapsRestCarries(a, b, m, i, t, []);
    case _ =>
  }

  lemma RespTextCodeCarries(a: bytes, b: bytes, m: nat, i: nat, t: nat)
    requires Agree(a, b, m) && i <= m
    ensures CarriesInside(RespTextCode(a, i, t), RespTextCode(b, i, t), m, |a|)
  {
    ScanAgrees(a, b, m, i, CodeChar);
    ScannedTextCarries(a, b, m, i, CodeChar, t);
    var j := Scan(a, i, CodeChar);
    if j < m {
      CodeArgumentCarries(a, b, m, j, t, a[i..j]);
    }
  }

  lemma TextCarries(a: bytes, b: bytes, m: nat, i: nat, t: nat)
    requires Agree(a, b, m) && i <= m
    ensures Carries(Text(a, i, t), Text(b, i, t), m, |a|)
    ensures i == |a| ==> Text(a, i, t) == Err(Incomplete)
  {
    ScannedTextCarries(a, b, m, i, TextChar, t);
  }

  lemma RespTextCarries(a: bytes, b: bytes, m: nat, i: nat, t: nat)
    requires Agree(a, b, m) && i <= m
    ensures Carries(RespText(a, i, t), RespText(b, i, t), m, |a|)
  {
    hide RespTextCode, Text;
    TextCarries(a, b, m, i, t);
    if i < m && a[i] == LBRACKET {
      RespTextCodeCarries(a, b, m, i + 1, t);
      var r := RespTextCode(a, i + 1, t);
      if r.Ok? && r.pos < m {
        var q := r.pos + 1;
        TextCarries(a, b, m, q, r.items);
        if q < m {
          TextCarries(a, b, m, q + 1, r.items);
        }
      }
    }
  }

  lemma StatusRestCarries(a: bytes, b: bytes, m: nat, i: nat, t: nat, tag: Option<bytes>, status: Status)
    requires Agree(a, b, m) && i <= m
    ensures Whole(StatusRest(a, i, t, tag, status), StatusRest(b, i, t, tag, status), m, |a|)
    ensures i == |a| ==> StatusRest(a, i, t, tag, status) == Err(Incomplete)
  {
    hide RespText;
    if i < m {
      RespTextCarries(a, b, m, i + 1, t);
    }
  }

  /** A complete response is repeated on any input that agrees on the bytes it consumed. */
  ghost predicate Whole<T>(ra: Res<T>, rb: Res<T>, m: nat, n: nat) {
    && (ra.Ok? && ra.pos <= m ==> rb == ra)
    && (m == n && ra.Hard() ==> rb.Hard())
  }

  lemma ContinueReqCarries(a: bytes, b: bytes, m: nat, i: nat, t: nat)
    requires Agree(a, b, m) && i <= m
    ensures Whole(ContinueReq(a, i, t), ContinueReq(b, i, t), m, |a|)
  {
    hide RespText;
    if i + 2 <= m {
      RespTextCarries(a, b, m, i + 2, t);
    }
  }

  /** A shared byte that is not a letter settles whether a keyword stands before it. */
  lemma KeywordSettled(a: bytes, b: bytes, m: nat, i: nat, j: nat, kw: bytes)
    requires Agree(a, b, m) && i <= j < m
    requires !IsLetter(a[j]) && AllLetters(kw)
    ensures KeywordAt(a, i, kw) == KeywordAt(b, i, kw)
  {
    if j < i + |kw| {
      var k := j - i;
      assert a[i + k] == b[i + k];
      assert Lower(a[i + k]) != Lower(kw[k]);
    }
  }

  lemma StatusKeywordSettled(a: bytes, b: bytes, m: nat, i: nat, j: nat)
    requires Agree(a, b, m) && i <= j < m
    requires !IsLetter(a[j])
    ensures StatusKeyword(a, i) == StatusKeyword(b, i)
  {
    KeywordSettled(a, b, m, i, j, PREAUTH);
    KeywordSettled(a, b, m, i, j, OK);
    KeywordSettled(a, b, m, i, j, NO);
    KeywordSettled(a, b, m, i, j, BAD);
    KeywordSettled(a, b, m, i, j, BYE);
  }

  /** A keyword found short of the end is followed by a byte that is not a letter. */
  lemma StatusKeywordBounded(a: bytes, i: nat)
    requires StatusKeyword(a, i).Some?
    ensures var e := i + StatusKeyword(a, i).value.1; e < |a| ==> !IsLetter(a[e])
  {
  }

  /** An input that has neither a keyword nor the start of one gains none by growing. */
  lemma NoKeywordGained(a: bytes, b: bytes, i: nat, kw: bytes)
    requires Agree(a, b, |a|) && i <= |a|
    requires !KeywordAt(a, i, kw) && !CutKeyword(a, i, kw)
    ensures !KeywordAt(b, i, kw) && !CutKeyword(b, i, kw)
  {
    if MatchesCi(b, i, kw) || CutKeyword(b, i, kw) {
      forall k | 0 <= k < |kw| && i + k < |a| ensures Lower(a[i + k]) == Lower(kw[k]) {
        assert a[i + k] == b[i + k];
      }
    }
  }

  lemma NoStatusKeywordGained(a: bytes, b: bytes, i: nat)
    requires Agree(a, b, |a|) && i <= |a|
    requires StatusKeyword(a, i) == None && !CutStatusKeyword(a, i)
    ensures StatusKeyword(b, i) == None && !CutStatusKeyword(b, i)
  {
    NoKeywordGained(a, b, i, PREAUTH);
    NoKeywordGained(a, b, i, OK);
    NoKeywordGained(a, b, i, NO);
    NoKeywordGained(a, b, i, BAD);
    NoKeywordGained(a, b, i, BYE);
  }

  lemma TaggedCarries(a: bytes, b: bytes, m: nat, i: nat, t: nat)
    requires Agree(a, b, m) && i <= m
    ensures Whole(Tagged(a, i, t), Tagged(b, i, t), m, |a|)
  {
    hide Tag, StatusRest, StatusKeyword;
    TagCarries(a, b, m, i, t);
    var tag := Tag(a, i, t);
    if tag.Ok? && tag.pos < m && a[tag.pos] == SP {
      var i2 := tag.pos + 1;
      match StatusKeyword(a, i2)
      case Some(kw) =>
        var e := i2 + kw.1;
        if e <= m {
          StatusRestCarries(a, b, m, e, t, Some(tag.val), kw.0);
          if e < m {
            StatusKeywordBounded(a, i2);
            StatusKeywordSettled(a, b, m, i2, e);
          }
        }
      case None =>
        if m == |a| && !CutStatusKeyword(a, i2) {
          NoStatusKeywordGained(a, b, i2);
        }
    }
  }

  // ---------------------------------------------------------------------------
  // FETCH attributes
  // ---------------------------------------------------------------------------

  lemma OriginCarries(a: bytes, b: bytes, m: nat, i: nat, t: nat)
    requires Agree(a, b, m) && i <= m
    ensures CarriesInside(Origin(a, i, t), Origin(b, i, t), m, |a|)
  {
    hide Number;
    if i < m {
      NumberCarries(a, b, m, i + 1, t);
    }
  }

  lemma BodySectionRestCarries(a: bytes, b: bytes, m: nat, i: nat, t: nat)
    requires Agree(a, b, m) && i <= m
    ensures CarriesCut(BodySectionRest(a, i, t), BodySectionRest(b, i, t), m, |a|)
  {
    hide ReadSection, Origin, NStringBytesOptional;
    ReadSectionCarries(a, b, m, i, t);
    var s := ReadSection(a, i, t);
    if s.Ok? && s.pos < m {
      OriginCarries(a, b, m, s.pos + 1, t);
      var o := Origin(a, s.pos + 1, t);
      if o.Ok? && o.pos < m {
        NStringBytesOptionalCarries(a, b, m, o.pos + 1, t);
      }
    }
  }

  lemma SpQuotedCarries(a: bytes, b: bytes, m: nat, i: nat, t: nat)
    requires Agree(a, b, m) && i < m
    ensures Carries(SpQuoted(a, i, t), SpQuoted(b, i, t), m, |a|)
  {
    hide Quoted;
    QuotedCarries(a, b, m, i + 1, t);
  }

  lemma SpNStringBytesCarries(a: bytes, b: bytes, m: nat, i: nat, t: nat)
    requires Agree(a, b, m) && i < m
    ensures CarriesCut(SpNStringBytes(a, i, t), SpNStringBytes(b, i, t), m, |a|)
  {
    hide NStringBytes;
    NStringBytesCarries(a, b, m, i + 1, t);
  }

  lemma SpBalancedCarries(a: bytes, b: bytes, m: nat, i: nat, t: nat)
    requires Agree(a, b, m) && i < m
    ensures Carries(SpBalanced(a, i, t), SpBalanced(b, i, t), m, |a|)
  {
    hide Balanced;
    BalancedCarries(a, b, m, i + 1, t);
  }

  lemma BodyCarries(a: bytes, b: bytes, m: nat, i: nat, t: nat)
    requires Agree(a, b, m) && i < m
    ensures CarriesCut(AttValue(a, i, t, KBody), AttValue(b, i, t, KBody), m, |a|)
  {
    hide SpBalanced, BodySectionRest;
    SpBalancedCarries(a, b, m, i, t);
    BodySectionRestCarries(a, b, m, i + 1, t);
  }

  lemma AttValueCarries(a: bytes, b: bytes, m: nat, i: nat, t: nat, kind: AttKind)
    requires Agree(a, b, m) && i < m
    ensures CarriesCut(AttValue(a, i, t, kind), AttValue(b, i, t, kind), m, |a|)
  {
    hide SpNumber, SpAtomList, SpQuoted, SpNStringBytes, SpBalanced, BodySectionRest;
    match kind
    case KUid => SpNumberCarries(a, b, m, i, t);
    case KSize => SpNumberCarries(a, b, m, i, t);
    case KFlags => SpAtomListCarries(a, b, m, i, t);
    case KInternalDate => SpQuotedCarries(a, b, m, i, t);
    case KRfc822 => SpNStringBytesCarries(a, b, m, i, t);
    case KHeader => SpNStringBytesCarries(a, b, m, i, t);
    case KText => SpNStringBytesCarries(a, b, m, i, t);
    case KEnvelope => SpBalancedCarries(a, b, m, i, t);
    case KBodyStructure => SpBalancedCarries(a, b, m, i, t);
    case KBody => BodyCarries(a, b, m, i, t);
    case KUnknown =>
  }

  lemma OneFetchAttCarries(a: bytes, b: bytes, m: nat, i: nat, t: nat)
    requires Agree(a, b, m) && i <= m
    ensures CarriesCut(OneFetchAtt(a, i, t), OneFetchAtt(b, i, t), m, |a|)
  {
    ScanAgrees(a, b, m, i, AttNameChar);
    ScannedTextCarries(a, b, m, i, AttNameChar, t);
    var r := FetchAttName(a, i, t);
    if r.Ok? && r.pos < m {
      AttValueCarries(a, b, m, r.pos, t, AttKindOf(r.val));
    }
  }

  lemma FetchAttsRestAtEnd(a: bytes, t: nat, acc: seq<FetchAttribute>)
    ensures FetchAttsRest(a, |a|, t, acc) == Err(Incomplete)
  {
  }

  lemma {:induction false} FetchAttsRestCarries(a: bytes, b: bytes, m: nat, i: nat, t: nat, acc: seq<FetchAttribute>)
    requires Agree(a, b, m) && i <= m
    ensures Carries(FetchAttsRest(a, i, t, acc), FetchAttsRest(b, i, t, acc), m, |a|)
    ensures i == |a| ==> FetchAttsRest(a, i, t, acc) == Err(Incomplete)
    decreases m - i
  {
    hide OneFetchAtt, AttItems, AttsItems;
    FetchAttsRestAtEnd(a, t, acc);
    OneFetchAttCarries(a, b, m, i, t);
    var r := OneFetchAtt(a, i, t);
    if r.Ok? && r.pos < m && r.items > 0 && a[r.pos] == SP {
      FetchAttsRestCarries(a, b, m, r.pos + 1, r.items - 1, acc + [r.val]);
    }
  }

  lemma FetchMsgAttCarries(a: bytes, b: bytes, m: nat, i: nat, t: nat)
    requires Agree(a, b, m) && i <= m
    ensures Carries(FetchMsgAtt(a, i, t), FetchMsgAtt(b, i, t), m, |a|)
  {
    hide FetchAttsRest;
    if i < m && a[i] == LPAREN {
      FetchAttsRestCarries(a, b, m, i + 1, t, []);
    }
  }

  // ---------------------------------------------------------------------------
  // Data responses
  // ---------------------------------------------------------------------------

  lemma {:induction false} LineStartAgrees(a: bytes, b: bytes, m: nat, i: nat)
    requires Agree(a, b, m) && i <= m
    ensures LineStart(a, i) == LineStart(b, i)
  {
    if !(i == 0 || (i >= 2 && a[i - 2] == CR && a[i - 1] == LF)) {
      LineStartAgrees(a, b, m, i - 1);
    }
  }

  lemma RawLineCarries(a: bytes, b: bytes, m: nat, s: nat, i: nat, t: nat)
    requires Agree(a, b, m) && s <= i <= m
    ensures Whole(RawLine(a, s, i, t), RawLine(b, s, i, t), m, |a|)
  {
    ScanAgrees(a, b, m, i, LineChar);
    var j := Scan(a, i, LineChar);
    if j < m {
      SliceAgrees(a, b, m, s, j);
    }
  }

  lemma NumericBodyCarries(a: bytes, b: bytes, m: nat, i: nat, t: nat, n: nat, kind: NumericKind)
    requires Agree(a, b, m) && i < m && kind != KOtherNumeric
    ensures Carries(NumericBody(a, i, t, n, kind), NumericBody(b, i, t, n, kind), m, |a|)
  {
    FetchMsgAttCarries(a, b, m, i + 1, t);
  }

  lemma NumericDataCarries(a: bytes, b: bytes, m: nat, i: nat, t: nat)
    requires Agree(a, b, m) && i <= m
    ensures Whole(NumericData(a, i, t), NumericData(b, i, t), m, |a|)
  {
    hide Number, Atom, RawLine, NumericBody, NumericKindOf, LineStart;
    NumberCarries(a, b, m, i, t);
    var n := Number(a, i, t);
    if n.Ok? && n.pos < m && a[n.pos] == SP {
      AtomCarries(a, b, m, n.pos + 1, t);
      var x := Atom(a, n.pos + 1, t);
      if x.Ok? && x.pos < m {
        var kind := NumericKindOf(x.val);
        if kind == KOtherNumeric {
          LineStartAgrees(a, b, m, x.pos);
          RawLineCarries(a, b, m, LineStart(a, x.pos), x.pos, t);
        } else {
          NumericBodyCarries(a, b, m, x.pos, t, n.val, kind);
        }
      }
    }
  }

  lemma ListBodyCarries(a: bytes, b: bytes, m: nat, i: nat, t: nat)
    requires Agree(a, b, m) && i <= m
    ensures Carries(ListBody(a, i, t), ListBody(b, i, t), m, |a|)
  {
    hide SpAtomList, NString, AString;
    SpAtomListCarries(a, b, m, i, t);
    var l := SpAtomList(a, i, t);
    if l.Ok? && l.pos < m {
      NStringCarries(a, b, m, l.pos + 1, l.items);
      var d := NString(a, l.pos + 1, l.items);
      if d.Ok? && d.pos < m {
        AStringCarries(a, b, m, d.pos + 1, l.items);
      }
    }
  }

  lemma OneStatusItemCarries(a: bytes, b: bytes, m: nat, i: nat, t: nat)
    requires Agree(a, b, m) && i <= m
    ensures CarriesCut(OneStatusItem(a, i, t), OneStatusItem(b, i, t), m, |a|)
  {
    AtomCarries(a, b, m, i, t);
    var r := Atom(a, i, t);
    if r.Ok? && r.pos <= m {
      SpNumberCarries(a, b, m, r.pos, t);
    }
  }

  lemma StatusItemsRestAtEnd(a: bytes, t: nat, acc: seq<StatusItem>)
    ensures StatusItemsRest(a, |a|, t, acc) == Err(Incomplete)
  {
  }

  lemma {:induction false} StatusItemsRestCarries(a: bytes, b: bytes, m: nat, i: nat, t: nat, acc: seq<StatusItem>)
    requires Agree(a, b, m) && i <= m
    ensures Carries(StatusItemsRest(a, i, t, acc), StatusItemsRest(b, i, t, acc), m, |a|)
    ensures i == |a| ==> StatusItemsRest(a, i, t, acc) == Err(Incomplete)
    decreases m - i
  {
    hide OneStatusItem;
    StatusItemsRestAtEnd(a, t, acc);
    OneStatusItemCarries(a, b, m, i, t);
    var r := OneStatusItem(a, i, t);
    if r.Ok? && r.pos < m && t > 0 && a[r.pos] == SP {
      StatusItemsRestCarries(a, b, m, r.pos + 1, t - 1, acc + [r.val]);
    }
  }

  lemma StatusItemsCarries(a: bytes, b: bytes, m: nat, i: nat, t: nat)
    requires Agree(a, b, m) && i <= m
    ensures Carries(StatusItems(a, i, t), StatusItems(b, i, t), m, |a|)
  {
    hide StatusItemsRest;
    if i < m && a[i] == LPAREN {
      StatusItemsRestCarries(a, b, m, i + 1, t, []);
    }
  }

  lemma NamedBodyCarries(a: bytes, b: bytes, m: nat, i: nat, t: nat, kind: NamedKind)
    requires Agree(a, b, m) && i < m && kind != KOtherNamed
    ensures CarriesInside(NamedBody(a, i, t, kind), NamedBody(b, i, t, kind), m, |a|)
  {
    hide CapsRest, SearchRest, ListBody, SpAtomList, AString, StatusItems;
    match kind
    case KCapability => CapsRestCarries(a, b, m, i, t, []);
    case KSearch => SearchRestCarries(a, b, m, i, t, []);
    case KList => ListBodyCarries(a, b, m, i, t);
    case KLsub => ListBodyCarries(a, b, m, i, t);
    case KFlagsData => SpAtomListCarries(a, b, m, i, t);
    case KStatus =>
      AStringCarries(a, b, m, i + 1, t);
      var x := AString(a, i + 1, t);
      if x.Ok? && x.pos < m {
        StatusItemsCarries(a, b, m, x.pos + 1, t);
      }
  }

  lemma NamedDataCarries(a: bytes, b: bytes, m: nat, i: nat, t: nat)
    requires Agree(a, b, m) && i <= m
    ensures Whole(NamedData(a, i, t), NamedData(b, i, t), m, |a|)
  {
    hide Atom, RawLine, NamedBody, NamedKindOf;
    AtomCarries(a, b, m, i, t);
    var x := Atom(a, i, t);
    if x.Ok? && x.pos < m {
      var kind := NamedKindOf(x.val);
      if kind == KOtherNamed {
        RawLineCarries(a, b, m, i, x.pos, t);
      } else {
        NamedBodyCarries(a, b, m, x.pos, t, kind);
      }
    }
  }

  // ---------------------------------------------------------------------------
  // Whole responses
  // ---------------------------------------------------------------------------

  /** A named data response reads at least up to the end of its name. */
  lemma NamedDataReadsName(a: bytes, i: nat, t: nat)
    requires i < |a|
    ensures Scan(a, i, AtomChar) == |a| ==> NamedData(a, i, t) == Err(Incomplete)
    ensures NamedData(a, i, t).Ok? ==> Scan(a, i, AtomChar) < NamedData(a, i, t).pos
  {
    hide NamedBody;
  }

  lemma UntaggedCarries(a: bytes, b: bytes, m: nat, i: nat, t: nat)
    requires Agree(a, b, m) && i <= m
    ensures Whole(Untagged(a, i, t), Untagged(b, i, t), m, |a|)
  {
    hide StatusKeyword, StatusRest, NumericData, NamedData;
    if i + 2 <= m && a[i] == STAR && a[i + 1] == SP {
      var i2 := i + 2;
      match StatusKeyword(a, i2)
      case Some(kw) =>
        var e := i2 + kw.1;
        if e <= m {
          StatusRestCarries(a, b, m, e, t, None, kw.0);
          if e < m {
            StatusKeywordBounded(a, i2);
            StatusKeywordSettled(a, b, m, i2, e);
          }
        }
      case None =>
        if i2 < m {
          if IsDigit(a[i2]) {
            StatusKeywordSettled(a, b, m, i2, i2);
            NumericDataCarries(a, b, m, i2, t);
          } else {
            var j := Scan(a, i2, AtomChar);
            NamedDataReadsName(a, i2, t);
            if j < m {
              StatusKeywordSettled(a, b, m, i2, j);
              NamedDataCarries(a, b, m, i2, t);
            }
          }
        }
    }
  }

  lemma ParseResponseCarries(a: bytes, b: bytes, m: nat)
    requires Agree(a, b, m)
    ensures Whole(ParseResponse(a), ParseResponse(b), m, |a|)
  {
    hide ContinueReq, Untagged, Tagged;
    if 0 < m {
      ContinueReqCarries(a, b, m, 0, MAX_ITEMS_PER_RESPONSE);
      UntaggedCarries(a, b, m, 0, MAX_ITEMS_PER_RESPONSE);
      TaggedCarries(a, b, m, 0, MAX_ITEMS_PER_RESPONSE);
    }
  }

  /** A response, once complete, is the answer for every extension of the input; and an input with
      a hard error has one however it is extended. */
  lemma VerdictStable(p: bytes, s: bytes)
    ensures ParseResponse(p).Ok? ==> ParseResponse(p + s) == ParseResponse(p)
    ensures ParseResponse(p).Hard() ==> ParseResponse(p + s).Hard()
  {
    hide ParseResponse;
    ParseResponseCarries(p, p + s, |p|);
  }

  /** Every strict prefix of the bytes a response consumed is `Incomplete`. */
  lemma PrefixSound(a: bytes, k: nat)
    requires ParseResponse(a).Ok? && k < ParseResponse(a).pos
    ensures ParseResponse(a[..k]) == Err(Incomplete)
  {
    hide ParseResponse;
    VerdictStable(a[..k], a[k..]);
    assert a[..k] + a[k..] == a;
  }

  /** The bytes a response consumed parse, alone or before anything else, to that response. */
  lemma FrameStandsAlone(a: bytes, s: bytes)
    requires ParseResponse(a).Ok?
    ensures ParseResponse(a[..ParseResponse(a).pos] + s) == ParseResponse(a)
  {
    hide ParseResponse;
    var k := ParseResponse(a).pos;
    ParseResponseCarries(a, a[..k] + s, k);
  }
}
