/** Responses the parser does not know: which bytes it hands on. */
module RawLines {
  import opened Bytes
  import opened Ast
  import opened Grammar
  import Forms

  predicate NoLineFeed(a: bytes, i: nat, j: nat) {
    i <= j <= |a| && forall k :: i <= k < j ==> a[k] != LF
  }

  /** Walking back over a prefix without a line feed ends at the input's start. */
  lemma {:induction false} LineStartIsZero(a: bytes, i: nat)
    requires NoLineFeed(a, 0, i)
    ensures LineStart(a, i) == 0
  {
    if i > 0 {
      assert a[i - 1] != LF;
      LineStartIsZero(a, i - 1);
    }
  }

  lemma RawLineIs(a: bytes, s: nat, i: nat, t: nat)
    requires s <= i <= |a| && RawLine(a, s, i, t).Ok?
    ensures var r := RawLine(a, s, i, t);
            r.val == Data(OtherData(a[s..r.pos - 2]))
  {
  }

  lemma NumericPrefix(a: bytes, i: nat, t: nat)
    requires i <= |a| && NoLineFeed(a, 0, i)
    requires Number(a, i, t).Ok?
    ensures var j := Number(a, i, t).pos;
            && NoLineFeed(a, 0, j)
            && (j < |a| && a[j] == SP && Atom(a, j + 1, t).Ok? ==> NoLineFeed(a, 0, Atom(a, j + 1, t).pos))
  {
    hide Decimal, Utf8;
    var j := Number(a, i, t).pos;
    assert forall k :: i <= k < j ==> InClass(Digit, a[k]);
    if j < |a| && a[j] == SP && Atom(a, j + 1, t).Ok? {
      assert forall k :: j + 1 <= k < Atom(a, j + 1, t).pos ==> InClass(AtomChar, a[k]);
    }
  }

  lemma NumericOther(a: bytes, i: nat, t: nat)
    requires i <= |a| && NoLineFeed(a, 0, i)
    requires NumericData(a, i, t).Ok? && NumericData(a, i, t).val.data.OtherData?
    ensures var r := NumericData(a, i, t); r.val == Data(OtherData(a[..r.pos - 2]))
  {
    hide Number, Atom, RawLine, NumericKindOf, LineStart, FetchMsgAtt;
    NumericPrefix(a, i, t);
    var x := Atom(a, Number(a, i, t).pos + 1, t);
    var kind := NumericKindOf(x.val);
    if kind == KOtherNumeric {
      LineStartIsZero(a, x.pos);
      RawLineIs(a, 0, x.pos, t);
    }
  }

  lemma NamedOther(a: bytes, i: nat, t: nat)
    requires i <= |a|
    requires NamedData(a, i, t).Ok? && NamedData(a, i, t).val.data.OtherData?
    ensures var r := NamedData(a, i, t); r.val == Data(OtherData(a[i..r.pos - 2]))
  {
    hide Atom, RawLine, NamedKindOf, ListBody, CapsRest, SearchRest, SpAtomList, AString, StatusItems;
    var x := Atom(a, i, t);
    if NamedKindOf(x.val) == KOtherNamed {
      RawLineIs(a, i, x.pos, t);
    }
  }

  lemma DataIsData(a: bytes, i: nat, t: nat)
    requires i <= |a|
    ensures NumericData(a, i, t).Ok? ==> NumericData(a, i, t).val.Data?
    ensures NamedData(a, i, t).Ok? ==> NamedData(a, i, t).val.Data?
  {
    hide Number, Atom, NumericKindOf, NamedKindOf, NumericBody, NamedBody, LineStart;
  }

  /** An unknown response is handed on byte for byte without its CRLF, with its `* ` when it starts
      with a number and without it when it starts with a name. */
  lemma OtherLine(a: bytes)
    requires ParseResponse(a).Ok? && ParseResponse(a).val.Data? && ParseResponse(a).val.data.OtherData?
    ensures |a| > 2 && a[0] == STAR && a[1] == SP
    ensures var r := ParseResponse(a);
            r.val.data.line == a[if IsDigit(a[2]) then 0 else 2..r.pos - 2]
  {
    hide NumericData, NamedData, RespText, StatusKeyword, Tag;
    if |a| > 2 && a[0] == STAR {
      var numeric, named := NumericData(a, 2, MAX_ITEMS_PER_RESPONSE), NamedData(a, 2, MAX_ITEMS_PER_RESPONSE);
      DataIsData(a, 2, MAX_ITEMS_PER_RESPONSE);
      if IsDigit(a[2]) && numeric.Ok? && numeric.val.data.OtherData? {
        NumericOther(a, 2, MAX_ITEMS_PER_RESPONSE);
      } else if !IsDigit(a[2]) && named.Ok? && named.val.data.OtherData? {
        NamedOther(a, 2, MAX_ITEMS_PER_RESPONSE);
      }
    }
  }

  const XFOO: bytes := [88, 70, 79, 79]

  /** `* XFOO` and CRLF is handed on as `XFOO`, not as the line it is. */
  lemma NamedLineLosesStar()
    ensures ParseResponse([STAR, SP] + XFOO + CRLF) == Ok(Data(OtherData(XFOO)), 8, MAX_ITEMS_PER_RESPONSE)
  {
    hide StatusKeyword, Atom, Utf8;
    var a := [STAR, SP] + XFOO + CRLF;
    assert a == [42, 32, 88, 70, 79, 79, 13, 10];
    Forms.NoStatusKeyword(a, 2);
    UnknownNameAt(a, 2, MAX_ITEMS_PER_RESPONSE);
    ScanStopsAt(a, 6, LineChar, 6);
  }

  lemma UnknownNameAt(a: bytes, i: nat, t: nat)
    requires i + 4 < |a| && a[i..i + 4] == XFOO && a[i + 4] == CR
    ensures Atom(a, i, t) == Ok(XFOO, i + 4, t) && NamedKindOf(XFOO) == KOtherNamed
  {
    hide Atom;
    AsciiIsUtf8(XFOO);
    Forms.AtomAt(a, i, t, XFOO);
    assert Lower(XFOO[0]) != Lower(LIST[0]);
  }
}
