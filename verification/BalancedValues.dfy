/** The parenthesised values the parser captures whole (ENVELOPE, BODY, BODYSTRUCTURE): what it
    accepts is exactly the set of nested values of section 9 of RFC 9051. */
module BalancedValues {
  import opened Bytes
  import opened Grammar
  import Ast
  import Commands
  import Wire

  /** What stands between a pair of parentheses, item by item. */
  datatype Items =
    | Done
    | Plain(b: byte, rest: Items)
    | QuotedItem(text: bytes, rest: Items)
    | LiteralItem(length: bytes, data: bytes, rest: Items)
    | Group(inner: Items, rest: Items)

  function LiteralForm(length: bytes, data: bytes): bytes {
    [LBRACE] + length + [RBRACE] + CRLF + data
  }

  function Render(x: Items): bytes {
    match x
    case Done => []
    case Plain(b, rest) => [b] + Render(rest)
    case QuotedItem(text, rest) => Wire.QuotedForm(text) + Render(rest)
    case LiteralItem(length, data, rest) => LiteralForm(length, data) + Render(rest)
    case Group(inner, rest) => [LPAREN] + Render(inner) + [RPAREN] + Render(rest)
  }

  function RenderGroup(inner: Items): bytes {
    [LPAREN] + Render(inner) + [RPAREN]
  }

  predicate IsPlain(b: byte) {
    b != LPAREN && b != RPAREN && b != DQUOTE && b != LBRACE && b != CR && b != LF
  }

  predicate QuotedTextOk(text: bytes) {
    Utf8(text) && Commands.IsOneLine(text)
  }

  /** The announced length is that of the data, which may be any bytes. */
  predicate LiteralOk(length: bytes, data: bytes) {
    |length| > 0 && AllDigits(length) && Decimal(length) == |data| <= 67108864
  }

  predicate WellFormed(x: Items) {
    match x
    case Done => true
    case Plain(b, rest) => IsPlain(b) && WellFormed(rest)
    case QuotedItem(text, rest) => QuotedTextOk(text) && WellFormed(rest)
    case LiteralItem(length, data, rest) => LiteralOk(length, data) && WellFormed(rest)
    case Group(inner, rest) => WellFormed(inner) && WellFormed(rest)
  }

  function Nesting(x: Items): nat {
    match x
    case Done => 0
    case Plain(_, rest) => Nesting(rest)
    case QuotedItem(_, rest) => Nesting(rest)
    case LiteralItem(_, _, rest) => Nesting(rest)
    case Group(inner, rest) =>
      if 1 + Nesting(inner) > Nesting(rest) then 1 + Nesting(inner) else Nesting(rest)
  }

  /** A number is read whole and must fit 32 bits. */
  lemma NumberAt(a: bytes, i: nat, t: nat, d: bytes)
    requires At(a, i, d) && |d| > 0 && AllDigits(d)
    requires i + |d| < |a| ==> !IsDigit(a[i + |d|])
    ensures i <= |a|
    ensures Number(a, i, t)
            == if Decimal(d) <= 4294967295 then Ok(Decimal(d), i + |d|, t) else Err(Ast.InvalidNumber)
  {
    hide At, Decimal;
    ScanAt(a, i, Digit, d);
    AtSlice(a, i, d);
  }

  /** A literal is read by its length alone: its data may hold any bytes. */
  lemma LiteralAt(a: bytes, i: nat, t: nat, length: bytes, data: bytes)
    requires At(a, i, LiteralForm(length, data)) && LiteralOk(length, data)
    ensures Literal(a, i, t) == Ok(data, i + |LiteralForm(length, data)|, t)
  {
    hide At, Number, Decimal, AllDigits;
    var tail := [RBRACE] + ([CR] + ([LF] + data));
    assert LiteralForm(length, data) == [LBRACE] + (length + tail);
    AtByte(a, i, LBRACE, length + tail);
    AtConcat(a, i + 1, length, tail);
    var j := i + 1 + |length|;
    AtByte(a, j, RBRACE, [CR] + ([LF] + data));
    AtByte(a, j + 1, CR, [LF] + data);
    AtByte(a, j + 2, LF, data);
    AtSlice(a, j + 3, data);
    NumberAt(a, i + 1, t, length);
  }

  lemma LiteralHeader(a: bytes, i: nat, d: bytes)
    requires At(a, i, [LBRACE] + d + [RBRACE, CR, LF])
    ensures i + |d| + 4 <= |a| && a[i] == LBRACE && At(a, i + 1, d)
    ensures var j := i + 1 + |d|; a[j] == RBRACE && a[j + 1] == CR && a[j + 2] == LF
  {
    hide At;
    var line: bytes := [RBRACE, CR, LF];
    assert [LBRACE] + d + line == [LBRACE] + (d + line);
    AtByte(a, i, LBRACE, d + line);
    AtConcat(a, i + 1, d, line);
    AtSlice(a, i + 1 + |d|, line);
    AtIndex(a, i + 1 + |d|, line);
  }

  /** The announced length decides at once: above 64 MiB the literal is refused, whatever follows, and
      otherwise it is read as soon as that many bytes are there. */
  lemma AnnouncedLength(a: bytes, i: nat, t: nat, d: bytes)
    requires |d| > 0 && AllDigits(d) && Decimal(d) <= 4294967295 && At(a, i, [LBRACE] + d + [RBRACE, CR, LF])
    ensures i <= |a|
    ensures var n := Decimal(d);
            var j := i + 1 + |d| + 3;
            Literal(a, i, t) == if n > 67108864 then Err(Ast.LiteralTooLarge(n, 67108864))
                                else if |a| < j + n then Err(Ast.Incomplete)
                                else Ok(a[j..j + n], j + n, t)
  {
    hide At, Number, Decimal, AllDigits, Literal;
    LiteralHeader(a, i, d);
    NumberAt(a, i + 1, t, d);
    AfterHeader(a, i, t, i + 1 + |d|, Decimal(d));
  }

  lemma AfterHeader(a: bytes, i: nat, t: nat, j: nat, n: nat)
    requires i < j && j + 3 <= |a| && Consume(a, i, t, LBRACE) == Ok((), i + 1, t)
    requires Number(a, i + 1, t) == Ok(n, j, t)
    requires Consume(a, j, t, RBRACE) == Ok((), j + 1, t) && ConsumeCrlf(a, j + 1, t) == Ok((), j + 3, t)
    ensures Literal(a, i, t) == if n > 67108864 then Err(Ast.LiteralTooLarge(n, 67108864))
                                else if |a| < j + 3 + n then Err(Ast.Incomplete)
                                else Ok(a[j + 3..j + 3 + n], j + 3 + n, t)
  {
    hide Consume, ConsumeCrlf, Number;
  }

  lemma DigitsScanned(a: bytes, i: nat, t: nat)
    requires i <= |a| && Number(a, i, t).Ok?
    ensures var r := Number(a, i, t);
            AllDigits(a[i..r.pos]) && Decimal(a[i..r.pos]) == r.val
  {
  }

  lemma LiteralIsForm(a: bytes, i: nat, t: nat)
    requires i <= |a| && Literal(a, i, t).Ok?
    ensures exists length :: LiteralOk(length, Literal(a, i, t).val)
                             && a[i..Literal(a, i, t).pos] == LiteralForm(length, Literal(a, i, t).val)
  {
    hide Number, Decimal, AllDigits;
    var r := Literal(a, i, t);
    var j := Number(a, i + 1, t).pos;
    DigitsScanned(a, i + 1, t);
    var length := a[i + 1..j];
    assert LiteralOk(length, r.val);
    assert a[i..r.pos] == [a[i]] + length + [a[j]] + [a[j + 1], a[j + 2]] + a[j + 3..r.pos];
  }

  /** What the recursive functions say of an item and those after it. */
  lemma FirstParts(x: Items)
    requires WellFormed(x)
    ensures match x
            case Done => Render(x) == []
            case Plain(b, rest) =>
              Render(x) == [b] + Render(rest) && IsPlain(b) && WellFormed(rest) && Nesting(rest) == Nesting(x)
            case QuotedItem(text, rest) =>
              && Render(x) == Wire.QuotedForm(text) + Render(rest) && QuotedTextOk(text)
              && WellFormed(rest) && Nesting(rest) == Nesting(x)
            case LiteralItem(length, data, rest) =>
              && Render(x) == LiteralForm(length, data) + Render(rest) && LiteralOk(length, data)
              && WellFormed(rest) && Nesting(rest) == Nesting(x)
            case Group(inner, rest) =>
              && WellFormed(inner) && WellFormed(rest)
              && 1 + Nesting(inner) <= Nesting(x) && Nesting(rest) <= Nesting(x)
  {
  }

  lemma PlainAt(a: bytes, i: nat, t: nat, depth: nat, b: byte, rest: bytes)
    requires At(a, i, [b] + rest) && IsPlain(b) && depth > 0
    ensures At(a, i + 1, rest) && i < |a| && BalancedEnd(a, i, t, depth) == BalancedEnd(a, i + 1, t, depth)
  {
    hide At, BalancedEnd;
    AtByte(a, i, b, rest);
    Parens(a, i, t, depth);
  }

  lemma QuotedPartAt(a: bytes, i: nat, t: nat, depth: nat, text: bytes, rest: bytes)
    requires At(a, i, Wire.QuotedForm(text) + rest) && QuotedTextOk(text) && depth > 0
    ensures var j := i + |Wire.QuotedForm(text)|;
            At(a, j, rest) && j <= |a| && BalancedEnd(a, i, t, depth) == BalancedEnd(a, j, t, depth)
  {
    hide At, BalancedEnd, Quoted, QuotedTextOk, Wire.QuotedForm;
    AtConcat(a, i, Wire.QuotedForm(text), rest);
    QuotedItemAt(a, i, t, text);
    Strings(a, i, t, depth);
  }

  lemma LiteralPartAt(a: bytes, i: nat, t: nat, depth: nat, length: bytes, data: bytes, rest: bytes)
    requires At(a, i, LiteralForm(length, data) + rest) && LiteralOk(length, data) && depth > 0
    ensures var j := i + |LiteralForm(length, data)|;
            At(a, j, rest) && j <= |a| && BalancedEnd(a, i, t, depth) == BalancedEnd(a, j, t, depth)
  {
    hide At, BalancedEnd, Literal, LiteralOk, LiteralForm;
    AtConcat(a, i, LiteralForm(length, data), rest);
    LiteralItemAt(a, i, t, length, data);
    Strings(a, i, t, depth);
  }

  /** Whatever stands inside strings and literals, a run of well-formed items leaves the depth as
      it was. */
  lemma {:induction false} ItemsAt(a: bytes, i: nat, t: nat, depth: nat, x: Items)
    requires At(a, i, Render(x)) && WellFormed(x)
    requires depth > 0 && depth + Nesting(x) <= U32_MAX
    ensures i + |Render(x)| <= |a|
    ensures BalancedEnd(a, i, t, depth) == BalancedEnd(a, i + |Render(x)|, t, depth)
    decreases x
  {
    hide BalancedEnd, At, Render, WellFormed, Nesting, QuotedTextOk, LiteralOk, LiteralForm, Wire.QuotedForm, IsPlain;
    AtSlice(a, i, Render(x));
    FirstParts(x);
    match x {
      case Done =>
      case Plain(b, rest) =>
        PlainAt(a, i, t, depth, b, Render(rest));
        ItemsAt(a, i + 1, t, depth, rest);
      case QuotedItem(text, rest) =>
        QuotedPartAt(a, i, t, depth, text, Render(rest));
        ItemsAt(a, i + |Wire.QuotedForm(text)|, t, depth, rest);
      case LiteralItem(length, data, rest) =>
        LiteralPartAt(a, i, t, depth, length, data, Render(rest));
        ItemsAt(a, i + |LiteralForm(length, data)|, t, depth, rest);
      case Group(inner, rest) =>
        GroupParts(a, i, inner, rest);
        var j := i + 1 + |Render(inner)|;
        ItemsAt(a, i + 1, t, depth + 1, inner);
        ItemsAt(a, j + 1, t, depth, rest);
        Parens(a, i, t, depth);
        Parens(a, j, t, depth + 1);
    }
  }

  lemma GroupParts(a: bytes, i: nat, inner: Items, rest: Items)
    requires At(a, i, Render(Group(inner, rest)))
    ensures i < |a| && a[i] == LPAREN && At(a, i + 1, Render(inner))
    ensures var j := i + 1 + |Render(inner)|;
            j < |a| && a[j] == RPAREN && At(a, j + 1, Render(rest))
    ensures i + |Render(Group(inner, rest))| == i + 1 + |Render(inner)| + 1 + |Render(rest)|
  {
    hide At;
    var closed := [RPAREN] + Render(rest);
    assert Render(Group(inner, rest)) == [LPAREN] + (Render(inner) + closed);
    AtByte(a, i, LPAREN, Render(inner) + closed);
    AtConcat(a, i + 1, Render(inner), closed);
    AtByte(a, i + 1 + |Render(inner)|, RPAREN, Render(rest));
  }

  lemma Parens(a: bytes, i: nat, t: nat, depth: nat)
    requires i < |a| && 0 < depth
    ensures a[i] == LPAREN && depth < U32_MAX ==> BalancedEnd(a, i, t, depth) == BalancedEnd(a, i + 1, t, depth + 1)
    ensures a[i] == RPAREN ==> BalancedEnd(a, i, t, depth) == BalancedEnd(a, i + 1, t, depth - 1)
    ensures IsPlain(a[i]) ==> BalancedEnd(a, i, t, depth) == BalancedEnd(a, i + 1, t, depth)
  {
  }

  lemma Strings(a: bytes, i: nat, t: nat, depth: nat)
    requires i < |a| && 0 < depth
    ensures a[i] == DQUOTE && Quoted(a, i, t).Ok? ==>
              BalancedEnd(a, i, t, depth) == BalancedEnd(a, Quoted(a, i, t).pos, t, depth)
    ensures a[i] == LBRACE && Literal(a, i, t).Ok? ==>
              BalancedEnd(a, i, t, depth) == BalancedEnd(a, Literal(a, i, t).pos, t, depth)
  {
  }

  lemma QuotedItemAt(a: bytes, i: nat, t: nat, text: bytes)
    requires At(a, i, Wire.QuotedForm(text)) && QuotedTextOk(text)
    ensures i < |a| && a[i] == DQUOTE
    ensures var r := Quoted(a, i, t); r.Ok? && r.pos == i + |Wire.QuotedForm(text)|
  {
    Wire.QuotedFormAt(a, i, t, text);
  }

  lemma LiteralItemAt(a: bytes, i: nat, t: nat, length: bytes, data: bytes)
    requires At(a, i, LiteralForm(length, data)) && LiteralOk(length, data)
    ensures i < |a| && a[i] == LBRACE
    ensures var r := Literal(a, i, t); r.Ok? && r.pos == i + |LiteralForm(length, data)|
  {
    LiteralAt(a, i, t, length, data);
  }

  lemma GroupAt(a: bytes, i: nat, t: nat, x: Items)
    requires At(a, i, RenderGroup(x)) && WellFormed(x) && Nesting(x) < U32_MAX
    ensures Balanced(a, i, t) == Ok(RenderGroup(x), i + |RenderGroup(x)|, t)
  {
    hide At, BalancedEnd, Render;
    var body := Render(x) + [RPAREN];
    assert RenderGroup(x) == [LPAREN] + body;
    AtSlice(a, i, RenderGroup(x));
    AtByte(a, i, LPAREN, body);
    AtConcat(a, i + 1, Render(x), [RPAREN]);
    var j := i + 1 + |Render(x)|;
    AtFirst(a, j, [RPAREN]);
    ItemsAt(a, i + 1, t, 1, x);
    LastParen(a, j, t);
  }

  lemma LastParen(a: bytes, i: nat, t: nat)
    requires i < |a| && a[i] == RPAREN
    ensures BalancedEnd(a, i, t, 1) == Ok((), i + 1, t)
  {
  }

  // ---------------------------------------------------------------------------
  // Everything accepted is of that form
  // ---------------------------------------------------------------------------

  /** Items of every open group, the innermost first, each followed by its closing parenthesis. */
  function RenderOpen(open: seq<Items>): bytes {
    if |open| == 0 then [] else Render(open[0]) + [RPAREN] + RenderOpen(open[1..])
  }

  ghost predicate OpenOk(open: seq<Items>, depth: nat) {
    |open| == depth
    && (forall k :: 0 <= k < depth ==> WellFormed(open[k]) && depth - k + Nesting(open[k]) <= U32_MAX)
  }

  ghost predicate Explains(open: seq<Items>, a: bytes, i: nat, t: nat, depth: nat)
    requires i <= |a|
  {
    var r := BalancedEnd(a, i, t, depth);
    r.Ok? && OpenOk(open, depth) && a[i..r.pos] == RenderOpen(open)
  }

  /** One more item in the innermost group. */
  lemma PutFirst(a: bytes, i: nat, q: nat, t: nat, depth: nat, x: Items, open: seq<Items>)
    requires i <= q <= |a| && 0 < depth && |open| == depth && Explains(open, a, q, t, depth)
    requires BalancedEnd(a, i, t, depth) == BalancedEnd(a, q, t, depth)
    requires WellFormed(x) && depth + Nesting(x) <= U32_MAX
    requires Render(x) == a[i..q] + Render(open[0])
    ensures Explains([x] + open[1..], a, i, t, depth)
  {
    hide BalancedEnd, Render, WellFormed, Nesting;
    var e := BalancedEnd(a, q, t, depth).pos;
    assert a[i..e] == a[i..q] + a[q..e];
    assert ([x] + open[1..])[1..] == open[1..];
    forall k | 0 <= k < depth
      ensures WellFormed(([x] + open[1..])[k]) && depth - k + Nesting(([x] + open[1..])[k]) <= U32_MAX
    {
      if k > 0 {
        assert ([x] + open[1..])[k] == open[k];
      }
    }
  }

  lemma CloseGroup(a: bytes, i: nat, t: nat, depth: nat, open: seq<Items>)
    requires i < |a| && a[i] == RPAREN && 0 < depth <= U32_MAX && Explains(open, a, i + 1, t, depth - 1)
    requires BalancedEnd(a, i, t, depth) == BalancedEnd(a, i + 1, t, depth - 1)
    ensures Explains([Done] + open, a, i, t, depth)
  {
    hide BalancedEnd;
    var e := BalancedEnd(a, i, t, depth).pos;
    assert a[i..e] == [a[i]] + a[i + 1..e];
    assert ([Done] + open)[1..] == open;
    forall k | 0 <= k < depth
      ensures WellFormed(([Done] + open)[k]) && depth - k + Nesting(([Done] + open)[k]) <= U32_MAX
    {
      if k > 0 {
        assert ([Done] + open)[k] == open[k - 1];
      }
    }
  }

  lemma RenderOpenTwo(open: seq<Items>)
    requires |open| >= 2
    ensures [LPAREN] + RenderOpen(open) ==
            Render(Group(open[0], open[1])) + [RPAREN] + RenderOpen(open[2..])
  {
    hide Render;
    assert open[1..][1..] == open[2..];
    RenderGroupFirst(open[0], open[1]);
    Regroup([LPAREN], Render(open[0]), [RPAREN], Render(open[1]), RenderOpen(open[2..]));
  }

  lemma RenderGroupFirst(inner: Items, rest: Items)
    ensures Render(Group(inner, rest)) == [LPAREN] + Render(inner) + [RPAREN] + Render(rest)
  {
  }

  lemma Regroup(p: bytes, x: bytes, c: bytes, y: bytes, z: bytes)
    ensures p + (x + c + (y + c + z)) == p + x + c + y + c + z
  {
  }

  lemma OpenGroup(a: bytes, i: nat, t: nat, depth: nat, open: seq<Items>)
    requires i < |a| && a[i] == LPAREN && 0 < depth < U32_MAX
    requires |open| == depth + 1 && Explains(open, a, i + 1, t, depth + 1)
    requires BalancedEnd(a, i, t, depth) == BalancedEnd(a, i + 1, t, depth + 1)
    ensures Explains([Group(open[0], open[1])] + open[2..], a, i, t, depth)
  {
    hide BalancedEnd, Render;
    var e := BalancedEnd(a, i, t, depth).pos;
    var s := [Group(open[0], open[1])] + open[2..];
    assert a[i..e] == [a[i]] + a[i + 1..e];
    RenderOpenTwo(open);
    assert s[1..] == open[2..];
    assert RenderOpen(s) == [LPAREN] + RenderOpen(open);
    assert WellFormed(open[1]) && depth + Nesting(open[1]) <= U32_MAX;
    forall k | 0 <= k < depth ensures WellFormed(s[k]) && depth - k + Nesting(s[k]) <= U32_MAX {
      if k > 0 {
        assert s[k] == open[k + 1];
      }
    }
  }

  /** An accepted scan passed over well-formed items in every group it closed. */
  lemma {:induction false} ScanExplained(a: bytes, i: nat, t: nat, depth: nat) returns (open: seq<Items>)
    requires i <= |a| && depth <= U32_MAX && BalancedEnd(a, i, t, depth).Ok?
    ensures Explains(open, a, i, t, depth)
    decreases |a| - i
  {
    hide Quoted, Literal, Render, WellFormed, Nesting, Explains;
    if depth == 0 {
      open := [];
      NothingOpen(a, i, t);
    } else if a[i] == LPAREN {
      var s := ScanExplained(a, i + 1, t, depth + 1);
      ExplainsShape(s, a, i + 1, t, depth + 1);
      OpenGroup(a, i, t, depth, s);
      open := [Group(s[0], s[1])] + s[2..];
    } else if a[i] == RPAREN {
      var s := ScanExplained(a, i + 1, t, depth - 1);
      CloseGroup(a, i, t, depth, s);
      open := [Done] + s;
    } else {
      var q := if a[i] == DQUOTE then Quoted(a, i, t).pos else if a[i] == LBRACE then Literal(a, i, t).pos else i + 1;
      var s := ScanExplained(a, q, t, depth);
      ExplainsShape(s, a, q, t, depth);
      var x := FirstItem(a, i, t, s[0]);
      PutFirst(a, i, q, t, depth, x, s);
      open := [x] + s[1..];
    }
  }

  lemma NothingOpen(a: bytes, i: nat, t: nat)
    requires i <= |a|
    ensures Explains([], a, i, t, 0)
  {
  }

  lemma ExplainsShape(open: seq<Items>, a: bytes, i: nat, t: nat, depth: nat)
    requires i <= |a| && Explains(open, a, i, t, depth)
    ensures |open| == depth
    ensures depth > 0 ==> WellFormed(open[0]) && depth + Nesting(open[0]) <= U32_MAX
  {
  }

  lemma FirstItem(a: bytes, i: nat, t: nat, rest: Items) returns (x: Items)
    requires i < |a| && a[i] != LPAREN && a[i] != RPAREN && a[i] != CR && a[i] != LF
    requires a[i] == DQUOTE ==> Quoted(a, i, t).Ok?
    requires a[i] == LBRACE ==> Literal(a, i, t).Ok?
    requires WellFormed(rest)
    ensures WellFormed(x) && Nesting(x) == Nesting(rest)
    ensures var q := if a[i] == DQUOTE then Quoted(a, i, t).pos
                     else if a[i] == LBRACE then Literal(a, i, t).pos
                     else i + 1;
            i < q <= |a| && Render(x) == a[i..q] + Render(rest)
  {
    hide Quoted, Literal, LiteralForm, LiteralOk, Wire.QuotedForm, Wire.Unescape, Utf8, Commands.IsOneLine;
    if a[i] == DQUOTE {
      Wire.QuotedIsQuotedForm(a, i, t);
      x := QuotedItem(Wire.Unescape(Quoted(a, i, t).val), rest);
    } else if a[i] == LBRACE {
      LiteralIsForm(a, i, t);
      var data := Literal(a, i, t).val;
      var length :| LiteralOk(length, data) && a[i..Literal(a, i, t).pos] == LiteralForm(length, data);
      x := LiteralItem(length, data, rest);
    } else {
      x := Plain(a[i], rest);
    }
  }

  ghost predicate IsGroup(v: bytes) {
    exists x :: WellFormed(x) && Nesting(x) < 4294967295 && v == RenderGroup(x)
  }

  /** The parser captures `v`, whatever follows it, exactly when `v` is a parenthesised value with
      balanced parentheses outside its strings and literals. */
  lemma CapturesExactly(v: bytes, rest: bytes, t: nat)
    ensures Balanced(v + rest, 0, t) == Ok(v, |v|, t) <==> IsGroup(v)
  {
    hide Balanced, Render, WellFormed, Nesting;
    var a := v + rest;
    if IsGroup(v) {
      var x :| WellFormed(x) && Nesting(x) < U32_MAX && v == RenderGroup(x);
      assert At(a, 0, v);
      GroupAt(a, 0, t, x);
    }
    if Balanced(a, 0, t) == Ok(v, |v|, t) {
      CapturedIsGroup(a, 0, t);
      assert a[0..|v|] == v;
    }
  }

  lemma CapturedIsGroup(a: bytes, i: nat, t: nat)
    requires i <= |a| && Balanced(a, i, t).Ok?
    ensures IsGroup(Balanced(a, i, t).val)
  {
    hide BalancedEnd, Render, WellFormed, Nesting;
    var e := BalancedEnd(a, i + 1, t, 1).pos;
    var open := ScanExplained(a, i + 1, t, 1);
    assert RenderOpen(open[1..]) == [];
    assert a[i..e] == [a[i]] + a[i + 1..e];
    assert a[i..e] == RenderGroup(open[0]);
  }

  /** The depth counter is a 32-bit number, and overflows on no input shorter than 2^32 bytes. */
  lemma {:induction false} DepthNeverOverflows(a: bytes, i: nat, t: nat, depth: nat)
    requires i <= |a| && depth + (|a| - i) <= 4294967295
    ensures BalancedEnd(a, i, t, depth) != Err(Ast.Other("paren depth overflow"))
    decreases |a| - i
  {
    hide QuotedEnd, Number;
    if depth > 0 && i < |a| {
      if a[i] == LPAREN {
        DepthNeverOverflows(a, i + 1, t, depth + 1);
      } else if a[i] == RPAREN {
        DepthNeverOverflows(a, i + 1, t, depth - 1);
      } else if a[i] == DQUOTE {
        StringErrors(a, i, t);
        if Quoted(a, i, t).Ok? {
          DepthNeverOverflows(a, Quoted(a, i, t).pos, t, depth);
        }
      } else if a[i] == LBRACE {
        StringErrors(a, i, t);
        if Literal(a, i, t).Ok? {
          DepthNeverOverflows(a, Literal(a, i, t).pos, t, depth);
        }
      } else if a[i] != CR && a[i] != LF {
        DepthNeverOverflows(a, i + 1, t, depth);
      }
    }
  }

  lemma StringErrors(a: bytes, i: nat, t: nat)
    requires i <= |a|
    ensures Quoted(a, i, t) != Err(Ast.Other("paren depth overflow"))
    ensures Literal(a, i, t) != Err(Ast.Other("paren depth overflow"))
  {
    if i < |a| {
      QuotedEndErrors(a, i + 1, t);
    }
  }

  lemma {:induction false} QuotedEndErrors(a: bytes, i: nat, t: nat)
    requires i <= |a|
    ensures QuotedEnd(a, i, t).Err? ==> !QuotedEnd(a, i, t).err.Other?
    decreases |a| - i
  {
    if i < |a| && a[i] != DQUOTE {
      if a[i] != BACKSLASH {
        QuotedEndErrors(a, i + 1, t);
      } else if i + 1 < |a| {
        QuotedEndErrors(a, i + 2, t);
      }
    }
  }
}
