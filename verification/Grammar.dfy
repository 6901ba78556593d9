/** What each parser routine computes, as a function of the input, the cursor `i` and the item
    budget `t`. The imperative routines in `ResponseParser` are proved equal to these. */
module Grammar {
  import opened Bytes
  import opened Ast

  const MAX_LITERAL_SIZE: nat := 64 * 1024 * 1024
  const MAX_ITEMS_PER_RESPONSE: nat := 64 * 1024

  /** Outcome of a routine: a value with the new cursor and budget, or an error. */
  datatype Res<+T> = Ok(val: T, pos: nat, items: nat) | Err(err: ParseError) {
    predicate IsFailure() { Err? }
    function PropagateFailure<U>(): Res<U>
      requires Err?
    {
      Err(err)
    }
    function Extract(): (T, nat, nat)
      requires Ok?
    {
      (val, pos, items)
    }
    /** An error that more input cannot cure. */
    predicate Hard() { Err? && err != Incomplete }
  }

  /** `value` was read up to `e` and `cost` list elements were charged, if the budget allowed. */
  function Within<T>(cost: nat, t: nat, value: T, e: nat): Res<T> {
    if cost <= t then Ok(value, e, t - cost) else Err(TooManyItems(65536))
  }

  // Keywords, in ASCII.
  const PREAUTH: bytes := [80, 82, 69, 65, 85, 84, 72]
  const OK: bytes := [79, 75]
  const NO: bytes := [78, 79]
  const BAD: bytes := [66, 65, 68]
  const BYE: bytes := [66, 89, 69]
  const NIL: bytes := [78, 73, 76]
  const ALERT: bytes := [65, 76, 69, 82, 84]
  const PARSE: bytes := [80, 65, 82, 83, 69]
  const READ_ONLY: bytes := [82, 69, 65, 68, 45, 79, 78, 76, 89]
  const READ_WRITE: bytes := [82, 69, 65, 68, 45, 87, 82, 73, 84, 69]
  const TRYCREATE: bytes := [84, 82, 89, 67, 82, 69, 65, 84, 69]
  const UIDNEXT: bytes := [85, 73, 68, 78, 69, 88, 84]
  const UIDVALIDITY: bytes := [85, 73, 68, 86, 65, 76, 73, 68, 73, 84, 89]
  const UNSEEN: bytes := [85, 78, 83, 69, 69, 78]
  const CAPABILITY: bytes := [67, 65, 80, 65, 66, 73, 76, 73, 84, 89]
  const PERMANENTFLAGS: bytes := [80, 69, 82, 77, 65, 78, 69, 78, 84, 70, 76, 65, 71, 83]
  const BADCHARSET: bytes := [66, 65, 68, 67, 72, 65, 82, 83, 69, 84]
  const EXISTS: bytes := [69, 88, 73, 83, 84, 83]
  const RECENT: bytes := [82, 69, 67, 69, 78, 84]
  const EXPUNGE: bytes := [69, 88, 80, 85, 78, 71, 69]
  const FETCH: bytes := [70, 69, 84, 67, 72]
  const LIST: bytes := [76, 73, 83, 84]
  const LSUB: bytes := [76, 83, 85, 66]
  const STATUS: bytes := [83, 84, 65, 84, 85, 83]
  const SEARCH: bytes := [83, 69, 65, 82, 67, 72]
  const FLAGS: bytes := [70, 76, 65, 71, 83]
  const MESSAGES: bytes := [77, 69, 83, 83, 65, 71, 69, 83]
  const UID: bytes := [85, 73, 68]
  const INTERNALDATE: bytes := [73, 78, 84, 69, 82, 78, 65, 76, 68, 65, 84, 69]
  const RFC822_SIZE: bytes := [82, 70, 67, 56, 50, 50, 46, 83, 73, 90, 69]
  const RFC822: bytes := [82, 70, 67, 56, 50, 50]
  const RFC822_HEADER: bytes := [82, 70, 67, 56, 50, 50, 46, 72, 69, 65, 68, 69, 82]
  const RFC822_TEXT: bytes := [82, 70, 67, 56, 50, 50, 46, 84, 69, 88, 84]
  const ENVELOPE: bytes := [69, 78, 86, 69, 76, 79, 80, 69]
  const BODYSTRUCTURE: bytes := [66, 79, 68, 89, 83, 84, 82, 85, 67, 84, 85, 82, 69]
  const BODY: bytes := [66, 79, 68, 89]

  // ---------------------------------------------------------------------------
  // Cursor primitives
  // ---------------------------------------------------------------------------

  function Consume(a: bytes, i: nat, t: nat, b: byte): (r: Res<()>)
    requires i <= |a|
    ensures r.Ok? ==> r.pos == i + 1 <= |a| && r.items == t
  {
    if i == |a| then Err(Incomplete)
    else if a[i] == b then Ok((), i + 1, t)
    else Err(InvalidChar(i))
  }

  /** Whether an optional byte is present. At the end of the input it counts as absent. */
  predicate Next(a: bytes, i: nat, b: byte) {
    i < |a| && a[i] == b
  }

  function ConsumeCrlf(a: bytes, i: nat, t: nat): (r: Res<()>)
    requires i <= |a|
    ensures r.Ok? ==> r.pos == i + 2 <= |a| && r.items == t && a[i] == CR && a[i + 1] == LF
  {
    if i == |a| then Err(Incomplete)
    else if a[i] != CR then Err(Malformed("expected CR"))
    else if i + 1 == |a| then Err(Incomplete)
    else if a[i + 1] == LF then Ok((), i + 2, t)
    else Err(Malformed("expected LF after CR"))
  }

  /** Charge one list element. */
  function Charge(i: nat, t: nat): (r: Res<()>)
    ensures r.Ok? ==> r.pos == i && t == r.items + 1
  {
    if t == 0 then Err(TooManyItems(MAX_ITEMS_PER_RESPONSE)) else Ok((), i, t - 1)
  }

  /** A scan that reached the end of the input saw a cut token; only a finished one is checked. */
  function ScannedText(a: bytes, i: nat, j: nat, t: nat): (r: Res<bytes>)
    requires i <= j <= |a|
    ensures r.Ok? ==> r.pos == j < |a| && r.items == t && r.val == a[i..j] && Utf8(r.val)
  {
    if j == |a| then Err(Incomplete)
    else if !Utf8(a[i..j]) then Err(Other("Invalid UTF-8"))
    else Ok(a[i..j], j, t)
  }

  predicate IsBoundary(b: byte) {
    b == SP || b == CR || b == LF || b == RBRACKET || b == RPAREN
  }

  predicate KeywordAt(a: bytes, i: nat, kw: bytes) {
    MatchesCi(a, i, kw) && (i + |kw| == |a| || IsBoundary(a[i + |kw|]))
  }

  /** `a[i..]` is cut short of `kw` but agrees with it so far. */
  predicate CutKeyword(a: bytes, i: nat, kw: bytes)
    requires i <= |a|
  {
    |a| - i < |kw| && forall k :: 0 <= k < |a| - i ==> Lower(a[i + k]) == Lower(kw[k])
  }

  function ExpectNil(a: bytes, i: nat, t: nat): (r: Res<()>)
    requires i <= |a|
    ensures r.Ok? ==> r.pos == i + 3 <= |a| && r.items == t
  {
    if KeywordAt(a, i, NIL) then Ok((), i + |NIL|, t)
    else if CutKeyword(a, i, NIL) then Err(Incomplete)
    else Err(Malformed("expected nstring"))
  }

  function Number(a: bytes, i: nat, t: nat): (r: Res<nat>)
    requires i <= |a|
    ensures r.Ok? ==> i < r.pos <= |a| && r.items == t && r.val <= U32_MAX
  {
    var j := Scan(a, i, Digit);
    if i == j then
      if i == |a| then Err(Incomplete) else Err(InvalidNumber)
    else
      var n := Decimal(a[i..j]);
      if n <= U32_MAX then Ok(n, j, t) else Err(InvalidNumber)
  }

  function Atom(a: bytes, i: nat, t: nat): (r: Res<bytes>)
    requires i <= |a|
    ensures r.Ok? ==> i < r.pos < |a| && r.items == t
  {
    var j := Scan(a, i, AtomChar);
    if i == j then
      if i == |a| then Err(Incomplete) else Err(Malformed("expected atom"))
    else ScannedText(a, i, j, t)
  }

  function Tag(a: bytes, i: nat, t: nat): (r: Res<bytes>)
    requires i <= |a|
    ensures r.Ok? ==> i < r.pos < |a| && r.items == t
  {
    var j := Scan(a, i, TagChar);
    if i == j then
      if i == |a| then Err(Incomplete) else Err(Malformed("expected tag"))
    else ScannedText(a, i, j, t)
  }

  // ---------------------------------------------------------------------------
  // Strings
  // ---------------------------------------------------------------------------

  /** Offset of the quote that closes a quoted string whose content starts at `i`. */
  function QuotedEnd(a: bytes, i: nat, t: nat): (r: Res<()>)
    requires i <= |a|
    ensures r.Ok? ==> i <= r.pos < |a| && r.items == t && a[r.pos] == DQUOTE
    decreases |a| - i
  {
    if i == |a| then Err(Incomplete)
    else if a[i] == DQUOTE then Ok((), i, t)
    else if a[i] == BACKSLASH then
      if i + 1 == |a| then Err(Incomplete)
      else if a[i + 1] == DQUOTE || a[i + 1] == BACKSLASH then QuotedEnd(a, i + 2, t)
      else Err(Malformed("invalid escape in quoted string"))
    else if a[i] == CR || a[i] == LF then Err(Malformed("CR/LF inside quoted string"))
    else if a[i] == NUL then Err(Malformed("NUL inside quoted string"))
    else QuotedEnd(a, i + 1, t)
  }

  function Quoted(a: bytes, i: nat, t: nat): (r: Res<bytes>)
    requires i <= |a|
    ensures r.Ok? ==> i + 2 <= r.pos <= |a| && r.items == t && r.val == a[i + 1..r.pos - 1]
  {
    var (_, s, _) :- Consume(a, i, t, DQUOTE);
    var (_, e, _) :- QuotedEnd(a, s, t);
    if Utf8(a[s..e]) then Ok(a[s..e], e + 1, t) else Err(Other("Invalid UTF-8"))
  }

  function Literal(a: bytes, i: nat, t: nat): (r: Res<bytes>)
    requires i <= |a|
    ensures r.Ok? ==> i < r.pos <= |a| && r.items == t
  {
    var (_, i1, _) :- Consume(a, i, t, LBRACE);
    var (n, i2, _) :- Number(a, i1, t);
    var (_, i3, _) :- Consume(a, i2, t, RBRACE);
    var (_, i4, _) :- ConsumeCrlf(a, i3, t);
    if n > MAX_LITERAL_SIZE then Err(LiteralTooLarge(n, MAX_LITERAL_SIZE))
    else if i4 + n > |a| then Err(Incomplete)
    else Ok(a[i4..i4 + n], i4 + n, t)
  }

  function LiteralText(a: bytes, i: nat, t: nat): (r: Res<bytes>)
    requires i <= |a|
    ensures r.Ok? ==> i < r.pos <= |a| && r.items == t
  {
    var (v, q, _) :- Literal(a, i, t);
    if Utf8(v) then Ok(v, q, t) else Err(Other("Invalid UTF-8"))
  }

  function AString(a: bytes, i: nat, t: nat): (r: Res<bytes>)
    requires i <= |a|
    ensures r.Ok? ==> i < r.pos <= |a| && r.items == t
  {
    if i == |a| then Err(Incomplete)
    else if a[i] == DQUOTE then Quoted(a, i, t)
    else if a[i] == LBRACE then LiteralText(a, i, t)
    else Atom(a, i, t)
  }

  function NString(a: bytes, i: nat, t: nat): (r: Res<Option<bytes>>)
    requires i <= |a|
    ensures r.Ok? ==> i < r.pos <= |a| && r.items == t
  {
    if i == |a| then Err(Incomplete)
    else if a[i] == DQUOTE then
      var (v, q, _) :- Quoted(a, i, t); Ok(Some(v), q, t)
    else if a[i] == LBRACE then
      var (v, q, _) :- LiteralText(a, i, t); Ok(Some(v), q, t)
    else
      var (_, q, _) :- ExpectNil(a, i, t); Ok(None, q, t)
  }

  /** nstring as bytes, with `None` for NIL. */
  function NStringBytesOptional(a: bytes, i: nat, t: nat): (r: Res<Option<bytes>>)
    requires i <= |a|
    ensures r.Ok? ==> i < r.pos <= |a| && r.items == t
  {
    if i == |a| then Err(Incomplete)
    else if a[i] == DQUOTE then
      var (v, q, _) :- Quoted(a, i, t); Ok(Some(v), q, t)
    else if a[i] == LBRACE then
      var (v, q, _) :- Literal(a, i, t); Ok(Some(v), q, t)
    else
      var (_, q, _) :- ExpectNil(a, i, t); Ok(None, q, t)
  }

  /** nstring as bytes, with an empty slice for NIL. */
  function NStringBytes(a: bytes, i: nat, t: nat): (r: Res<bytes>)
    requires i <= |a|
    ensures r.Ok? ==> i < r.pos <= |a| && r.items == t
  {
    var (v, q, _) :- NStringBytesOptional(a, i, t);
    Ok(match v case Some(d) => d case None => [], q, t)
  }

  // ---------------------------------------------------------------------------
  // Lists and nested values
  // ---------------------------------------------------------------------------

  function FlagOrAtom(a: bytes, i: nat, t: nat): (r: Res<bytes>)
    requires i <= |a|
    ensures r.Ok? ==> i < r.pos <= |a| && r.items == t
  {
    if i == |a| then Err(Incomplete)
    else if a[i] == BACKSLASH && Next(a, i + 1, STAR) then
      if Utf8(a[i..i + 2]) then Ok(a[i..i + 2], i + 2, t) else Err(Other("Invalid UTF-8"))
    else
      var j := Scan(a, if a[i] == BACKSLASH then i + 1 else i, AtomChar);
      if i == j then Err(Malformed("expected flag/atom")) else ScannedText(a, i, j, t)
  }

  /** The rest of a list of flags or atoms whose opening parenthesis and elements `acc` were read. */
  function AtomListRest(a: bytes, i: nat, t: nat, acc: seq<bytes>): (r: Res<seq<bytes>>)
    requires i <= |a|
    ensures r.Ok? ==> i < r.pos <= |a| && r.items + |r.val| == t + |acc|
    decreases |a| - i
  {
    var (item, q, _) :- FlagOrAtom(a, i, t);
    var (_, _, t') :- Charge(q, t);
    if q == |a| then Err(Incomplete)
    else if a[q] == SP then AtomListRest(a, q + 1, t', acc + [item])
    else if a[q] == RPAREN then Ok(acc + [item], q + 1, t')
    else Err(Malformed("expected SP or ) in list"))
  }

  function AtomList(a: bytes, i: nat, t: nat): (r: Res<seq<bytes>>)
    requires i <= |a|
    ensures r.Ok? ==> i < r.pos <= |a| && r.items + |r.val| == t
  {
    var (_, q, _) :- Consume(a, i, t, LPAREN);
    if Next(a, q, RPAREN) then Ok([], q + 1, t) else AtomListRest(a, q, t, [])
  }

  /** End of a parenthesised value, given the cursor and the depth reached. */
  function BalancedEnd(a: bytes, i: nat, t: nat, depth: nat): (r: Res<()>)
    requires i <= |a|
    ensures r.Ok? ==> i <= r.pos <= |a| && r.items == t && (depth > 0 ==> i < r.pos)
    decreases |a| - i
  {
    if depth == 0 then Ok((), i, t)
    else if i == |a| then Err(Incomplete)
    else if a[i] == LPAREN then
      if depth == U32_MAX then Err(Other("paren depth overflow")) else BalancedEnd(a, i + 1, t, depth + 1)
    else if a[i] == RPAREN then BalancedEnd(a, i + 1, t, depth - 1)
    else if a[i] == DQUOTE then
      var (_, q, _) :- Quoted(a, i, t); BalancedEnd(a, q, t, depth)
    else if a[i] == LBRACE then
      var (_, q, _) :- Literal(a, i, t); BalancedEnd(a, q, t, depth)
    else if a[i] == CR || a[i] == LF then Err(Malformed("CR/LF inside parenthesised value"))
    else BalancedEnd(a, i + 1, t, depth)
  }

  function Balanced(a: bytes, i: nat, t: nat): (r: Res<bytes>)
    requires i <= |a|
    ensures r.Ok? ==> i < r.pos <= |a| && r.items == t && r.val == a[i..r.pos]
  {
    var (_, s, _) :- Consume(a, i, t, LPAREN);
    var (_, e, _) :- BalancedEnd(a, s, t, 1);
    Ok(a[i..e], e, t)
  }

  function Text(a: bytes, i: nat, t: nat): (r: Res<bytes>)
    requires i <= |a|
    ensures r.Ok? ==> i <= r.pos < |a| && r.items == t
  {
    ScannedText(a, i, Scan(a, i, TextChar), t)
  }

  // ---------------------------------------------------------------------------
  // Status responses
  // ---------------------------------------------------------------------------

  /** The status keyword at `i`, with its length. */
  function StatusKeyword(a: bytes, i: nat): (r: Option<(Status, nat)>)
    ensures r.Some? ==> i + r.value.1 <= |a| && 0 < r.value.1
  {
    if KeywordAt(a, i, PREAUTH) then Some((StPreAuth, |PREAUTH|))
    else if KeywordAt(a, i, OK) then Some((StOk, |OK|))
    else if KeywordAt(a, i, NO) then Some((StNo, |NO|))
    else if KeywordAt(a, i, BAD) then Some((StBad, |BAD|))
    else if KeywordAt(a, i, BYE) then Some((StBye, |BYE|))
    else None
  }

  /** A buffer that ends inside what may still become a status keyword. */
  predicate CutStatusKeyword(a: bytes, i: nat)
    requires i <= |a|
  {
    || CutKeyword(a, i, OK)
    || CutKeyword(a, i, NO)
    || CutKeyword(a, i, BAD)
    || CutKeyword(a, i, BYE)
    || CutKeyword(a, i, PREAUTH)
  }

  datatype CodeKind =
    | KAlert | KParse | KReadOnly | KReadWrite | KTryCreate
    | KUidNext | KUidValidity | KUnseen
    | KCodeCapability | KPermanentFlags | KBadCharset | KOtherCode

  function CodeKindOf(atom: bytes): CodeKind {
    if EqCi(atom, ALERT) then KAlert
    else if EqCi(atom, PARSE) then KParse
    else if EqCi(atom, READ_ONLY) then KReadOnly
    else if EqCi(atom, READ_WRITE) then KReadWrite
    else if EqCi(atom, TRYCREATE) then KTryCreate
    else if EqCi(atom, UIDNEXT) then KUidNext
    else if EqCi(atom, UIDVALIDITY) then KUidValidity
    else if EqCi(atom, UNSEEN) then KUnseen
    else if EqCi(atom, CAPABILITY) then KCodeCapability
    else if EqCi(atom, PERMANENTFLAGS) then KPermanentFlags
    else if EqCi(atom, BADCHARSET) then KBadCharset
    else KOtherCode
  }

  /** ` atom atom ...`: capability names up to the first byte that is not SP. */
  function CapsRest(a: bytes, i: nat, t: nat, acc: seq<bytes>): (r: Res<seq<bytes>>)
    requires i <= |a|
    ensures r.Ok? ==> i <= r.pos <= |a| && r.items + |r.val| == t + |acc|
    decreases |a| - i
  {
    if !Next(a, i, SP) then Ok(acc, i, t)
    else
      var (cap, q, _) :- Atom(a, i + 1, t);
      var (_, _, t') :- Charge(q, t);
      CapsRest(a, q, t', acc + [cap])
  }

  function SpNumber(a: bytes, i: nat, t: nat): (r: Res<nat>)
    requires i <= |a|
    ensures r.Ok? ==> i < r.pos <= |a| && r.items == t && r.val <= U32_MAX
  {
    var (_, q, _) :- Consume(a, i, t, SP);
    Number(a, q, t)
  }

  function SpAtomList(a: bytes, i: nat, t: nat): (r: Res<seq<bytes>>)
    requires i <= |a|
    ensures r.Ok? ==> i < r.pos <= |a| && r.items + |r.val| == t
  {
    var (_, q, _) :- Consume(a, i, t, SP);
    AtomList(a, q, t)
  }

  /** Text up to `]`; a line break before it is an error. */
  function ReadSection(a: bytes, i: nat, t: nat): (r: Res<bytes>)
    requires i <= |a|
    ensures r.Ok? ==> i <= r.pos < |a| && r.items == t
  {
    var j := Scan(a, i, SectionChar);
    if j < |a| && a[j] != RBRACKET then Err(Malformed("CR/LF before terminator"))
    else ScannedText(a, i, j, t)
  }

  /** The argument of a response code whose atom has been read. */
  function CodeArgument(a: bytes, i: nat, t: nat, atom: bytes): (r: Res<ResponseCode>)
    requires i <= |a|
    ensures r.Ok? ==> i <= r.pos <= |a| && r.items + CodeItems(Some(r.val)) == t
  {
    hide SpNumber, CapsRest, SpAtomList, AtomList, ReadSection;
    match CodeKindOf(atom)
    case KAlert => Ok(Alert, i, t)
    case KParse => Ok(Parse, i, t)
    case KReadOnly => Ok(ReadOnly, i, t)
    case KReadWrite => Ok(ReadWrite, i, t)
    case KTryCreate => Ok(TryCreate, i, t)
    case KUidNext => var (n, q, _) :- SpNumber(a, i, t); Ok(UidNext(n), q, t)
    case KUidValidity => var (n, q, _) :- SpNumber(a, i, t); Ok(UidValidity(n), q, t)
    case KUnseen => var (n, q, _) :- SpNumber(a, i, t); Ok(Unseen(n), q, t)
    case KCodeCapability => var (l, q, t') :- CapsRest(a, i, t, []); Ok(CodeCapability(l), q, t')
    case KPermanentFlags => var (l, q, t') :- SpAtomList(a, i, t); Ok(PermanentFlags(l), q, t')
    case KBadCharset =>
      if Next(a, i, SP) then var (l, q, t') :- AtomList(a, i + 1, t); Ok(BadCharset(l), q, t')
      else Ok(BadCharset([]), i, t)
    case KOtherCode =>
      if Next(a, i, SP) then var (x, q, _) :- ReadSection(a, i + 1, t); Ok(OtherCode(atom, Some(x)), q, t)
      else Ok(OtherCode(atom, None), i, t)
  }

  function RespTextCode(a: bytes, i: nat, t: nat): (r: Res<ResponseCode>)
    requires i <= |a|
    ensures r.Ok? ==> i < r.pos <= |a| && r.items + CodeItems(Some(r.val)) == t
  {
    var j := Scan(a, i, CodeChar);
    if j == |a| then Err(Incomplete)
    else if a[j] == CR || a[j] == LF then Err(Malformed("CR/LF inside response code"))
    else if i == j then Err(Malformed("empty response code"))
    else
      var (atom, q, _) :- ScannedText(a, i, j, t);
      CodeArgument(a, q, t, atom)
  }

  /** resp-text: an optional bracketed code, then text up to the line end. */
  function RespText(a: bytes, i: nat, t: nat): (r: Res<(Option<ResponseCode>, bytes)>)
    requires i <= |a|
    ensures r.Ok? ==> i <= r.pos < |a| && r.items + CodeItems(r.val.0) == t
  {
    hide RespTextCode, Text;
    if Next(a, i, LBRACKET) then
      var (c, q, t') :- RespTextCode(a, i + 1, t);
      var (_, q', _) :- Consume(a, q, t', RBRACKET);
      var (x, e, _) :- Text(a, if Next(a, q', SP) then q' + 1 else q', t');
      Ok((Some(c), x), e, t')
    else
      var (x, e, _) :- Text(a, i, t);
      Ok((None, x), e, t)
  }

  function RespTextAfterKeyword(a: bytes, i: nat, t: nat): (r: Res<(Option<ResponseCode>, bytes)>)
    requires i <= |a|
    ensures r.Ok? ==> i <= r.pos <= |a| && r.items + CodeItems(r.val.0) == t
  {
    if Next(a, i, SP) then RespText(a, i + 1, t) else Ok((None, []), i, t)
  }

  /** What a complete frame guarantees: it ends in CRLF, consumes input, and balances the budget. */
  predicate FrameShape(a: bytes, i: nat, t: nat, r: Res<Response>) {
    r.Ok? ==>
      && i + 2 <= r.pos <= |a|
      && a[r.pos - 2] == CR && a[r.pos - 1] == LF
      && r.items + ResponseItems(r.val) == t
  }

  function ContinueReq(a: bytes, i: nat, t: nat): (r: Res<Response>)
    requires i <= |a|
    ensures FrameShape(a, i, t, r)
  {
    hide RespText;
    var (_, i1, _) :- Consume(a, i, t, PLUS);
    var (_, i2, _) :- Consume(a, i1, t, SP);
    var (x, i3, t') :- RespText(a, i2, t);
    var (_, e, _) :- ConsumeCrlf(a, i3, t');
    Ok(Continue(x.0, x.1), e, t')
  }

  /** The rest of a status response once its keyword has been read. */
  function StatusRest(a: bytes, i: nat, t: nat, tag: Option<bytes>, status: Status): (r: Res<Response>)
    requires i <= |a|
    ensures FrameShape(a, i, t, r)
  {
    hide RespTextAfterKeyword;
    var (x, q, t') :- RespTextAfterKeyword(a, i, t);
    var (_, e, _) :- ConsumeCrlf(a, q, t');
    Ok(StatusResponse(tag, status, x.0, x.1), e, t')
  }

  function Tagged(a: bytes, i: nat, t: nat): (r: Res<Response>)
    requires i <= |a|
    ensures FrameShape(a, i, t, r)
  {
    hide StatusKeyword, StatusRest, Tag;
    var (tag, i1, _) :- Tag(a, i, t);
    var (_, i2, _) :- Consume(a, i1, t, SP);
    match StatusKeyword(a, i2)
    case Some(kw) => StatusRest(a, i2 + kw.1, t, Some(tag), kw.0)
    case None =>
      if CutStatusKeyword(a, i2) then Err(Incomplete) else Err(Malformed("expected tagged status keyword"))
  }

  // ---------------------------------------------------------------------------
  // FETCH attributes
  // ---------------------------------------------------------------------------

  datatype AttKind =
    | KUid | KFlags | KInternalDate | KSize | KRfc822 | KHeader | KText
    | KEnvelope | KBodyStructure | KBody | KUnknown

  function AttKindOf(name: bytes): AttKind {
    if EqCi(name, UID) then KUid
    else if EqCi(name, FLAGS) then KFlags
    else if EqCi(name, INTERNALDATE) then KInternalDate
    else if EqCi(name, RFC822_SIZE) then KSize
    else if EqCi(name, RFC822) then KRfc822
    else if EqCi(name, RFC822_HEADER) then KHeader
    else if EqCi(name, RFC822_TEXT) then KText
    else if EqCi(name, ENVELOPE) then KEnvelope
    else if EqCi(name, BODYSTRUCTURE) then KBodyStructure
    else if EqCi(name, BODY) then KBody
    else KUnknown
  }

  function FetchAttName(a: bytes, i: nat, t: nat): (r: Res<bytes>)
    requires i <= |a|
    ensures r.Ok? ==> i < r.pos < |a| && r.items == t
  {
    var j := Scan(a, i, AttNameChar);
    if j == |a| then Err(Incomplete)
    else if i == j then Err(Malformed("expected FETCH att name"))
    else ScannedText(a, i, j, t)
  }

  function SpBalanced(a: bytes, i: nat, t: nat): (r: Res<bytes>)
    requires i <= |a|
    ensures r.Ok? ==> i < r.pos <= |a| && r.items == t
  {
    var (_, q, _) :- Consume(a, i, t, SP);
    Balanced(a, q, t)
  }

  function SpNStringBytes(a: bytes, i: nat, t: nat): (r: Res<bytes>)
    requires i <= |a|
    ensures r.Ok? ==> i < r.pos <= |a| && r.items == t
  {
    var (_, q, _) :- Consume(a, i, t, SP);
    NStringBytes(a, q, t)
  }

  function SpQuoted(a: bytes, i: nat, t: nat): (r: Res<bytes>)
    requires i <= |a|
    ensures r.Ok? ==> i < r.pos <= |a| && r.items == t
  {
    var (_, q, _) :- Consume(a, i, t, SP);
    Quoted(a, q, t)
  }

  /** `<number>` after a section, if present. */
  function Origin(a: bytes, i: nat, t: nat): (r: Res<Option<nat>>)
    requires i <= |a|
    ensures r.Ok? ==> i <= r.pos <= |a| && r.items == t
  {
    if Next(a, i, LESS) then
      var (n, q, _) :- Number(a, i + 1, t);
      var (_, e, _) :- Consume(a, q, t, GREATER);
      Ok(Some(n), e, t)
    else Ok(None, i, t)
  }

  /** `section]<origin> nstring`, after `BODY[`. */
  function BodySectionRest(a: bytes, i: nat, t: nat): (r: Res<FetchAttribute>)
    requires i <= |a|
    ensures r.Ok? ==> i < r.pos <= |a| && r.items + AttItems(r.val) == t
  {
    var (section, i1, _) :- ReadSection(a, i, t);
    var (_, i2, _) :- Consume(a, i1, t, RBRACKET);
    var (origin, i3, _) :- Origin(a, i2, t);
    var (_, i4, _) :- Consume(a, i3, t, SP);
    var (data, e, _) :- NStringBytesOptional(a, i4, t);
    Ok(BodySection(if section == [] then None else Some(section), origin, data), e, t)
  }

  function AttValue(a: bytes, i: nat, t: nat, kind: AttKind): (r: Res<FetchAttribute>)
    requires i <= |a|
    ensures r.Ok? ==> i < r.pos <= |a| && r.items + AttItems(r.val) == t
  {
    hide SpNumber, SpAtomList, SpQuoted, SpNStringBytes, SpBalanced, BodySectionRest;
    match kind
    case KUid => var (n, q, _) :- SpNumber(a, i, t); Ok(Uid(n), q, t)
    case KFlags => var (l, q, t') :- SpAtomList(a, i, t); Ok(Flags(l), q, t')
    case KInternalDate => var (s, q, _) :- SpQuoted(a, i, t); Ok(InternalDate(s), q, t)
    case KSize => var (n, q, _) :- SpNumber(a, i, t); Ok(Rfc822Size(n), q, t)
    case KRfc822 => var (d, q, _) :- SpNStringBytes(a, i, t); Ok(Rfc822(d), q, t)
    case KHeader => var (d, q, _) :- SpNStringBytes(a, i, t); Ok(Rfc822Header(d), q, t)
    case KText => var (d, q, _) :- SpNStringBytes(a, i, t); Ok(Rfc822Text(d), q, t)
    case KEnvelope => var (d, q, _) :- SpBalanced(a, i, t); Ok(Envelope(d), q, t)
    case KBodyStructure => var (d, q, _) :- SpBalanced(a, i, t); Ok(BodyStructure(d), q, t)
    case KBody =>
      if Next(a, i, LBRACKET) then BodySectionRest(a, i + 1, t)
      else var (d, q, _) :- SpBalanced(a, i, t); Ok(Body(d), q, t)
    case KUnknown => Err(Malformed("unknown FETCH attribute"))
  }

  function OneFetchAtt(a: bytes, i: nat, t: nat): (r: Res<FetchAttribute>)
    requires i <= |a|
    ensures r.Ok? ==> i < r.pos <= |a| && r.items + AttItems(r.val) == t
  {
    var (name, q, _) :- FetchAttName(a, i, t);
    AttValue(a, q, t, AttKindOf(name))
  }

  function FetchAttsRest(a: bytes, i: nat, t: nat, acc: seq<FetchAttribute>): (r: Res<seq<FetchAttribute>>)
    requires i <= |a|
    ensures r.Ok? ==> i < r.pos <= |a| && r.items + AttsItems(r.val) == t + AttsItems(acc)
    decreases |a| - i
  {
    var (att, q, t1) :- OneFetchAtt(a, i, t);
    var (_, _, t') :- Charge(q, t1);
    assert (acc + [att])[..|acc|] == acc;
    if q == |a| then Err(Incomplete)
    else if a[q] == SP then FetchAttsRest(a, q + 1, t', acc + [att])
    else if a[q] == RPAREN then Ok(acc + [att], q + 1, t')
    else Err(Malformed("expected SP or ) in FETCH atts"))
  }

  function FetchMsgAtt(a: bytes, i: nat, t: nat): (r: Res<seq<FetchAttribute>>)
    requires i <= |a|
    ensures r.Ok? ==> i < r.pos <= |a| && r.items + AttsItems(r.val) == t
  {
    var (_, q, _) :- Consume(a, i, t, LPAREN);
    if Next(a, q, RPAREN) then Ok([], q + 1, t) else FetchAttsRest(a, q, t, [])
  }

  // ---------------------------------------------------------------------------
  // Data responses
  // ---------------------------------------------------------------------------

  /** Start of the line the cursor is on, found by walking back to a CRLF or the input's start. */
  function LineStart(a: bytes, i: nat): (s: nat)
    requires i <= |a|
    ensures s <= i
  {
    if i == 0 || (i >= 2 && a[i - 2] == CR && a[i - 1] == LF) then i else LineStart(a, i - 1)
  }

  /** An unrecognised response kept as the raw bytes from `s` to its CR. */
  function RawLine(a: bytes, s: nat, i: nat, t: nat): (r: Res<Response>)
    requires s <= i <= |a|
    ensures FrameShape(a, i, t, r)
  {
    var j := Scan(a, i, LineChar);
    var (_, e, _) :- ConsumeCrlf(a, j, t);
    Ok(Data(OtherData(a[s..j])), e, t)
  }

  datatype NumericKind = KExists | KRecent | KExpunge | KFetch | KOtherNumeric

  function NumericKindOf(name: bytes): NumericKind {
    if EqCi(name, EXISTS) then KExists
    else if EqCi(name, RECENT) then KRecent
    else if EqCi(name, EXPUNGE) then KExpunge
    else if EqCi(name, FETCH) then KFetch
    else KOtherNumeric
  }

  function FinishData(a: bytes, i: nat, t: nat, d: DataResponse): (r: Res<Response>)
    requires i <= |a|
    ensures FrameShape(a, i, t + DataItems(d), r)
  {
    var (_, e, _) :- ConsumeCrlf(a, i, t);
    Ok(Data(d), e, t)
  }

  /** `SP attributes`. */
  function FetchBody(a: bytes, i: nat, t: nat, n: nat): (r: Res<DataResponse>)
    requires i <= |a|
    ensures r.Ok? ==> i <= r.pos <= |a| && r.items + DataItems(r.val) == t
  {
    hide FetchMsgAtt, AttsItems;
    var (_, q, _) :- Consume(a, i, t, SP);
    var (atts, e, t') :- FetchMsgAtt(a, q, t);
    Ok(Fetch(n, atts), e, t')
  }

  /** The body of a recognised numeric data response. */
  function NumericBody(a: bytes, i: nat, t: nat, n: nat, kind: NumericKind): (r: Res<DataResponse>)
    requires i <= |a| && kind != KOtherNumeric
    ensures r.Ok? ==> i <= r.pos <= |a| && r.items + DataItems(r.val) == t
  {
    hide FetchBody, AttsItems;
    match kind
    case KExists => Ok(Exists(n), i, t)
    case KRecent => Ok(Recent(n), i, t)
    case KExpunge => Ok(Expunge(n), i, t)
    case KFetch => FetchBody(a, i, t, n)
  }

  function NumericData(a: bytes, i: nat, t: nat): (r: Res<Response>)
    requires i <= |a|
    ensures FrameShape(a, i, t, r)
  {
    hide Number, Atom, NumericBody, RawLine, LineStart;
    var (n, i1, _) :- Number(a, i, t);
    var (_, i2, _) :- Consume(a, i1, t, SP);
    var (name, i3, _) :- Atom(a, i2, t);
    var kind := NumericKindOf(name);
    if kind == KOtherNumeric then RawLine(a, LineStart(a, i3), i3, t)
    else
      var (d, e, t') :- NumericBody(a, i3, t, n, kind);
      FinishData(a, e, t', d)
  }

  datatype NamedKind = KCapability | KList | KLsub | KStatus | KSearch | KFlagsData | KOtherNamed

  function NamedKindOf(name: bytes): NamedKind {
    if EqCi(name, CAPABILITY) then KCapability
    else if EqCi(name, LIST) then KList
    else if EqCi(name, LSUB) then KLsub
    else if EqCi(name, STATUS) then KStatus
    else if EqCi(name, SEARCH) then KSearch
    else if EqCi(name, FLAGS) then KFlagsData
    else KOtherNamed
  }

  /** `SP flags SP delimiter SP name`. */
  function ListBody(a: bytes, i: nat, t: nat): (r: Res<(seq<bytes>, Option<bytes>, bytes)>)
    requires i <= |a|
    ensures r.Ok? ==> i < r.pos <= |a| && r.items + |r.val.0| == t
  {
    hide SpAtomList, NString, AString;
    var (flags, i1, t') :- SpAtomList(a, i, t);
    var (_, i2, _) :- Consume(a, i1, t', SP);
    var (delimiter, i3, _) :- NString(a, i2, t');
    var (_, i4, _) :- Consume(a, i3, t', SP);
    var (name, e, _) :- AString(a, i4, t');
    Ok((flags, delimiter, name), e, t')
  }

  function StatusItemOf(key: bytes, n: nat): StatusItem {
    if EqCi(key, MESSAGES) then ItemMessages(n)
    else if EqCi(key, RECENT) then ItemRecent(n)
    else if EqCi(key, UIDNEXT) then ItemUidNext(n)
    else if EqCi(key, UIDVALIDITY) then ItemUidValidity(n)
    else if EqCi(key, UNSEEN) then ItemUnseen(n)
    else ItemOther(n)
  }

  function OneStatusItem(a: bytes, i: nat, t: nat): (r: Res<StatusItem>)
    requires i <= |a|
    ensures r.Ok? ==> i < r.pos <= |a| && r.items == t
  {
    var (key, i1, _) :- Atom(a, i, t);
    var (n, e, _) :- SpNumber(a, i1, t);
    Ok(StatusItemOf(key, n), e, t)
  }

  function StatusItemsRest(a: bytes, i: nat, t: nat, acc: seq<StatusItem>): (r: Res<seq<StatusItem>>)
    requires i <= |a|
    ensures r.Ok? ==> i < r.pos <= |a| && r.items + |r.val| == t + |acc|
    decreases |a| - i
  {
    var (item, q, _) :- OneStatusItem(a, i, t);
    var (_, _, t') :- Charge(q, t);
    if q == |a| then Err(Incomplete)
    else if a[q] == SP then StatusItemsRest(a, q + 1, t', acc + [item])
    else if a[q] == RPAREN then Ok(acc + [item], q + 1, t')
    else Err(Malformed("expected SP or ) in STATUS items"))
  }

  function StatusItems(a: bytes, i: nat, t: nat): (r: Res<seq<StatusItem>>)
    requires i <= |a|
    ensures r.Ok? ==> i < r.pos <= |a| && r.items + |r.val| == t
  {
    var (_, q, _) :- Consume(a, i, t, LPAREN);
    if Next(a, q, RPAREN) then Ok([], q + 1, t) else StatusItemsRest(a, q, t, [])
  }

  /** ` number number ...`: message numbers, which are not charged against the budget. */
  function SearchRest(a: bytes, i: nat, t: nat, acc: seq<nat>): (r: Res<seq<nat>>)
    requires i <= |a|
    ensures r.Ok? ==> i <= r.pos <= |a| && r.items == t
    decreases |a| - i
  {
    if !Next(a, i, SP) then Ok(acc, i, t)
    else
      var (n, q, _) :- Number(a, i + 1, t);
      SearchRest(a, q, t, acc + [n])
  }

  /** `SP mailbox SP items`. */
  function StatusBody(a: bytes, i: nat, t: nat): (r: Res<DataResponse>)
    requires i <= |a|
    ensures r.Ok? ==> i <= r.pos <= |a| && r.items + DataItems(r.val) == t
  {
    hide AString, StatusItems;
    var (_, i1, _) :- Consume(a, i, t, SP);
    var (mailbox, i2, _) :- AString(a, i1, t);
    var (_, i3, _) :- Consume(a, i2, t, SP);
    var (items, q, t') :- StatusItems(a, i3, t);
    Ok(StatusData(mailbox, items), q, t')
  }

  /** The body of a recognised named data response. */
  function NamedBody(a: bytes, i: nat, t: nat, kind: NamedKind): (r: Res<DataResponse>)
    requires i <= |a| && kind != KOtherNamed
    ensures r.Ok? ==> i <= r.pos <= |a| && r.items + DataItems(r.val) == t
  {
    hide CapsRest, ListBody, StatusBody, SearchRest, SpAtomList;
    match kind
    case KCapability => var (l, q, t') :- CapsRest(a, i, t, []); Ok(Capability(l), q, t')
    case KList => var (b, q, t') :- ListBody(a, i, t); Ok(ListData(b.0, b.1, b.2), q, t')
    case KLsub => var (b, q, t') :- ListBody(a, i, t); Ok(Lsub(b.0, b.1, b.2), q, t')
    case KStatus => StatusBody(a, i, t)
    case KSearch => var (ids, q, t') :- SearchRest(a, i, t, []); Ok(Search(ids), q, t')
    case KFlagsData => var (l, q, t') :- SpAtomList(a, i, t); Ok(FlagsData(l), q, t')
  }

  function NamedData(a: bytes, i: nat, t: nat): (r: Res<Response>)
    requires i <= |a|
    ensures FrameShape(a, i, t, r)
  {
    hide Atom, NamedBody, RawLine;
    var (name, i1, _) :- Atom(a, i, t);
    var kind := NamedKindOf(name);
    if kind == KOtherNamed then RawLine(a, i, i1, t)
    else
      var (d, i2, t') :- NamedBody(a, i1, t, kind);
      FinishData(a, i2, t', d)
  }

  // ---------------------------------------------------------------------------
  // Top level
  // ---------------------------------------------------------------------------

  function Untagged(a: bytes, i: nat, t: nat): (r: Res<Response>)
    requires i <= |a|
    ensures FrameShape(a, i, t, r)
  {
    hide StatusKeyword, StatusRest, NumericData, NamedData;
    var (_, i1, _) :- Consume(a, i, t, STAR);
    var (_, i2, _) :- Consume(a, i1, t, SP);
    match StatusKeyword(a, i2)
    case Some(kw) => StatusRest(a, i2 + kw.1, t, None, kw.0)
    case None =>
      if i2 == |a| then Err(Incomplete)
      else if IsDigit(a[i2]) then NumericData(a, i2, t)
      else NamedData(a, i2, t)
  }

  /** One response at the front of `a`. On success `pos` bytes were consumed. */
  function ParseResponse(a: bytes): (r: Res<Response>)
    ensures FrameShape(a, 0, 65536, r)
  {
    if |a| == 0 then Err(Incomplete)
    else if a[0] == PLUS then ContinueReq(a, 0, MAX_ITEMS_PER_RESPONSE)
    else if a[0] == STAR then Untagged(a, 0, MAX_ITEMS_PER_RESPONSE)
    else Tagged(a, 0, MAX_ITEMS_PER_RESPONSE)
  }
}
