/** Octets, byte classes and the two text tests (ASCII case folding and UTF-8 well-formedness)
    that every other module builds on. */
module Bytes {
  type byte = x: int | 0 <= x < 256
  type bytes = seq<byte>

  datatype Option<+T> = None | Some(value: T)

  const NUL: byte := 0
  const LF: byte := 10
  const CR: byte := 13
  const SP: byte := 32
  const DQUOTE: byte := 34
  const LPAREN: byte := 40
  const RPAREN: byte := 41
  const STAR: byte := 42
  const PLUS: byte := 43
  const LESS: byte := 60
  const GREATER: byte := 62
  const LBRACKET: byte := 91
  const BACKSLASH: byte := 92
  const RBRACKET: byte := 93
  const LBRACE: byte := 123
  const RBRACE: byte := 125
  const CRLF: bytes := [13, 10]

  const U32_MAX: nat := 0xFFFF_FFFF

  /** The byte classes the parser's scanning loops run over. */
  datatype Class =
    | Digit        // 0-9
    | AtomChar     // ATOM-CHAR, with 8-bit bytes let through
    | TagChar      // anything but SP, CR, LF
    | TextChar     // anything but CR, LF
    | CodeChar     // anything but `]`, SP, CR, LF
    | AttNameChar  // anything but SP, `[`, `)`
    | SectionChar  // anything but `]`, CR, LF
    | LineChar     // anything but CR

  predicate InClass(c: Class, b: byte) {
    match c
    case Digit => IsDigit(b)
    case AtomChar => IsAtomChar(b)
    case TagChar => b != SP && b != CR && b != LF
    case TextChar => b != CR && b != LF
    case CodeChar => b != RBRACKET && b != SP && b != CR && b != LF
    case AttNameChar => b != SP && b != LBRACKET && b != RPAREN
    case SectionChar => b != RBRACKET && b != CR && b != LF
    case LineChar => b != CR
  }

  predicate IsDigit(b: byte) {
    48 <= b <= 57
  }

  /** Every byte except controls, DEL and the atom-specials `(){ %*"\]`. */
  predicate IsAtomChar(b: byte) {
    32 < b != 127 && b != 34 && b != 37 && b != 40 && b != 41 && b != 42 && b != 92 && b != 93 && b != 123
  }

  predicate IsLetter(b: byte) {
    65 <= b <= 90 || 97 <= b <= 122
  }

  predicate AllLetters(w: bytes) {
    forall k :: 0 <= k < |w| ==> IsLetter(w[k])
  }

  /** Where a scan over class `c` that starts at `i` stops. */
  function Scan(a: bytes, i: nat, c: Class): (j: nat)
    requires i <= |a|
    ensures i <= j <= |a|
    ensures j < |a| ==> !InClass(c, a[j])
    ensures forall k :: i <= k < j ==> InClass(c, a[k])
    decreases |a| - i
  {
    if i < |a| && InClass(c, a[i]) then Scan(a, i + 1, c) else i
  }

  /** A scan is determined by where its run of class bytes ends. */
  lemma {:induction false} ScanStopsAt(a: bytes, i: nat, c: Class, j: nat)
    requires i <= j <= |a|
    requires forall k :: i <= k < j ==> InClass(c, a[k])
    requires j < |a| ==> !InClass(c, a[j])
    ensures Scan(a, i, c) == j
    decreases j - i
  {
    if i < j {
      ScanStopsAt(a, i + 1, c, j);
    }
  }

  function Lower(b: byte): byte {
    if 65 <= b <= 90 then b + 32 else b
  }

  /** Equality up to ASCII case. */
  predicate EqCi(x: bytes, y: bytes) {
    |x| == |y| && forall k :: 0 <= k < |y| ==> Lower(x[k]) == Lower(y[k])
  }

  /** `kw` occurs at `i`, up to ASCII case. */
  predicate MatchesCi(a: bytes, i: nat, kw: bytes) {
    i + |kw| <= |a| && forall k :: 0 <= k < |kw| ==> Lower(a[i + k]) == Lower(kw[k])
  }

  /** `r` is written in `a` at offset `i`. */
  predicate At(a: bytes, i: nat, r: bytes) {
    i + |r| <= |a| && a[i..i + |r|] == r
  }

  lemma AtConcat(a: bytes, i: nat, r: bytes, s: bytes)
    ensures At(a, i, r + s) <==> At(a, i, r) && At(a, i + |r|, s)
  {
    if At(a, i, r + s) {
      assert a[i..i + |r|] == a[i..i + |r + s|][..|r|];
      assert a[i + |r|..i + |r| + |s|] == a[i..i + |r + s|][|r|..];
    }
    if At(a, i, r) && At(a, i + |r|, s) {
      assert a[i..i + |r + s|] == a[i..i + |r|] + a[i + |r|..i + |r| + |s|];
    }
  }

  lemma AtIndex(a: bytes, i: nat, r: bytes)
    requires At(a, i, r)
    ensures forall k :: 0 <= k < |r| ==> a[i + k] == r[k]
  {
    forall k | 0 <= k < |r| ensures a[i + k] == r[k] {
      assert a[i..i + |r|][k] == a[i + k];
    }
  }

  lemma AtFront(r: bytes, rest: bytes)
    ensures At(r + rest, 0, r)
  {
  }

  lemma AtWhole(s: bytes)
    ensures At(s, 0, s)
  {
  }

  lemma AtSlice(a: bytes, i: nat, r: bytes)
    ensures At(a, i, r) ==> i + |r| <= |a| && a[i..i + |r|] == r
  {
  }

  lemma AtByte(a: bytes, i: nat, b: byte, s: bytes)
    ensures At(a, i, [b] + s) <==> i < |a| && a[i] == b && At(a, i + 1, s)
  {
    AtConcat(a, i, [b], s);
    if i < |a| {
      assert a[i..i + 1] == [a[i]];
    }
  }

  lemma AtFirst(a: bytes, i: nat, s: bytes)
    requires At(a, i, s) && |s| > 0
    ensures i < |a| && a[i] == s[0]
  {
    assert a[i..i + |s|][0] == a[i];
  }

  /** `w` is what is written in `a` from `i` to `e`. */
  predicate Spans(a: bytes, i: nat, e: nat, w: bytes) {
    At(a, i, w) && e == i + |w|
  }

  lemma SpansSlice(a: bytes, i: nat, e: nat)
    requires i <= e <= |a|
    ensures Spans(a, i, e, a[i..e])
  {
  }

  lemma SpansBounds(a: bytes, i: nat, e: nat, w: bytes)
    requires Spans(a, i, e, w)
    ensures i <= e <= |a| && a[i..e] == w
  {
  }

  lemma SpansByte(a: bytes, i: nat, e: nat, b: byte, w: bytes)
    requires i < |a| && a[i] == b && Spans(a, i + 1, e, w)
    ensures Spans(a, i, e, [b] + w)
  {
    hide At;
    AtByte(a, i, b, w);
  }

  lemma SpansConcat(a: bytes, i: nat, j: nat, e: nat, u: bytes, w: bytes)
    requires Spans(a, i, j, u) && Spans(a, j, e, w)
    ensures Spans(a, i, e, u + w)
  {
    hide At;
    AtConcat(a, i, u, w);
  }

  lemma SpansOne(a: bytes, i: nat)
    requires i < |a|
    ensures Spans(a, i, i + 1, [a[i]])
  {
  }

  predicate AllIn(c: Class, s: bytes) {
    forall k :: 0 <= k < |s| ==> InClass(c, s[k])
  }

  /** A written run of class bytes, followed by a byte outside the class, is what the scan finds. */
  lemma ScanAt(a: bytes, i: nat, c: Class, r: bytes)
    requires At(a, i, r) && AllIn(c, r)
    requires i + |r| < |a| ==> !InClass(c, a[i + |r|])
    ensures Scan(a, i, c) == i + |r|
  {
    AtIndex(a, i, r);
    forall k | i <= k < i + |r| ensures InClass(c, a[k]) {
      assert a[i + (k - i)] == r[k - i];
    }
    ScanStopsAt(a, i, c, i + |r|);
  }

  lemma ScannedAllIn(a: bytes, i: nat, c: Class)
    requires i <= |a|
    ensures AllIn(c, a[i..Scan(a, i, c)])
  {
    var w := a[i..Scan(a, i, c)];
    forall k | 0 <= k < |w| ensures InClass(c, w[k]) {
      assert w[k] == a[i + k];
    }
  }

  predicate IsContinuation(b: byte) {
    0x80 <= b <= 0xBF
  }

  /** Bytes in the character at the front of `s`, or 0 when no well-formed character starts there. */
  function CharWidth(s: bytes): (w: nat)
    ensures w <= |s| && w <= 4
  {
    if |s| == 0 then 0
    else if s[0] < 0x80 then 1
    else if 0xC2 <= s[0] <= 0xDF && |s| >= 2 && IsContinuation(s[1]) then 2
    else if 0xE0 <= s[0] <= 0xEF && |s| >= 3 && IsContinuation(s[1]) && IsContinuation(s[2])
            && (s[0] == 0xE0 ==> 0xA0 <= s[1]) && (s[0] == 0xED ==> s[1] <= 0x9F) then 3
    else if 0xF0 <= s[0] <= 0xF4 && |s| >= 4 && IsContinuation(s[1]) && IsContinuation(s[2]) && IsContinuation(s[3])
            && (s[0] == 0xF0 ==> 0x90 <= s[1]) && (s[0] == 0xF4 ==> s[1] <= 0x8F) then 4
    else 0
  }

  /** Well-formed UTF-8 (section 3 of RFC 3629). */
  predicate Utf8(s: bytes) {
    |s| == 0 || (CharWidth(s) > 0 && Utf8(s[CharWidth(s)..]))
  }

  predicate Ascii(s: bytes) {
    forall k :: 0 <= k < |s| ==> s[k] < 0x80
  }

  lemma {:induction false} AsciiIsUtf8(s: bytes)
    requires Ascii(s)
    ensures Utf8(s)
  {
    if |s| > 0 {
      AsciiIsUtf8(s[1..]);
    }
  }

  predicate AllDigits(s: bytes) {
    forall k :: 0 <= k < |s| ==> IsDigit(s[k])
  }

  /** The value of a run of decimal digits. */
  function Decimal(d: bytes): nat
    requires AllDigits(d)
  {
    if |d| == 0 then 0 else 10 * Decimal(d[..|d| - 1]) + (d[|d| - 1] - 48)
  }

  /** More digits never make a number smaller. */
  lemma {:induction false} DecimalGrows(d: bytes, k: nat)
    requires AllDigits(d) && k <= |d|
    ensures Decimal(d[..k]) <= Decimal(d)
    decreases |d|
  {
    if k == |d| {
      assert d[..k] == d;
    } else {
      assert d[..|d| - 1][..k] == d[..k];
      DecimalGrows(d[..|d| - 1], k);
    }
  }
}
