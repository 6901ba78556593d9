/** The ground the other modules share, stated apart from them: octets, byte classes, case folding,
    UTF-8, the limits, and the boundaries of a keyword. */
module References {
  import opened Bytes
  import Base64
  import Commands
  import Dispatcher
  import Grammar
  import PreTls
  import Session
  import Wire
  import Words

  /** The characters of a string are the bytes named after them. */
  lemma OctetsSpelled()
    ensures [SP, DQUOTE, LPAREN, RPAREN, STAR, PLUS] == Words.Spell(" \"()*+")
    ensures [LESS, GREATER, LBRACKET, BACKSLASH, RBRACKET] == Words.Spell("<>[\\]")
    ensures [LBRACE, RBRACE] == Words.Spell("{}") && CRLF == [CR, LF] == Words.Spell("\r\n") && NUL == 0
    ensures Commands.TAG_LETTER == Words.Octet('A') && Base64.PAD == Words.Octet('=')
  {
  }

  lemma Limits()
    ensures U32_MAX == 4294967295 && Commands.U64_RANGE == 18446744073709551616
    ensures Grammar.MAX_LITERAL_SIZE == 67108864 && Grammar.MAX_ITEMS_PER_RESPONSE == 65536
    ensures PreTls.MAX_PRE_TLS_FRAME == 65536
    ensures Dispatcher.STREAM_CHANNEL_CAP == 32 && Dispatcher.WRITE_CHANNEL_CAP == 32
  {
  }

  /** The classes the scans run over, by the characters they leave out. */
  lemma ClassesExactly(b: byte)
    ensures InClass(Digit, b) <==> b in Words.Spell("0123456789")
    ensures InClass(AtomChar, b) <==> b >= 33 && b != 127 && b !in Words.Spell("(){%*\"\\]")
    ensures InClass(TagChar, b) <==> b !in Words.Spell(" \r\n")
    ensures InClass(TextChar, b) <==> b !in Words.Spell("\r\n")
    ensures InClass(CodeChar, b) <==> b !in Words.Spell("] \r\n")
    ensures InClass(AttNameChar, b) <==> b !in Words.Spell(" [)")
    ensures InClass(SectionChar, b) <==> b !in Words.Spell("]\r\n")
    ensures InClass(LineChar, b) <==> b !in Words.Spell("\r")
  {
    assert Words.Spell("0123456789") == [48, 49, 50, 51, 52, 53, 54, 55, 56, 57];
    assert Words.Spell("(){%*\"\\]") == [40, 41, 123, 37, 42, 34, 92, 93];
    assert Words.Spell(" \r\n") == [32, 13, 10];
    assert Words.Spell("\r\n") == [13, 10];
    assert Words.Spell("] \r\n") == [93, 32, 13, 10];
    assert Words.Spell(" [)") == [32, 91, 41];
    assert Words.Spell("]\r\n") == [93, 13, 10];
    assert Words.Spell("\r") == [13];
  }

  /** A keyword ends at the end of the input or before one of these. */
  lemma BoundariesExactly(b: byte)
    ensures Grammar.IsBoundary(b) <==> b in Words.Spell(" \r\n])")
  {
    assert Words.Spell(" \r\n])") == [32, 13, 10, 93, 41];
  }

  /** Folding case identifies the two cases of each letter, and nothing else. */
  lemma FoldsLettersOnly(x: byte, y: byte)
    ensures Lower(x) == Lower(y) <==> x == y || (IsCapital(x) && y == x + 32) || (IsCapital(y) && x == y + 32)
  {
  }

  predicate IsCapital(b: byte) {
    Words.Octet('A') <= b <= Words.Octet('Z')
  }

  /** What may not be in a command, and what a flag keyword is made of. */
  lemma RefusedTextExactly(s: bytes)
    ensures Commands.IsOneLine(s) <==> 13 !in s && 10 !in s && 0 !in s
    ensures Session.Quotable(s) <==> forall b :: b in s ==> 0 < b < 128 && b != 13 && b != 10
    ensures Session.NulFree(s) <==> 0 !in s
  {
    if Session.Quotable(s) {
      forall b | b in s ensures 0 < b < 128 && b != 13 && b != 10 {
        var k :| 0 <= k < |s| && s[k] == b;
      }
    }
    assert forall k :: 0 <= k < |s| ==> s[k] in s;
  }

  /** A flag keyword is an atom of 7-bit characters, with at most one backslash before it. */
  lemma FlagKeywordExactly(k: bytes)
    ensures Wire.IsFlagKeyword(k)
            <==> exists atom :: (k == atom || k == [92] + atom) && atom != [] && Sendable(atom)
  {
    if Wire.IsFlagKeyword(k) {
      var atom := Wire.Unslashed(k);
      forall b | b in atom ensures IsAtomChar(b) && b < 128 {
        var i :| 0 <= i < |atom| && atom[i] == b;
      }
      assert k == atom || k == [92] + atom;
      assert Sendable(atom);
    }
    if exists atom :: (k == atom || k == [92] + atom) && atom != [] && Sendable(atom) {
      var atom :| (k == atom || k == [92] + atom) && atom != [] && Sendable(atom);
      assert atom[0] in atom && atom[0] != 92;
      assert Wire.Unslashed(k) == atom;
      forall i | 0 <= i < |atom| ensures Wire.IsAsciiAtomChar(atom[i]) {
        assert atom[i] in atom;
      }
    }
  }

  predicate Sendable(atom: bytes) {
    forall b :: b in atom ==> 33 <= b < 127 && b !in {40, 41, 123, 37, 42, 34, 92, 93}
  }

  // ---------------------------------------------------------------------------
  // UTF-8
  // ---------------------------------------------------------------------------

  /** A Unicode scalar value: a code point that is no surrogate. */
  predicate IsScalar(c: nat) {
    c < 0xD800 || 0xE000 <= c < 0x110000
  }

  /** One scalar value in UTF-8, by the table in section 3 of RFC 3629. */
  function EncodeScalar(c: nat): (e: bytes)
    requires IsScalar(c)
    ensures 1 <= |e| <= 4
  {
    if c < 0x80 then [c]
    else if c < 0x800 then [0xC0 + c / 64, 0x80 + c % 64]
    else if c < 0x1_0000 then [0xE0 + c / 4096, 0x80 + c / 64 % 64, 0x80 + c % 64]
    else [0xF0 + c / 262144, 0x80 + c / 4096 % 64, 0x80 + c / 64 % 64, 0x80 + c % 64]
  }

  predicate AllScalars(text: seq<nat>) {
    forall k :: 0 <= k < |text| ==> IsScalar(text[k])
  }

  function EncodeText(text: seq<nat>): bytes
    requires AllScalars(text)
  {
    if |text| == 0 then [] else EncodeScalar(text[0]) + EncodeText(text[1..])
  }

  lemma EncodedWidth(c: nat, rest: bytes)
    requires IsScalar(c)
    ensures CharWidth(EncodeScalar(c) + rest) == |EncodeScalar(c)|
  {
  }

  /** Six bits more. */
  lemma SixBits(high: nat, low: nat)
    requires low < 64
    ensures (high * 64 + low) / 64 == high && (high * 64 + low) % 64 == low
  {
  }

  lemma TwoBytes(x: nat, y: nat)
    requires 2 <= x < 32 && y < 64
    ensures var c := x * 64 + y; IsScalar(c) && EncodeScalar(c) == [0xC0 + x, 0x80 + y]
  {
    SixBits(x, y);
  }

  lemma ThreeBytes(x: nat, y: nat, z: nat)
    requires x < 16 && y < 64 && z < 64 && (x == 0 ==> 32 <= y) && (x == 13 ==> y < 32)
    ensures var c := (x * 64 + y) * 64 + z; IsScalar(c) && EncodeScalar(c) == [0xE0 + x, 0x80 + y, 0x80 + z]
  {
    var c := (x * 64 + y) * 64 + z;
    SixBits(x * 64 + y, z);
    SixBits(x, y);
    assert c / 4096 == c / 64 / 64;
  }

  lemma FourBytes(x: nat, y: nat, z: nat, u: nat)
    requires x <= 4 && y < 64 && z < 64 && u < 64 && (x == 0 ==> 16 <= y) && (x == 4 ==> y < 16)
    ensures var c := ((x * 64 + y) * 64 + z) * 64 + u;
            IsScalar(c) && EncodeScalar(c) == [0xF0 + x, 0x80 + y, 0x80 + z, 0x80 + u]
  {
    var c := ((x * 64 + y) * 64 + z) * 64 + u;
    SixBits((x * 64 + y) * 64 + z, u);
    SixBits(x * 64 + y, z);
    SixBits(x, y);
    assert c / 4096 == c / 64 / 64 && c / 262144 == c / 64 / 64 / 64;
  }

  /** The scalar value at the front. */
  lemma ScalarAt(s: bytes) returns (c: nat)
    requires CharWidth(s) > 0
    ensures IsScalar(c) && EncodeScalar(c) == s[..CharWidth(s)]
  {
    hide EncodeScalar, IsScalar;
    var w := CharWidth(s);
    if w == 1 {
      c := s[0];
      OneByte(c);
    } else if w == 2 {
      var x: int, y: int := s[0], s[1];
      TwoBytes(x - 0xC0, y - 0x80);
      c := (x - 0xC0) * 64 + (y - 0x80);
    } else if w == 3 {
      var x: int, y: int, z: int := s[0], s[1], s[2];
      ThreeBytes(x - 0xE0, y - 0x80, z - 0x80);
      c := ((x - 0xE0) * 64 + (y - 0x80)) * 64 + (z - 0x80);
    } else {
      var x: int, y: int, z: int, u: int := s[0], s[1], s[2], s[3];
      FourBytes(x - 0xF0, y - 0x80, z - 0x80, u - 0x80);
      c := (((x - 0xF0) * 64 + (y - 0x80)) * 64 + (z - 0x80)) * 64 + (u - 0x80);
    }
  }

  lemma OneByte(x: nat)
    requires x < 0x80
    ensures IsScalar(x) && EncodeScalar(x) == [x]
  {
  }

  /** `s` encodes `text`. */
  predicate Encodes(s: bytes, text: seq<nat>) {
    AllScalars(text) && EncodeText(text) == s
  }

  lemma {:induction false} EncodedIsUtf8(text: seq<nat>)
    requires AllScalars(text)
    ensures Utf8(EncodeText(text))
  {
    hide CharWidth, EncodeScalar;
    if |text| > 0 {
      var rest := EncodeText(text[1..]);
      EncodedWidth(text[0], rest);
      EncodedIsUtf8(text[1..]);
      assert (EncodeScalar(text[0]) + rest)[|EncodeScalar(text[0])|..] == rest;
    }
  }

  lemma {:induction false} Utf8IsEncoded(s: bytes) returns (text: seq<nat>)
    requires Utf8(s)
    ensures Encodes(s, text)
    decreases |s|
  {
    hide CharWidth, EncodeScalar, IsScalar;
    if |s| == 0 {
      text := [];
    } else {
      var w := CharWidth(s);
      var c := ScalarAt(s);
      var more := Utf8IsEncoded(s[w..]);
      text := [c] + more;
      assert text[1..] == more && s == s[..w] + s[w..];
    }
  }

  /** The text test accepts exactly the encodings of sequences of Unicode scalar values. */
  lemma Utf8Exactly(s: bytes)
    ensures Utf8(s) <==> exists text: seq<nat> :: Encodes(s, text)
  {
    hide Utf8, EncodeText;
    if Utf8(s) {
      var text := Utf8IsEncoded(s);
    }
    if exists text: seq<nat> :: Encodes(s, text) {
      var text: seq<nat> :| Encodes(s, text);
      EncodedIsUtf8(text);
    }
  }
}
