/** Padded base64 (section 4 of RFC 4648): the client's encoder, and a strict decoder it is the
    inverse of. */
module Base64 {
  import opened Bytes

  const PAD: byte := 61
  /** `A` to `Z`, `a` to `z`, `0` to `9`, `+`, `/`. */
  const ALPHABET: bytes := Range(65, 26) + Range(97, 26) + Range(48, 10) + [43, 47]

  /** `n` consecutive characters. */
  function Range(first: byte, n: nat): (r: bytes)
    requires first + n <= 256
    ensures |r| == n && forall k :: 0 <= k < n ==> r[k] == first + k
    decreases n
  {
    if n == 0 then [] else [first] + (if n == 1 then [] else Range(first + 1, n - 1))
  }

  type sextet = v: nat | v < 64

  function CharOf(v: sextet): byte {
    ALPHABET[v]
  }

  /** The value of an alphabet character, by table 1 of RFC 4648. */
  function ValueOf(c: byte): Option<sextet> {
    if 65 <= c <= 90 then Some(c - 65)
    else if 97 <= c <= 122 then Some(c - 71)
    else if 48 <= c <= 57 then Some(c + 4)
    else if c == 43 then Some(62)
    else if c == 47 then Some(63)
    else None
  }

  lemma AlphabetTable(v: sextet)
    ensures CharOf(v) == if v < 26 then v + 65
                         else if v < 52 then v + 71
                         else if v < 62 then v - 4
                         else if v == 62 then 43
                         else 47
  {
  }

  lemma CharValue(c: byte, v: sextet)
    ensures ValueOf(c) == Some(v) <==> c == CharOf(v)
    ensures CharOf(v) != PAD
  {
    hide CharOf;
    AlphabetTable(v);
  }

  /** 24 bits as four sextets; the shifts and masks of 32-bit arithmetic are divisions here. */
  function EncodeGroup(a: byte, b: byte, c: byte): (r: bytes)
    ensures |r| == 4
  {
    var n := a * 0x1_0000 + b * 0x100 + c;
    [CharOf(n / 0x4_0000 % 64), CharOf(n / 0x1000 % 64), CharOf(n / 64 % 64), CharOf(n % 64)]
  }

  function EncodedLen(n: nat): nat {
    (n + 2) / 3 * 4
  }

  /** Group by group; a short last group is filled up with zero bits and padded. */
  function Encode(input: bytes): bytes {
    if |input| == 0 then []
    else if |input| == 1 then EncodeGroup(input[0], 0, 0)[..2] + [PAD, PAD]
    else if |input| == 2 then EncodeGroup(input[0], input[1], 0)[..3] + [PAD]
    else EncodeGroup(input[0], input[1], input[2]) + Encode(input[3..])
  }

  lemma {:induction false} EncodeLength(input: bytes)
    ensures |Encode(input)| == EncodedLen(|input|)
  {
    hide EncodeGroup;
    if |input| >= 3 {
      EncodeLength(input[3..]);
    }
  }

  lemma {:induction false} EncodeSplit(input: bytes, g: nat)
    requires 3 * g <= |input|
    ensures Encode(input) == Encode(input[..3 * g]) + Encode(input[3 * g..])
    decreases g
  {
    hide EncodeGroup;
    if g == 0 {
      assert input[..0] == [] && input[0..] == input;
    } else {
      var head := input[..3 * g];
      EncodeSplit(input[3..], g - 1);
      assert head[3..] == input[3..][..3 * (g - 1)];
      assert input[3..][3 * (g - 1)..] == input[3 * g..];
      assert Encode(head) == EncodeGroup(input[0], input[1], input[2]) + Encode(head[3..]);
    }
  }

  /** `encode_into`: append the encoding to the caller's buffer, by exactly `encoded_len` bytes. */
  method EncodeInto(input: bytes, buffer: bytes) returns (out: bytes)
    ensures out == buffer + Encode(input)
    ensures |out| == |buffer| + EncodedLen(|input|)
  {
    hide EncodeGroup, Encode;
    out := buffer;
    var groups := |input| / 3;
    EncodeSplit(input, 0);
    EncodeEmpty();
    assert input[..0] == [];
    for g := 0 to groups
      invariant out == buffer + Encode(input[..3 * g])
    {
      NextGroup(input, g);
      out := out + EncodeGroup(input[3 * g], input[3 * g + 1], input[3 * g + 2]);
    }
    var rest := input[3 * groups..];
    EncodeSplit(input, groups);
    EncodeLength(input);
    ShortGroup(rest);
    if |rest| == 1 {
      var q := EncodeGroup(rest[0], 0, 0);
      out := out + [q[0], q[1], PAD, PAD];
    } else if |rest| == 2 {
      var q := EncodeGroup(rest[0], rest[1], 0);
      out := out + [q[0], q[1], q[2], PAD];
    }
  }

  lemma EncodeEmpty()
    ensures Encode([]) == []
  {
  }

  lemma ShortGroup(rest: bytes)
    ensures |rest| == 0 ==> Encode(rest) == []
    ensures |rest| == 1 ==> var q := EncodeGroup(rest[0], 0, 0); Encode(rest) == [q[0], q[1], PAD, PAD]
    ensures |rest| == 2 ==> var q := EncodeGroup(rest[0], rest[1], 0); Encode(rest) == [q[0], q[1], q[2], PAD]
  {
    hide EncodeGroup;
    if |rest| == 1 {
      Padded(EncodeGroup(rest[0], 0, 0));
    } else if |rest| == 2 {
      Padded(EncodeGroup(rest[0], rest[1], 0));
    }
  }

  lemma Padded(q: bytes)
    requires |q| == 4
    ensures q[..2] + [PAD, PAD] == [q[0], q[1], PAD, PAD]
    ensures q[..3] + [PAD] == [q[0], q[1], q[2], PAD]
  {
  }

  lemma EncodeThree(x: bytes)
    requires |x| == 3
    ensures Encode(x) == EncodeGroup(x[0], x[1], x[2])
  {
    hide EncodeGroup;
    EncodeEmpty();
    assert x[3..] == [];
  }

  lemma NextGroup(input: bytes, g: nat)
    requires 3 * g + 3 <= |input|
    ensures Encode(input[..3 * (g + 1)]) ==
            Encode(input[..3 * g]) + EncodeGroup(input[3 * g], input[3 * g + 1], input[3 * g + 2])
  {
    hide EncodeGroup, Encode;
    var head := input[..3 * (g + 1)];
    EncodeSplit(head, g);
    assert head[..3 * g] == input[..3 * g];
    EncodeThree(head[3 * g..]);
  }

  // ---------------------------------------------------------------------------
  // Decoding
  // ---------------------------------------------------------------------------

  /** Four characters to the one to three bytes they carry. Padding bits must be zero. */
  function DecodeGroup(s: bytes): (r: Option<bytes>)
    requires |s| == 4
    ensures r.Some? ==> 1 <= |r.value| <= 3
  {
    var v0, v1, v2, v3 := ValueOf(s[0]), ValueOf(s[1]), ValueOf(s[2]), ValueOf(s[3]);
    if v0.None? || v1.None? then None
    else if s[2] == PAD && s[3] == PAD then
      if v1.value % 16 == 0 then Some([v0.value * 4 + v1.value / 16]) else None
    else if v2.None? then None
    else if s[3] == PAD then
      if v2.value % 4 == 0
      then Some([v0.value * 4 + v1.value / 16, v1.value % 16 * 16 + v2.value / 4])
      else None
    else if v3.None? then None
    else Some([v0.value * 4 + v1.value / 16, v1.value % 16 * 16 + v2.value / 4, v2.value % 4 * 64 + v3.value])
  }

  /** Only the last group may be padded. */
  function Decode(s: bytes): Option<bytes> {
    if |s| == 0 then Some([])
    else if |s| < 4 then None
    else
      match DecodeGroup(s[..4])
      case None => None
      case Some(x) =>
        if |s| == 4 then Some(x)
        else if |x| < 3 then None
        else
          match Decode(s[4..])
          case None => None
          case Some(rest) => Some(x + rest)
  }

  lemma Quotient64(q: nat, r: nat)
    requires r < 64
    ensures (q * 64 + r) / 64 == q && (q * 64 + r) % 64 == r
  {
  }

  lemma Quotient4096(q: nat, r: nat)
    requires r < 0x1000
    ensures (q * 0x1000 + r) / 0x1000 == q
  {
  }

  /** The sextets of a group, without the detour over the 24-bit number. */
  lemma FirstSextets(a: byte, b: byte, c: byte)
    ensures var n := a * 0x1_0000 + b * 0x100 + c;
            n / 0x4_0000 % 64 == a / 4 && n / 0x1000 % 64 == a % 4 * 16 + b / 16
  {
    var n := a * 0x1_0000 + b * 0x100 + c;
    Quotient4096(a * 16 + b / 16, b % 16 * 0x100 + c);
    assert n / 0x1000 == a * 16 + b / 16;
    assert n / 0x4_0000 == a / 4;
    Quotient64(a / 4, a % 4 * 16 + b / 16);
  }

  lemma LastSextets(a: byte, b: byte, c: byte)
    ensures var n := a * 0x1_0000 + b * 0x100 + c;
            n / 64 % 64 == b % 16 * 4 + c / 64 && n % 64 == c % 64
  {
    Quotient64(a * 1024 + b * 4 + c / 64, c % 64);
    Quotient64(a * 16 + b / 16, b % 16 * 4 + c / 64);
  }

  lemma GroupSextets(a: byte, b: byte, c: byte)
    ensures EncodeGroup(a, b, c)
         == [CharOf(a / 4), CharOf(a % 4 * 16 + b / 16), CharOf(b % 16 * 4 + c / 64), CharOf(c % 64)]
  {
    hide CharOf;
    FirstSextets(a, b, c);
    LastSextets(a, b, c);
  }

  /** What `x` (one to three bytes) is encoded to. */
  function GroupOf(x: bytes): bytes
    requires 1 <= |x| <= 3
  {
    if |x| == 1 then EncodeGroup(x[0], 0, 0)[..2] + [PAD, PAD]
    else if |x| == 2 then EncodeGroup(x[0], x[1], 0)[..3] + [PAD]
    else EncodeGroup(x[0], x[1], x[2])
  }

  lemma DecodeGroupExactly(s: bytes, x: bytes)
    requires |s| == 4 && 1 <= |x| <= 3
    ensures DecodeGroup(s) == Some(x) <==> s == GroupOf(x)
  {
    if s == GroupOf(x) {
      GroupDecodes(x);
    }
    if DecodeGroup(s) == Some(x) {
      GroupEncodes(s);
    }
  }

  lemma GroupDecodes(x: bytes)
    requires 1 <= |x| <= 3
    ensures |GroupOf(x)| == 4 && DecodeGroup(GroupOf(x)) == Some(x)
  {
    hide EncodeGroup, CharOf, ValueOf;
    var a, b, c := x[0], if |x| > 1 then x[1] else 0, if |x| > 2 then x[2] else 0;
    GroupSextets(a, b, c);
    var v0: sextet, v1: sextet, v2: sextet, v3: sextet := a / 4, a % 4 * 16 + b / 16, b % 16 * 4 + c / 64, c % 64;
    CharValue(CharOf(v0), v0);
    CharValue(CharOf(v1), v1);
    CharValue(CharOf(v2), v2);
    CharValue(CharOf(v3), v3);
    SextetsBack(a, b, c);
    var q := EncodeGroup(a, b, c);
    Padded(q);
    if |x| == 1 {
      assert GroupOf(x) == [q[0], q[1], PAD, PAD] && x == [a];
    } else if |x| == 2 {
      assert GroupOf(x) == [q[0], q[1], q[2], PAD] && x == [a, b];
    } else {
      assert x == [a, b, c];
    }
  }

  lemma SextetsBack(a: byte, b: byte, c: byte)
    ensures a / 4 * 4 + (a % 4 * 16 + b / 16) / 16 == a
    ensures (a % 4 * 16 + b / 16) % 16 * 16 + (b % 16 * 4 + c / 64) / 4 == b
    ensures (b % 16 * 4 + c / 64) % 4 * 64 + c % 64 == c
    ensures b == 0 ==> (a % 4 * 16 + b / 16) % 16 == 0
    ensures c == 0 ==> (b % 16 * 4 + c / 64) % 4 == 0
  {
  }

  lemma GroupEncodes(s: bytes)
    requires |s| == 4 && DecodeGroup(s).Some?
    ensures GroupOf(DecodeGroup(s).value) == s
  {
    hide EncodeGroup, CharOf, ValueOf;
    var x := DecodeGroup(s).value;
    var v0, v1 := ValueOf(s[0]).value, ValueOf(s[1]).value;
    var v2: sextet := if |x| > 1 then ValueOf(s[2]).value else 0;
    var v3: sextet := if |x| > 2 then ValueOf(s[3]).value else 0;
    CharValue(s[0], v0);
    CharValue(s[1], v1);
    CharValue(s[2], v2);
    CharValue(s[3], v3);
    var a, b, c := x[0], if |x| > 1 then x[1] else 0, if |x| > 2 then x[2] else 0;
    BytesBack(v0, v1, v2, v3);
    GroupSextets(a, b, c);
  }

  lemma BytesBack(v0: sextet, v1: sextet, v2: sextet, v3: sextet)
    ensures var a := v0 * 4 + v1 / 16;
            var b := v1 % 16 * 16 + v2 / 4;
            var c := v2 % 4 * 64 + v3;
            && a / 4 == v0 && a % 4 * 16 + b / 16 == v1
            && b % 16 * 4 + c / 64 == v2 && c % 64 == v3
  {
  }

  lemma EncodeStep(x: bytes)
    requires |x| > 0
    ensures var g := if |x| < 3 then x else x[..3];
            Encode(x) == GroupOf(g) + Encode(x[|g|..])
  {
    hide EncodeGroup;
    var g := if |x| < 3 then x else x[..3];
    if |x| < 3 {
      assert x[|g|..] == [];
    }
  }

  lemma DecodeStep(s: bytes)
    requires |s| >= 4
    ensures var g := DecodeGroup(s[..4]);
            var rest := Decode(s[4..]);
            Decode(s) == if g.None? then None
                         else if |s| == 4 then g
                         else if |g.value| < 3 || rest.None? then None
                         else Some(g.value + rest.value)
  {
    hide DecodeGroup;
  }

  lemma DecodeShort(s: bytes)
    requires |s| < 4
    ensures Decode(s) == if s == [] then Some([]) else None
  {
  }

  lemma DecodeGroupAlone(g: bytes)
    requires 1 <= |g| <= 3
    ensures Decode(GroupOf(g)) == Some(g)
  {
    hide DecodeGroup, GroupOf, Decode;
    GroupLength(g);
    DecodeGroupExactly(GroupOf(g), g);
    DecodeStep(GroupOf(g));
    assert GroupOf(g)[..4] == GroupOf(g);
  }

  lemma DecodeFirst(g: bytes, rest: bytes)
    requires |g| == 3 && |rest| > 0 && Decode(rest).Some?
    ensures Decode(GroupOf(g) + rest) == Some(g + Decode(rest).value)
  {
    hide DecodeGroup, GroupOf, Decode;
    GroupLength(g);
    DecodeGroupExactly(GroupOf(g), g);
    var s := GroupOf(g) + rest;
    assert s[..4] == GroupOf(g) && s[4..] == rest;
    DecodeStep(s);
  }

  lemma {:induction false} EncodedDecodes(x: bytes)
    ensures Decode(Encode(x)) == Some(x)
    decreases |x|
  {
    hide DecodeGroup, GroupOf, Encode, Decode;
    if |x| == 0 {
      EncodeEmpty();
      DecodeShort([]);
      assert x == [];
    } else if |x| <= 3 {
      EncodeThreeOrLess(x);
      DecodeGroupAlone(x);
    } else {
      var g, rest := x[..3], x[3..];
      assert x == g + rest;
      EncodeFirst(g, rest);
      EncodedDecodes(rest);
      EncodeLength(rest);
      DecodeFirst(g, Encode(rest));
    }
  }

  lemma GroupLength(x: bytes)
    requires 1 <= |x| <= 3
    ensures |GroupOf(x)| == 4
  {
  }

  lemma EncodeFirst(g: bytes, rest: bytes)
    requires |g| == 3 || (1 <= |g| < 3 && rest == [])
    ensures Encode(g + rest) == GroupOf(g) + Encode(rest)
  {
    hide GroupOf, Encode;
    EncodeStep(g + rest);
    if |g| == 3 {
      assert (g + rest)[..3] == g && (g + rest)[3..] == rest;
    } else {
      assert g + rest == g && g[|g|..] == rest;
    }
  }

  lemma {:induction false} DecodedEncodes(s: bytes)
    requires Decode(s).Some?
    ensures Encode(Decode(s).value) == s
    decreases |s|
  {
    hide DecodeGroup, GroupOf, Encode, Decode;
    if |s| < 4 {
      DecodeShort(s);
      EncodeEmpty();
    } else {
      DecodeStep(s);
      var g := DecodeGroup(s[..4]).value;
      DecodeGroupExactly(s[..4], g);
      if |s| == 4 {
        assert s[..4] == s;
        EncodeThreeOrLess(g);
      } else {
        DecodedEncodes(s[4..]);
        EncodeFirst(g, Decode(s[4..]).value);
        assert s == s[..4] + s[4..];
      }
    }
  }

  lemma EncodeThreeOrLess(g: bytes)
    requires 1 <= |g| <= 3
    ensures Encode(g) == GroupOf(g)
  {
    hide GroupOf, Encode;
    EncodeFirst(g, []);
    EncodeEmpty();
    assert g + [] == g && GroupOf(g) + [] == GroupOf(g);
  }

  /** The decoder accepts exactly what the encoder writes, and gives back what it was given. */
  lemma DecodeExactly(s: bytes, x: bytes)
    ensures Decode(s) == Some(x) <==> s == Encode(x)
  {
    hide Decode, Encode;
    EncodedDecodes(x);
    if Decode(s) == Some(x) {
      DecodedEncodes(s);
    }
  }
}
