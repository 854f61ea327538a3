/**
 * The atob/btoa replacements installed by the hand-detection worker
 * (hooks/handDetection.worker.ts). Strings are JavaScript strings, that is
 * sequences of UTF-16 code units; the integer operators are JavaScript's
 * two's-complement ones, so inputs outside the Base64 alphabet and code units
 * above 255 behave exactly as the code makes them behave. On Latin-1 input the
 * encoder is the one of section 4 of RFC 4648 with the "=" padding of
 * section 3.2, and the decoder inverts it.
 */
module Base64 {

  /** One UTF-16 code unit, the element of a JavaScript string. */
  type CodeUnit = c: int | 0 <= c < 0x1_0000

  type JsString = seq<CodeUnit>

  /** "=" */
  const PAD: CodeUnit := 61

  /** The text JavaScript produces for `undefined` and for `undefined + undefined`. */
  const UNDEFINED_TEXT: JsString := [117, 110, 100, 101, 102, 105, 110, 101, 100]
  const NAN_TEXT: JsString := [78, 97, 78]

  function Min(a: int, b: int): int
  {
    if a < b then a else b
  }

  function Abs(x: int): nat
  {
    if x < 0 then -x else x
  }

  function Pow2(k: nat): (p: nat)
    ensures p >= 1
  {
    if k == 0 then 1 else 2 * Pow2(k - 1)
  }

  lemma Pow2Values()
    ensures Pow2(2) == 4 && Pow2(4) == 16 && Pow2(6) == 64
  {
  }

  // ------------------------------------------------ JavaScript integer operators

  /** x << k, for operands far from the 32-bit limit (all operands here are below 2^16). */
  function ShiftLeft(x: int, k: nat): int
  {
    x * Pow2(k)
  }

  /** x >> k: the sign-propagating shift is division by 2^k rounded toward negative infinity, which is Dafny's division by a positive divisor. */
  function ShiftRight(x: int, k: nat): int
  {
    x / Pow2(k)
  }

  /** The sign-propagating shift rounds toward negative infinity: x >> k is the largest r with r * 2^k <= x. */
  lemma ShiftRightIsFloor(x: int, k: nat)
    ensures ShiftRight(x, k) * Pow2(k) <= x < (ShiftRight(x, k) + 1) * Pow2(k)
  {
  }

  /** x & (2^k - 1): the low k bits of the two's-complement value, which is the non-negative remainder modulo 2^k, of a negative x as well. */
  function LowBits(x: int, k: nat): (r: int)
    ensures 0 <= r < Pow2(k)
  {
    x % Pow2(k)
  }

  /** x | y on two's-complement integers, one bit at a time from the least significant end. */
  function BitOr(x: int, y: int): int
    decreases Abs(x) + Abs(y)
  {
    if (x == 0 || x == -1) && (y == 0 || y == -1) then
      (if x == -1 || y == -1 then -1 else 0)
    else
      2 * BitOr(x / 2, y / 2) + (if x % 2 == 1 || y % 2 == 1 then 1 else 0)
  }

  lemma {:induction false} BitOrZero(x: int)
    ensures BitOr(x, 0) == x
    decreases Abs(x)
  {
    if x != 0 && x != -1 {
      BitOrZero(x / 2);
    }
  }

  lemma {:induction false} BitOrAllOnes(x: int)
    ensures BitOr(x, -1) == -1
    decreases Abs(x)
  {
    if x != 0 && x != -1 {
      BitOrAllOnes(x / 2);
    }
  }

  /** OR of a value shifted left by k with a value below 2^k is their sum: the bits do not overlap. */
  lemma {:induction false} BitOrDisjoint(a: int, y: int, k: nat)
    requires 0 <= y < Pow2(k)
    ensures BitOr(ShiftLeft(a, k), y) == ShiftLeft(a, k) + y
  {
    var x := ShiftLeft(a, k);
    if y == 0 {
      BitOrZero(x);
    } else {
      assert Pow2(k) == 2 * Pow2(k - 1);
      assert x == 2 * ShiftLeft(a, k - 1);
      BitOrDisjoint(a, y / 2, k - 1);
    }
  }

  /** String.fromCharCode: the number is reduced to 16 bits. */
  function FromCharCode(x: int): CodeUnit
  {
    x % 0x1_0000
  }

  // ------------------------------------------------------------ the alphabet

  /** base64Chars[i]: "A".."Z" (65..90), "a".."z" (97..122), "0".."9" (48..57), "+" (43), "/" (47). */
  function Symbol(i: int): (c: CodeUnit)
    requires 0 <= i < 64
  {
    if i < 26 then 65 + i
    else if i < 52 then 71 + i
    else if i < 62 then i - 4
    else if i == 62 then 43
    else 47
  }

  /** base64Chars.indexOf(c) for a single code unit c: its position, or -1. */
  function IndexOf(c: int): (r: int)
    ensures -1 <= r < 64
  {
    if 65 <= c <= 90 then c - 65
    else if 97 <= c <= 122 then c - 71
    else if 48 <= c <= 57 then c + 4
    else if c == 43 then 62
    else if c == 47 then 63
    else -1
  }

  /** IndexOf and Symbol are inverse: a unit is found exactly when it is a symbol, at that symbol's position. */
  lemma SymbolIndexInverse()
    ensures forall i :: 0 <= i < 64 ==> IndexOf(Symbol(i)) == i
    ensures forall c :: IndexOf(c) >= 0 ==> Symbol(IndexOf(c)) == c
    ensures IndexOf(PAD) == -1
  {
  }

  lemma IndexOfSymbol(i: int)
    requires 0 <= i < 64
    ensures IndexOf(Symbol(i)) == i
  {
  }

  /** The characters the decoder's clean-up keeps: the alphabet and "=". */
  predicate IsKept(c: int)
  {
    IndexOf(c) >= 0 || c == PAD
  }

  /** base64.replace(/[^A-Za-z0-9+/=]/g, "") */
  function Clean(s: JsString): (r: JsString)
    ensures |r| <= |s|
    ensures forall j :: 0 <= j < |r| ==> IsKept(r[j])
  {
    if s == [] then [] else (if IsKept(s[0]) then [s[0]] else []) + Clean(s[1..])
  }

  lemma {:induction false} CleanConcat(a: JsString, b: JsString)
    ensures Clean(a + b) == Clean(a) + Clean(b)
  {
    if a != [] {
      assert (a + b)[0] == a[0];
      assert (a + b)[1..] == a[1..] + b;
      CleanConcat(a[1..], b);
      var head := if IsKept(a[0]) then [a[0]] else [];
      assert Clean(a + b) == head + (Clean(a[1..]) + Clean(b));
      assert Clean(a) == head + Clean(a[1..]);
      assert head + (Clean(a[1..]) + Clean(b)) == (head + Clean(a[1..])) + Clean(b);
    } else {
      assert a + b == b;
    }
  }

  lemma {:induction false} CleanKeepsKept(s: JsString)
    requires forall j :: 0 <= j < |s| ==> IsKept(s[j])
    ensures Clean(s) == s
  {
    if s != [] {
      CleanKeepsKept(s[1..]);
    }
  }

  // ---------------------------------------------------------------- decoding

  /** indexOf of the unit at position j, or -1 past the end (indexOf(undefined)). */
  function EncAt(c: JsString, j: nat): int
  {
    if j < |c| then IndexOf(c[j]) else -1
  }

  /** What one iteration of the decoding loop appends for the four looked-up indices. */
  function DecodeGroup(enc1: int, enc2: int, enc3: int, enc4: int): JsString
  {
    DecodedUnits(Chr1(enc1, enc2), Chr2(enc2, enc3), Chr3(enc3, enc4), enc3, enc4)
  }

  /** chr1: the six bits of enc1 followed by the top two of enc2. */
  function Chr1(enc1: int, enc2: int): int
  {
    BitOr(ShiftLeft(enc1, 2), ShiftRight(enc2, 4))
  }

  /** chr2: the low four bits of enc2 followed by the top four of enc3. */
  function Chr2(enc2: int, enc3: int): int
  {
    BitOr(ShiftLeft(LowBits(enc2, 4), 4), ShiftRight(enc3, 2))
  }

  /** chr3: the low two bits of enc3 followed by enc4. */
  function Chr3(enc3: int, enc4: int): int
  {
    BitOr(ShiftLeft(LowBits(enc3, 2), 6), enc4)
  }

  /** The units one group appends: chr1 always, chr2 only when enc3 and chr3 only when enc4 is neither 64 nor -1 (padding and a position past the end read as -1). */
  function DecodedUnits(chr1: int, chr2: int, chr3: int, enc3: int, enc4: int): JsString
  {
    [FromCharCode(chr1)]
    + (if enc3 != 64 && enc3 != -1 then [FromCharCode(chr2)] else [])
    + (if enc4 != 64 && enc4 != -1 then [FromCharCode(chr3)] else [])
  }

  /** The decoding loop over an already cleaned string, four units per iteration. */
  function DecodeClean(c: JsString): JsString
    decreases |c|
  {
    if c == [] then []
    else DecodeGroup(EncAt(c, 0), EncAt(c, 1), EncAt(c, 2), EncAt(c, 3)) + DecodeClean(c[Min(4, |c|)..])
  }

  /** atob */
  function Decode(s: JsString): JsString
  {
    DecodeClean(Clean(s))
  }

  method Atob(base64: JsString) returns (result: JsString)
    ensures result == Decode(base64)
  {
    var clean := Clean(base64);
    result := [];
    var i := 0;
    while i < |clean|
      invariant 0 <= i
      invariant result + DecodeClean(clean[Min(i, |clean|)..]) == DecodeClean(clean)
      decreases |clean| - i
    {
      var enc1 := IndexOf(clean[i]);
      var enc2 := if i + 1 < |clean| then IndexOf(clean[i + 1]) else -1;
      var enc3 := if i + 2 < |clean| then IndexOf(clean[i + 2]) else -1;
      var enc4 := if i + 3 < |clean| then IndexOf(clean[i + 3]) else -1;

      var chr1 := Chr1(enc1, enc2);
      var chr2 := Chr2(enc2, enc3);
      var chr3 := Chr3(enc3, enc4);

      ghost var before := result;
      result := result + [FromCharCode(chr1)];
      ghost var mid1 := result;
      if enc3 != 64 && enc3 != -1 {
        result := result + [FromCharCode(chr2)];
      }
      ghost var mid2 := result;
      if enc4 != 64 && enc4 != -1 {
        result := result + [FromCharCode(chr3)];
      }
      AppendedUnits(before, mid1, mid2, result, chr1, chr2, chr3, enc3, enc4);
      assert enc2 == EncAt(clean, i + 1) && enc3 == EncAt(clean, i + 2) && enc4 == EncAt(clean, i + 3);
      DecodeInvariantStep(clean, i, before, result);
      i := i + 4;
    }
    assert clean[Min(i, |clean|)..] == [];
  }

  /** The three conditional appends of one iteration add exactly the group's units. */
  lemma AppendedUnits(before: JsString, mid1: JsString, mid2: JsString, result: JsString,
                      chr1: int, chr2: int, chr3: int, enc3: int, enc4: int)
    requires mid1 == before + [FromCharCode(chr1)]
    requires mid2 == if enc3 != 64 && enc3 != -1 then mid1 + [FromCharCode(chr2)] else mid1
    requires result == if enc4 != 64 && enc4 != -1 then mid2 + [FromCharCode(chr3)] else mid2
    ensures result == before + DecodedUnits(chr1, chr2, chr3, enc3, enc4)
  {
    var part1 := [FromCharCode(chr1)];
    var part2 := if enc3 != 64 && enc3 != -1 then [FromCharCode(chr2)] else [];
    var part3 := if enc4 != 64 && enc4 != -1 then [FromCharCode(chr3)] else [];
    assert mid2 == before + part1 + part2;
    assert result == before + part1 + part2 + part3;
    Associate(before, part1, part2, part3);
  }

  /** Appending the group at i to the output keeps the loop invariant for i + 4. */
  lemma DecodeInvariantStep(clean: JsString, i: nat, before: JsString, result: JsString)
    requires i < |clean|
    requires before + DecodeClean(clean[Min(i, |clean|)..]) == DecodeClean(clean)
    requires result == before + DecodeGroup(IndexOf(clean[i]), EncAt(clean, i + 1), EncAt(clean, i + 2), EncAt(clean, i + 3))
    ensures result + DecodeClean(clean[Min(i + 4, |clean|)..]) == DecodeClean(clean)
  {
    var g := DecodeGroup(IndexOf(clean[i]), EncAt(clean, i + 1), EncAt(clean, i + 2), EncAt(clean, i + 3));
    DecodeCleanStep(clean, i);
    Associate3(before, g, DecodeClean(clean[Min(i + 4, |clean|)..]));
  }

  /** One iteration of the decoding loop peels one group off the remaining input. */
  lemma DecodeCleanStep(clean: JsString, i: nat)
    requires i < |clean|
    ensures DecodeClean(clean[Min(i, |clean|)..]) ==
      DecodeGroup(IndexOf(clean[i]), EncAt(clean, i + 1), EncAt(clean, i + 2), EncAt(clean, i + 3))
        + DecodeClean(clean[Min(i + 4, |clean|)..])
  {
    var rest := clean[i..];
    assert clean[Min(i, |clean|)..] == rest;
    assert EncAt(rest, 0) == IndexOf(clean[i]) && EncAt(rest, 1) == EncAt(clean, i + 1);
    assert EncAt(rest, 2) == EncAt(clean, i + 2) && EncAt(rest, 3) == EncAt(clean, i + 3);
    assert rest[Min(4, |rest|)..] == clean[Min(i + 4, |clean|)..];
  }

  lemma Associate(a: JsString, b: JsString, c: JsString, d: JsString)
    ensures a + b + c + d == a + (b + c + d)
  {
  }

  lemma Associate3(a: JsString, b: JsString, c: JsString)
    ensures a + b + c == a + (b + c)
  {
  }

  lemma IndexOfNever64(c: int)
    ensures IndexOf(c) != 64
  {
  }

  // ---------------------------------------------------------------- encoding

  /** base64Chars[e]: undefined outside 0..63. */
  function Lookup(e: int): (r: JsString)
    ensures 0 <= e < 64 ==> r == [Symbol(e)]
    ensures !(0 <= e < 64) ==> r == UNDEFINED_TEXT
  {
    if 0 <= e < 64 then [Symbol(e)] else UNDEFINED_TEXT
  }

  /** base64Chars[e1] + base64Chars[e2]: two undefined operands add up to NaN. */
  function LookupPair(e1: int, e2: int): JsString
  {
    if !(0 <= e1 < 64) && !(0 <= e2 < 64) then NAN_TEXT else Lookup(e1) + Lookup(e2)
  }

  /** The unit at j, or 0 past the end (the guarded str.charCodeAt of the loop). */
  function UnitAt(s: JsString, j: nat): CodeUnit
  {
    if j < |s| then s[j] else 0
  }

  /** What one iteration of the encoding loop appends, `count` being how many of the three units exist. */
  function EncodeGroup(byte1: int, byte2: int, byte3: int, count: nat): JsString
  {
    EncodedUnits(Enc1(byte1), Enc2(byte1, byte2), Enc3(byte2, byte3), Enc4(byte3), count)
  }

  function Enc1(byte1: int): int
  {
    ShiftRight(byte1, 2)
  }

  function Enc2(byte1: int, byte2: int): int
  {
    BitOr(ShiftLeft(LowBits(byte1, 2), 4), ShiftRight(byte2, 4))
  }

  function Enc3(byte2: int, byte3: int): int
  {
    BitOr(ShiftLeft(LowBits(byte2, 4), 2), ShiftRight(byte3, 6))
  }

  function Enc4(byte3: int): int
  {
    LowBits(byte3, 6)
  }

  function EncodedUnits(enc1: int, enc2: int, enc3: int, enc4: int, count: nat): JsString
  {
    LookupPair(enc1, enc2)
    + (if count > 1 then Lookup(enc3) else [PAD])
    + (if count > 2 then Lookup(enc4) else [PAD])
  }

  /** btoa */
  function Encode(s: JsString): JsString
    decreases |s|
  {
    if s == [] then []
    else EncodeGroup(s[0], UnitAt(s, 1), UnitAt(s, 2), Min(3, |s|)) + Encode(s[Min(3, |s|)..])
  }

  /** One iteration of the encoding loop peels one group off the remaining input. */
  lemma EncodeStep(str: JsString, i: nat)
    requires i < |str|
    ensures Encode(str[Min(i, |str|)..]) ==
      EncodeGroup(str[i], UnitAt(str, i + 1), UnitAt(str, i + 2), Min(3, |str| - i))
        + Encode(str[Min(i + 3, |str|)..])
  {
    var rest := str[i..];
    assert str[Min(i, |str|)..] == rest;
    assert UnitAt(rest, 1) == UnitAt(str, i + 1) && UnitAt(rest, 2) == UnitAt(str, i + 2);
    assert rest[Min(3, |rest|)..] == str[Min(i + 3, |str|)..];
  }

  method Btoa(str: JsString) returns (result: JsString)
    ensures result == Encode(str)
  {
    result := [];
    var i := 0;
    while i < |str|
      invariant 0 <= i
      invariant result + Encode(str[Min(i, |str|)..]) == Encode(str)
      decreases |str| - i
    {
      var byte1 := str[i];
      var byte2 := if i + 1 < |str| then str[i + 1] else 0;
      var byte3 := if i + 2 < |str| then str[i + 2] else 0;

      var enc1 := Enc1(byte1);
      var enc2 := Enc2(byte1, byte2);
      var enc3 := Enc3(byte2, byte3);
      var enc4 := Enc4(byte3);

      assert byte2 == UnitAt(str, i + 1) && byte3 == UnitAt(str, i + 2);
      ghost var after := str[Min(i + 3, |str|)..];
      EncodeStep(str, i);
      ghost var before := result;
      ghost var part1 := LookupPair(enc1, enc2);
      ghost var part2 := if i + 1 < |str| then Lookup(enc3) else [PAD];
      ghost var part3 := if i + 2 < |str| then Lookup(enc4) else [PAD];

      result := result + LookupPair(enc1, enc2);
      result := result + (if i + 1 < |str| then Lookup(enc3) else [PAD]);
      result := result + (if i + 2 < |str| then Lookup(enc4) else [PAD]);
      assert EncodeGroup(byte1, byte2, byte3, Min(3, |str| - i)) == part1 + part2 + part3;
      Associate(before, part1, part2, part3);
      Associate3(before, part1 + part2 + part3, Encode(after));
      i := i + 3;
    }
    assert str[Min(i, |str|)..] == [];
  }

  // --------------------------------------------------------- Latin-1 strings

  /** Every code unit fits in one byte: the strings btoa is meant for. */
  predicate IsLatin1(s: JsString)
  {
    forall j :: 0 <= j < |s| ==> s[j] < 256
  }

  /**
   * Section 4 of RFC 4648 for one group of up to three octets: the four
   * 6-bit slices of the 24-bit group, a missing octet counting as zero bits,
   * and "=" (section 3.2) in place of each slice that holds no input bit.
   */
  function RfcGroup(b1: int, b2: int, b3: int, count: nat): (g: JsString)
    requires 0 <= b1 < 256 && 0 <= b2 < 256 && 0 <= b3 < 256
    ensures |g| == 4
  {
    [Symbol(b1 / 4), Symbol(16 * (b1 % 4) + b2 / 16),
     if count > 1 then Symbol(4 * (b2 % 16) + b3 / 64) else PAD,
     if count > 2 then Symbol(b3 % 64) else PAD]
  }

  /** The RFC 4648 encoding of a string of octets, one group of three at a time. */
  function RfcEncode(s: JsString): JsString
    requires IsLatin1(s)
    decreases |s|
  {
    if s == [] then []
    else RfcGroup(s[0], UnitAt(s, 1), UnitAt(s, 2), Min(3, |s|)) + RfcEncode(s[Min(3, |s|)..])
  }

  /** On byte values the shifts and masks split three bytes into the four 6-bit slices of RFC 4648. */
  lemma EncodeGroupLatin1(b1: int, b2: int, b3: int, count: nat)
    requires 0 <= b1 < 256 && 0 <= b2 < 256 && 0 <= b3 < 256
    ensures EncodeGroup(b1, b2, b3, count) == RfcGroup(b1, b2, b3, count)
  {
    Enc1OfByte(b1);
    Enc2OfBytes(b1, b2);
    Enc3OfBytes(b2, b3);
    Enc4OfByte(b3);
    EncodedUnitsOfPositions(b1 / 4, 16 * (b1 % 4) + b2 / 16, 4 * (b2 % 16) + b3 / 64, b3 % 64, count);
  }

  /** btoa is the RFC 4648 encoding on Latin-1 strings. */
  lemma {:induction false} EncodeIsRfc(s: JsString)
    requires IsLatin1(s)
    ensures Encode(s) == RfcEncode(s)
    decreases |s|
  {
    if s != [] {
      var n := Min(3, |s|);
      Latin1Suffix(s, n);
      EncodeGroupLatin1(s[0], UnitAt(s, 1), UnitAt(s, 2), n);
      EncodeIsRfc(s[n..]);
    }
  }

  lemma EncodedUnitsOfPositions(e1: int, e2: int, e3: int, e4: int, count: nat)
    requires 0 <= e1 < 64 && 0 <= e2 < 64 && 0 <= e3 < 64 && 0 <= e4 < 64
    ensures EncodedUnits(e1, e2, e3, e4, count) ==
      [Symbol(e1), Symbol(e2), if count > 1 then Symbol(e3) else PAD, if count > 2 then Symbol(e4) else PAD]
  {
  }

  lemma Enc1OfByte(b1: int)
    requires 0 <= b1 < 256
    ensures Enc1(b1) == b1 / 4
  {
    Pow2Values();
  }

  lemma Enc2OfBytes(b1: int, b2: int)
    requires 0 <= b1 < 256 && 0 <= b2 < 256
    ensures Enc2(b1, b2) == 16 * (b1 % 4) + b2 / 16
  {
    Pow2Values();
    BitOrDisjoint(b1 % 4, b2 / 16, 4);
  }

  lemma Enc3OfBytes(b2: int, b3: int)
    requires 0 <= b2 < 256 && 0 <= b3 < 256
    ensures Enc3(b2, b3) == 4 * (b2 % 16) + b3 / 64
  {
    Pow2Values();
    BitOrDisjoint(b2 % 16, b3 / 64, 2);
  }

  lemma Enc4OfByte(b3: int)
    ensures Enc4(b3) == b3 % 64
  {
    Pow2Values();
  }

  /** A unit of the 64-symbol alphabet. */
  predicate InAlphabet(c: int)
  {
    IndexOf(c) >= 0
  }

  /** An RFC 4648 group is four units: two symbols, then a symbol or "=" for each missing octet. */
  lemma RfcGroupShape(b1: int, b2: int, b3: int, count: nat)
    requires 0 <= b1 < 256 && 0 <= b2 < 256 && 0 <= b3 < 256
    ensures var g := RfcGroup(b1, b2, b3, count);
      InAlphabet(g[0]) && InAlphabet(g[1]) &&
      (if count > 1 then InAlphabet(g[2]) else g[2] == PAD) &&
      (if count > 2 then InAlphabet(g[3]) else g[3] == PAD)
  {
    IndexOfSymbol(b1 / 4);
    IndexOfSymbol(16 * (b1 % 4) + b2 / 16);
    IndexOfSymbol(4 * (b2 % 16) + b3 / 64);
    IndexOfSymbol(b3 % 64);
  }

  /** One encoded group is four units: two symbols, then a symbol or "=" for each missing byte. */
  lemma EncodeGroupShape(b1: int, b2: int, b3: int, count: nat)
    requires 0 <= b1 < 256 && 0 <= b2 < 256 && 0 <= b3 < 256
    ensures var g := EncodeGroup(b1, b2, b3, count);
      |g| == 4 && InAlphabet(g[0]) && InAlphabet(g[1]) &&
      (if count > 1 then InAlphabet(g[2]) else g[2] == PAD) &&
      (if count > 2 then InAlphabet(g[3]) else g[3] == PAD)
  {
    EncodeGroupLatin1(b1, b2, b3, count);
    RfcGroupShape(b1, b2, b3, count);
  }

  /** Dropping one group of up to three units leaves one group fewer, and the same number of "=" unless it was the last group. */
  lemma GroupCountStep3(m: nat)
    requires m >= 1
    ensures (m + 2) / 3 == (m - Min(3, m) + 2) / 3 + 1
    ensures m > 3 ==> (3 - m % 3) % 3 == (3 - (m - 3) % 3) % 3
    ensures m <= 3 ==> (3 - m % 3) % 3 == 3 - m
  {
    if m > 3 {
      assert m + 2 == (m - 3 + 2) + 3;
      assert m == (m - 3) + 3;
    }
  }

  /** The first four units of the encoding encode the first group; the rest encodes the remaining units. */
  lemma RfcFirstGroup(s: JsString)
    requires IsLatin1(s) && s != []
    ensures IsLatin1(s[Min(3, |s|)..])
    ensures |RfcEncode(s)| == 4 + |RfcEncode(s[Min(3, |s|)..])|
    ensures RfcEncode(s)[4..] == RfcEncode(s[Min(3, |s|)..])
    ensures InAlphabet(RfcEncode(s)[0]) && InAlphabet(RfcEncode(s)[1])
    ensures if |s| > 1 then InAlphabet(RfcEncode(s)[2]) else RfcEncode(s)[2] == PAD
    ensures if |s| > 2 then InAlphabet(RfcEncode(s)[3]) else RfcEncode(s)[3] == PAD
  {
    var n := Min(3, |s|);
    Latin1Suffix(s, n);
    RfcGroupShape(s[0], UnitAt(s, 1), UnitAt(s, 2), n);
  }

  lemma {:induction false} RfcLength(s: JsString)
    requires IsLatin1(s)
    ensures |RfcEncode(s)| == 4 * ((|s| + 2) / 3)
    decreases |s|
  {
    if s != [] {
      RfcFirstGroup(s);
      RfcLength(s[Min(3, |s|)..]);
      GroupCountStep3(|s|);
    }
  }

  lemma {:induction false} RfcSymbols(s: JsString)
    requires IsLatin1(s)
    ensures forall j :: 0 <= j < |RfcEncode(s)| - (3 - |s| % 3) % 3 ==> InAlphabet(RfcEncode(s)[j])
    decreases |s|
  {
    if s != [] {
      var rest := s[Min(3, |s|)..];
      RfcFirstGroup(s);
      GroupCountStep3(|s|);
      if |s| > 3 {
        RfcSymbols(rest);
        SymbolsOfSuffix(RfcEncode(s), RfcEncode(rest), (3 - |s| % 3) % 3);
      } else {
        assert rest == [] && |RfcEncode(s)| == 4;
      }
    }
  }

  lemma {:induction false} RfcPadding(s: JsString)
    requires IsLatin1(s)
    ensures forall j :: |RfcEncode(s)| - (3 - |s| % 3) % 3 <= j < |RfcEncode(s)| ==> RfcEncode(s)[j] == PAD
    decreases |s|
  {
    if s != [] {
      var rest := s[Min(3, |s|)..];
      RfcFirstGroup(s);
      GroupCountStep3(|s|);
      if |s| > 3 {
        RfcPadding(rest);
        RfcLength(rest);
        PaddingOfSuffix(RfcEncode(s), RfcEncode(rest), (3 - |s| % 3) % 3);
      } else {
        assert rest == [] && |RfcEncode(s)| == 4;
      }
    }
  }

  lemma SymbolsOfSuffix(e: JsString, r: JsString, pads: int)
    requires |e| >= 4 && e[4..] == r && 0 <= pads
    requires forall j :: 0 <= j < 4 ==> InAlphabet(e[j])
    requires forall j :: 0 <= j < |r| - pads ==> InAlphabet(r[j])
    ensures forall j :: 0 <= j < |e| - pads ==> InAlphabet(e[j])
  {
    forall j | 0 <= j < |e| - pads
      ensures InAlphabet(e[j])
    {
      if j >= 4 {
        assert e[j] == r[j - 4];
      }
    }
  }

  lemma PaddingOfSuffix(e: JsString, r: JsString, pads: int)
    requires |e| >= 4 && e[4..] == r && 0 <= pads <= |r|
    requires forall j :: |r| - pads <= j < |r| ==> r[j] == PAD
    ensures forall j :: |e| - pads <= j < |e| ==> e[j] == PAD
  {
    forall j | |e| - pads <= j < |e|
      ensures e[j] == PAD
    {
      assert e[j] == r[j - 4];
    }
  }

  /** btoa of n Latin-1 units is 4 * ceil(n / 3) units long. */
  lemma EncodeLength(s: JsString)
    requires IsLatin1(s)
    ensures |Encode(s)| == 4 * ((|s| + 2) / 3)
  {
    EncodeIsRfc(s);
    RfcLength(s);
  }

  /** Every unit of btoa's output before the final (3 - n mod 3) mod 3 is an alphabet symbol. */
  lemma EncodeSymbols(s: JsString)
    requires IsLatin1(s)
    ensures forall j :: 0 <= j < |Encode(s)| - (3 - |s| % 3) % 3 ==> InAlphabet(Encode(s)[j])
  {
    EncodeIsRfc(s);
    RfcSymbols(s);
  }

  /** The final (3 - n mod 3) mod 3 units of btoa's output are "=". */
  lemma EncodePadding(s: JsString)
    requires IsLatin1(s)
    ensures forall j :: |Encode(s)| - (3 - |s| % 3) % 3 <= j < |Encode(s)| ==> Encode(s)[j] == PAD
  {
    EncodeIsRfc(s);
    RfcPadding(s);
  }

  /** btoa of n Latin-1 units: 4 * ceil(n / 3) units, alphabet symbols followed by (3 - n mod 3) mod 3 "=". */
  lemma EncodeShape(s: JsString)
    requires IsLatin1(s)
    ensures |Encode(s)| == 4 * ((|s| + 2) / 3)
    ensures forall j :: 0 <= j < |Encode(s)| - (3 - |s| % 3) % 3 ==> InAlphabet(Encode(s)[j])
    ensures forall j :: |Encode(s)| - (3 - |s| % 3) % 3 <= j < |Encode(s)| ==> Encode(s)[j] == PAD
  {
    EncodeLength(s);
    EncodeSymbols(s);
    EncodePadding(s);
  }

  /** Every unit btoa emits for Latin-1 input survives atob's clean-up. */
  lemma EncodeIsKept(s: JsString)
    requires IsLatin1(s)
    ensures forall j :: 0 <= j < |Encode(s)| ==> IsKept(Encode(s)[j])
  {
    EncodeShape(s);
  }

  /** Dividing m * q + r by m, for 0 <= r < m, gives back q with remainder r. */
  lemma DivModOfSum(q: int, r: int, m: int)
    requires 0 <= r < m
    requires m == 4 || m == 16
    ensures (m * q + r) / m == q && (m * q + r) % m == r
  {
    if m == 4 {
      assert (4 * q + r) / 4 == q && (4 * q + r) % 4 == r;
    } else {
      assert (16 * q + r) / 16 == q && (16 * q + r) % 16 == r;
    }
  }

  /** The first decoded unit of a group rebuilds the first byte from the first two 6-bit positions. */
  lemma FirstUnitOfGroup(b1: int, b2: int)
    requires 0 <= b1 < 256 && 0 <= b2 < 256
    ensures Chr1(b1 / 4, 16 * (b1 % 4) + b2 / 16) == b1
  {
    var e2 := 16 * (b1 % 4) + b2 / 16;
    DivModOfSum(b1 % 4, b2 / 16, 16);
    Pow2Values();
    BitOrDisjoint(b1 / 4, b1 % 4, 2);
  }

  /** The second decoded unit rebuilds the second byte from the second and third positions. */
  lemma SecondUnitOfGroup(b1: int, b2: int, b3: int)
    requires 0 <= b1 < 256 && 0 <= b2 < 256 && 0 <= b3 < 256
    ensures Chr2(16 * (b1 % 4) + b2 / 16, 4 * (b2 % 16) + b3 / 64) == b2
  {
    SlicesOfSecondByte(b1, b2, b3);
    JoinSlices(b2 / 16, b2 % 16, 4);
  }

  /** The second and third positions hold the high and the low four bits of the second byte. */
  lemma SlicesOfSecondByte(b1: int, b2: int, b3: int)
    requires 0 <= b1 < 256 && 0 <= b2 < 256 && 0 <= b3 < 256
    ensures LowBits(16 * (b1 % 4) + b2 / 16, 4) == b2 / 16
    ensures ShiftRight(4 * (b2 % 16) + b3 / 64, 2) == b2 % 16
  {
    Pow2Values();
    DivModOfSum(b1 % 4, b2 / 16, 16);
    DivModOfSum(b2 % 16, b3 / 64, 4);
  }

  /** Joining a high part shifted by k with a low part below 2^k. */
  lemma JoinSlices(hi: int, lo: int, k: nat)
    requires 0 <= lo < Pow2(k)
    ensures BitOr(ShiftLeft(hi, k), lo) == hi * Pow2(k) + lo
  {
    BitOrDisjoint(hi, lo, k);
  }

  /** The third decoded unit rebuilds the third byte from the third and fourth positions. */
  lemma ThirdUnitOfGroup(b2: int, b3: int)
    requires 0 <= b2 < 256 && 0 <= b3 < 256
    ensures Chr3(4 * (b2 % 16) + b3 / 64, b3 % 64) == b3
  {
    var e3 := 4 * (b2 % 16) + b3 / 64;
    var hi := b3 / 64;
    var lo := b3 % 64;
    DivModOfSum(b2 % 16, hi, 4);
    Pow2Values();
    BitOrDisjoint(hi, lo, 6);
  }

  /** The units a decoded group appends, given the values of its three OR expressions. */
  lemma DecodedUnitsIs(chr1: int, chr2: int, chr3: int, enc3: int, enc4: int, u1: CodeUnit, u2: CodeUnit, u3: CodeUnit)
    requires chr1 == u1
    requires enc3 != 64 && enc3 != -1 ==> chr2 == u2
    requires enc4 != 64 && enc4 != -1 ==> chr3 == u3
    ensures DecodedUnits(chr1, chr2, chr3, enc3, enc4) ==
      [u1] + (if enc3 != 64 && enc3 != -1 then [u2] else []) + (if enc4 != 64 && enc4 != -1 then [u3] else [])
  {
  }

  /** The decoding of the four positions of one group of bytes gives the bytes back. */
  lemma DecodeGroupOfBytes(b1: int, b2: int, b3: int, count: nat)
    requires 0 <= b1 < 256 && 0 <= b2 < 256 && 0 <= b3 < 256 && 1 <= count <= 3
    ensures DecodeGroup(b1 / 4, 16 * (b1 % 4) + b2 / 16,
                        if count > 1 then 4 * (b2 % 16) + b3 / 64 else -1,
                        if count > 2 then b3 % 64 else -1) ==
      [b1] + (if count > 1 then [b2] else []) + (if count > 2 then [b3] else [])
  {
    var e2 := 16 * (b1 % 4) + b2 / 16;
    var x3 := if count > 1 then 4 * (b2 % 16) + b3 / 64 else -1;
    var x4 := if count > 2 then b3 % 64 else -1;
    UnitsOfGroup(b1, b2, b3, count);
    DecodedUnitsIs(Chr1(b1 / 4, e2), Chr2(e2, x3), Chr3(x3, x4), x3, x4, b1, b2, b3);
  }

  /** The three OR expressions of the decoder, on the positions of an encoded group, are its bytes. */
  lemma UnitsOfGroup(b1: int, b2: int, b3: int, count: nat)
    requires 0 <= b1 < 256 && 0 <= b2 < 256 && 0 <= b3 < 256 && 1 <= count <= 3
    ensures var x3 := if count > 1 then 4 * (b2 % 16) + b3 / 64 else -1;
      var x4 := if count > 2 then b3 % 64 else -1;
      Chr1(b1 / 4, 16 * (b1 % 4) + b2 / 16) == b1 &&
      (x3 != 64 && x3 != -1 ==> Chr2(16 * (b1 % 4) + b2 / 16, x3) == b2) &&
      (x4 != 64 && x4 != -1 ==> Chr3(x3, x4) == b3)
  {
    FirstUnitOfGroup(b1, b2);
    if count > 1 {
      SecondUnitOfGroup(b1, b2, b3);
    }
    if count > 2 {
      ThirdUnitOfGroup(b2, b3);
    }
  }

  /** atob undoes one encoded group. */
  lemma DecodeEncodeGroup(b1: int, b2: int, b3: int, count: nat, r: JsString)
    requires 0 <= b1 < 256 && 0 <= b2 < 256 && 0 <= b3 < 256 && 1 <= count <= 3
    ensures DecodeClean(RfcGroup(b1, b2, b3, count) + r) ==
      [b1] + (if count > 1 then [b2] else []) + (if count > 2 then [b3] else []) + DecodeClean(r)
  {
    var e1 := b1 / 4;
    var e2 := 16 * (b1 % 4) + b2 / 16;
    var e3 := 4 * (b2 % 16) + b3 / 64;
    var e4 := b3 % 64;
    IndexOfSymbol(e1);
    IndexOfSymbol(e2);
    IndexOfSymbol(e3);
    IndexOfSymbol(e4);
    var x3 := if count > 1 then e3 else -1;
    var x4 := if count > 2 then e4 else -1;
    var c := RfcGroup(b1, b2, b3, count) + r;
    assert EncAt(c, 0) == e1 && EncAt(c, 1) == e2;
    assert EncAt(c, 2) == x3 && EncAt(c, 3) == x4;
    assert c[Min(4, |c|)..] == r;
    DecodeGroupOfBytes(b1, b2, b3, count);
  }

  /** The decoding loop inverts the RFC 4648 encoding. */
  lemma {:induction false} DecodeCleanRfc(s: JsString)
    requires IsLatin1(s)
    ensures DecodeClean(RfcEncode(s)) == s
    decreases |s|
  {
    if s != [] {
      var n := Min(3, |s|);
      var rest := s[n..];
      Latin1Suffix(s, n);
      assert s[0] < 256 && UnitAt(s, 1) < 256 && UnitAt(s, 2) < 256;
      DecodeEncodeGroup(s[0], UnitAt(s, 1), UnitAt(s, 2), n, RfcEncode(rest));
      DecodeCleanRfc(rest);
      SplitGroup(s, n);
    }
  }

  /** The decoding loop inverts btoa on Latin-1 strings. */
  lemma DecodeCleanEncode(s: JsString)
    requires IsLatin1(s)
    ensures DecodeClean(Encode(s)) == s
  {
    EncodeIsRfc(s);
    DecodeCleanRfc(s);
  }

  lemma SplitGroup(s: JsString, n: nat)
    requires 1 <= n <= 3 && n <= |s|
    ensures s == [s[0]] + (if n > 1 then [s[1]] else []) + (if n > 2 then [s[2]] else []) + s[n..]
  {
    if n == 1 {
      assert s == [s[0]] + s[1..];
    } else if n == 2 {
      assert s == [s[0]] + [s[1]] + s[2..];
    } else {
      assert s == [s[0]] + [s[1]] + [s[2]] + s[3..];
    }
  }

  lemma Latin1Suffix(s: JsString, n: nat)
    requires IsLatin1(s) && n <= |s|
    ensures IsLatin1(s[n..])
  {
    forall j | 0 <= j < |s| - n ensures s[n..][j] < 256 {
      assert s[n..][j] == s[n + j];
    }
  }

  /** Round trip: atob(btoa(s)) == s for every Latin-1 string. */
  lemma DecodeEncode(s: JsString)
    requires IsLatin1(s)
    ensures Decode(Encode(s)) == s
  {
    EncodeIsKept(s);
    CleanKeepsKept(Encode(s));
    DecodeCleanEncode(s);
  }

  /** Units outside A-Z, a-z, 0-9, "+", "/", "=" are dropped before decoding, wherever they stand. */
  lemma NoiseIsIgnored(a: JsString, c: CodeUnit, b: JsString)
    requires !IsKept(c)
    ensures Decode(a + [c] + b) == Decode(a + b)
  {
    CleanConcat(a + [c], b);
    CleanConcat(a, [c]);
    CleanConcat(a, b);
    assert [c][1..] == [];
    assert Clean([c]) == [] + Clean([]);
    assert Clean(a + [c]) == Clean(a);
    assert Clean(a + [c] + b) == Clean(a + b);
  }

  /** The output holds one unit per group of four, plus one for each third and fourth symbol that is not padding. */
  lemma DecodeGroupLength(enc1: int, enc2: int, enc3: int, enc4: int)
    requires -1 <= enc3 < 64 && -1 <= enc4 < 64
    ensures |DecodeGroup(enc1, enc2, enc3, enc4)| == 1 + (if enc3 != -1 then 1 else 0) + (if enc4 != -1 then 1 else 0)
  {
  }

  /** Between one and three output units per started group of four. */
  lemma {:induction false} DecodedLengthBounds(c: JsString)
    ensures (|c| + 3) / 4 <= |DecodeClean(c)| <= 3 * ((|c| + 3) / 4)
    decreases |c|
  {
    if c != [] {
      var g := DecodeGroup(EncAt(c, 0), EncAt(c, 1), EncAt(c, 2), EncAt(c, 3));
      var r := c[Min(4, |c|)..];
      DecodeGroupLength(EncAt(c, 0), EncAt(c, 1), EncAt(c, 2), EncAt(c, 3));
      DecodedLengthBounds(r);
      assert |DecodeClean(c)| == |g| + |DecodeClean(r)|;
      GroupCountStep(|c|);
    }
  }

  /** Dropping one started group of four leaves one group fewer. */
  lemma GroupCountStep(n: nat)
    requires n >= 1
    ensures (n + 3) / 4 == (n - Min(4, n) + 3) / 4 + 1
  {
    if n >= 4 {
      assert n + 3 == (n - 4 + 3) + 4;
    }
  }

  /** Complete groups of alphabet symbols decode to three units each. */
  lemma {:induction false} FullGroupsDecodeToThree(c: JsString)
    requires |c| % 4 == 0
    requires forall j :: 0 <= j < |c| ==> InAlphabet(c[j])
    ensures |DecodeClean(c)| == 3 * (|c| / 4)
    decreases |c|
  {
    if c != [] {
      FullGroupStep(c);
      FullGroupsDecodeToThree(c[4..]);
    }
  }

  /** A leading group of four alphabet symbols decodes to three units. */
  lemma FullGroupStep(c: JsString)
    requires |c| % 4 == 0 && c != []
    requires forall j :: 0 <= j < |c| ==> InAlphabet(c[j])
    ensures |c[4..]| % 4 == 0 && |c| / 4 == |c[4..]| / 4 + 1
    ensures forall j :: 0 <= j < |c[4..]| ==> InAlphabet(c[4..][j])
    ensures |DecodeClean(c)| == 3 + |DecodeClean(c[4..])|
  {
    var r := c[4..];
    assert c[Min(4, |c|)..] == r;
    assert InAlphabet(c[2]) && InAlphabet(c[3]);
    DecodeGroupLength(EncAt(c, 0), EncAt(c, 1), EncAt(c, 2), EncAt(c, 3));
    QuarterStep(|c|);
  }

  lemma QuarterStep(m: nat)
    requires m >= 4
    ensures m / 4 == (m - 4) / 4 + 1
  {
    assert m == (m - 4) + 4;
  }


  /** A unit above 255 has no symbol: the text "undefined" lands in the output. */
  lemma WideUnitEncodesUndefined()
    ensures Encode([256]) == UNDEFINED_TEXT + [65, PAD, PAD]
  {
    Pow2Values();
    assert [256][..1] == [256] && [256][1..] == [];
    assert ShiftRight(256, 2) == 64;
    assert LowBits(256, 2) == 0 && ShiftRight(0, 4) == 0;
    BitOrZero(0);
  }

  /** Four "=" decode to the single unit 0xFFFF: the -1 of indexOf fills every bit. */
  lemma PaddingOnlyDecodesToAllOnes()
    ensures Decode([PAD, PAD, PAD, PAD]) == [0xFFFF]
  {
    var c: JsString := [PAD, PAD, PAD, PAD];
    CleanKeepsKept(c);
    Pow2Values();
    assert ShiftRight(-1, 4) == -1;
    BitOrAllOnes(ShiftLeft(-1, 2));
    assert FromCharCode(-1) == 0xFFFF;
    assert DecodeGroup(-1, -1, -1, -1) == [0xFFFF];
    assert EncAt(c, 0) == -1 && EncAt(c, 1) == -1 && EncAt(c, 2) == -1 && EncAt(c, 3) == -1;
    assert c[Min(4, |c|)..] == [];
    assert DecodeClean(c) == DecodeGroup(-1, -1, -1, -1) + DecodeClean([]);
  }
}
