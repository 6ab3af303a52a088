/** Wire bytes, and the big-endian positional notation of section 5.2 of RFC 6455 ("network
    byte order"), against which the shift-and-OR code of src/protocol.c is proved. */
module Bytes {

  type byte = bv8

  const TWO_TO_THE_16: nat := 0x1_0000
  const TWO_TO_THE_64: nat := 0x1_0000_0000_0000_0000

  /** The number written by the digits `bs` in base 256, most significant digit first. */
  function BigEndianValue(bs: seq<byte>): nat {
    if bs == [] then 0
    else BigEndianValue(bs[..|bs| - 1]) * 256 + bs[|bs| - 1] as nat
  }

  /** The `width` least significant base-256 digits of `n`, most significant digit first. */
  function BigEndianDigits(n: nat, width: nat): (bs: seq<byte>)
    ensures |bs| == width
  {
    if width == 0 then []
    else BigEndianDigits(n / 256, width - 1) + [(n % 256) as byte]
  }

  function Power256(width: nat): (p: nat)
    ensures p > 0
  {
    if width == 0 then 1 else 256 * Power256(width - 1)
  }

  lemma {:induction false} ByteOfNat(n: nat)
    requires n < 256
    ensures (n as byte) as nat == n
  {
    var b := ByteFor(n);
    NatOfByte(b);
  }

  /** Every nat below 256 is the value of a byte, counted up to. */
  lemma {:induction false} ByteFor(n: nat) returns (b: byte)
    requires n < 256
    ensures b as nat == n
  {
    if n == 0 {
      b := 0;
    } else {
      var a := ByteFor(n - 1);
      b := Successor(a);
    }
  }

  lemma {:induction false} Successor(a: byte) returns (b: byte)
    requires a as nat < 255
    ensures b as nat == a as nat + 1
  {
    b := a + 1;
  }

  lemma {:induction false} NatOfByte(b: byte)
    ensures (b as nat) as byte == b
    ensures b as nat < 256
  {}

  /** n to digits to n, for every number that fits the width. */
  lemma {:induction false} DigitsThenValue(n: nat, width: nat)
    requires n < Power256(width)
    ensures BigEndianValue(BigEndianDigits(n, width)) == n
  {
    if width > 0 {
      DigitsThenValue(n / 256, width - 1);
      var bs := BigEndianDigits(n, width);
      assert bs[..|bs| - 1] == BigEndianDigits(n / 256, width - 1);
      ByteOfNat(n % 256);
    }
  }

  /** Digits to n to digits, for every digit string; and the value always fits the width. */
  lemma {:induction false} ValueThenDigits(bs: seq<byte>)
    ensures BigEndianValue(bs) < Power256(|bs|)
    ensures BigEndianDigits(BigEndianValue(bs), |bs|) == bs
  {
    if bs != [] {
      var front, last := bs[..|bs| - 1], bs[|bs| - 1];
      ValueThenDigits(front);
      NatOfByte(last);
      Quotient(BigEndianValue(bs), BigEndianValue(front), last as nat);
      assert bs == front + [last];
    }
  }

  lemma {:induction false} PowersOf256()
    ensures Power256(0) == 1
    ensures Power256(2) == TWO_TO_THE_16
    ensures Power256(8) == TWO_TO_THE_64
  {
    assert Power256(1) == 256;
    assert Power256(3) == 256 * Power256(2);
    assert Power256(4) == 256 * Power256(3);
    assert Power256(5) == 256 * Power256(4);
    assert Power256(6) == 256 * Power256(5);
    assert Power256(7) == 256 * Power256(6);
  }

  // ---- The same digits, computed with shifts and masks on 64-bit words.

  /** One step of shift-and-OR is one step of positional notation. */
  lemma {:induction false} ShiftOr(acc: bv64, b: byte)
    requires acc < 0x0100_0000_0000_0000
    ensures ((acc << 8) | (b as bv64)) as nat == acc as nat * 256 + b as nat
  {}

  /** A word is its upper 56 bits followed by its last byte. */
  lemma {:induction false} SplitWord(w: bv64) returns (hi: bv64, lo: byte)
    ensures hi == w >> 8 && lo == (w & 0xFF) as byte
    ensures hi as nat == w as nat / 256 && lo as nat == w as nat % 256
  {
    hi, lo := w >> 8, (w & 0xFF) as byte;
    JoinsTo(hi, lo, w);
    Quotient(w as nat, hi as nat, lo as nat);
  }

  lemma {:induction false} JoinsTo(hi: bv64, lo: byte, w: bv64)
    requires hi == w >> 8 && lo == (w & 0xFF) as byte
    ensures w as nat == hi as nat * 256 + lo as nat
    ensures lo as nat < 256
  {
    assert hi < 0x0100_0000_0000_0000 && (hi << 8) | (lo as bv64) == w;
    ShiftOr(hi, lo);
  }

  lemma {:induction false} Quotient(n: nat, q: nat, r: nat)
    requires n == q * 256 + r && r < 256
    ensures n / 256 == q && n % 256 == r
  {}

  lemma {:induction false} JoinWord(hi: bv64, lo: byte) returns (w: bv64)
    requires hi < 0x0100_0000_0000_0000
    ensures w as nat == hi as nat * 256 + lo as nat
  {
    w := (hi << 8) | (lo as bv64);
    ShiftOr(hi, lo);
  }

  /** The last `width` bytes of a word, least significant shift last. */
  function WordDigits(w: bv64, width: nat): (bs: seq<byte>)
    ensures |bs| == width
  {
    if width == 0 then [] else WordDigits(w >> 8, width - 1) + [(w & 0xFF) as byte]
  }

  lemma {:induction false} WordDigitsAreDigits(w: bv64, width: nat)
    ensures WordDigits(w, width) == BigEndianDigits(w as nat, width)
  {
    if width > 0 {
      var hi, lo := SplitWord(w);
      WordDigitsAreDigits(hi, width - 1);
      NatOfByte(lo);
    }
  }

  lemma {:induction false} Shifts(w: bv64)
    ensures (w >> 8) >> 8 == w >> 16 && (w >> 16) >> 8 == w >> 24
    ensures (w >> 24) >> 8 == w >> 32 && (w >> 32) >> 8 == w >> 40
    ensures (w >> 40) >> 8 == w >> 48 && (w >> 48) >> 8 == w >> 56
  {}

  lemma {:induction false} WordDigits2(w: bv64)
    ensures WordDigits(w, 2) == [((w >> 8) & 0xFF) as byte, (w & 0xFF) as byte]
  {
    assert WordDigits(w >> 8, 0) == [];
    assert WordDigits(w >> 8, 1) == [((w >> 8) & 0xFF) as byte];
  }

  lemma {:induction false} WordDigits8(w: bv64)
    ensures WordDigits(w, 8) ==
      [((w >> 56) & 0xFF) as byte, ((w >> 48) & 0xFF) as byte, ((w >> 40) & 0xFF) as byte, ((w >> 32) & 0xFF) as byte,
       ((w >> 24) & 0xFF) as byte, ((w >> 16) & 0xFF) as byte, ((w >> 8) & 0xFF) as byte, (w & 0xFF) as byte]
  {
    Shifts(w);
    WordDigits2(w >> 48);
    assert WordDigits(w >> 40, 3) == WordDigits(w >> 48, 2) + [((w >> 40) & 0xFF) as byte];
    assert WordDigits(w >> 32, 4) == WordDigits(w >> 40, 3) + [((w >> 32) & 0xFF) as byte];
    assert WordDigits(w >> 24, 5) == WordDigits(w >> 32, 4) + [((w >> 24) & 0xFF) as byte];
    assert WordDigits(w >> 16, 6) == WordDigits(w >> 24, 5) + [((w >> 16) & 0xFF) as byte];
    assert WordDigits(w >> 8, 7) == WordDigits(w >> 16, 6) + [((w >> 8) & 0xFF) as byte];
    assert WordDigits(w, 8) == WordDigits(w >> 8, 7) + [(w & 0xFF) as byte];
  }

  /** The writer of src/protocol.c for the 16-bit form. */
  function ShiftOut16(w: bv64): (bs: seq<byte>) {
    [((w >> 8) & 0xFF) as byte, (w & 0xFF) as byte]
  }

  /** The writer of src/protocol.c for the 64-bit form. */
  function ShiftOut64(w: bv64): (bs: seq<byte>) {
    [((w >> 56) & 0xFF) as byte, ((w >> 48) & 0xFF) as byte, ((w >> 40) & 0xFF) as byte, ((w >> 32) & 0xFF) as byte,
     ((w >> 24) & 0xFF) as byte, ((w >> 16) & 0xFF) as byte, ((w >> 8) & 0xFF) as byte, (w & 0xFF) as byte]
  }

  /** The reader of src/protocol.c for the 16-bit form. */
  function OrIn16(bs: seq<byte>): bv64
    requires |bs| == 2
  {
    ((bs[1] as bv64) << 0) | ((bs[0] as bv64) << 8)
  }

  /** The reader of src/protocol.c for the 64-bit form. */
  function OrIn64(bs: seq<byte>): bv64
    requires |bs| == 8
  {
    ((bs[7] as bv64) << 0) | ((bs[6] as bv64) << 8) | ((bs[5] as bv64) << 16) | ((bs[4] as bv64) << 24) |
    ((bs[3] as bv64) << 32) | ((bs[2] as bv64) << 40) | ((bs[1] as bv64) << 48) | ((bs[0] as bv64) << 56)
  }

  /** Every nat below 2^64 is the value of a word, built digit by digit. */
  lemma {:induction false} WordFor(n: nat) returns (w: bv64)
    requires n < TWO_TO_THE_64
    ensures w as nat == n
  {
    if n == 0 {
      w := 0;
    } else {
      var hi := WordFor(n / 256);
      ByteOfNat(n % 256);
      WordBelow(hi);
      w := JoinWord(hi, (n % 256) as byte);
    }
  }

  lemma {:induction false} WordBelow(w: bv64)
    requires w as nat < 0x0100_0000_0000_0000
    ensures w < 0x0100_0000_0000_0000
  {}

  /** The shift-and-mask writers produce the positional digits of the length ... */
  lemma {:induction false} ShiftOutIsDigits(n: nat)
    requires n < TWO_TO_THE_64
    ensures ShiftOut16(n as bv64) == BigEndianDigits(n, 2)
    ensures ShiftOut64(n as bv64) == BigEndianDigits(n, 8)
  {
    var w := WordFor(n);
    ShiftOutOfWord(w);
    SameWord(n, w);
  }

  lemma {:induction false} ShiftOutOfWord(w: bv64)
    ensures ShiftOut16(w) == BigEndianDigits(w as nat, 2)
    ensures ShiftOut64(w) == BigEndianDigits(w as nat, 8)
  {
    WordDigits2(w);
    WordDigits8(w);
    WordDigitsAreDigits(w, 2);
    WordDigitsAreDigits(w, 8);
  }

  lemma {:induction false} SameWord(n: nat, w: bv64)
    requires w as nat == n
    ensures n < TWO_TO_THE_64
    ensures n as bv64 == w
  {}

  /** On bytes alone: shifting back out what was ORed in returns the bytes. */
  lemma {:induction false} OutOfOr16(a: byte, b: byte)
    ensures var w := ((b as bv64) << 0) | ((a as bv64) << 8);
      ((w >> 8) & 0xFF) as byte == a && (w & 0xFF) as byte == b
  {}

  lemma {:induction false} OutOfOr64(a: byte, b: byte, c: byte, d: byte, e: byte, f: byte, g: byte, h: byte)
    ensures var w := ((h as bv64) << 0) | ((g as bv64) << 8) | ((f as bv64) << 16) | ((e as bv64) << 24) |
                     ((d as bv64) << 32) | ((c as bv64) << 40) | ((b as bv64) << 48) | ((a as bv64) << 56);
      && ((w >> 56) & 0xFF) as byte == a && ((w >> 48) & 0xFF) as byte == b
      && ((w >> 40) & 0xFF) as byte == c && ((w >> 32) & 0xFF) as byte == d
      && ((w >> 24) & 0xFF) as byte == e && ((w >> 16) & 0xFF) as byte == f
      && ((w >> 8) & 0xFF) as byte == g && (w & 0xFF) as byte == h
  {}

  lemma {:induction false} OutOfOrIn16(bs: seq<byte>)
    requires |bs| == 2
    ensures ShiftOut16(OrIn16(bs)) == bs
  {
    OutOfOr16(bs[0], bs[1]);
  }

  lemma {:induction false} OutOfOrIn64(bs: seq<byte>)
    requires |bs| == 8
    ensures ShiftOut64(OrIn64(bs)) == bs
  {
    OutOfOr64(bs[0], bs[1], bs[2], bs[3], bs[4], bs[5], bs[6], bs[7]);
  }

  lemma {:induction false} WordRange(w: bv64)
    ensures w as nat < TWO_TO_THE_64
  {}

  /** ... and the shift-and-OR readers compute the positional value of the bytes. */
  lemma {:induction false} OrInIsValue16(bs: seq<byte>)
    requires |bs| == 2
    ensures OrIn16(bs) as nat == BigEndianValue(bs)
  {
    OrOf16(bs[0], bs[1]);
    ValueOfTwo(bs);
  }

  lemma {:induction false} ValueOfTwo(bs: seq<byte>)
    requires |bs| == 2
    ensures BigEndianValue(bs) == bs[0] as nat * 256 + bs[1] as nat
  {
    assert BigEndianValue(bs[..1][..0]) == 0;
    assert BigEndianValue(bs[..1]) == bs[0] as nat;
  }

  lemma {:induction false} OrOf16(a: byte, b: byte)
    ensures (((b as bv64) << 0) | ((a as bv64) << 8)) as nat == a as nat * 256 + b as nat
  {}

  lemma {:induction false} ValueOfDigits(bs: seq<byte>, w: bv64, width: nat)
    requires width <= 8 && w as nat < Power256(width) && BigEndianDigits(w as nat, width) == bs
    ensures BigEndianValue(bs) == w as nat
  {
    DigitsThenValue(w as nat, width);
  }

  lemma {:induction false} OrInIsValue64(bs: seq<byte>)
    requires |bs| == 8
    ensures OrIn64(bs) as nat == BigEndianValue(bs)
  {
    OutOfOrIn64(bs);
    ShiftOutOfWord(OrIn64(bs));
    WordRange(OrIn64(bs));
    PowersOf256();
    ValueOfDigits(bs, OrIn64(bs), 8);
  }

  /** The two codecs of src/protocol.c are mutual inverses at both widths. */
  lemma {:induction false} LengthCodecInverse16(n: nat, bs: seq<byte>)
    requires n < TWO_TO_THE_16 && |bs| == 2
    ensures OrIn16(ShiftOut16(n as bv64)) as nat == n
    ensures OrIn16(bs) as nat < TWO_TO_THE_16
    ensures ShiftOut16(OrIn16(bs)) == bs
  {
    PowersOf256();
    ShiftOutIsDigits(n);
    OrInIsValue16(ShiftOut16(n as bv64));
    DigitsThenValue(n, 2);
    OrInIsValue16(bs);
    ValueThenDigits(bs);
    OutOfOrIn16(bs);
  }

  lemma {:induction false} LengthCodecInverse64(n: nat, bs: seq<byte>)
    requires n < TWO_TO_THE_64 && |bs| == 8
    ensures OrIn64(ShiftOut64(n as bv64)) as nat == n
    ensures ShiftOut64(OrIn64(bs)) == bs
  {
    ValueOfShiftOut64(n);
    OutOfOrIn64(bs);
  }

  lemma {:induction false} ValueOfShiftOut64(n: nat)
    requires n < TWO_TO_THE_64
    ensures OrIn64(ShiftOut64(n as bv64)) as nat == n
  {
    PowersOf256();
    ShiftOutIsDigits(n);
    OrInIsValue64(ShiftOut64(n as bv64));
    DigitsThenValue(n, 8);
  }
}
