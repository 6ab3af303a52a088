/** src/simd.c: payload masking, sixteen bytes at a time. */
module Masking {
  import opened Bytes
  import opened Types

  type Key = k: seq<byte> | |k| == 4 witness [0, 0, 0, 0]

  const ZERO_KEY: Key := [0, 0, 0, 0]

  /** Section 5.3 of RFC 6455: byte i of the payload is XORed with byte i mod 4 of the key. */
  function Masked(key: Key, src: seq<byte>): (r: seq<byte>)
    ensures |r| == |src|
  {
    seq(|src|, i requires 0 <= i < |src| => src[i] ^ key[i % 4])
  }

  lemma {:induction false} XorTwice(a: byte, b: byte)
    ensures (a ^ b) ^ b == a
  {}

  /** Masking is its own inverse, for every key and every length. */
  lemma {:induction false} MaskedTwice(key: Key, src: seq<byte>)
    ensures Masked(key, Masked(key, src)) == src
  {
    forall i | 0 <= i < |src|
      ensures Masked(key, Masked(key, src))[i] == src[i]
    {
      XorTwice(src[i], key[i % 4]);
    }
  }

  /** The serial loop: bytes `offset..len` of the destination, and nothing else. */
  method ApplyMaskSerial(key: Key, dest: array<byte>, d: nat, src: array<byte>, s: nat, len: nat, offset: nat)
    returns (err: FrameError)
    requires dest != src && d + len <= dest.Length && s + len <= src.Length
    modifies dest
    ensures err == Success
    ensures forall i :: offset <= i < len ==> dest[d + i] == src[s + i] ^ key[i % 4]
    ensures forall j :: 0 <= j < dest.Length && !(d + offset <= j < d + len) ==> dest[j] == old(dest[j])
  {
    if len == 0 {
      return Success;
    }
    var index := offset;
    while index < len
      invariant offset <= index
      invariant index <= len || index == offset
      invariant forall i :: offset <= i < index && i < len ==> dest[d + i] == src[s + i] ^ key[i % 4]
      invariant forall j :: 0 <= j < dest.Length && !(d + offset <= j < d + index) ==> dest[j] == old(dest[j])
      decreases len - index
    {
      // index & 3 in the source
      dest[d + index] := src[s + index] ^ key[index % 4];
      index := index + 1;
    }
    return Success;
  }

  /** A sixteen-lane vector and its lane-wise XOR. */
  type Vector = v: seq<byte> | |v| == 16 witness seq(16, _ => 0)

  function XorLanes(a: Vector, b: Vector): Vector {
    seq(16, i requires 0 <= i < 16 => a[i] ^ b[i])
  }

  function RepeatedKey(key: Key): Vector {
    key + key + key + key
  }

  /** The phase of the key at a block boundary: lane j of the repeated key is the key byte that
      the serial definition uses at position `base + j`, because `base` is a multiple of 16. */
  lemma {:induction false} KeyPhase(key: Key, base: nat, j: nat)
    requires base % 16 == 0 && j < 16
    ensures RepeatedKey(key)[j] == key[(base + j) % 4]
  {
    var q := base / 16;
    assert base == 4 * (4 * q);
    Phase(4 * q, j);
    RepeatedAt(key, j);
  }

  lemma {:induction false} Phase(q: nat, j: nat)
    ensures (4 * q + j) % 4 == j % 4
  {}

  lemma {:induction false} RepeatedAt(key: Key, j: nat)
    requires j < 16
    ensures RepeatedKey(key)[j] == key[j % 4]
  {
    var twice := key + key;
    assert RepeatedKey(key) == twice + twice;
    assert j < 8 ==> RepeatedKey(key)[j] == twice[j];
    assert j >= 8 ==> RepeatedKey(key)[j] == twice[j - 8];
  }

  /** The clang/gcc vector form. `offset` stays congruent to 15 modulo 16, so each block starts
      at `offset - 15`, a multiple of 16, and never reaches past `len`. */
  method ApplyMaskSimd(key: Key, dest: array<byte>, d: nat, src: array<byte>, s: nat, len: nat)
    returns (err: FrameError)
    requires dest != src && d + len <= dest.Length && s + len <= src.Length
    modifies dest
    ensures err == Success
    ensures forall i :: 0 <= i < len ==> dest[d + i] == src[s + i] ^ key[i % 4]
    ensures forall j :: 0 <= j < dest.Length && !(d <= j < d + len) ==> dest[j] == old(dest[j])
  {
    if len == 0 {
      return Success;
    }
    if len <= 15 {
      err := ApplyMaskSerial(key, dest, d, src, s, len, 0);
      return;
    }
    var offset := 15;
    var maskSimd := RepeatedKey(key);
    while offset < len
      invariant offset % 16 == 15 && 15 <= offset <= len + 15
      invariant forall i :: 0 <= i < offset - 15 ==> dest[d + i] == src[s + i] ^ key[i % 4]
      invariant forall j :: 0 <= j < dest.Length && !(d <= j < d + (offset - 15)) ==> dest[j] == old(dest[j])
    {
      MaskBlock(key, maskSimd, dest, d, src, s, offset - 15);
      offset := offset + 16;
    }
    err := ApplyMaskSerial(key, dest, d, src, s, len, offset - 15);
  }

  /** The body of the block loop: load, XOR and store sixteen bytes. */
  method MaskBlock(key: Key, maskSimd: Vector, dest: array<byte>, d: nat, src: array<byte>, s: nat, base: nat)
    requires dest != src && d + base + 16 <= dest.Length && s + base + 16 <= src.Length
    requires maskSimd == RepeatedKey(key) && base % 16 == 0
    modifies dest
    ensures forall i :: base <= i < base + 16 ==> dest[d + i] == src[s + i] ^ key[i % 4]
    ensures forall j :: 0 <= j < dest.Length && !(d + base <= j < d + base + 16) ==> dest[j] == old(dest[j])
  {
    var srcVec: Vector := src[s + base..s + base + 16];
    srcVec := XorLanes(srcVec, maskSimd);
    StoreVector(dest, d + base, srcVec);
    forall i | base <= i < base + 16
      ensures dest[d + i] == src[s + i] ^ key[i % 4]
    {
      KeyPhase(key, base, i - base);
      assert dest[d + base + (i - base)] == srcVec[i - base];
    }
  }

  /** memcpy of a whole vector into the destination. */
  method StoreVector(dest: array<byte>, at: nat, v: Vector)
    requires at + 16 <= dest.Length
    modifies dest
    ensures forall j :: 0 <= j < 16 ==> dest[at + j] == v[j]
    ensures forall j :: 0 <= j < dest.Length && !(at <= j < at + 16) ==> dest[j] == old(dest[j])
  {
    forall j | 0 <= j < 16 {
      dest[at + j] := v[j];
    }
  }

  /** Whichever path runs, the destination window holds the section 5.3 masking of the source
      window and the rest of the destination is untouched. */
  method ApplyMask(key: Key, dest: array<byte>, d: nat, src: array<byte>, s: nat, len: nat, simd: bool)
    returns (err: FrameError)
    requires dest != src && d + len <= dest.Length && s + len <= src.Length
    modifies dest
    ensures err == Success
    ensures forall i :: 0 <= i < len ==> dest[d + i] == src[s + i] ^ key[i % 4]
    ensures dest[d..d + len] == Masked(key, src[s..s + len])
    ensures dest[..d] == old(dest[..d]) && dest[d + len..] == old(dest[d + len..])
  {
    if simd {
      err := ApplyMaskSimd(key, dest, d, src, s, len);
    } else {
      err := ApplyMaskSerial(key, dest, d, src, s, len, 0);
    }
    assert dest[d..d + len] == Masked(key, src[s..s + len]);
  }
}
