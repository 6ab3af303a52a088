/** src/protocol.c: the frame structure and its in-place reader and writer. */
module Protocol {
  import opened Bytes
  import opened Types
  import opened Masking
  import opened Wire
  import opened Sequences

  /** Section 5.2 of RFC 6455: the most significant bit of a 64-bit length is 0. */
  const LENGTH_LIMIT: nat := 0x8000_0000_0000_0000

  /** ws_frame_handle_payload: copy, or mask, `len` bytes between non-overlapping buffers. */
  method HandlePayload(mask: bool, key: Key, dest: array<byte>, d: nat, src: array<byte>, s: nat, len: nat, simd: bool)
    returns (err: FrameError)
    requires dest != src && d + len <= dest.Length && s + len <= src.Length
    modifies dest
    ensures err == Success
    ensures forall i :: 0 <= i < len ==> dest[d + i] == if mask then src[s + i] ^ key[i % 4] else src[s + i]
    ensures dest[d..d + len] == if mask then Masked(key, src[s..s + len]) else src[s..s + len]
    ensures dest[..d] == old(dest[..d]) && dest[d + len..] == old(dest[d + len..])
  {
    if len == 0 {
      return Success;
    }
    if !mask {
      for i := 0 to len
        invariant dest[d..d + i] == src[s..s + i]
        invariant dest[..d] == old(dest[..d]) && dest[d + len..] == old(dest[d + len..])
      {
        dest[d + i] := src[s + i];
      }
      WindowBytes(mask, key, dest[..], d, src[..], s, len);
      return Success;
    }
    err := ApplyMask(key, dest, d, src, s, len, simd);
  }

  /** A copied or masked window, byte by byte. */
  lemma {:induction false} WindowBytes(mask: bool, key: Key, dest: seq<byte>, d: nat, src: seq<byte>, s: nat, len: nat)
    requires d + len <= |dest| && s + len <= |src|
    requires dest[d..d + len] == if mask then Masked(key, src[s..s + len]) else src[s..s + len]
    ensures forall i :: 0 <= i < len ==> dest[d + i] == if mask then src[s + i] ^ key[i % 4] else src[s + i]
  {
    forall i | 0 <= i < len
      ensures dest[d + i] == if mask then src[s + i] ^ key[i % 4] else src[s + i]
    {
      assert dest[d..d + len][i] == dest[d + i] && src[s..s + len][i] == src[s + i];
    }
  }

  class WsFrame {
    var codes: byte
    var info: byte
    var payloadLen: nat
    var maskingKey: Key
    var payload: array<byte>

    /** ws_frame_init zeroes the structure. */
    constructor ()
      ensures codes == 0 && info == 0 && payloadLen == 0 && maskingKey == ZERO_KEY
      ensures fresh(payload) && payload.Length == 0
    {
      codes, info, payloadLen, maskingKey := 0, 0, 0, ZERO_KEY;
      payload := new byte[0];
    }

    ghost function View(): Frame
      reads this, payload
    {
      Frame(codes, MaskOf(info), maskingKey, payload[..])
    }

    ghost function Head(): Header
      reads this
    {
      Header(codes, info, payloadLen)
    }

    /** ws_frame_extended_len */
    method ExtendedLen(buf: array<byte>, len: nat, offset: nat) returns (err: FrameError, newOffset: nat)
      requires len <= buf.Length
      requires payloadLen == LengthCodeOf(info) as nat
      modifies this`payloadLen
      ensures err == Success <==> len >= ExtBytes(LengthCodeOf(info)) + 2
      ensures err == Success ==> newOffset == offset + ExtBytes(LengthCodeOf(info))
      ensures err == Success ==>
        payloadLen == if ExtBytes(LengthCodeOf(info)) == 0 then old(payloadLen)
                      else BigEndianValue(buf[2..2 + ExtBytes(LengthCodeOf(info))])
    {
      CodeOfNat(LengthCodeOf(info));
      var extendLen := if payloadLen == 126 then 2 else if payloadLen == 127 then 8 else 0;
      if len < extendLen + 2 {
        return ErrorLen, offset;
      }
      if extendLen == 2 {
        OrInIsValue16(buf[2..4]);
        payloadLen := (((buf[3] as bv64) << 0) | ((buf[2] as bv64) << 8)) as nat;
      } else if extendLen == 8 {
        OrInIsValue64(buf[2..10]);
        payloadLen := (((buf[9] as bv64) << 0) | ((buf[8] as bv64) << 8) | ((buf[7] as bv64) << 16) |
                       ((buf[6] as bv64) << 24) | ((buf[5] as bv64) << 32) | ((buf[4] as bv64) << 40) |
                       ((buf[3] as bv64) << 48) | ((buf[2] as bv64) << 56)) as nat;
      }
      return Success, offset + extendLen;
    }

    static lemma {:induction false} CodeOfNat(code: byte)
      ensures code as nat == 126 <==> code == 126
      ensures code as nat == 127 <==> code == 127
    {}

    /** ws_frame_read_header */
    method ReadHeader(buf: array<byte>, len: nat) returns (err: FrameError)
      requires len <= buf.Length
      modifies this`codes, this`info, this`payloadLen
      ensures err == Success <==> DecodeHeader(buf[..len]).Some?
      ensures err == Success ==> Head() == DecodeHeader(buf[..len]).value
    {
      if len < 2 {
        return ErrorLen;
      }
      codes, info := buf[0], buf[1];
      payloadLen := LengthCodeOf(info) as nat;
      var offset;
      err, offset := ExtendedLen(buf, len, 2);
      var ext := ExtBytes(LengthCodeOf(info));
      assert len >= ext + 2 ==> buf[..len][2..2 + ext] == buf[2..2 + ext];
    }

    /** ws_frame_extract_mask, on the window of `buf` that starts at `base`. */
    method ExtractMask(buf: array<byte>, base: nat, len: nat, offset: nat, ghost bytes: seq<byte>)
      returns (err: FrameError, newOffset: nat)
      requires base + len <= buf.Length && bytes == buf[..]
      modifies this`maskingKey
      ensures err == Success <==> !MaskOf(info) || len >= offset + 4
      ensures err == Success ==> newOffset == offset + if MaskOf(info) then 4 else 0
      ensures maskingKey ==
        if MaskOf(info) && err == Success then bytes[base + offset..base + offset + 4] else old(maskingKey)
    {
      if MaskOf(info) {
        if len < offset + 4 {
          return ErrorLen, offset;
        }
        maskingKey := buf[base + offset..base + offset + 4];
        return Success, offset + 4;
      }
      return Success, offset;
    }

    /** ws_frame_read_body, on the window of `buf` that starts at `base`. */
    method ReadBody(buf: array<byte>, base: nat, len: nat, simd: bool)
      returns (err: FrameError, ghost d: Option<Frame>)
      requires base + len <= buf.Length
      modifies this`maskingKey, this`payload
      ensures d == DecodeBody(old(Head()), old(buf[base..base + len]))
      ensures err == Success <==> d.Some?
      ensures err == Success ==> fresh(payload)
      ensures err == Success ==> View() == if MaskOf(info) then d.value else d.value.(key := old(maskingKey))
    {
      ghost var h, bytes := Head(), buf[..];
      ghost var body := bytes[base..base + len];
      assert body == buf[base..base + len];
      d := DecodeBody(h, body);
      DecodesIffLong(h, body);
      if len == 0 {
        return ErrorLen, d;
      }
      var offset;
      err, offset := ExtractMask(buf, base, len, 0, bytes);
      if err != Success {
        return;
      }
      if len < offset + payloadLen {
        return ErrorLen, d;
      }
      SubWindow(bytes, base, len, offset, 0);
      err := TakeBody(buf, base, len, offset, simd, bytes);
    }

    /** The payload once the key is known and the length has been checked. */
    method TakeBody(buf: array<byte>, base: nat, len: nat, offset: nat, simd: bool, ghost bytes: seq<byte>)
      returns (err: FrameError)
      requires bytes == buf[..] && base + len <= buf.Length && 0 < len && offset + payloadLen <= len
      requires offset == if MaskOf(info) then 4 else 0
      requires MaskOf(info) ==> maskingKey == bytes[base..base + len][..4]
      modifies this`payload
      ensures err == Success && fresh(payload)
      ensures DecodeBody(Head(), bytes[base..base + len]) ==
        Some(if MaskOf(info) then View() else View().(key := ZERO_KEY))
    {
      ghost var data := bytes[base + offset..base + offset + payloadLen];
      SubWindow(bytes, base, len, offset, payloadLen);
      err := TakePayload(buf, base + offset, simd, data);
      DecodedParts(Head(), bytes[base..base + len], offset, maskingKey, data, payload[..]);
    }

    static lemma {:induction false} DecodesIffLong(h: Header, body: seq<byte>)
      ensures DecodeBody(h, body).Some? <==>
        |body| > 0 && |body| >= h.payloadLen + if MaskOf(h.info) then 4 else 0
    {}

    static lemma {:induction false} DecodedParts(h: Header, body: seq<byte>, offset: nat, key: Key,
                                                 data: seq<byte>, payload: seq<byte>)
      requires offset == if MaskOf(h.info) then 4 else 0
      requires |body| > 0 && |body| >= offset + h.payloadLen && data == body[offset..offset + h.payloadLen]
      requires MaskOf(h.info) ==> body[..offset] == key
      requires payload == if MaskOf(h.info) then Masked(key, data) else data
      ensures DecodeBody(h, body) ==
        Some(Frame(h.codes, MaskOf(h.info), if MaskOf(h.info) then key else ZERO_KEY, payload))
    {}

    /** Allocate the payload and fill it from the bytes at `at`. */
    method TakePayload(buf: array<byte>, at: nat, simd: bool, ghost data: seq<byte>) returns (err: FrameError)
      requires at + payloadLen <= buf.Length && data == buf[at..at + payloadLen]
      modifies this`payload
      ensures err == Success && fresh(payload)
      ensures payload[..] == if MaskOf(info) then Masked(maskingKey, data) else data
    {
      payload := new byte[payloadLen];
      err := HandlePayload(MaskOf(info), maskingKey, payload, 0, buf, at, payloadLen, simd);
      assert payload[..] == payload[0..payloadLen];
    }

    /** The assignments in a switch case of ws_frame_write_len: one per byte. */
    static method PutBytes(out: array<byte>, idx: nat, b: seq<byte>)
      requires idx + |b| <= out.Length
      modifies out
      ensures out[idx..idx + |b|] == b
      ensures out[..idx] == old(out[..idx])
    {
      forall k | 0 <= k < |b| {
        out[idx + k] := b[k];
      }
    }

    /** ws_frame_write_len */
    method WriteLen(out: array<byte>, offset: nat) returns (newOffset: nat)
      requires payload.Length < LENGTH_LIMIT && out != payload
      requires offset + ExtBytes(LengthCodeOf(info)) <= out.Length
      modifies out
      ensures newOffset == offset + ExtBytes(LengthCodeOf(info))
      ensures out[offset..newOffset] == BigEndianDigits(payload.Length, ExtBytes(LengthCodeOf(info)))
      ensures out[..offset] == old(out[..offset])
    {
      ShiftOutIsDigits(payload.Length);
      newOffset := offset;
      if LengthCodeOf(info) == 126 {
        PutBytes(out, offset, ShiftOut16(payload.Length as bv64));
        newOffset := offset + 2;
      } else if LengthCodeOf(info) == 127 {
        PutBytes(out, offset, ShiftOut64(payload.Length as bv64));
        newOffset := offset + 8;
      }
    }

    /** ws_frame_output_size */
    function OutSize(): nat
      reads this, payload
    {
      OutputSize(MaskOf(info), payload.Length)
    }

    /** ws_frame_write. It fails for a payload of exactly 65536 bytes and for no other; on success
        the output is the encoding of the frame, on failure the output is freed. */
    method Write(simd: bool) returns (err: FrameError, out: array<byte>)
      requires payload.Length < LENGTH_LIMIT
      modifies this`info, this`payloadLen
      ensures err == Success <==> payload.Length != TWO_TO_THE_16
      ensures fresh(out)
      ensures out[..] == if err == Success then Encode(View()) else []
      ensures View() == old(View()) && payloadLen == payload.Length
    {
      ghost var f := View();
      HeadThenData(f);
      out := new byte[OutSize()];
      var offset := WriteHead(out);
      payloadLen := payload.Length;
      if out.Length < offset + payloadLen {
        return ErrorLen, new byte[0];
      }
      err := AppendPayload(out, offset, f, simd);
      assert out[..] == out[..offset + payloadLen];
    }

    /** The payload goes after the bytes already written. */
    method AppendPayload(out: array<byte>, offset: nat, ghost f: Frame, simd: bool) returns (err: FrameError)
      requires f == View() && out != payload && offset + payload.Length <= out.Length
      modifies out
      ensures err == Success
      ensures out[..offset + payload.Length] == old(out[..offset]) + Data(f)
    {
      err := HandlePayload(MaskOf(info), maskingKey, out, offset, payload, 0, payload.Length, simd);
      assert payload[0..payload.Length] == f.payload;
      assert out[..offset + payload.Length] == out[..offset] + out[offset..offset + payload.Length];
    }

    /** The two fixed bytes, the length field and the key. */
    method WriteHead(out: array<byte>) returns (offset: nat)
      requires payload.Length < LENGTH_LIMIT && out != payload
      requires out.Length >= |HeadBytes(View())|
      modifies out, this`info
      ensures View() == old(View())
      ensures offset == |HeadBytes(View())| && out[..offset] == HeadBytes(View())
    {
      out[0] := codes;
      SetLengthCode();
      out[1] := info;
      assert out[..2] == [codes, info];
      offset := WriteLen(out, 2);
      assert out[..offset] == out[..2] + out[2..offset];
      offset := WriteKey(out, offset);
    }

    /** The masking key, when there is one, follows the length. */
    method WriteKey(out: array<byte>, offset: nat) returns (newOffset: nat)
      requires offset + |KeyBytes(View())| <= out.Length && out != payload
      modifies out
      ensures newOffset == offset + |KeyBytes(View())|
      ensures out[..newOffset] == old(out[..offset]) + KeyBytes(View())
    {
      newOffset := offset;
      if MaskOf(info) {
        out[offset] := maskingKey[0];
        out[offset + 1] := maskingKey[1];
        out[offset + 2] := maskingKey[2];
        out[offset + 3] := maskingKey[3];
        newOffset := offset + 4;
        assert out[offset..newOffset] == maskingKey;
        assert out[..newOffset] == out[..offset] + out[offset..newOffset];
      }
    }

    /** The assignment of the 7-bit length field; the mask bit beside it is kept. */
    method SetLengthCode()
      modifies this`info
      ensures info == InfoByte(old(MaskOf(info)), ShortestCode(payload.Length))
      ensures MaskOf(info) == old(MaskOf(info)) && LengthCodeOf(info) == ShortestCode(payload.Length)
    {
      var code := if payload.Length <= 125 then payload.Length as byte
                  else if payload.Length < TWO_TO_THE_16 then 126 else 127;
      CodeIsSmall(payload.Length);
      InfoFields(0, MaskOf(info), code);
      info := InfoByte(MaskOf(info), code);
    }

    static lemma {:induction false} CodeIsSmall(n: nat)
      ensures ShortestCode(n) <= 127
      ensures ExtBytes(ShortestCode(n)) == if n <= 125 then 0 else if n < TWO_TO_THE_16 then 2 else 8
    {
      if n <= 125 { ByteOfNat(n); }
    }
  }
}
