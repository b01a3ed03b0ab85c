/**
 * `WebSocketFrame.createFrame(buffer, opcode, flags, mask)` of
 * `benchmarks/mask-backend.mjs`: the frame header of section 5.2 of
 * RFC 6455 followed by the payload, masked through the `mask` callback
 * when the `MASK` flag is set. `Parse` is an independent reading of the
 * same section; `FrameRoundTrip` shows that it recovers the flags, the
 * opcode, the key and the payload from every frame `CreateFrame` builds.
 */
module Frame {
  import opened Bytes
  import opened Oracle
  import opened Memory

  /** The flag bits of `WebSocketFrame`: `FIN`, `MASK`, `RSV1`, `RSV2`, `RSV3`. */
  const Fin: bv32 := 1 << 1
  const MaskBit: bv32 := 1 << 2
  const Rsv1: bv32 := 1 << 3
  const Rsv2: bv32 := 1 << 4
  const Rsv3: bv32 := 1 << 5

  /** The largest payload length `createFrame` accepts, `0x7fffffff`. */
  const MaxLength: nat := 0x7fff_ffff

  datatype Option<T> = None | Some(value: T)

  /**
   * Flags assembled from the five switches. Each switch reads back alone:
   * the five flags are distinct single bits.
   */
  function Flags(fin: bool, mask: bool, rsv1: bool, rsv2: bool, rsv3: bool): (flags: bv32)
    ensures (flags & Fin != 0) == fin && (flags & MaskBit != 0) == mask
    ensures (flags & Rsv1 != 0) == rsv1 && (flags & Rsv2 != 0) == rsv2 && (flags & Rsv3 != 0) == rsv3
  {
    (if fin then Fin else 0) | (if mask then MaskBit else 0) | (if rsv1 then Rsv1 else 0)
    | (if rsv2 then Rsv2 else 0) | (if rsv3 then Rsv3 else 0)
  }

  /** Whether `flags` asks for a masked frame. */
  predicate Masked(flags: bv32)
  {
    flags & MaskBit != 0
  }

  /** The header's byte count: 2, 4 or 10 by payload length, plus 4 for the key when masked. */
  function HeaderSize(length: nat, masked: bool): nat
  {
    var n := if length < 126 then 2 else if length >= 126 && length <= 0xffff then 4 else 10;
    if masked then n + 4 else n
  }

  /**
   * Byte 0 as `createFrame` builds it: cleared, `FIN`, `RSV1`, `RSV2`,
   * `RSV3` or-ed in as 0x80, 0x40, 0x20, 0x10, the low nibble cleared and
   * `opcode & 0xf` or-ed in.
   */
  function FirstByte(flags: bv32, opcode: bv32): (b: byte)
    ensures (b & 0x80 != 0) == (flags & Fin != 0) && (b & 0x40 != 0) == (flags & Rsv1 != 0)
    ensures (b & 0x20 != 0) == (flags & Rsv2 != 0) && (b & 0x10 != 0) == (flags & Rsv3 != 0)
    ensures b & 0x0f == (opcode & 0xf) as byte
  {
    var b0: byte := 0;
    var b1 := if flags & Fin != 0 then b0 | 0x80 else b0;
    var b2 := if flags & Rsv1 != 0 then b1 | 0x40 else b1;
    var b3 := if flags & Rsv2 != 0 then b2 | 0x20 else b2;
    var b4 := if flags & Rsv3 != 0 then b3 | 0x10 else b3;
    (b4 & 0xf0) | (opcode & 0xf) as byte
  }

  /** The 7-bit length code: the length itself below 126, 126 up to 0xffff, 127 above. */
  function LengthCode(length: nat): (c: byte)
    ensures c < 0x80
    ensures length < 126 ==> c as nat == length
    ensures 126 <= length <= 0xffff ==> c == 126
    ensures length > 0xffff ==> c == 127
  {
    if length < 126 then ToByte(length) else if length <= 0xffff then 126 else 127
  }

  /**
   * Byte 1 as `createFrame` builds it: cleared, 0x80 or-ed in when masked,
   * then `length & 0xff` or-ed in below 126, or the byte rewritten to
   * `(frame[1] & 0x80) | 126` or `| 127`. The mask bit survives the rewrite.
   */
  function SecondByte(flags: bv32, length: nat): (b: byte)
    ensures (b & 0x80 != 0) == Masked(flags)
    ensures b & 0x7f == LengthCode(length)
  {
    var b0: byte := 0;
    var b1 := if flags & MaskBit != 0 then b0 | 0x80 else b0;
    if length < 126 then
      var t := ToByte(length % 256);
      assert length % 256 == length;
      MaskBitBeside(b1, t);
      b1 | t
    else if length <= 0xffff then (b1 & 0x80) | 126
    else (b1 & 0x80) | 127
  }

  /** A byte below 0x80 or-ed beside the mask bit keeps both readable. */
  lemma MaskBitBeside(b1: byte, t: byte)
    requires b1 == 0 || b1 == 0x80
    requires t < 0x80
    ensures (b1 | t) & 0x7f == t && ((b1 | t) & 0x80 != 0) == (b1 != 0)
  {
  }

  /** Bytes read as a big-endian unsigned number, as the extended payload length is. */
  function BigEndian(s: seq<byte>): (n: nat)
    ensures |s| == 0 ==> n == 0
  {
    if |s| == 0 then 0 else BigEndian(s[..|s| - 1]) * 256 + s[|s| - 1] as nat
  }

  /** `(x >> shift) & 0xff` of JavaScript for a non-negative int32 `x`, with `scale` = 2^`shift`. */
  function ByteOf(x: nat, scale: nat): (b: byte)
    requires scale > 0
    ensures b as nat == x / scale % 256
  {
    ToByte(x / scale % 256)
  }

  /** The byte whose value is `n`, built from its two hexadecimal digits. */
  function ToByte(n: nat): (b: byte)
    requires n < 256
    ensures b as nat == n
    ensures n < 0x80 ==> b < 0x80
  {
    JoinNibbles(Nibble(n / 16), Nibble(n % 16));
    (Nibble(n / 16) << 4) | Nibble(n % 16)
  }

  /** The byte whose value is the hexadecimal digit `k`. */
  function Nibble(k: nat): (b: byte)
    requires k < 16
    ensures b as nat == k && b < 16
    ensures k < 8 ==> b < 8
  {
    if k < 8 then
      if k < 4 then (if k == 0 then 0 else if k == 1 then 1 else if k == 2 then 2 else 3)
      else (if k == 4 then 4 else if k == 5 then 5 else if k == 6 then 6 else 7)
    else if k < 12 then (if k == 8 then 8 else if k == 9 then 9 else if k == 10 then 10 else 11)
    else (if k == 12 then 12 else if k == 13 then 13 else if k == 14 then 14 else 15)
  }

  /** Two digits joined into a byte: high digit times 16 plus low digit. */
  lemma JoinNibbles(h: byte, l: byte)
    requires h < 16 && l < 16
    ensures ((h << 4) | l) as nat == 16 * (h as nat) + l as nat
  {
  }

  /**
   * The extended payload length: nothing below 126, the length in 16 bits
   * up to 0xffff, else in 64 bits whose upper four bytes are zero. Read
   * big-endian, it is the length.
   */
  function LengthField(length: nat): (f: seq<byte>)
    requires length <= MaxLength
    ensures |f| == (if length < 126 then 0 else if length <= 0xffff then 2 else 8)
    ensures BigEndian(f) == length || length < 126
  {
    if length < 126 then []
    else if length <= 0xffff then
      BigEndian16(length);
      [ByteOf(length, 0x100), ByteOf(length, 1)]
    else
      BigEndian64(length);
      [0, 0, 0, 0, ByteOf(length, 0x100_0000), ByteOf(length, 0x1_0000), ByteOf(length, 0x100), ByteOf(length, 1)]
  }

  /** Two bytes `(x >> 8) & 0xff`, `x & 0xff` read back as `x` when it fits in 16 bits. */
  lemma BigEndian16(x: nat)
    requires x <= 0xffff
    ensures BigEndian([ByteOf(x, 0x100), ByteOf(x, 1)]) == x
  {
    var b1, b0 := ByteOf(x, 0x100), ByteOf(x, 1);
    BigEndianSnoc([], b1);
    BigEndianSnoc([b1], b0);
    assert [b1] + [b0] == [b1, b0];
    assert b1 as nat == x / 256 && b0 as nat == x % 256;
  }

  /** Reading one more byte big-endian multiplies by 256 and adds it. */
  lemma BigEndianSnoc(s: seq<byte>, b: byte)
    ensures BigEndian(s + [b]) == BigEndian(s) * 256 + b as nat
  {
    assert (s + [b])[..|s|] == s;
  }

  /** Leading zero bytes do not change a big-endian number. */
  lemma {:induction false} BigEndianZeros(s: seq<byte>)
    requires forall i :: 0 <= i < |s| ==> s[i] == 0
    ensures BigEndian(s) == 0
  {
    if |s| > 0 {
      BigEndianZeros(s[..|s| - 1]);
    }
  }

  /** The eight bytes of the 64-bit field read back as `x` for `x <= 0x7fffffff`. */
  lemma BigEndian64(x: nat)
    requires x <= MaxLength
    ensures BigEndian([0, 0, 0, 0, ByteOf(x, 0x100_0000), ByteOf(x, 0x1_0000), ByteOf(x, 0x100), ByteOf(x, 1)]) == x
  {
    BigEndianLowFour(ByteOf(x, 0x100_0000), ByteOf(x, 0x1_0000), ByteOf(x, 0x100), ByteOf(x, 1));
    DigitsOf(x);
  }

  /** Eight bytes whose upper four are zero read as the number the lower four spell. */
  lemma BigEndianLowFour(b3: byte, b2: byte, b1: byte, b0: byte)
    ensures BigEndian([0, 0, 0, 0, b3, b2, b1, b0]) == ((b3 as nat * 256 + b2 as nat) * 256 + b1 as nat) * 256 + b0 as nat
  {
    var z: seq<byte> := [0, 0, 0, 0];
    BigEndianZeros(z);
    BigEndianSnoc(z, b3);
    BigEndianSnoc(z + [b3], b2);
    BigEndianSnoc(z + [b3] + [b2], b1);
    BigEndianSnoc(z + [b3] + [b2] + [b1], b0);
    assert z + [b3] + [b2] + [b1] + [b0] == [0, 0, 0, 0, b3, b2, b1, b0];
  }

  /** A number below 2^31 is its four base-256 digits. */
  lemma DigitsOf(x: nat)
    requires x <= MaxLength
    ensures ((x / 0x100_0000 % 256 * 256 + x / 0x1_0000 % 256) * 256 + x / 0x100 % 256) * 256 + x / 1 % 256 == x
  {
    var q1 := x / 256;
    var q2 := q1 / 256;
    var q3 := q2 / 256;
    assert x / 0x1_0000 == q2;
    assert x / 0x100_0000 == q3;
    assert q3 < 256;
    assert q2 == q3 * 256 + q2 % 256;
    assert q1 == q2 * 256 + q1 % 256;
    assert x == q1 * 256 + x % 256;
  }

  /** What a reader of section 5.2 of RFC 6455 takes out of a frame. */
  datatype Parsed = Parsed(fin: bool, rsv1: bool, rsv2: bool, rsv3: bool, opcode: byte, key: Option<Key>,
                           payload: seq<byte>)

  /** The byte count of the extended length field that byte 1's length code announces. */
  function FieldLen(b1: byte): (n: nat)
    ensures n == 0 || n == 2 || n == 8
  {
    var code := b1 & 0x7f;
    if code < 126 then 0 else if code == 126 then 2 else 8
  }

  /** The byte count of the key: 4 when byte 1's mask bit is set. */
  function KeyLen(b1: byte): (n: nat)
  {
    if b1 & 0x80 != 0 then 4 else 0
  }

  /** The payload length a frame announces: the 7-bit code, or the extended field read big-endian. */
  function Announced(frame: seq<byte>): (n: nat)
    requires |frame| >= 2 && |frame| >= 2 + FieldLen(frame[1])
  {
    if FieldLen(frame[1]) == 0 then (frame[1] & 0x7f) as nat else BigEndian(frame[2..2 + FieldLen(frame[1])])
  }

  /** The flags and opcode byte 0 carries, with the key and the payload read further on. */
  function FromFirstByte(b0: byte, key: Option<Key>, payload: seq<byte>): (p: Parsed)
  {
    Parsed(b0 & 0x80 != 0, b0 & 0x40 != 0, b0 & 0x20 != 0, b0 & 0x10 != 0, b0 & 0x0f, key, payload)
  }

  /**
   * An independent reading of one whole frame: the flags and the opcode
   * from byte 0, the mask bit and the length code from byte 1, the
   * extended length big-endian, the key when the mask bit is set, and the
   * payload, unmasked with the key. `None` when the bytes do not add up.
   */
  function Parse(frame: seq<byte>): (r: Option<Parsed>)
    ensures r.Some? ==> |frame| >= 2
  {
    if |frame| < 2 then None
    else
      var at := 2 + FieldLen(frame[1]) + KeyLen(frame[1]);
      if |frame| < at || |frame| != at + Announced(frame) then None
      else if KeyLen(frame[1]) == 4 then
        var k: Key := frame[at - 4..at];
        Some(FromFirstByte(frame[0], Some(k), Oracle.Mask(frame[at..], k)))
      else Some(FromFirstByte(frame[0], None, frame[at..]))
  }

  /** The `mask(source, mask, output, offset, length)` callback `createFrame` is handed. */
  type MaskFn = (seq<byte>, Key, seq<byte>, nat, nat) -> seq<byte>

  /** A callback that writes the rule's output into `output` at `offset` and changes nothing else. */
  ghost predicate MeetsRule(f: MaskFn)
  {
    forall s: seq<byte>, k: Key, o: seq<byte>, off: nat, len: nat | off + len <= |o| && len <= |s| ::
      f(s, k, o, off, len) == Place(o, off, Oracle.Mask(s[..len], k))
  }

  /** The rule itself as a callback. */
  function RuleMask(s: seq<byte>, k: Key, o: seq<byte>, off: nat, len: nat): (r: seq<byte>)
  {
    if off + len <= |o| && len <= |s| then Place(o, off, Oracle.Mask(s[..len], k)) else o
  }

  /** The rule as a callback meets the rule. */
  lemma RuleMaskMeetsRule()
    ensures MeetsRule(RuleMask)
  {
  }

  /** How `createFrame` ends: the frame, or the `Error` thrown above `0x7fffffff` bytes. */
  datatype Built = Built(frame: seq<byte>) | Threw

  /** What `createFrame(buffer, opcode, flags, ...)` promises to put in the frame. */
  function Expected(buffer: seq<byte>, opcode: bv32, flags: bv32, key: Key): (p: Parsed)
    ensures p.payload == buffer && p.opcode == (opcode & 0xf) as byte
    ensures p.key.Some? <==> Masked(flags)
  {
    Parsed(flags & Fin != 0, flags & Rsv1 != 0, flags & Rsv2 != 0, flags & Rsv3 != 0, (opcode & 0xf) as byte,
           if Masked(flags) then Some(key) else None, buffer)
  }

  /**
   * The header `createFrame` writes: byte 0, byte 1, the extended length,
   * and the key when masked.
   */
  function Header(flags: bv32, opcode: bv32, key: Key, length: nat): (h: seq<byte>)
    requires length <= MaxLength
    ensures |h| == HeaderSize(length, Masked(flags))
  {
    [FirstByte(flags, opcode), SecondByte(flags, length)] + LengthField(length) + (if Masked(flags) then key else [])
  }

  /**
   * `createFrame(buffer, opcode, flags, mask)` with the key `generateMask`
   * would draw and the bytes `Buffer.allocUnsafeSlow` hands out as
   * parameters. Above `0x7fffffff` bytes it throws. Otherwise, whenever the
   * callback meets the rule, the frame is the header followed by the
   * payload (masked when `MASK` is set), and a reader of the frame gets
   * back the flags, `opcode & 0xf`, the key exactly when masked, and the
   * payload. The callback is not consulted for an empty or unmasked payload.
   */
  method CreateFrame(buffer: seq<byte>, opcode: bv32, flags: bv32, maskImpl: MaskFn, key: Key, alloc: seq<byte>)
    returns (r: Built)
    requires |alloc| == HeaderSize(|buffer|, Masked(flags)) + |buffer|
    ensures r.Threw? <==> |buffer| > MaxLength
    ensures r.Built? && (MeetsRule(maskImpl) || !Masked(flags) || |buffer| == 0) ==>
      && r.frame == Header(flags, opcode, key, |buffer|) + (if Masked(flags) then Oracle.Mask(buffer, key) else buffer)
      && Parse(r.frame) == Some(Expected(buffer, opcode, flags, key))
  {
    var length := |buffer|;
    var offset := HeaderSize(length, Masked(flags));
    if length > 0xffff && length > MaxLength {
      return Threw;
    }
    var frame := alloc[0 := FirstByte(flags, opcode)][1 := SecondByte(flags, length)];
    frame := Place(frame, 2, LengthField(length));
    if Masked(flags) {
      frame := Place(frame, offset - 4, key);
    }
    ghost var header := frame;
    HeaderWritten(flags, opcode, key, length, alloc, header);
    if Masked(flags) {
      if length != 0 {
        frame := maskImpl(buffer, key, frame, offset, length);
      }
    } else if length != 0 {
      frame := Place(frame, offset, buffer);
    }
    r := Built(frame);
    if MeetsRule(maskImpl) || !Masked(flags) || length == 0 {
      ghost var payload := if Masked(flags) then Oracle.Mask(buffer, key) else buffer;
      if length != 0 {
        assert buffer[..length] == buffer;
        assert frame == Place(header, offset, payload);
      } else {
        assert payload == [];
      }
      assert frame == header[..offset] + payload;
      ParseFrame(flags, opcode, key, buffer);
    }
  }

  /** The bytes written before the payload are the header. */
  lemma HeaderWritten(flags: bv32, opcode: bv32, key: Key, length: nat, alloc: seq<byte>, header: seq<byte>)
    requires length <= MaxLength && |alloc| == HeaderSize(length, Masked(flags)) + length
    requires header == (var h := Place(alloc[0 := FirstByte(flags, opcode)][1 := SecondByte(flags, length)], 2,
                                       LengthField(length));
                        if Masked(flags) then Place(h, HeaderSize(length, true) - 4, key) else h)
    ensures |header| == |alloc| && header[..HeaderSize(length, Masked(flags))] == Header(flags, opcode, key, length)
  {
    var off, f := HeaderSize(length, Masked(flags)), LengthField(length);
    var h0 := alloc[0 := FirstByte(flags, opcode)][1 := SecondByte(flags, length)];
    var h := Place(h0, 2, f);
    PlaceAt(h0, 2, f);
    if Masked(flags) {
      PlaceAt(h, off - 4, key);
    }
    var want := Header(flags, opcode, key, length);
    forall p | 0 <= p < off ensures header[p] == want[p] {
      if 2 <= p < 2 + |f| {
        assert want[p] == f[p - 2];
      } else if 2 + |f| <= p {
        assert want[p] == key[p - 2 - |f|];
      }
    }
  }

  /**
   * A reader of section 5.2 of RFC 6455 takes back out of the header and
   * the (masked) payload what `createFrame` put in.
   */
  lemma ParseFrame(flags: bv32, opcode: bv32, key: Key, buffer: seq<byte>)
    requires |buffer| <= MaxLength
    ensures Parse(Header(flags, opcode, key, |buffer|) + (if Masked(flags) then Oracle.Mask(buffer, key) else buffer))
            == Some(Expected(buffer, opcode, flags, key))
  {
    var length := |buffer|;
    var f := LengthField(length);
    var h := Header(flags, opcode, key, length);
    var p := if Masked(flags) then Oracle.Mask(buffer, key) else buffer;
    assert h[0] == FirstByte(flags, opcode) && h[1] == SecondByte(flags, length);
    SecondByteFields(flags, length);
    assert Announced(h) == length by {
      assert h[2..2 + |f|] == f;
    }
    ParseOf(h, p);
    FirstByteFields(flags, opcode, if Masked(flags) then Some(key) else None, buffer);
    if Masked(flags) {
      assert h[|h| - 4..] == key;
      MaskInvolutive(buffer, key);
    }
  }

  /** A header that announces exactly the bytes after it reads as its fields and that payload. */
  lemma ParseOf(h: seq<byte>, p: seq<byte>)
    requires |h| >= 2 && |h| == 2 + FieldLen(h[1]) + KeyLen(h[1]) && Announced(h) == |p|
    ensures KeyLen(h[1]) == 4 ==>
      var k: Key := h[|h| - 4..]; Parse(h + p) == Some(FromFirstByte(h[0], Some(k), Oracle.Mask(p, k)))
    ensures KeyLen(h[1]) == 0 ==> Parse(h + p) == Some(FromFirstByte(h[0], None, p))
  {
    var frame := h + p;
    assert frame[0] == h[0] && frame[1] == h[1];
    assert frame[2..2 + FieldLen(h[1])] == h[2..2 + FieldLen(h[1])];
    assert Announced(frame) == Announced(h);
    assert frame[|h|..] == p;
    if KeyLen(h[1]) == 4 {
      assert frame[|h| - 4..|h|] == h[|h| - 4..];
    }
  }

  /**
   * The offset `createFrame` computes for the payload is where a reader
   * finds it: two bytes, the extended field byte 1's length code announces,
   * and the key when byte 1's mask bit is set.
   */
  lemma HeaderSizeRead(flags: bv32, length: nat)
    requires length <= MaxLength
    ensures HeaderSize(length, Masked(flags))
            == 2 + FieldLen(SecondByte(flags, length)) + KeyLen(SecondByte(flags, length))
  {
    SecondByteFields(flags, length);
  }

  /** Byte 1 announces the extended length field `createFrame` writes and the key exactly when masked. */
  lemma SecondByteFields(flags: bv32, length: nat)
    requires length <= MaxLength
    ensures FieldLen(SecondByte(flags, length)) == |LengthField(length)|
    ensures KeyLen(SecondByte(flags, length)) == (if Masked(flags) then 4 else 0)
    ensures length < 126 ==> (SecondByte(flags, length) & 0x7f) as nat == length
  {
  }

  /** Reading byte 0 gives back the flags and `opcode & 0xf`. */
  lemma FirstByteFields(flags: bv32, opcode: bv32, key: Option<Key>, payload: seq<byte>)
    ensures FromFirstByte(FirstByte(flags, opcode), key, payload)
            == Parsed(flags & Fin != 0, flags & Rsv1 != 0, flags & Rsv2 != 0, flags & Rsv3 != 0,
                      (opcode & 0xf) as byte, key, payload)
  {
  }
}
