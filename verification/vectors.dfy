/**
 * The concrete vectors the repository's tests check, run through the
 * package entry point `index.js` (on either host): the three `ws` vectors
 * (masking in place, masking at offset 2 into a zeroed buffer, unmasking)
 * and the cycling, partial-window and empty cases of the shared test suite.
 */
module Vectors {
  import opened Bytes
  import opened Oracle
  import opened Memory
  import IndexJs

  /** The `ws` payload and its masking key. */
  const WsPlain: seq<byte> := [0x6c, 0x3c, 0x58, 0xd9, 0x3e, 0x21, 0x09, 0x9f]
  const WsMasked: seq<byte> := [0x24, 0x16, 0x96, 0xfd, 0x76, 0x0b, 0xc7, 0xbb]
  const WsKey: Key := [0x48, 0x2a, 0xce, 0x24]

  /** The shared suite's key and its 16-byte payload, four turns of the key. */
  const SuiteKey: Key := [0x01, 0x02, 0x03, 0x04]
  const Cycling: seq<byte> := [0x01, 0x02, 0x03, 0x04, 0x05, 0x06, 0x07, 0x08, 0x09, 0x0a, 0x0b, 0x0c, 0x0d, 0x0e, 0x0f, 0x10]
  const CyclingMasked: seq<byte> := [0x00, 0x00, 0x00, 0x00, 0x04, 0x04, 0x04, 0x0c, 0x08, 0x08, 0x08, 0x08, 0x0c, 0x0c, 0x0c, 0x14]

  /** `mask(buf, mask, buf, 0, buf.length)`: the `ws` payload masked in place. */
  method WsMaskInPlace(host: Endian) returns (r: seq<byte>)
    ensures r == WsMasked
  {
    r := IndexJs.Mask(WsPlain, WsKey, WsPlain, 0, 8, 0, 8, true, host);
    assert WsPlain[..8] == WsPlain;
    WsVector();
    PlaceWhole(WsPlain, WsMasked);
  }

  /** `mask(src, mask, dest, 2, src.length)` into ten zero bytes: two zeros, then the masked payload. */
  method WsMaskAtOffset(host: Endian) returns (r: seq<byte>)
    ensures r == [0x00, 0x00] + WsMasked
  {
    var dest: seq<byte> := [0, 0, 0, 0, 0, 0, 0, 0, 0, 0];
    r := IndexJs.Mask(WsPlain, WsKey, dest, 0, 10, 2, 8, false, host);
    assert WsPlain[..8] == WsPlain;
    WsVector();
    assert dest[..2] == [0x00, 0x00] && dest[10..] == [];
  }

  /** `unmask(buf, mask)` of the masked `ws` payload: the plain payload back. */
  method WsUnmask(host: Endian) returns (r: seq<byte>)
    ensures r == WsPlain
  {
    r := IndexJs.Unmask(WsMasked, 0, 8, WsKey, host);
    assert WsMasked[0..8] == WsMasked;
    WsVector();
    PlaceWhole(WsMasked, WsPlain);
  }

  /** The rule over the `ws` payload, one turn of the key at a time, and back. */
  lemma WsVector()
    ensures Oracle.Mask(WsPlain, WsKey) == WsMasked
    ensures Oracle.Mask(WsMasked, WsKey) == WsPlain
  {
    var a, b := WsPlain[..4], WsPlain[4..];
    assert WsPlain == a + b;
    WsTurns();
    MaskFromConcat(a, b, WsKey, 0);
    MaskInvolutive(WsPlain, WsKey);
  }

  /** Each turn of the key over the `ws` payload. */
  lemma WsTurns()
    ensures MaskFrom(WsPlain[..4], WsKey, 0) == WsMasked[..4]
    ensures MaskFrom(WsPlain[4..], WsKey, 4) == WsMasked[4..]
  {
  }

  /** Sixteen bytes into a zeroed output: every byte XORed with `mask[i & 3]`. */
  method MaskCycling(host: Endian) returns (r: seq<byte>)
    ensures r == CyclingMasked
  {
    var output: seq<byte> := seq(16, _ => 0);
    r := IndexJs.Mask(Cycling, SuiteKey, output, 0, 16, 0, 16, false, host);
    assert Cycling[..16] == Cycling;
    PlaceWhole(output, Oracle.Mask(Cycling, SuiteKey));
    CyclingVector();
  }

  /** The rule over the cycling payload, one turn of the key at a time. */
  lemma CyclingVector()
    ensures Oracle.Mask(Cycling, SuiteKey) == CyclingMasked
    ensures Oracle.Mask(CyclingMasked, SuiteKey) == Cycling
  {
    var a, b, c, d := Cycling[..4], Cycling[4..8], Cycling[8..12], Cycling[12..];
    var k := SuiteKey;
    assert Cycling == a + b + c + d;
    CyclingTurns();
    calc {
      Oracle.Mask(Cycling, k);
      MaskFrom(a + b + c + d, k, 0);
      { MaskFromConcat(a + b + c, d, k, 0); assert |a + b + c| == 12; }
      MaskFrom(a + b + c, k, 0) + MaskFrom(d, k, 12);
      { MaskFromConcat(a + b, c, k, 0); assert |a + b| == 8; }
      MaskFrom(a + b, k, 0) + MaskFrom(c, k, 8) + MaskFrom(d, k, 12);
      { MaskFromConcat(a, b, k, 0); }
      MaskFrom(a, k, 0) + MaskFrom(b, k, 4) + MaskFrom(c, k, 8) + MaskFrom(d, k, 12);
      CyclingMasked;
    }
    MaskInvolutive(Cycling, k);
  }

  /** Each turn of the key over the cycling payload. */
  lemma CyclingTurns()
    ensures MaskFrom(Cycling[..4], SuiteKey, 0) == [0x00, 0x00, 0x00, 0x00]
    ensures MaskFrom(Cycling[4..8], SuiteKey, 4) == [0x04, 0x04, 0x04, 0x0c]
    ensures MaskFrom(Cycling[8..12], SuiteKey, 8) == [0x08, 0x08, 0x08, 0x08]
    ensures MaskFrom(Cycling[12..], SuiteKey, 12) == [0x0c, 0x0c, 0x0c, 0x14]
  {
  }

  /** Three of five bytes into eight bytes of 0xee at offset 2: only bytes 2 to 4 change. */
  method MaskPartialWindow(host: Endian) returns (r: seq<byte>)
    ensures r == [0xee, 0xee, 0x11, 0x22, 0x33, 0xee, 0xee, 0xee]
  {
    var source: seq<byte> := [0x10, 0x20, 0x30, 0x40, 0x50];
    var output: seq<byte> := seq(8, _ => 0xee);
    r := IndexJs.Mask(source, SuiteKey, output, 0, 8, 2, 3, false, host);
    assert source[..3] == [0x10, 0x20, 0x30];
    assert Oracle.Mask([0x10, 0x20, 0x30], SuiteKey) == [0x11, 0x22, 0x33];
    PlaceAt(output, 2, [0x11, 0x22, 0x33]);
  }

  /** A zero length leaves the output as it was, whatever the source. */
  method MaskNothing(source: seq<byte>, output: seq<byte>, host: Endian) returns (r: seq<byte>)
    ensures r == output
  {
    r := IndexJs.Mask(source, SuiteKey, output, 0, |output|, 0, 0, false, host);
    assert output[..0] + [] + output[0..] == output;
  }

  /** The cycling payload masked, unmasked in place: the payload back. */
  method UnmaskCycling(host: Endian) returns (r: seq<byte>)
    ensures r == Cycling
  {
    r := IndexJs.Unmask(CyclingMasked, 0, 16, SuiteKey, host);
    assert CyclingMasked[0..16] == CyclingMasked;
    CyclingVector();
    PlaceWhole(CyclingMasked, Oracle.Mask(CyclingMasked, SuiteKey));
  }

  /** A two-byte buffer unmasked: `0xab ^ 1`, `0xb9 ^ 2`. */
  method UnmaskShort(host: Endian) returns (r: seq<byte>)
    ensures r == [0xaa, 0xbb]
  {
    var buffer: seq<byte> := [0xab, 0xb9];
    r := IndexJs.Unmask(buffer, 0, 2, SuiteKey, host);
    assert buffer[0..2] == buffer;
    PlaceWhole(buffer, Oracle.Mask(buffer, SuiteKey));
  }
}
