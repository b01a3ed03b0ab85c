/**
 * `collections/js.js`: copies the source into the output with `set`, then
 * XORs the key into the copy four bytes at a time and byte by byte.
 */
module CollectionsJs {
  import opened Bytes
  import opened Oracle
  import opened Memory

  /**
   * Masks the first `length` bytes of `source` into `output` from `offset` on;
   * nothing else in `output` changes.
   */
  method Mask(source: seq<byte>, key: Key, output: seq<byte>, offset: nat, length: nat) returns (r: seq<byte>)
    requires length <= |source| && offset + length <= |output|
    ensures r == Place(output, offset, Oracle.Mask(source[..length], key))
  {
    var src := if |source| == length then source else source[..length];
    assert src == source[..length];
    var placed := Place(output, offset, src);
    r := placed;
    var fixedLength := length - length % 4;
    assert fixedLength == 4 * (length / 4);
    ghost var words := 0;
    var i := 0;
    while i < fixedLength
      invariant i == 4 * words && i <= fixedLength
      invariant Masked(r, placed, offset, i, key)
    {
      StepQuad(r, placed, offset, i, key);
      r := XorQuadAt(r, offset + i, key[0], key[1], key[2], key[3]);
      i := i + 4;
      words := words + 1;
    }
    while i < length
      invariant i <= length
      invariant Masked(r, placed, offset, i, key)
    {
      StepByte(r, placed, offset, i, key);
      r := XorByteAt(r, offset + i, key[i % 4]);
      i := i + 1;
    }
    assert r == Place(output, offset, Oracle.Mask(src, key)) by {
      MaskedPlaced(r, output, offset, src, key);
    }
  }

  /** Unmasks a whole buffer in place: the result is the rule applied to it. */
  method Unmask(buffer: seq<byte>, key: Key) returns (r: seq<byte>)
    ensures r == Oracle.Mask(buffer, key)
  {
    var length := |buffer|;
    var fixedLength := length - length % 4;
    assert fixedLength == 4 * (length / 4);
    r := buffer;
    ghost var words := 0;
    var i := 0;
    while i < fixedLength
      invariant i == 4 * words && i <= fixedLength
      invariant Masked(r, buffer, 0, i, key)
    {
      StepQuad(r, buffer, 0, i, key);
      r := XorQuadAt(r, i, key[0], key[1], key[2], key[3]);
      i := i + 4;
      words := words + 1;
    }
    while i < length
      invariant i <= length
      invariant Masked(r, buffer, 0, i, key)
    {
      StepByte(r, buffer, 0, i, key);
      r := XorByteAt(r, i, key[i % 4]);
      i := i + 1;
    }
    assert r == Oracle.Mask(buffer, key) by {
      MaskedFinal(r, buffer, 0, length, key);
      assert buffer[0..length] == buffer;
    }
  }
}
