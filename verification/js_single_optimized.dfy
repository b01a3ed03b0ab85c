/**
 * `collections/js-single-optimized.js`: always copies the source into the
 * output with `set`, then XORs byte by byte.
 */
module JsSingleOptimized {
  import opened Bytes
  import opened Oracle
  import opened Memory

  /**
   * Masks the first `length` bytes of `source` into `output` from `offset` on;
   * nothing else in `output` changes.
   */
  method Mask(source: seq<byte>, key: Key, output: seq<byte>, offset: nat, length: nat) returns (r: seq<byte>)
    requires length <= |source| && offset + length <= |output|
    ensures r == Place(output, offset, Oracle.Mask(source[..length], key))
  {
    var src := if |source| == length then source else source[..length];
    assert src == source[..length];
    var placed := Place(output, offset, src);
    r := placed;
    var i := 0;
    while i < length
      invariant i <= length
      invariant Masked(r, placed, offset, i, key)
    {
      StepByte(r, placed, offset, i, key);
      r := XorByteAt(r, offset + i, key[i % 4]);
      i := i + 1;
    }
    assert r == Place(output, offset, Oracle.Mask(src, key)) by {
      MaskedPlaced(r, output, offset, src, key);
    }
  }

  /** Unmasks a whole buffer in place: the result is the rule applied to it. */
  method Unmask(buffer: seq<byte>, key: Key) returns (r: seq<byte>)
    ensures r == Oracle.Mask(buffer, key)
  {
    r := buffer;
    var i := 0;
    while i < |buffer|
      invariant i <= |buffer|
      invariant Masked(r, buffer, 0, i, key)
    {
      StepByte(r, buffer, 0, i, key);
      r := XorByteAt(r, i, key[i % 4]);
      i := i + 1;
    }
    assert r == Oracle.Mask(buffer, key) by {
      MaskedFinal(r, buffer, 0, |buffer|, key);
      assert buffer[0..|buffer|] == buffer;
    }
  }
}
