/**
 * `collections/js-simple.js`: copies the source into the output unless it
 * already sits there (same array, offset 0), then XORs byte by byte.
 */
module JsSimple {
  import opened Bytes
  import opened Oracle
  import opened Memory

  /**
   * Masks the first `length` bytes of `source` into `output` from `offset` on.
   * `same` says the caller passed the output array itself as the source; the
   * copy is skipped exactly when `same` holds and `offset` is 0.
   */
  method Mask(source: seq<byte>, key: Key, output: seq<byte>, offset: nat, length: nat, same: bool)
    returns (r: seq<byte>)
    requires length <= |source| && offset + length <= |output|
    requires same ==> source == output
    ensures r == Place(output, offset, Oracle.Mask(source[..length], key))
  {
    var src := source[..length];
    var placed := output;
    if !same || offset != 0 {
      placed := Place(output, offset, if |source| == length then source else src);
    } else {
      PlaceOwn(output, 0, length);
      assert output[0..length] == source[..length];
    }
    assert placed == Place(output, offset, src);
    r := placed;
    var i := 0;
    while i < length
      invariant i <= length
      invariant Masked(r, placed, offset, i, key)
    {
      StepByte(r, placed, offset, i, key);
      r := XorByteAt(r, offset + i, key[i % 4]);
      i := i + 1;
    }
    assert r == Place(output, offset, Oracle.Mask(src, key)) by {
      MaskedPlaced(r, output, offset, src, key);
    }
  }

  /** Unmasks a whole buffer in place: the result is the rule applied to it. */
  method Unmask(buffer: seq<byte>, key: Key) returns (r: seq<byte>)
    ensures r == Oracle.Mask(buffer, key)
  {
    r := buffer;
    var i := 0;
    while i < |buffer|
      invariant i <= |buffer|
      invariant Masked(r, buffer, 0, i, key)
    {
      StepByte(r, buffer, 0, i, key);
      r := XorByteAt(r, i, key[i % 4]);
      i := i + 1;
    }
    assert r == Oracle.Mask(buffer, key) by {
      MaskedFinal(r, buffer, 0, |buffer|, key);
      assert buffer[0..|buffer|] == buffer;
    }
  }
}
