/**
 * `collections/legacy/js-legacy.js`: the scalar implementation kept for
 * reference (its commented-out word packing is not part of it). `mask` writes
 * `source[i] ^ key[i & 3]` straight into the output four bytes at a time and
 * then byte by byte; `unmask` XORs the key into a buffer in place.
 */
module JsLegacy {
  import opened Bytes
  import opened Oracle
  import opened Memory

  /**
   * Masks the first `length` bytes of `source` into `output` from `offset` on;
   * nothing else in `output` changes. `same` says the caller passed the output
   * array itself as the source: there is no copy, so when the output window
   * starts inside the payload the loop reads bytes it has already rewritten.
   */
  method Mask(source: seq<byte>, key: Key, output: seq<byte>, offset: nat, length: nat, same: bool)
    returns (r: seq<byte>)
    requires length <= |source| && offset + length <= |output|
    requires same ==> source == output
    ensures !same || offset == 0 || length <= offset ==>
      r == Place(output, offset, Oracle.Mask(source[..length], key))
    ensures same ==> |r| == |output|
    ensures same ==> forall p :: 0 <= p < |output| && !(offset <= p < offset + length) ==> r[p] == output[p]
    ensures same ==> forall q :: 0 <= q < length ==>
      r[offset + q] == (if 0 < offset <= q then r[q] else output[q]) ^ key[q % 4]
  {
    if same {
      r := MaskOwn(key, output, offset, length);
    } else {
      r := MaskApart(source, key, output, offset, length);
    }
  }

  /** The loops of `mask` with a source that is not the output array. */
  method MaskApart(source: seq<byte>, key: Key, output: seq<byte>, offset: nat, length: nat) returns (r: seq<byte>)
    requires length <= |source| && offset + length <= |output|
    ensures r == Place(output, offset, Oracle.Mask(source[..length], key))
  {
    var fixedLength := length - length % 4;
    assert fixedLength == 4 * (length / 4);
    var mask0, mask1, mask2, mask3 := key[0], key[1], key[2], key[3];
    r := output;
    ghost var words := 0;
    var i := 0;
    while i < fixedLength
      invariant i == 4 * words && i <= fixedLength
      invariant Written(r, output, offset, source, i, key)
    {
      WriteQuad(r, output, offset, source, i, key);
      r := WriteQuadAt(r, offset + i, source, i, mask0, mask1, mask2, mask3);
      i := i + 4;
      words := words + 1;
    }
    while i < length
      invariant i <= length
      invariant Written(r, output, offset, source, i, key)
    {
      WriteByte(r, output, offset, source, i, key);
      r := r[offset + i := source[i] ^ key[i % 4]];
      i := i + 1;
    }
    WrittenFinal(r, output, offset, source, length, key);
  }

  /**
   * The loops of `mask` with the output array as its own source: byte `q` of
   * the payload is read as it stands when step `q` runs. Bytes before the
   * output window are never written, and a byte inside it was rewritten by
   * step `q - offset`, so each output byte is the key XORed into that byte.
   */
  method MaskOwn(key: Key, output: seq<byte>, offset: nat, length: nat) returns (r: seq<byte>)
    requires offset + length <= |output|
    ensures |r| == |output|
    ensures forall p :: 0 <= p < |output| && !(offset <= p < offset + length) ==> r[p] == output[p]
    ensures forall q :: 0 <= q < length ==>
      r[offset + q] == (if 0 < offset <= q then r[q] else output[q]) ^ key[q % 4]
    ensures offset == 0 || length <= offset ==> r == Place(output, offset, Oracle.Mask(output[..length], key))
  {
    var fixedLength := length - length % 4;
    assert fixedLength == 4 * (length / 4);
    var mask0, mask1, mask2, mask3 := key[0], key[1], key[2], key[3];
    r := output;
    ghost var words := 0;
    var i := 0;
    while i < fixedLength
      invariant i == 4 * words && i <= fixedLength
      invariant WrittenOwn(r, output, offset, i, key)
    {
      WriteOwnQuad(r, output, offset, i, key);
      r := WriteOwnQuadAt(r, i + offset, i, mask0, mask1, mask2, mask3);
      i := i + 4;
      words := words + 1;
    }
    while i < length
      invariant i <= length
      invariant WrittenOwn(r, output, offset, i, key)
    {
      WriteOwnByte(r, output, offset, i, key, key[i % 4]);
      r := OwnByteAt(r, offset + i, i, key[i % 4]);
      i := i + 1;
    }
    WrittenOwnSpelled(r, output, offset, length, key);
    if offset == 0 || length <= offset {
      WrittenOwnApart(r, output, offset, length, key);
    }
  }

  /**
   * `mask(buf, key, buf, 1, 2)` on three zero bytes with key 1, 2, 3, 4: the
   * second write reads the byte the first one produced, so the result is not
   * the rule's `[0, 1, 2]`.
   */
  method SameViewOverlap() returns (r: seq<byte>)
    ensures r == [0, 1, 3]
    ensures r != Place([0, 0, 0], 1, Oracle.Mask([0, 0], [1, 2, 3, 4]))
  {
    var buf: seq<byte>, key: Key := [0, 0, 0], [1, 2, 3, 4];
    r := Mask(buf, key, buf, 1, 2, true);
    assert r[1 + 0] == buf[0] ^ key[0 % 4];
    assert r[1 + 1] == r[1] ^ key[1 % 4];
    assert Oracle.Mask([0, 0], [1, 2, 3, 4])[1] == 2;
  }

  /** Unmasks a whole buffer in place: the result is the rule applied to it. */
  method Unmask(buffer: seq<byte>, key: Key) returns (r: seq<byte>)
    ensures r == Oracle.Mask(buffer, key)
  {
    var length := |buffer|;
    var fixedLength := length - length % 4;
    assert fixedLength == 4 * (length / 4);
    var mask0, mask1, mask2, mask3 := key[0], key[1], key[2], key[3];
    r := buffer;
    ghost var words := 0;
    var i := 0;
    while i < fixedLength
      invariant i == 4 * words && i <= fixedLength
      invariant Masked(r, buffer, 0, i, key)
    {
      StepQuad(r, buffer, 0, i, key);
      r := XorQuadAt(r, i, mask0, mask1, mask2, mask3);
      i := i + 4;
      words := words + 1;
    }
    while i < length
      invariant i <= length
      invariant Masked(r, buffer, 0, i, key)
    {
      StepByte(r, buffer, 0, i, key);
      r := XorByteAt(r, i, key[i % 4]);
      i := i + 1;
    }
    assert r == Oracle.Mask(buffer, key) by {
      MaskedFinal(r, buffer, 0, length, key);
      assert buffer[0..length] == buffer;
    }
  }
}
