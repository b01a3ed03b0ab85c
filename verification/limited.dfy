/**
 * `collections/limited.js`: a word-only fast path that refuses what it does
 * not handle. `fastMask` throws a `TypeError` unless its target spans its
 * whole `ArrayBuffer` (so its `byteOffset` is 0) and the offset is a
 * multiple of 4; it XORs the host-order key word into `length >> 2` words
 * from the offset and then writes the last `length & 3` bytes.
 *
 * As written, the tail loop ASSIGNS `mask[i & 3]` instead of XORing it, and
 * `mask` copies the payload to `offset` but runs `fastMask` on offset 0.
 * Both are modelled as written (`FastMask`, `Mask`, `Unmask`) next to the
 * corrected members (`FastMaskCorrected`, `MaskCorrected`,
 * `UnmaskCorrected`), which meet the rule of section 5.3 of RFC 6455.
 *
 * A view is its `byteOffset` `view` and its length `viewLen` in the store.
 */
module Limited {
  import opened Bytes
  import opened Oracle
  import opened Memory
  import IndexJs

  /** How a call ends: normally or with a `TypeError`, and the store it leaves behind. */
  datatype Outcome = Returned(store: seq<byte>) | ThrewTypeError(store: seq<byte>)

  /**
   * What `mask` leaves in a whole-buffer output: the payload placed at
   * `offset`, then the first `|src|` bytes of the buffer, from address 0,
   * put through the word loop and the assigning tail.
   */
  function MaskEffect(mem: seq<byte>, offset: nat, src: seq<byte>, key: Key): (r: seq<byte>)
    requires offset + |src| <= |mem|
    ensures |r| == |mem|
  {
    var placed := Place(mem, offset, src);
    Place(placed, 0, TailAssigned(placed[..|src|], key))
  }

  // ---------------------------------------------------------------------
  // As written

  /**
   * `fastMask(source, mask, offset, length)`: the guard, `length >> 2` words
   * from `offset` (eight per round, then the rest), and the tail loop that
   * assigns key bytes at `source[i]` for `i` from `length - (length & 3)`
   * to `length`, without adding `offset`.
   */
  method FastMask(mem: seq<byte>, view: nat, viewLen: nat, key: Key, offset: nat, length: nat, host: Endian)
    returns (r: Outcome)
    requires view + viewLen <= |mem| && offset + length <= viewLen && length < 0x8000_0000
    ensures viewLen != |mem| || offset % 4 != 0 <==> r.ThrewTypeError?
    ensures r.ThrewTypeError? ==> r.store == mem
    ensures r.Returned? ==>
      var fl := length - length % 4;
      r.store == Place(Place(mem, offset, Oracle.Mask(mem[offset..offset + fl], key)), fl, KeyStream(key, fl, length - fl))
  {
    if viewLen != |mem| || offset % 4 != 0 {
      return ThrewTypeError(mem);
    }
    var int32Length := length / 4;
    var fl := 4 * int32Length;
    assert fl == length - length % 4;
    var words := XorKeyWords(mem, key, offset, int32Length, host);
    if length % 4 != 0 {
      words := AssignKeyBytes(words, fl, length, key);
    } else {
      PlaceNothing(words, fl);
    }
    r := Returned(words);
  }

  /**
   * `mask(source, mask, output, offset, length)`: the guard on the offset
   * and on the SOURCE spanning its buffer, the copy unless the call is in
   * place at offset 0, then `fastMask(output, mask, 0, length)`, which
   * throws after the copy when the output is a partial view. `sourceWhole`
   * says `source` spans its whole buffer; `same` says `source` is `output`.
   */
  method Mask(source: seq<byte>, sourceWhole: bool, key: Key, mem: seq<byte>, view: nat, viewLen: nat,
              offset: nat, length: nat, same: bool, host: Endian) returns (r: Outcome)
    requires view + viewLen <= |mem| && offset + length <= viewLen && length <= |source|
    requires same ==> source == mem[view..view + viewLen] && (sourceWhole <==> viewLen == |mem|)
    requires length < 0x8000_0000
    ensures offset % 4 != 0 || !sourceWhole ==> r == ThrewTypeError(mem)
    ensures offset % 4 == 0 && sourceWhole && viewLen != |mem| ==>
      r == ThrewTypeError(Place(mem, view + offset, source[..length]))
    ensures offset % 4 == 0 && sourceWhole && viewLen == |mem| ==>
      r == Returned(MaskEffect(mem, offset, source[..length], key))
  {
    if offset % 4 != 0 || !sourceWhole {
      return ThrewTypeError(mem);
    }
    var src := source[..length];
    var placed := CopyIn(source, mem, view, viewLen, offset, length, same);
    r := FastMask(placed, view, viewLen, key, 0, length, host);
    if r.Returned? {
      TailAssignedPlaced(placed, length, key);
    }
  }

  /** `unmask(buffer, mask)`: `fastMask(buffer, mask, 0, buffer.length)`. */
  method Unmask(mem: seq<byte>, view: nat, viewLen: nat, key: Key, host: Endian) returns (r: Outcome)
    requires view + viewLen <= |mem| && viewLen < 0x8000_0000
    ensures viewLen != |mem| ==> r == ThrewTypeError(mem)
    ensures viewLen == |mem| ==> r == Returned(TailAssigned(mem, key))
  {
    r := FastMask(mem, view, viewLen, key, 0, viewLen, host);
    if r.Returned? {
      TailAssignedPlaced(mem, viewLen, key);
      assert mem[..viewLen] == mem;
      PlaceWhole(mem, TailAssigned(mem, key));
    }
  }

  /**
   * In place at offset 0 the result is the rule's exactly when the tail
   * bytes are zero: always when `length` is a multiple of 4.
   */
  lemma MaskEffectAtZeroIff(mem: seq<byte>, src: seq<byte>, key: Key)
    requires |src| <= |mem|
    ensures MaskEffect(mem, 0, src, key) == Place(mem, 0, Oracle.Mask(src, key))
            <==> forall i :: |src| - |src| % 4 <= i < |src| ==> src[i] == 0
  {
    var placed := Place(mem, 0, src);
    PlaceTwice(mem, 0, src, TailAssigned(src, key));
    assert placed[..|src|] == src;
    PlaceInjective(mem, 0, TailAssigned(src, key), Oracle.Mask(src, key));
    TailAssignedIsMaskIff(src, key);
  }

  /**
   * The ignored offset: four zero bytes masked at offset 4 of an eight-byte
   * buffer land on bytes 0 to 3, and bytes 4 to 7 keep the unmasked copy.
   */
  lemma MaskEffectIgnoresOffset()
    ensures var mem: seq<byte> := [0, 0, 0, 0, 0, 0, 0, 0];
            var src: seq<byte> := [0, 0, 0, 0];
            && MaskEffect(mem, 4, src, Quad(1, 2, 3, 4)) == [1, 2, 3, 4, 0, 0, 0, 0]
            && Place(mem, 4, Oracle.Mask(src, Quad(1, 2, 3, 4))) == [0, 0, 0, 0, 1, 2, 3, 4]
  {
    var mem: seq<byte> := [0, 0, 0, 0, 0, 0, 0, 0];
    var src: seq<byte> := [0, 0, 0, 0];
    var masked: seq<byte> := [1, 2, 3, 4];
    ZerosMasked();
    var placed := Place(mem, 4, src);
    assert placed == mem;
    assert placed[..4] == src;
    assert Place(mem, 0, masked) == masked + mem[4..];
    assert Place(mem, 4, masked) == mem[..4] + masked;
  }

  /** Four zero bytes come out as the key under both the rule and the assigning tail. */
  lemma ZerosMasked()
    ensures TailAssigned([0, 0, 0, 0], Quad(1, 2, 3, 4)) == [1, 2, 3, 4]
    ensures Oracle.Mask([0, 0, 0, 0], Quad(1, 2, 3, 4)) == [1, 2, 3, 4]
  {
    var src: seq<byte> := [0, 0, 0, 0];
    assert src[..4] == src;
  }

  // ---------------------------------------------------------------------
  // Corrected

  /** `fastMask` with the tail XORed at `offset + i`: the rule over the region at `offset`. */
  method FastMaskCorrected(mem: seq<byte>, view: nat, viewLen: nat, key: Key, offset: nat, length: nat,
                           host: Endian) returns (r: Outcome)
    requires view + viewLen <= |mem| && offset + length <= viewLen && length < 0x8000_0000
    ensures viewLen != |mem| || offset % 4 != 0 <==> r.ThrewTypeError?
    ensures r.ThrewTypeError? ==> r.store == mem
    ensures r.Returned? ==> r.store == Place(mem, offset, Oracle.Mask(mem[offset..offset + length], key))
  {
    if viewLen != |mem| || offset % 4 != 0 {
      return ThrewTypeError(mem);
    }
    var maskKey := KeyWord(host, key);
    RotKeyZero(key);
    MaskedStart(mem, offset, key);
    var words := XorWordsUnrolled(mem, mem, offset, 0, length / 4, key, maskKey, host);
    words := IndexJs.XorTail(words, mem, offset, 4 * (length / 4), length, key);
    MaskedFinal(words, mem, offset, length, key);
    r := Returned(words);
  }

  /** `mask` calling the corrected `fastMask` on `offset`: the rule at the output window. */
  method MaskCorrected(source: seq<byte>, sourceWhole: bool, key: Key, mem: seq<byte>, view: nat, viewLen: nat,
                       offset: nat, length: nat, same: bool, host: Endian) returns (r: Outcome)
    requires view + viewLen <= |mem| && offset + length <= viewLen && length <= |source|
    requires same ==> source == mem[view..view + viewLen] && (sourceWhole <==> viewLen == |mem|)
    requires length < 0x8000_0000
    ensures offset % 4 != 0 || !sourceWhole ==> r == ThrewTypeError(mem)
    ensures offset % 4 == 0 && sourceWhole && viewLen != |mem| ==>
      r == ThrewTypeError(Place(mem, view + offset, source[..length]))
    ensures offset % 4 == 0 && sourceWhole && viewLen == |mem| ==>
      r == Returned(Place(mem, offset, Oracle.Mask(source[..length], key)))
  {
    if offset % 4 != 0 || !sourceWhole {
      return ThrewTypeError(mem);
    }
    var src := source[..length];
    var placed := CopyIn(source, mem, view, viewLen, offset, length, same);
    r := FastMaskCorrected(placed, view, viewLen, key, offset, length, host);
    if r.Returned? {
      PlaceTwice(mem, offset, src, Oracle.Mask(src, key));
    }
  }

  /** `unmask` through the corrected `fastMask`: the whole buffer unmasked. */
  method UnmaskCorrected(mem: seq<byte>, view: nat, viewLen: nat, key: Key, host: Endian) returns (r: Outcome)
    requires view + viewLen <= |mem| && viewLen < 0x8000_0000
    ensures viewLen != |mem| ==> r == ThrewTypeError(mem)
    ensures viewLen == |mem| ==> r == Returned(Oracle.Mask(mem, key))
  {
    r := FastMaskCorrected(mem, view, viewLen, key, 0, viewLen, host);
    if r.Returned? {
      assert mem[0..viewLen] == mem;
      PlaceWhole(mem, Oracle.Mask(mem, key));
    }
  }
}
