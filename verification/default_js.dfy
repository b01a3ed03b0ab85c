/**
 * `default.js`: `initialize()` allocates a 16 KiB staging buffer with an
 * `Int32Array` over it and returns `mask`/`unmask`. Payloads shorter than 64
 * bytes go through a byte loop; a call in place on a view that spans its
 * whole buffer takes `fastJsMask`, which XORs words in the caller's buffer
 * and then ASSIGNS `mask[i & 3]` to the last `length & 3` bytes; everything
 * else is copied through the staging buffer by `jsMask`, in one pass up to
 * 16384 bytes and otherwise in chunks of 16384 bytes, each of which starts
 * at phase 0.
 *
 * The staging buffer is state that survives between calls: it is passed in
 * and handed back. A view is its `byteOffset` `view` and its length
 * `viewLen` in the store `mem`.
 */
module DefaultJs {
  import opened Bytes
  import opened Oracle
  import opened Memory
  import IndexJs
  import Staging

  /** `memorySize`: the byte length of the staging buffer. */
  const MemorySize: nat := Staging.StagingBytes

  /** Below this length `mask` and `unmask` use the byte loop. */
  const SmallLength: nat := 64

  /** `jsMask` runs the 32-bit word loop with the host-order key word `int32(mask[0], ..., mask[3])`. */
  function Kernel(host: Endian, key: Key): (k: Staging.Kernel)
    ensures Staging.Valid(k) && Staging.Size(k) == MemorySize
    ensures Staging.KernelKey(k, host) == key
  {
    Staging.Words32(KeyWord(host, key))
  }

  /** The 32-bit kernel never drops bytes: under the key word it is the rule. */
  lemma KernelIsMask(host: Endian, key: Key, c: seq<byte>)
    ensures Staging.KernelOut(Kernel(host, key), c, host) == Oracle.Mask(c, key)
  {
  }

  /** The byte loop `output[offset + i] = source[i] ^ mask[i & 3]` at `at = byteOffset + offset`. */
  method SmallMask(source: seq<byte>, key: Key, mem: seq<byte>, at: nat, length: nat) returns (r: seq<byte>)
    requires length <= |source| && at + length <= |mem|
    ensures r == Place(mem, at, Oracle.Mask(source[..length], key))
  {
    r := mem;
    var i := 0;
    while i < length
      invariant i <= length
      invariant Written(r, mem, at, source, i, key)
    {
      WriteByte(r, mem, at, source, i, key);
      r := r[at + i := source[i] ^ key[i % 4]];
      i := i + 1;
    }
    WrittenFinal(r, mem, at, source, length, key);
  }

  /** The word loop of `fastJsMask` over a whole buffer: every whole word, from address 0. */
  method FastWords(mem: seq<byte>, key: Key, host: Endian) returns (r: seq<byte>, fl: nat)
    ensures fl == |mem| - |mem| % 4
    ensures Masked(r, mem, 0, fl, key)
  {
    var maskKey := KeyWord(host, key);
    var int32Length := |mem| / 4;
    fl := 4 * int32Length;
    r := XorWordsLoop(mem, 0, int32Length, key, maskKey, host);
  }

  /**
   * `fastJsMask(source, mask, source, 0, source.length)` on a view that spans
   * its whole buffer: the words XORed, the tail bytes assigned the key.
   */
  method FastJsMask(mem: seq<byte>, key: Key, host: Endian) returns (r: seq<byte>)
    ensures r == TailAssigned(mem, key)
  {
    var fl;
    r, fl := FastWords(mem, key, host);
    MaskedFinal(r, mem, 0, fl, key);
    var length := |mem|;
    if length % 4 != 0 {
      r := AssignKeyBytes(r, fl, length, key);
    } else {
      PlaceNothing(r, fl);
    }
    TailAssignedPlaced(mem, length, key);
    assert mem[..length] == mem;
    PlaceWhole(mem, TailAssigned(mem, key));
  }

  /** `fastJsMask` with the tail XORed (`source[i] ^= mask[i & 3]`): the rule over the whole buffer. */
  method FastJsMaskCorrected(mem: seq<byte>, key: Key, host: Endian) returns (r: seq<byte>)
    ensures r == Oracle.Mask(mem, key)
  {
    var fl;
    r, fl := FastWords(mem, key, host);
    r := IndexJs.XorTail(r, mem, 0, fl, |mem|, key);
    MaskedFinal(r, mem, 0, |mem|, key);
    assert mem[0..|mem|] == mem;
    PlaceWhole(mem, Oracle.Mask(mem, key));
  }

  /**
   * The staged path of `_mask`: `jsMask` in one pass when
   * `length <= memorySize` (staging the whole `source`), in chunks of
   * 16384 bytes otherwise.
   */
  method StagedMask(source: seq<byte>, key: Key, mem: seq<byte>, at: nat, length: nat, staging: seq<byte>,
                    host: Endian)
    returns (r: seq<byte>, staging': seq<byte>)
    requires length <= |source| && at + length <= |mem| && |staging| == MemorySize
    requires length <= MemorySize ==> |source| <= MemorySize
    ensures r == Place(mem, at, Oracle.Mask(source[..length], key)) && |staging'| == MemorySize
  {
    r, staging' := Staging.StagedMask(Kernel(host, key), false, source, mem, at, length, staging, host);
    KernelIsMask(host, key, source[..length]);
  }

  /** The staged path of `_unmask`: one pass up to 16384 bytes, chunks otherwise. */
  method StagedUnmask(mem: seq<byte>, view: nat, length: nat, key: Key, staging: seq<byte>, host: Endian)
    returns (r: seq<byte>, staging': seq<byte>)
    requires view + length <= |mem| && |staging| == MemorySize
    ensures r == Place(mem, view, Oracle.Mask(mem[view..view + length], key)) && |staging'| == MemorySize
  {
    r, staging' := Staging.StagedUnmask(Kernel(host, key), mem, view, length, staging, host);
    KernelIsMask(host, key, mem[view..view + length]);
  }

  /**
   * When `_mask` takes the fast path: at least 64 bytes, offset 0, the
   * output is the source, the whole source is masked and it spans its
   * buffer.
   */
  predicate FastPath(sourceLen: nat, sourceWhole: bool, offset: nat, length: nat, same: bool)
  {
    SmallLength <= length && offset == 0 && same && sourceLen == length && sourceWhole
  }

  /**
   * `_mask(source, mask, output, offset, length)` as written. `sourceWhole`
   * says `source` spans its whole buffer and `same` that it is the output
   * view. The byte loop and the chunks read `source` after earlier writes
   * to the output, so an output window that overlaps the source further
   * on (`0 < offset < length` in the same view) is taken only on the
   * one-pass staged path.
   */
  method Mask(source: seq<byte>, sourceWhole: bool, key: Key, mem: seq<byte>, view: nat, viewLen: nat,
              offset: nat, length: nat, same: bool, staging: seq<byte>, host: Endian)
    returns (r: seq<byte>, staging': seq<byte>)
    requires view + viewLen <= |mem| && offset + length <= viewLen && length <= |source| && |staging| == MemorySize
    requires same ==> source == mem[view..view + viewLen] && (sourceWhole <==> viewLen == |mem|)
    requires same && 0 < offset < length ==> SmallLength <= length <= MemorySize
    requires SmallLength <= length <= MemorySize && !FastPath(|source|, sourceWhole, offset, length, same)
             ==> |source| <= MemorySize
    ensures |staging'| == MemorySize
    ensures FastPath(|source|, sourceWhole, offset, length, same) ==> r == TailAssigned(mem, key)
    ensures !FastPath(|source|, sourceWhole, offset, length, same) ==>
      r == Place(mem, view + offset, Oracle.Mask(source[..length], key))
  {
    staging' := staging;
    if length < SmallLength {
      r := SmallMask(source, key, mem, view + offset, length);
    } else if offset == 0 && same && |source| == length && sourceWhole {
      r := FastJsMask(mem, key, host);
    } else {
      r, staging' := StagedMask(source, key, mem, view + offset, length, staging, host);
    }
  }

  /**
   * `_unmask(buffer, mask)` as written: the byte loop below 64 bytes, the
   * fast path on a view that spans its buffer, the staged path otherwise.
   */
  method Unmask(mem: seq<byte>, view: nat, viewLen: nat, key: Key, staging: seq<byte>, host: Endian)
    returns (r: seq<byte>, staging': seq<byte>)
    requires view + viewLen <= |mem| && |staging| == MemorySize
    ensures |staging'| == MemorySize
    ensures SmallLength <= viewLen && viewLen == |mem| ==> r == TailAssigned(mem, key)
    ensures viewLen < SmallLength || viewLen != |mem| ==>
      r == Place(mem, view, Oracle.Mask(mem[view..view + viewLen], key))
  {
    staging' := staging;
    if viewLen < SmallLength {
      r := XorBytesFrom(mem, view, 0, viewLen, key);
    } else if viewLen == |mem| {
      r := FastJsMask(mem, key, host);
    } else {
      r, staging' := StagedUnmask(mem, view, viewLen, key, staging, host);
    }
  }

  /**
   * The fast path departs from the rule: 65 bytes in place, the last one
   * 0xff, come out with 0x01 there instead of 0xfe.
   */
  lemma FastPathCounterexample()
    ensures var s := seq(65, i => if i == 64 then 0xff as byte else 0);
            TailAssigned(s, Quad(1, 2, 3, 4))[64] == 1 && Oracle.Mask(s, Quad(1, 2, 3, 4))[64] == 0xfe
  {
    var s := seq(65, i => if i == 64 then 0xff as byte else 0);
    var key := Quad(1, 2, 3, 4);
    assert TailAssigned(s, key)[64] == KeyStream(key, 64, 1)[0];
  }

  /** `_mask` with the corrected `fastJsMask`: the rule on every path. */
  method MaskCorrected(source: seq<byte>, sourceWhole: bool, key: Key, mem: seq<byte>, view: nat, viewLen: nat,
                       offset: nat, length: nat, same: bool, staging: seq<byte>, host: Endian)
    returns (r: seq<byte>, staging': seq<byte>)
    requires view + viewLen <= |mem| && offset + length <= viewLen && length <= |source| && |staging| == MemorySize
    requires same ==> source == mem[view..view + viewLen] && (sourceWhole <==> viewLen == |mem|)
    requires same && 0 < offset < length ==> SmallLength <= length <= MemorySize
    requires SmallLength <= length <= MemorySize && !FastPath(|source|, sourceWhole, offset, length, same)
             ==> |source| <= MemorySize
    ensures |staging'| == MemorySize
    ensures r == Place(mem, view + offset, Oracle.Mask(source[..length], key))
  {
    staging' := staging;
    if length < SmallLength {
      r := SmallMask(source, key, mem, view + offset, length);
    } else if offset == 0 && same && |source| == length && sourceWhole {
      r := FastJsMaskCorrected(mem, key, host);
      assert source[..length] == mem;
      PlaceWhole(mem, Oracle.Mask(mem, key));
    } else {
      r, staging' := StagedMask(source, key, mem, view + offset, length, staging, host);
    }
  }

  /** `_unmask` with the corrected `fastJsMask`: the rule on every path. */
  method UnmaskCorrected(mem: seq<byte>, view: nat, viewLen: nat, key: Key, staging: seq<byte>, host: Endian)
    returns (r: seq<byte>, staging': seq<byte>)
    requires view + viewLen <= |mem| && |staging| == MemorySize
    ensures |staging'| == MemorySize
    ensures r == Place(mem, view, Oracle.Mask(mem[view..view + viewLen], key))
  {
    staging' := staging;
    if viewLen < SmallLength {
      r := XorBytesFrom(mem, view, 0, viewLen, key);
    } else if viewLen == |mem| {
      r := FastJsMaskCorrected(mem, key, host);
      assert mem[view..view + viewLen] == mem;
      PlaceWhole(mem, Oracle.Mask(mem, key));
    } else {
      r, staging' := StagedUnmask(mem, view, viewLen, key, staging, host);
    }
  }
}
