/**
 * `initialize.js`: the staged implementation without a byte loop or a fast
 * path. Every call goes through `jsMask` over a 16 KiB staging buffer, in
 * one pass up to 16384 bytes and in chunks of 16384 bytes otherwise.
 *
 * As written, the key word is the fixed little-endian packing
 * `mask[0] + mask[1] * 2 ** 8 + mask[2] * 2 ** 16 + (mask[3] << 24)`
 * whatever the host: stored as an `Int32Array` element on a big-endian
 * host it lays the key out reversed. `Mask` and `Unmask` model it as
 * written; `MaskCorrected` and `UnmaskCorrected` use the host-aware
 * `int32` packing and meet the rule of section 5.3 of RFC 6455 on both
 * hosts.
 */
module InitializeJs {
  import opened Bytes
  import opened Oracle
  import opened Memory
  import Staging

  /** `memorySize`: the byte length of the staging buffer. */
  const MemorySize: nat := Staging.StagingBytes

  /** The key as the fixed little-endian word lays it out on the host. */
  function LaidOut(host: Endian, key: Key): (r: Key)
    ensures host.Little? ==> r == key
    ensures host.Big? ==> r == Quad(key[3], key[2], key[1], key[0])
  {
    PackLELayout(key[0], key[1], key[2], key[3], host);
    QuadOf(key);
    Encode32(PackLE(key[0], key[1], key[2], key[3]), host)
  }

  /** `jsMask` with the word `mask[0] + mask[1] * 2 ** 8 + mask[2] * 2 ** 16 + (mask[3] << 24)`. */
  function Kernel(key: Key): (k: Staging.Kernel)
    ensures Staging.Valid(k) && Staging.Size(k) == MemorySize
  {
    Staging.Words32(PackLE(key[0], key[1], key[2], key[3]))
  }

  /** The word loop masks with the key as the word lays it out, and drops nothing. */
  lemma KernelOutLaidOut(host: Endian, key: Key, c: seq<byte>)
    ensures Staging.KernelOut(Kernel(key), c, host) == Oracle.Mask(c, LaidOut(host, key))
  {
  }

  /**
   * `_mask(source, mask, output, offset, length)`: `jsMask` at `output`'s
   * `offset`, in one pass (staging all of `source`) or in chunks. The
   * output is the rule's under `LaidOut(host, key)`.
   */
  method Mask(source: seq<byte>, key: Key, mem: seq<byte>, view: nat, viewLen: nat, offset: nat, length: nat,
              same: bool, staging: seq<byte>, host: Endian)
    returns (r: seq<byte>, staging': seq<byte>)
    requires view + viewLen <= |mem| && offset + length <= viewLen && length <= |source| && |staging| == MemorySize
    requires same ==> source == mem[view..view + viewLen]
    requires same && 0 < offset < length ==> length <= MemorySize
    requires length <= MemorySize ==> |source| <= MemorySize
    ensures |staging'| == MemorySize
    ensures host.Little? ==> r == Place(mem, view + offset, Oracle.Mask(source[..length], key))
    ensures host.Big? ==>
      r == Place(mem, view + offset, Oracle.Mask(source[..length], Quad(key[3], key[2], key[1], key[0])))
  {
    r, staging' := Staging.StagedMask(Kernel(key), false, source, mem, view + offset, length, staging, host);
    KernelOutLaidOut(host, key, source[..length]);
  }

  /** `_unmask(buffer, mask)`: `jsMask` in place over the whole view. */
  method Unmask(mem: seq<byte>, view: nat, viewLen: nat, key: Key, staging: seq<byte>, host: Endian)
    returns (r: seq<byte>, staging': seq<byte>)
    requires view + viewLen <= |mem| && |staging| == MemorySize
    ensures |staging'| == MemorySize
    ensures host.Little? ==> r == Place(mem, view, Oracle.Mask(mem[view..view + viewLen], key))
    ensures host.Big? ==>
      r == Place(mem, view, Oracle.Mask(mem[view..view + viewLen], Quad(key[3], key[2], key[1], key[0])))
  {
    r, staging' := Staging.StagedUnmask(Kernel(key), mem, view, viewLen, staging, host);
    KernelOutLaidOut(host, key, mem[view..view + viewLen]);
  }

  /**
   * The fixed packing is the key exactly on a little-endian host or for a
   * key that reads the same reversed.
   */
  lemma LaidOutIsKeyIff(host: Endian, key: Key)
    ensures LaidOut(host, key) == key <==> host.Little? || (key[0] == key[3] && key[1] == key[2])
  {
    QuadOf(key);
    if host.Big? && LaidOut(host, key) == key {
      assert LaidOut(host, key)[0] == key[3];
      assert LaidOut(host, key)[1] == key[2];
    }
  }

  /**
   * On a big-endian host one zero byte masked with the key 1, 2, 3, 4 comes
   * out as 4 where the rule gives 1.
   */
  lemma BigEndianCounterexample()
    ensures Oracle.Mask([0], LaidOut(Big, Quad(1, 2, 3, 4))) == [4]
    ensures Oracle.Mask([0], Quad(1, 2, 3, 4)) == [1]
  {
  }

  /** `jsMask` with the host-aware `int32(mask[0], ..., mask[3])`. */
  function KernelCorrected(host: Endian, key: Key): (k: Staging.Kernel)
    ensures Staging.Valid(k) && Staging.Size(k) == MemorySize
    ensures Staging.KernelKey(k, host) == key
  {
    Staging.Words32(KeyWord(host, key))
  }

  /** `_mask` with the host-aware key word: the rule on both hosts. */
  method MaskCorrected(source: seq<byte>, key: Key, mem: seq<byte>, view: nat, viewLen: nat, offset: nat,
                       length: nat, same: bool, staging: seq<byte>, host: Endian)
    returns (r: seq<byte>, staging': seq<byte>)
    requires view + viewLen <= |mem| && offset + length <= viewLen && length <= |source| && |staging| == MemorySize
    requires same ==> source == mem[view..view + viewLen]
    requires same && 0 < offset < length ==> length <= MemorySize
    requires length <= MemorySize ==> |source| <= MemorySize
    ensures |staging'| == MemorySize
    ensures r == Place(mem, view + offset, Oracle.Mask(source[..length], key))
  {
    r, staging' := Staging.StagedMask(KernelCorrected(host, key), false, source, mem, view + offset, length,
                                      staging, host);
  }

  /** `_unmask` with the host-aware key word: the rule on both hosts. */
  method UnmaskCorrected(mem: seq<byte>, view: nat, viewLen: nat, key: Key, staging: seq<byte>, host: Endian)
    returns (r: seq<byte>, staging': seq<byte>)
    requires view + viewLen <= |mem| && |staging| == MemorySize
    ensures |staging'| == MemorySize
    ensures r == Place(mem, view, Oracle.Mask(mem[view..view + viewLen], key))
  {
    r, staging' := Staging.StagedUnmask(KernelCorrected(host, key), mem, view, viewLen, staging, host);
  }
}
