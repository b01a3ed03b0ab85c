/**
 * `collections/initialize.js`: `initialize.js` with a host-aware key word
 * (the little-endian packing on a little-endian host, the reversed one
 * otherwise) and a `jsMask` that XORs eight `Int32Array` words per round.
 * The `>> 0` on the little-endian key of `_unmask` only reads the same
 * 32 bits as a signed number, so both entry points hand the kernel the
 * word `int32(mask[0], ..., mask[3])`, and both meet the rule of section
 * 5.3 of RFC 6455 on either host.
 */
module CollectionsInitialize {
  import opened Bytes
  import opened Oracle
  import opened Memory
  import Staging

  /** `memorySize`: the byte length of the staging buffer. */
  const MemorySize: nat := Staging.StagingBytes

  /**
   * The unrolled `jsMask` with the endian-switched key word of `_mask` and
   * `_unmask`, which is `int32(mask[0], ..., mask[3])`.
   */
  function Kernel(host: Endian, key: Key): (k: Staging.Kernel)
    ensures Staging.Valid(k) && Staging.Size(k) == MemorySize
    ensures Staging.KernelKey(k, host) == key
  {
    Staging.Words32Unrolled(KeyWord(host, key))
  }

  /**
   * `_mask(source, mask, output, offset, length)`: the unrolled `jsMask` at
   * `output`'s `offset`, in one pass (staging all of `source`) or in chunks
   * of 16384 bytes; the rule's output lands in the window.
   */
  method Mask(source: seq<byte>, key: Key, mem: seq<byte>, view: nat, viewLen: nat, offset: nat, length: nat,
              same: bool, staging: seq<byte>, host: Endian)
    returns (r: seq<byte>, staging': seq<byte>)
    requires view + viewLen <= |mem| && offset + length <= viewLen && length <= |source| && |staging| == MemorySize
    requires same ==> source == mem[view..view + viewLen]
    requires same && 0 < offset < length ==> length <= MemorySize
    requires length <= MemorySize ==> |source| <= MemorySize
    ensures |staging'| == MemorySize
    ensures r == Place(mem, view + offset, Oracle.Mask(source[..length], key))
  {
    r, staging' := Staging.StagedMask(Kernel(host, key), false, source, mem, view + offset, length, staging, host);
  }

  /** `_unmask(buffer, mask)`: the unrolled `jsMask` in place over the whole view. */
  method Unmask(mem: seq<byte>, view: nat, viewLen: nat, key: Key, staging: seq<byte>, host: Endian)
    returns (r: seq<byte>, staging': seq<byte>)
    requires view + viewLen <= |mem| && |staging| == MemorySize
    ensures |staging'| == MemorySize
    ensures r == Place(mem, view, Oracle.Mask(mem[view..view + viewLen], key))
  {
    r, staging' := Staging.StagedUnmask(Kernel(host, key), mem, view, viewLen, staging, host);
  }
}
