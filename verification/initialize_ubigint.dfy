/**
 * `collections/legacy/initialize-ubigint.js`: the staged implementation
 * over a `BigUint64Array`. The key is the unsigned host-order word
 * `maskBase` taken twice, `maskBase + (maskBase << 32n)`, and `jsMask` XORs
 * `length >> 3` 64-bit words, then the word `length >> 3` when
 * `(length & 7) !== 0`. The one-pass path stages only the first `length`
 * bytes of `source`. Both entry points meet the rule of section 5.3 of
 * RFC 6455 on either host.
 */
module InitializeUbigint {
  import opened Bytes
  import opened Oracle
  import opened Memory
  import Staging

  /** `memorySize`: the byte length of the staging buffer. */
  const MemorySize: nat := Staging.StagingBytes

  /** `maskBase + (maskBase << 32n)` for an unsigned 32-bit `maskBase`; it stays below 2^64. */
  function UBigIntKey(w: bv32): bv64
  {
    (w as bv64) + ((w as bv64) << 32)
  }

  /** The two halves do not overlap, so the sum is the word doubled. */
  lemma UBigIntKeyDoubled(w: bv32)
    ensures UBigIntKey(w) == Doubled(w)
  {
    DisjointHalves(w as bv64);
  }

  /** `jsMask` over the `BigUint64Array` with the host-order `maskBase`. */
  function Kernel(host: Endian, key: Key): (k: Staging.Kernel)
    ensures Staging.Valid(k) && Staging.Size(k) == MemorySize
    ensures Staging.KernelKey(k, host) == key
    ensures forall c :: Staging.KernelOut(k, c, host) == Oracle.Mask(c, key)
  {
    UBigIntKeyDoubled(KeyWord(host, key));
    HalvesJoin(KeyWord(host, key), KeyWord(host, key));
    Staging.Words64(UBigIntKey(KeyWord(host, key)), 8)
  }

  /**
   * `_mask(source, mask, output, offset, length)`: `jsMask` at `output`'s
   * `offset`, in one pass over `source` cut to `length` bytes, or in chunks
   * of 16384 bytes; the rule's output lands in the window.
   */
  method Mask(source: seq<byte>, key: Key, mem: seq<byte>, view: nat, viewLen: nat, offset: nat, length: nat,
              same: bool, staging: seq<byte>, host: Endian)
    returns (r: seq<byte>, staging': seq<byte>)
    requires view + viewLen <= |mem| && offset + length <= viewLen && length <= |source| && |staging| == MemorySize
    requires same ==> source == mem[view..view + viewLen]
    requires same && 0 < offset < length ==> length <= MemorySize
    ensures |staging'| == MemorySize
    ensures r == Place(mem, view + offset, Oracle.Mask(source[..length], key))
  {
    r, staging' := Staging.StagedMask(Kernel(host, key), true, source, mem, view + offset, length, staging, host);
  }

  /** `_unmask(buffer, mask)`: `jsMask` in place over the whole view. */
  method Unmask(mem: seq<byte>, view: nat, viewLen: nat, key: Key, staging: seq<byte>, host: Endian)
    returns (r: seq<byte>, staging': seq<byte>)
    requires view + viewLen <= |mem| && |staging| == MemorySize
    ensures |staging'| == MemorySize
    ensures r == Place(mem, view, Oracle.Mask(mem[view..view + viewLen], key))
  {
    r, staging' := Staging.StagedUnmask(Kernel(host, key), mem, view, viewLen, staging, host);
  }
}
