/**
 * `collections/initialize-bigint.js`: the staged implementation over a
 * `BigInt64Array`. The key is the host-aware 32-bit word taken twice,
 * `BigInt(unsigned) + (BigInt(signed) << 32n)`, and `jsMask` XORs
 * `length >> 3` 64-bit words, then the word `length >> 3` when
 * `(length & 3) !== 0`.
 *
 * As written, that test misses the partial word exactly when
 * `length % 8 == 4`: its last four bytes keep the payload unmasked. `Mask`
 * and `Unmask` model it as written; `MaskCorrected` and `UnmaskCorrected`
 * test `length & 7` and meet the rule of section 5.3 of RFC 6455.
 */
module InitializeBigint {
  import opened Bytes
  import opened Oracle
  import opened Memory
  import Staging

  /** `memorySize`: the byte length of the staging buffer. */
  const MemorySize: nat := Staging.StagingBytes

  /**
   * `BigInt(u) + (BigInt(s) << 32n)` stored in a `BigInt64Array` element,
   * where `u` and `s` read the word `w` unsigned and signed: the sum taken
   * modulo 2^64, with `s` sign-extended to 64 bits.
   */
  function BigIntKey(w: bv32): bv64
  {
    (w as bv64) + ((if w & 0x8000_0000 == 0 then w as bv64 else (w as bv64) | 0xffff_ffff_0000_0000) << 32)
  }

  /** The signed upper half shifts its sign out: the key is the word doubled. */
  lemma BigIntKeyDoubled(w: bv32)
    ensures BigIntKey(w) == Doubled(w)
  {
    SignedSumDoubled(w);
  }

  /** The sum itself, for either sign of the word. */
  lemma SignedSumDoubled(w: bv32)
    ensures (w as bv64) + ((if w & 0x8000_0000 == 0 then w as bv64 else (w as bv64) | 0xffff_ffff_0000_0000) << 32)
            == (w as bv64) | ((w as bv64) << 32)
  {
  }

  /** `jsMask` over the `BigInt64Array`, with the `length & 3` test as written. */
  function Kernel(host: Endian, key: Key): (k: Staging.Kernel)
    ensures Staging.Valid(k) && Staging.Size(k) == MemorySize
    ensures Staging.KernelKey(k, host) == key
  {
    BigIntKeyDoubled(KeyWord(host, key));
    HalvesJoin(KeyWord(host, key), KeyWord(host, key));
    Staging.Words64(BigIntKey(KeyWord(host, key)), 4)
  }

  /** The kernel's output: the rule, except that four bytes over a multiple of 8 stay as they were. */
  lemma KernelOutAsWritten(host: Endian, key: Key, c: seq<byte>)
    ensures |c| % 8 != 4 ==> Staging.KernelOut(Kernel(host, key), c, host) == Oracle.Mask(c, key)
    ensures |c| % 8 == 4 ==>
      Staging.KernelOut(Kernel(host, key), c, host) == Oracle.Mask(c[..|c| - 4], key) + c[|c| - 4..]
  {
  }

  /**
   * `_mask(source, mask, output, offset, length)` as written: `jsMask` at
   * `output`'s `offset`, in one pass (staging all of `source`) or in chunks
   * of 16384 bytes. When `length % 8 == 4` the last four payload bytes are
   * copied unmasked.
   */
  method Mask(source: seq<byte>, key: Key, mem: seq<byte>, view: nat, viewLen: nat, offset: nat, length: nat,
              same: bool, staging: seq<byte>, host: Endian)
    returns (r: seq<byte>, staging': seq<byte>)
    requires view + viewLen <= |mem| && offset + length <= viewLen && length <= |source| && |staging| == MemorySize
    requires same ==> source == mem[view..view + viewLen]
    requires same && 0 < offset < length ==> length <= MemorySize
    requires length <= MemorySize ==> |source| <= MemorySize
    ensures |staging'| == MemorySize
    ensures length % 8 != 4 ==> r == Place(mem, view + offset, Oracle.Mask(source[..length], key))
    ensures length % 8 == 4 ==>
      r == Place(mem, view + offset, Oracle.Mask(source[..length - 4], key) + source[length - 4..length])
  {
    r, staging' := Staging.StagedMask(Kernel(host, key), false, source, mem, view + offset, length, staging, host);
    KernelOutAsWritten(host, key, source[..length]);
    if length % 8 == 4 {
      assert source[..length][..length - 4] == source[..length - 4];
      assert source[..length][length - 4..] == source[length - 4..length];
    }
  }

  /**
   * `_unmask(buffer, mask)` as written: `jsMask` in place over the whole
   * view, which leaves the last four bytes masked when `length % 8 == 4`.
   */
  method Unmask(mem: seq<byte>, view: nat, viewLen: nat, key: Key, staging: seq<byte>, host: Endian)
    returns (r: seq<byte>, staging': seq<byte>)
    requires view + viewLen <= |mem| && |staging| == MemorySize
    ensures |staging'| == MemorySize
    ensures viewLen % 8 != 4 ==> r == Place(mem, view, Oracle.Mask(mem[view..view + viewLen], key))
    ensures viewLen % 8 == 4 ==>
      r == Place(mem, view, Oracle.Mask(mem[view..view + viewLen - 4], key) + mem[view + viewLen - 4..view + viewLen])
  {
    r, staging' := Staging.StagedUnmask(Kernel(host, key), mem, view, viewLen, staging, host);
    ghost var c := mem[view..view + viewLen];
    KernelOutAsWritten(host, key, c);
    if viewLen % 8 == 4 {
      assert c[..viewLen - 4] == mem[view..view + viewLen - 4];
      assert c[viewLen - 4..] == mem[view + viewLen - 4..view + viewLen];
    }
  }

  /** The kernel as written meets the rule exactly when `length % 8 != 4` or the key is all zeros. */
  lemma KernelIsMaskIff(host: Endian, key: Key, c: seq<byte>)
    ensures Staging.KernelOut(Kernel(host, key), c, host) == Oracle.Mask(c, key)
            <==> |c| % 8 != 4 || key == [0, 0, 0, 0]
  {
    Staging.KernelOutIsMaskIff(Kernel(host, key), c, host);
  }

  /** Four zero bytes under the key 1, 2, 3, 4 stay zero where the rule gives 1, 2, 3, 4. */
  lemma HalfWordCounterexample(host: Endian)
    ensures Staging.KernelOut(Kernel(host, Quad(1, 2, 3, 4)), [0, 0, 0, 0], host) == [0, 0, 0, 0]
    ensures Oracle.Mask([0, 0, 0, 0], Quad(1, 2, 3, 4)) == [1, 2, 3, 4]
  {
    var c: seq<byte> := [0, 0, 0, 0];
    KernelOutAsWritten(host, Quad(1, 2, 3, 4), c);
    assert c[..0] == [] && c[0..] == c;
  }

  /** `jsMask` with the partial-word test `length & 7`. */
  function KernelCorrected(host: Endian, key: Key): (k: Staging.Kernel)
    ensures Staging.Valid(k) && Staging.Size(k) == MemorySize
    ensures Staging.KernelKey(k, host) == key
    ensures forall c :: Staging.KernelOut(k, c, host) == Oracle.Mask(c, key)
  {
    BigIntKeyDoubled(KeyWord(host, key));
    HalvesJoin(KeyWord(host, key), KeyWord(host, key));
    Staging.Words64(BigIntKey(KeyWord(host, key)), 8)
  }

  /** `_mask` testing `length & 7`: the rule at the output window. */
  method MaskCorrected(source: seq<byte>, key: Key, mem: seq<byte>, view: nat, viewLen: nat, offset: nat,
                       length: nat, same: bool, staging: seq<byte>, host: Endian)
    returns (r: seq<byte>, staging': seq<byte>)
    requires view + viewLen <= |mem| && offset + length <= viewLen && length <= |source| && |staging| == MemorySize
    requires same ==> source == mem[view..view + viewLen]
    requires same && 0 < offset < length ==> length <= MemorySize
    requires length <= MemorySize ==> |source| <= MemorySize
    ensures |staging'| == MemorySize
    ensures r == Place(mem, view + offset, Oracle.Mask(source[..length], key))
  {
    r, staging' := Staging.StagedMask(KernelCorrected(host, key), false, source, mem, view + offset, length,
                                      staging, host);
  }

  /** `_unmask` testing `length & 7`: the whole view unmasked. */
  method UnmaskCorrected(mem: seq<byte>, view: nat, viewLen: nat, key: Key, staging: seq<byte>, host: Endian)
    returns (r: seq<byte>, staging': seq<byte>)
    requires view + viewLen <= |mem| && |staging| == MemorySize
    ensures |staging'| == MemorySize
    ensures r == Place(mem, view, Oracle.Mask(mem[view..view + viewLen], key))
  {
    r, staging' := Staging.StagedUnmask(KernelCorrected(host, key), mem, view, viewLen, staging, host);
  }
}
