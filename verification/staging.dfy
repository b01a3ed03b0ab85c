/**
 * The staged implementations: `initialize()` in default.js, initialize.js,
 * collections/initialize.js, collections/initialize-bigint.js,
 * collections/initialize-wasm-sync.js and
 * collections/legacy/initialize-ubigint.js all own one staging buffer,
 * copy each payload (or each chunk of the buffer's size) to its start,
 * XOR a key word into it with a KERNEL, and copy the first `length` bytes
 * out to the output. They differ only in the kernel, the key word they
 * hand it, the buffer's size and whether the one-pass path stages the
 * whole source or only its first `length` bytes. This module defines the
 * staging once over a `Kernel`; each file's module instantiates it.
 *
 * Every kernel is the rule of section 5.3 of RFC 6455 under the key its
 * word lays out in memory (`KernelKey`), except that the 64-bit kernel
 * that tests `length & 3` skips the last four bytes when `length % 8`
 * is 4 (`KernelOut`).
 */
module Staging {
  import opened Bytes
  import opened Oracle
  import opened Memory
  import InternalJsModule

  /** `new Uint8Array(16 * 1024)`: the staging buffer of the JavaScript kernels. */
  const StagingBytes: nat := 16384

  /** The word loop a staged implementation runs over its staging buffer. */
  datatype Kernel =
      /** `jsMask` of default.js and initialize.js: one `Int32Array` word at a time. */
    | Words32(w: bv32)
      /** `jsMask` of collections/initialize.js: eight words per round, then the rest. */
    | Words32Unrolled(w: bv32)
      /**
       * `jsMask` over a `BigInt64Array` or `BigUint64Array`: `length >> 3`
       * words, then one more when `length % partialMod != 0` (`length & 3`
       * is `partialMod == 4`, `length & 7` is `partialMod == 8`).
       */
    | Words64(d: bv64, partialMod: nat)
      /**
       * `wasmMask`: the simulated WebAssembly `execute(mask, length)`, with
       * `toLittleEndian` as written or, when `zeroFill`, with `>>> 24`.
       */
    | Execute(mask: bv32, zeroFill: bool)

  /** The staging buffer's byte length: `memory.buffer.byteLength` for `execute`. */
  function Size(k: Kernel): nat
  {
    if k.Execute? then InternalJsModule.MemoryBytes else StagingBytes
  }

  /** A 64-bit key repeats one 32-bit word, and the partial-word test is `& 3` or `& 7`. */
  predicate Valid(k: Kernel)
  {
    k.Words64? ==> k.d == Doubled(Low32(k.d)) && (k.partialMod == 4 || k.partialMod == 8)
  }

  /** The four bytes the kernel's key word lays out in memory on the host. */
  function KernelKey(k: Kernel, host: Endian): Key
  {
    match k
    case Words32(w) => Encode32(w, host)
    case Words32Unrolled(w) => Encode32(w, host)
    case Words64(d, _) => Encode32(Low32(d), host)
    case Execute(mask, zeroFill) =>
      if zeroFill then Encode32(mask, Little) else Encode32(InternalJsModule.ToLittleEndian(host, mask), host)
  }

  /** The `length & 3` test skips the partial word when four bytes are left over. */
  predicate DropsHalfWord(k: Kernel, length: nat)
  {
    k.Words64? && k.partialMod == 4 && length % 8 == 4
  }

  /** What a kernel leaves in the first `|c|` staging bytes when `c` was staged. */
  function KernelOut(k: Kernel, c: seq<byte>, host: Endian): (r: seq<byte>)
    ensures |r| == |c|
  {
    if DropsHalfWord(k, |c|) then Oracle.Mask(c[..|c| - 4], KernelKey(k, host)) + c[|c| - 4..]
    else Oracle.Mask(c, KernelKey(k, host))
  }

  /** Four bytes come through the rule unchanged exactly when the key is all zeros. */
  lemma MaskFixesIff(t: seq<byte>, key: Key)
    requires |t| == 4
    ensures Oracle.Mask(t, key) == t <==> key == [0, 0, 0, 0]
  {
    if Oracle.Mask(t, key) == t {
      forall j | 0 <= j < 4 ensures key[j] == 0 {
        assert Oracle.Mask(t, key)[j] == t[j] ^ key[j];
        XorCancel(key[j], t[j]);
      }
      assert key == [key[0], key[1], key[2], key[3]];
    }
  }

  /** Equal heads: the concatenations agree exactly when the tails do. */
  lemma ConcatCancel(a: seq<byte>, b: seq<byte>, c: seq<byte>)
    ensures a + b == a + c <==> b == c
  {
    if a + b == a + c {
      assert b == (a + b)[|a|..];
      assert c == (a + c)[|a|..];
    }
  }

  /**
   * A kernel meets the rule under its key exactly when it does not drop a
   * half word, or the key's bytes are all zero.
   */
  lemma KernelOutIsMaskIff(k: Kernel, c: seq<byte>, host: Endian)
    ensures KernelOut(k, c, host) == Oracle.Mask(c, KernelKey(k, host))
            <==> !DropsHalfWord(k, |c|) || KernelKey(k, host) == [0, 0, 0, 0]
  {
    if DropsHalfWord(k, |c|) {
      HalfWordLeft(|c|);
      TailKeptIff(c, KernelKey(k, host));
    }
  }

  /** Four bytes over a multiple of 8 leave a whole number of 32-bit words before them. */
  lemma HalfWordLeft(n: nat)
    requires n % 8 == 4
    ensures n >= 4 && (n - 4) % 4 == 0
  {
    assert n == 8 * (n / 8) + 4;
  }

  /** Leaving the last four bytes of a whole number of words alone meets the rule only under the zero key. */
  lemma TailKeptIff(c: seq<byte>, key: Key)
    requires |c| >= 4 && (|c| - 4) % 4 == 0
    ensures Oracle.Mask(c[..|c| - 4], key) + c[|c| - 4..] == Oracle.Mask(c, key) <==> key == [0, 0, 0, 0]
  {
    var p := |c| - 4;
    var head := Oracle.Mask(c[..p], key);
    var tail := c[p..p + 4];
    assert c[p..] == tail && c[..p + 4] == c;
    MaskChunkSplit(c, p, 4, key);
    ConcatCancel(head, tail, Oracle.Mask(tail, key));
    MaskFixesIff(tail, key);
  }

  /**
   * Chunks whose length is a multiple of 8 are masked by the rule, so a
   * masked prefix of such a length followed by the kernel's output of the
   * rest is the kernel's output of the whole.
   */
  lemma KernelOutSplit(k: Kernel, s: seq<byte>, so: nat, host: Endian)
    requires so % 8 == 0 && so <= |s|
    ensures Oracle.Mask(s[..so], KernelKey(k, host)) + KernelOut(k, s[so..], host) == KernelOut(k, s, host)
  {
    var key := KernelKey(k, host);
    var c := s[so..];
    var n := |c|;
    SameResidue(so, n);
    EightIsFour(so);
    if DropsHalfWord(k, n) {
      SplitDropped(s, so, key);
    } else {
      MaskChunkSplit(s, so, n, key);
      assert s[..so + n] == s;
      assert c == s[so..so + n];
    }
  }

  /** Adding a multiple of 8 keeps the residue modulo 8. */
  lemma SameResidue(so: nat, n: nat)
    requires so % 8 == 0
    ensures (so + n) % 8 == n % 8
  {
    assert so == 8 * (so / 8);
    assert n == 8 * (n / 8) + n % 8;
    assert so + n == 8 * (so / 8 + n / 8) + n % 8;
  }

  /** A multiple of 8 is a multiple of 4. */
  lemma EightIsFour(x: nat)
    requires x % 8 == 0
    ensures x % 4 == 0
  {
    assert x == 4 * (2 * (x / 8));
  }

  /** `KernelOutSplit` when the last four bytes are left alone. */
  lemma SplitDropped(s: seq<byte>, so: nat, key: Key)
    requires so % 4 == 0 && so + 4 <= |s|
    ensures Oracle.Mask(s[..so], key) + (Oracle.Mask(s[so..][..|s| - so - 4], key) + s[so..][|s| - so - 4..])
            == Oracle.Mask(s[..|s| - 4], key) + s[|s| - 4..]
  {
    var n := |s| - so;
    var c := s[so..];
    MaskChunkSplit(s, so, n - 4, key);
    assert c[..n - 4] == s[so..so + (n - 4)];
    assert c[n - 4..] == s[|s| - 4..];
    assert so + (n - 4) == |s| - 4;
  }

  /** Stepping a multiple of 8 by the buffer's size keeps it a multiple of 8. */
  lemma ChunkAligned(k: Kernel, offset: nat)
    requires offset % 8 == 0
    ensures Size(k) % 8 == 0 && (offset + Size(k)) % 8 == 0
  {
  }

  // ---------------------------------------------------------------------
  // Kernels: each masks a prefix of the staging buffer and says how long

  /**
   * The prefix a kernel masks for a `length`: all of it and possibly up to
   * a word more, except that a dropped half word stops four bytes short.
   */
  ghost predicate Covers(k: Kernel, length: nat, touched: nat)
  {
    touched <= Size(k) && if DropsHalfWord(k, length) then touched == length - 4 else length <= touched
  }

  /**
   * `jsMask` of default.js and initialize.js: `length >> 2` words, then the
   * word `int32Length` when `length & 3` is not 0.
   */
  method Words32Kernel(staged: seq<byte>, w: bv32, length: nat, host: Endian)
    returns (r: seq<byte>, touched: nat)
    requires |staged| == StagingBytes && length <= StagingBytes
    ensures Covers(Words32(w), length, touched)
    ensures Masked(r, staged, 0, touched, Encode32(w, host))
  {
    var key: Key := Encode32(w, host);
    var int32Length := length / 4;
    RotKeyZero(key);
    r := XorWordsLoop(staged, 0, int32Length, key, w, host);
    touched := 4 * int32Length;
    if length % 4 != 0 {
      r := XorWordK(r, staged, 0, 0, int32Length, key, w, host);
      touched := touched + 4;
    }
  }

  /**
   * `jsMask` of collections/initialize.js: `int32Length - (int32Length & 7)`
   * words eight per round, the rest one at a time, then the partial word.
   */
  method Words32UnrolledKernel(staged: seq<byte>, w: bv32, length: nat, host: Endian)
    returns (r: seq<byte>, touched: nat)
    requires |staged| == StagingBytes && length <= StagingBytes
    ensures Covers(Words32Unrolled(w), length, touched)
    ensures Masked(r, staged, 0, touched, Encode32(w, host))
  {
    var key: Key := Encode32(w, host);
    var int32Length := length / 4;
    RotKeyZero(key);
    MaskedStart(staged, 0, key);
    r := XorWordsUnrolled(staged, staged, 0, 0, int32Length, key, w, host);
    touched := 4 * int32Length;
    if length % 4 != 0 {
      r := XorWordK(r, staged, 0, 0, int32Length, key, w, host);
      touched := touched + 4;
    }
  }

  /** A valid 64-bit key word lays its 32-bit half out twice. */
  lemma Word64Layout(d: bv64, host: Endian)
    requires d == Doubled(Low32(d))
    ensures Encode64(d, host) == Encode32(Low32(d), host) + Encode32(Low32(d), host)
  {
    DoubledLayout(Low32(d), host);
  }

  /** The 64-bit word `i` starts at an address that is a multiple of 8, four key periods per word. */
  lemma WordStart64(key: Key, i: nat)
    ensures (8 * i) % 8 == 0 && RotKey(key, 8 * i) == key
  {
    EightAligned(i);
    RotKeyEight(key, i);
  }

  /** The address `8 * i` is a multiple of 8. */
  lemma EightAligned(i: nat)
    ensures (8 * i) % 8 == 0
  {
  }

  /** The key seen from the address `8 * i` is the key itself. */
  lemma RotKeyEight(key: Key, i: nat)
    ensures RotKey(key, 8 * i) == key
  {
    var k := 2 * i;
    RotKeyShift(key, 0, k);
    assert RotKey(key, 0 + 4 * k) == RotKey(key, 0);
    assert 0 + 4 * k == 8 * i;
    assert RotKey(key, 8 * i) == RotKey(key, 0);
    RotKeyZero(key);
  }

  /** `view64[i] ^= maskKey`: the 64-bit word at the address `at = 8 * i` of the staging buffer. */
  method XorWord64K(m: seq<byte>, m0: seq<byte>, at: nat, key: Key, d: bv64, host: Endian) returns (r: seq<byte>)
    requires Encode64(d, host) == RotKey(key, at) + RotKey(key, at)
    requires at % 8 == 0 && Masked(m, m0, 0, at, key) && at + 8 <= |m|
    ensures Masked(r, m0, 0, at + 8, key)
  {
    StepWord64(m, m0, 0, at, key, d, host);
    r := XorWord64At(m, at, d, host);
  }

  /** The partial 64-bit word fits: the staging size is a multiple of 8. */
  lemma PartialWord64Fits(length: nat, partialMod: nat, count: nat)
    requires partialMod == 4 || partialMod == 8
    requires length <= StagingBytes && count == length / 8 && length % partialMod != 0
    ensures 8 * count + 8 <= StagingBytes && length < 8 * count + 8
  {
    assert length == 8 * count + length % 8;
    if partialMod == 4 {
      assert length % 4 == (length % 8) % 4;
    }
  }

  /**
   * `jsMask` over a 64-bit array: `length >> 3` words, then the word
   * `length >> 3` when `length % partialMod` is not 0.
   */
  method Words64Kernel(staged: seq<byte>, d: bv64, partialMod: nat, length: nat, host: Endian)
    returns (r: seq<byte>, touched: nat)
    requires Valid(Words64(d, partialMod))
    requires |staged| == StagingBytes && length <= StagingBytes
    ensures Covers(Words64(d, partialMod), length, touched)
    ensures Masked(r, staged, 0, touched, Encode32(Low32(d), host))
  {
    var key: Key := Encode32(Low32(d), host);
    Word64Layout(d, host);
    var count := length / 8;
    r := staged;
    MaskedStart(staged, 0, key);
    var i := 0;
    while i < count
      invariant i <= count
      invariant Masked(r, staged, 0, 8 * i, key)
    {
      WordStart64(key, i);
      r := XorWord64K(r, staged, 8 * i, key, d, host);
      i := i + 1;
    }
    touched := 8 * count;
    if length % partialMod != 0 {
      PartialWord64Fits(length, partialMod, count);
      WordStart64(key, count);
      r := XorWord64K(r, staged, 8 * count, key, d, host);
      touched := touched + 8;
    }
    Words64Covers(d, partialMod, length, count, touched);
  }

  /** What the 64-bit kernel covers: a partial word unless `length & 3` misses four bytes. */
  lemma Words64Covers(d: bv64, partialMod: nat, length: nat, count: nat, touched: nat)
    requires partialMod == 4 || partialMod == 8
    requires length <= StagingBytes && count == length / 8
    requires touched == if length % partialMod != 0 then 8 * count + 8 else 8 * count
    ensures Covers(Words64(d, partialMod), length, touched)
  {
    assert length == 8 * count + length % 8;
    if partialMod == 4 {
      assert length % 4 == (length % 8) % 4;
    }
  }

  /** `wasmMask` with the simulated module: `execute(mask, length)` over its 64 KiB memory. */
  method ExecuteKernel(staged: seq<byte>, mask: bv32, zeroFill: bool, length: nat, host: Endian)
    returns (r: seq<byte>, touched: nat)
    requires |staged| == InternalJsModule.MemoryBytes && length <= InternalJsModule.MemoryBytes
    ensures Covers(Execute(mask, zeroFill), length, touched)
    ensures Masked(r, staged, 0, touched, KernelKey(Execute(mask, zeroFill), host))
  {
    if zeroFill {
      r, touched := InternalJsModule.ExecuteCorrected(staged, mask, length, host);
    } else {
      r, touched := InternalJsModule.Execute(staged, mask, length, host);
    }
  }

  /** The first `length` bytes after a kernel run are the kernel's output of the staged bytes. */
  lemma CoveredOut(k: Kernel, r: seq<byte>, staged: seq<byte>, length: nat, touched: nat, host: Endian)
    requires length <= |staged| && Covers(k, length, touched)
    requires Masked(r, staged, 0, touched, KernelKey(k, host))
    ensures r[..length] == KernelOut(k, staged[..length], host)
  {
    var key := KernelKey(k, host);
    var c := staged[..length];
    if DropsHalfWord(k, length) {
      MaskedShort(r, staged, touched, length, key);
      assert staged[..touched] == c[..length - 4];
      assert staged[touched..length] == c[length - 4..];
    } else {
      MaskedPrefix(r, staged, 0, touched, key, length);
      assert r[..length] == r[0..length];
    }
  }

  /** A prefix masked short of `length` leaves the bytes after it as staged. */
  lemma MaskedShort(r: seq<byte>, staged: seq<byte>, touched: nat, length: nat, key: Key)
    requires Masked(r, staged, 0, touched, key) && touched <= length <= |staged|
    ensures r[..length] == Oracle.Mask(staged[..touched], key) + staged[touched..length]
  {
    MaskedPrefix(r, staged, 0, touched, key, touched);
    assert r[..length] == r[0..touched] + r[touched..length];
    assert staged[..touched] == staged[0..touched];
    var a, b := r[touched..length], staged[touched..length];
    forall i | 0 <= i < length - touched ensures a[i] == b[i] {
      assert r[touched + i] == staged[touched + i];
    }
  }

  /**
   * One kernel call: `buffer` copied to the start of the staging buffer, the
   * kernel run over `length` bytes, and the first `length` bytes returned.
   */
  method RunKernel(k: Kernel, staging: seq<byte>, buffer: seq<byte>, length: nat, host: Endian)
    returns (staging': seq<byte>, out: seq<byte>)
    requires Valid(k) && |staging| == Size(k) && |buffer| <= Size(k) && length <= |buffer|
    ensures |staging'| == Size(k)
    ensures out == KernelOut(k, buffer[..length], host)
  {
    var staged := Place(staging, 0, buffer);
    var touched;
    staging', touched := Dispatch(k, staged, length, host);
    CoveredOut(k, staging', staged, length, touched, host);
    PlaceAt(staging, 0, buffer);
    assert staged[..length] == buffer[..length];
    out := if length == Size(k) then staging' else staging'[..length];
  }

  /** The kernel `k` over the staged buffer: each variant masks what `Covers` says with its key. */
  method Dispatch(k: Kernel, staged: seq<byte>, length: nat, host: Endian)
    returns (r: seq<byte>, touched: nat)
    requires Valid(k) && |staged| == Size(k) && length <= Size(k)
    ensures |r| == Size(k) && Covers(k, length, touched)
    ensures Masked(r, staged, 0, touched, KernelKey(k, host))
  {
    match k {
      case Words32(w) =>
        r, touched := Words32Kernel(staged, w, length, host);
      case Words32Unrolled(w) =>
        r, touched := Words32UnrolledKernel(staged, w, length, host);
      case Words64(d, partialMod) =>
        r, touched := Words64Kernel(staged, d, partialMod, length, host);
      case Execute(mask, zeroFill) =>
        r, touched := ExecuteKernel(staged, mask, zeroFill, length, host);
    }
  }

  // ---------------------------------------------------------------------
  // Staging: one pass or chunks of the buffer's size

  /**
   * One chunk: `chunk`, the `n` bytes of the payload `src` at the aligned
   * position `so`, goes through the kernel and is placed right after the
   * part already done.
   */
  method PlaceKernelChunk(k: Kernel, r: seq<byte>, ghost mem: seq<byte>, at: nat, ghost src: seq<byte>, so: nat,
                          n: nat, chunk: seq<byte>, staging: seq<byte>, host: Endian)
    returns (r': seq<byte>, staging': seq<byte>)
    requires Valid(k) && |staging| == Size(k) && n <= Size(k)
    requires so + n <= |src| && at + |src| <= |mem|
    requires r == Place(mem, at, Oracle.Mask(src[..so], KernelKey(k, host))) && chunk == src[so..so + n]
    ensures |staging'| == Size(k)
    ensures r' == Place(mem, at, Oracle.Mask(src[..so], KernelKey(k, host)) + KernelOut(k, src[so..so + n], host))
  {
    ghost var done := Oracle.Mask(src[..so], KernelKey(k, host));
    var out;
    staging', out := RunKernel(k, staging, chunk, n, host);
    assert chunk[..n] == chunk;
    assert |done| == so;
    PlaceConcat(mem, at, done, out);
    r' := Place(r, at + so, out);
  }

  /** A whole chunk is masked by the rule and extends the masked prefix. */
  lemma WholeChunk(k: Kernel, src: seq<byte>, so: nat, host: Endian)
    requires so % 8 == 0 && so + Size(k) <= |src|
    ensures Oracle.Mask(src[..so], KernelKey(k, host)) + KernelOut(k, src[so..so + Size(k)], host)
            == Oracle.Mask(src[..so + Size(k)], KernelKey(k, host))
  {
    ChunkAligned(k, 0);
    MaskChunkSplit(src, so, Size(k), KernelKey(k, host));
  }

  /** The last chunk completes the kernel's output of the whole payload. */
  lemma LastChunk(k: Kernel, src: seq<byte>, so: nat, host: Endian)
    requires so % 8 == 0 && so <= |src|
    ensures Oracle.Mask(src[..so], KernelKey(k, host)) + KernelOut(k, src[so..|src|], host) == KernelOut(k, src, host)
  {
    assert src[so..|src|] == src[so..];
    KernelOutSplit(k, src, so, host);
  }

  /**
   * The chunked path of `_mask`: while `sourceOffset + memorySize < length`,
   * the chunk `source[sourceOffset..sourceOffset + memorySize]` through the
   * kernel and placed at `outputOffset`; then the rest.
   */
  method MaskChunks(k: Kernel, source: seq<byte>, mem: seq<byte>, at: nat, length: nat, staging: seq<byte>,
                    host: Endian)
    returns (r: seq<byte>, staging': seq<byte>)
    requires Valid(k) && Size(k) < length <= |source| && at + length <= |mem| && |staging| == Size(k)
    ensures r == Place(mem, at, KernelOut(k, source[..length], host)) && |staging'| == Size(k)
  {
    ghost var src := source[..length];
    ghost var key := KernelKey(k, host);
    var size := Size(k);
    var sourceOffset := 0;
    var outputOffset := at;
    r := mem;
    staging' := staging;
    PlaceNothing(mem, at);
    while sourceOffset + size < length
      invariant sourceOffset % 8 == 0 && sourceOffset < length
      invariant outputOffset == at + sourceOffset && |staging'| == size
      invariant r == Place(mem, at, Oracle.Mask(src[..sourceOffset], key))
    {
      ChunkAligned(k, sourceOffset);
      WholeChunk(k, src, sourceOffset, host);
      assert source[sourceOffset..sourceOffset + size] == src[sourceOffset..sourceOffset + size];
      r, staging' := PlaceKernelChunk(k, r, mem, at, src, sourceOffset, size,
                                      source[sourceOffset..sourceOffset + size], staging', host);
      outputOffset := outputOffset + size;
      sourceOffset := sourceOffset + size;
    }
    if sourceOffset != length {
      assert source[sourceOffset..length] == src[sourceOffset..length];
      r, staging' := PlaceKernelChunk(k, r, mem, at, src, sourceOffset, length - sourceOffset,
                                      source[sourceOffset..length], staging', host);
      LastChunk(k, src, sourceOffset, host);
    }
  }

  /**
   * The staged path of `_mask`: one pass when `length <= memorySize`, chunks
   * otherwise. `truncate` says the one pass stages
   * `source.length < length ? source : source.subarray(0, length)` rather
   * than all of `source`, which must then fit the buffer.
   */
  method StagedMask(k: Kernel, truncate: bool, source: seq<byte>, mem: seq<byte>, at: nat, length: nat,
                    staging: seq<byte>, host: Endian)
    returns (r: seq<byte>, staging': seq<byte>)
    requires Valid(k) && length <= |source| && at + length <= |mem| && |staging| == Size(k)
    requires !truncate && length <= Size(k) ==> |source| <= Size(k)
    ensures r == Place(mem, at, KernelOut(k, source[..length], host)) && |staging'| == Size(k)
  {
    if length <= Size(k) {
      var staged := if truncate then (if |source| < length then source else source[..length]) else source;
      assert staged[..length] == source[..length];
      var out;
      staging', out := RunKernel(k, staging, staged, length, host);
      r := Place(mem, at, out);
    } else {
      r, staging' := MaskChunks(k, source, mem, at, length, staging, host);
    }
  }

  /** In place, the bytes after the part already done are still the original ones. */
  lemma UnreadChunk(r: seq<byte>, mem: seq<byte>, view: nat, src: seq<byte>, x: seq<byte>, n: nat)
    requires view + |src| <= |mem| && src == mem[view..view + |src|] && |x| + n <= |src|
    requires r == Place(mem, view, x)
    ensures r[view + |x|..view + |x| + n] == src[|x|..|x| + n]
  {
    PlaceBeyond(mem, view, x, n);
    var so := |x|;
    var a := mem[view + so..view + so + n];
    var b := src[so..so + n];
    forall i | 0 <= i < n ensures a[i] == b[i] {
      assert src[so + i] == mem[view + (so + i)];
    }
  }

  /**
   * The chunked path of `_unmask`: each chunk is read from the buffer as it
   * stands, which still holds the original bytes from `offset` on.
   */
  method UnmaskChunks(k: Kernel, mem: seq<byte>, view: nat, length: nat, staging: seq<byte>, host: Endian)
    returns (r: seq<byte>, staging': seq<byte>)
    requires Valid(k) && Size(k) < length && view + length <= |mem| && |staging| == Size(k)
    ensures r == Place(mem, view, KernelOut(k, mem[view..view + length], host)) && |staging'| == Size(k)
  {
    ghost var src := mem[view..view + length];
    ghost var key := KernelKey(k, host);
    var size := Size(k);
    var offset := 0;
    r := mem;
    staging' := staging;
    PlaceNothing(mem, view);
    while offset + size < length
      invariant offset % 8 == 0 && offset < length && |staging'| == size
      invariant r == Place(mem, view, Oracle.Mask(src[..offset], key))
    {
      ChunkAligned(k, offset);
      WholeChunk(k, src, offset, host);
      r, staging' := UnmaskChunk(k, r, mem, view, src, offset, size, staging', host);
      offset := offset + size;
    }
    if offset != length {
      r, staging' := UnmaskChunk(k, r, mem, view, src, offset, length - offset, staging', host);
      assert offset + (length - offset) == |src|;
      LastChunk(k, src, offset, host);
    }
  }

  /** One chunk of `_unmask`, read from the buffer where it still holds the payload. */
  method UnmaskChunk(k: Kernel, r: seq<byte>, ghost mem: seq<byte>, view: nat, ghost src: seq<byte>, so: nat, n: nat,
                     staging: seq<byte>, host: Endian)
    returns (r': seq<byte>, staging': seq<byte>)
    requires Valid(k) && |staging| == Size(k) && n <= Size(k)
    requires view + |src| <= |mem| && src == mem[view..view + |src|] && so + n <= |src|
    requires r == Place(mem, view, Oracle.Mask(src[..so], KernelKey(k, host)))
    ensures |staging'| == Size(k)
    ensures r' == Place(mem, view, Oracle.Mask(src[..so], KernelKey(k, host)) + KernelOut(k, src[so..so + n], host))
  {
    ghost var done := Oracle.Mask(src[..so], KernelKey(k, host));
    assert |done| == so;
    UnreadChunk(r, mem, view, src, done, n);
    r', staging' := PlaceKernelChunk(k, r, mem, view, src, so, n, r[view + so..view + so + n], staging, host);
  }

  /** The staged path of `_unmask`: one pass up to the buffer's size, chunks otherwise. */
  method StagedUnmask(k: Kernel, mem: seq<byte>, view: nat, length: nat, staging: seq<byte>, host: Endian)
    returns (r: seq<byte>, staging': seq<byte>)
    requires Valid(k) && view + length <= |mem| && |staging| == Size(k)
    ensures r == Place(mem, view, KernelOut(k, mem[view..view + length], host)) && |staging'| == Size(k)
  {
    if length <= Size(k) {
      var out;
      staging', out := RunKernel(k, staging, mem[view..view + length], length, host);
      assert mem[view..view + length][..length] == mem[view..view + length];
      r := Place(mem, view, out);
    } else {
      r, staging' := UnmaskChunks(k, mem, view, length, staging, host);
    }
  }
}
