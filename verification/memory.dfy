/**
 * A flat byte store (an `ArrayBuffer`, a staging buffer or a WebAssembly
 * linear memory) and the typed-array writes the implementations perform on
 * it, plus the progress predicate their loops maintain.
 */
module Memory {
  import opened Bytes
  import opened Oracle

  /** `view.set(data, at)`: `data` replaces the bytes from `at` on. */
  function Place(m: seq<byte>, at: nat, data: seq<byte>): (r: seq<byte>)
    requires at + |data| <= |m|
    ensures |r| == |m|
  {
    m[..at] + data + m[at + |data|..]
  }

  /** What `Place` leaves where: `data` inside the window, the old bytes outside. */
  lemma PlaceAt(m: seq<byte>, at: nat, data: seq<byte>)
    requires at + |data| <= |m|
    ensures Place(m, at, data)[at..at + |data|] == data
    ensures forall p :: 0 <= p < |m| ==>
      Place(m, at, data)[p] == if at <= p < at + |data| then data[p - at] else m[p]
  {
  }

  /** `view[p] ^= v` on a `Uint8Array` over the store. */
  function XorByteAt(m: seq<byte>, p: nat, v: byte): (r: seq<byte>)
    requires p < |m|
    ensures |r| == |m| && r[p] == m[p] ^ v
    ensures forall j :: 0 <= j < |m| && j != p ==> r[j] == m[j]
  {
    m[p := m[p] ^ v]
  }

  /** The bytes from `addr` on XORed with the block `e`; nothing else changes. */
  function XorBlockAt(m: seq<byte>, addr: nat, e: seq<byte>): (r: seq<byte>)
    requires addr + |e| <= |m|
    ensures |r| == |m|
  {
    seq(|m|, p requires 0 <= p < |m| => if addr <= p < addr + |e| then m[p] ^ e[p - addr] else m[p])
  }

  /** Writing back the old block XOR `e` is XORing `e` into the store. */
  lemma SpliceBlock(m: seq<byte>, addr: nat, e: seq<byte>)
    requires addr + |e| <= |m|
    ensures m[..addr] + XorBytes(m[addr..addr + |e|], e) + m[addr + |e|..] == XorBlockAt(m, addr, e)
  {
  }

  /**
   * `view32[addr / 4] ^= w` on an `Int32Array` over the store: the four
   * bytes at `addr` are read as a host-order word, XORed, and written back.
   */
  function XorWord32At(m: seq<byte>, addr: nat, w: bv32, host: Endian): (r: seq<byte>)
    requires addr % 4 == 0 && addr + 4 <= |m|
    ensures |r| == |m|
  {
    m[..addr] + XorCell32(m[addr..addr + 4], w, host) + m[addr + 4..]
  }

  /** A 32-bit XOR store XORs the word's layout into its four bytes only. */
  lemma XorWord32AtBlock(m: seq<byte>, addr: nat, w: bv32, host: Endian, e: seq<byte>)
    requires addr % 4 == 0 && addr + 4 <= |m| && Encode32(w, host) == e
    ensures XorWord32At(m, addr, w, host) == XorBlockAt(m, addr, e)
  {
    SpliceBlock(m, addr, e);
  }

  /** `view64[addr / 8] ^= d` on a `BigInt64Array`/`BigUint64Array`. */
  function XorWord64At(m: seq<byte>, addr: nat, d: bv64, host: Endian): (r: seq<byte>)
    requires addr % 8 == 0 && addr + 8 <= |m|
    ensures |r| == |m|
  {
    m[..addr] + XorCell64(m[addr..addr + 8], d, host) + m[addr + 8..]
  }

  /** A 64-bit XOR store XORs the word's layout into its eight bytes only. */
  lemma XorWord64AtBlock(m: seq<byte>, addr: nat, d: bv64, host: Endian, e: seq<byte>)
    requires addr % 8 == 0 && addr + 8 <= |m| && Encode64(d, host) == e
    ensures XorWord64At(m, addr, d, host) == XorBlockAt(m, addr, e)
  {
    SpliceBlock(m, addr, e);
  }

  /**
   * Loop progress of every masking loop: the first `done` bytes of the
   * region starting at `base` have been masked from their original value in
   * `m0`, and nothing else has changed.
   */
  ghost predicate Masked(m: seq<byte>, m0: seq<byte>, base: nat, done: nat, key: Key)
  {
    && |m| == |m0|
    && base + done <= |m|
    && (forall p :: 0 <= p < |m| && !(base <= p < base + done) ==> m[p] == m0[p])
    && (forall q :: 0 <= q < done ==> m[base + q] == m0[base + q] ^ key[q % 4])
  }

  lemma MaskedStart(m0: seq<byte>, base: nat, key: Key)
    requires base <= |m0|
    ensures Masked(m0, m0, base, 0, key)
  {
  }

  /** One scalar step: `out[base + done] ^= key[done & 3]`. */
  lemma StepByte(m: seq<byte>, m0: seq<byte>, base: nat, done: nat, key: Key)
    requires Masked(m, m0, base, done, key) && base + done < |m|
    ensures Masked(XorByteAt(m, base + done, key[done % 4]), m0, base, done + 1, key)
  {
  }

  /** The unrolled `view[p] ^= k0; view[p + 1] ^= k1; ...` of four bytes. */
  function XorQuadAt(m: seq<byte>, p: nat, k0: byte, k1: byte, k2: byte, k3: byte): (r: seq<byte>)
    requires p + 4 <= |m|
    ensures |r| == |m|
    ensures r[p] == m[p] ^ k0 && r[p + 1] == m[p + 1] ^ k1 && r[p + 2] == m[p + 2] ^ k2 && r[p + 3] == m[p + 3] ^ k3
    ensures forall j :: 0 <= j < |m| && !(p <= j < p + 4) ==> r[j] == m[j]
  {
    m[p := m[p] ^ k0][p + 1 := m[p + 1] ^ k1][p + 2 := m[p + 2] ^ k2][p + 3 := m[p + 3] ^ k3]
  }

  /** Inside a block starting at phase 0, the phase is the position in the block. */
  lemma PhaseInQuad(done: nat, j: nat)
    requires done % 4 == 0 && j < 4
    ensures (done + j) % 4 == j
  {
  }

  /** Four scalar steps from a phase-0 position, as the unrolled loops do them. */
  lemma StepQuad(m: seq<byte>, m0: seq<byte>, base: nat, done: nat, key: Key)
    requires Masked(m, m0, base, done, key) && done % 4 == 0 && base + done + 4 <= |m|
    ensures Masked(XorQuadAt(m, base + done, key[0], key[1], key[2], key[3]), m0, base, done + 4, key)
  {
    var r := XorQuadAt(m, base + done, key[0], key[1], key[2], key[3]);
    forall p | base + done <= p < base + done + 4 ensures r[p] == m[p] ^ key[(p - base) % 4] {
      PhaseInQuad(done, p - base - done);
      if p == base + done {
      } else if p == base + done + 1 {
      } else if p == base + done + 2 {
      } else {
      }
    }
    StepBlock(m, m0, base, done, key, 4, r);
  }

  /**
   * Any write that XORs the next `n` bytes with the key at their phases and
   * touches nothing else advances the progress by `n`.
   */
  lemma StepBlock(m: seq<byte>, m0: seq<byte>, base: nat, done: nat, key: Key, n: nat, r: seq<byte>)
    requires Masked(m, m0, base, done, key) && base + done + n <= |m| && |r| == |m|
    requires forall p :: 0 <= p < |m| && !(base + done <= p < base + done + n) ==> r[p] == m[p]
    requires forall p :: base + done <= p < base + done + n ==> r[p] == m[p] ^ key[(p - base) % 4]
    ensures Masked(r, m0, base, done + n, key)
  {
  }

  /**
   * XORing the next `|e|` bytes with a block `e` that holds the key at their
   * phases advances the progress by `|e|`.
   */
  lemma StepXorBlock(m: seq<byte>, m0: seq<byte>, base: nat, done: nat, key: Key, e: seq<byte>)
    requires Masked(m, m0, base, done, key) && base + done + |e| <= |m|
    requires forall j :: 0 <= j < |e| ==> e[j] == key[(done + j) % 4]
    ensures Masked(XorBlockAt(m, base + done, e), m0, base, done + |e|, key)
  {
    var r := XorBlockAt(m, base + done, e);
    forall p | base + done <= p < base + done + |e| ensures r[p] == m[p] ^ key[(p - base) % 4] {
      assert e[p - (base + done)] == key[(done + (p - (base + done))) % 4];
    }
    StepBlock(m, m0, base, done, key, |e|, r);
  }

  /** One 32-bit step with a word laid out as the key rotated to the phase. */
  lemma StepWord32(m: seq<byte>, m0: seq<byte>, base: nat, done: nat, key: Key, w: bv32, host: Endian)
    requires Masked(m, m0, base, done, key)
    requires (base + done) % 4 == 0 && base + done + 4 <= |m|
    requires Encode32(w, host) == RotKey(key, done)
    ensures Masked(XorWord32At(m, base + done, w, host), m0, base, done + 4, key)
  {
    var e: seq<byte> := RotKey(key, done);
    XorWord32AtBlock(m, base + done, w, host, e);
    StepXorBlock(m, m0, base, done, key, e);
  }

  /** The rotated key repeats every four positions. */
  lemma RotKeyShift(key: Key, i0: nat, k: nat)
    ensures RotKey(key, i0 + 4 * k) == RotKey(key, i0)
  {
    var a, b := RotKey(key, i0 + 4 * k), RotKey(key, i0);
    forall j | 0 <= j < 4 ensures a[j] == b[j] {
      PhasePeriod(i0 + j, k);
      assert i0 + 4 * k + j == i0 + j + 4 * k;
    }
  }

  /** Four bytes per word keep an aligned `Int32Array` start aligned. */
  lemma AlignedWord(base: nat, i0: nat, k: nat)
    requires (base + i0) % 4 == 0
    ensures (base + (i0 + 4 * k)) % 4 == 0
  {
    PhasePeriod(base + i0, k);
  }

  /** The doubled rotated key repeats the key at the phase. */
  lemma DoubledKeyAt(key: Key, done: nat)
    ensures forall j :: 0 <= j < 8 ==> (RotKey(key, done) + RotKey(key, done))[j] == key[(done + j) % 4]
  {
    var rk: seq<byte> := RotKey(key, done);
    forall j | 0 <= j < 8 ensures (rk + rk)[j] == key[(done + j) % 4] {
      if j >= 4 {
        assert (rk + rk)[j] == rk[j - 4];
        assert (done + (j - 4)) % 4 == (done + j) % 4;
      }
    }
  }

  /** One 64-bit step with a doubled rotated key. */
  lemma StepWord64(m: seq<byte>, m0: seq<byte>, base: nat, done: nat, key: Key, d: bv64, host: Endian)
    requires Masked(m, m0, base, done, key)
    requires (base + done) % 8 == 0 && base + done + 8 <= |m|
    requires Encode64(d, host) == RotKey(key, done) + RotKey(key, done)
    ensures Masked(XorWord64At(m, base + done, d, host), m0, base, done + 8, key)
  {
    var e := RotKey(key, done) + RotKey(key, done);
    XorWord64AtBlock(m, base + done, d, host, e);
    DoubledKeyAt(key, done);
    StepXorBlock(m, m0, base, done, key, e);
  }

  /** A region masked up to `done` holds the rule's output on any prefix of it. */
  lemma MaskedPrefix(m: seq<byte>, m0: seq<byte>, base: nat, done: nat, key: Key, len: nat)
    requires Masked(m, m0, base, done, key) && len <= done
    ensures m[base..base + len] == Mask(m0[base..base + len], key)
  {
  }

  /** A region masked to its full length is the rule's output placed in the store. */
  lemma MaskedFinal(m: seq<byte>, m0: seq<byte>, base: nat, len: nat, key: Key)
    requires Masked(m, m0, base, len, key)
    ensures m == Place(m0, base, Mask(m0[base..base + len], key))
  {
    var r := Place(m0, base, Mask(m0[base..base + len], key));
    PlaceAt(m0, base, Mask(m0[base..base + len], key));
    forall p | 0 <= p < |m| ensures m[p] == r[p] {
      if base <= p < base + len {
        assert m[base + (p - base)] == m0[base + (p - base)] ^ key[(p - base) % 4];
      }
    }
  }

  /**
   * Copy-then-XOR: a region masked to full length after `src` was placed
   * there is the rule's output of `src` placed in the original store.
   */
  lemma MaskedPlaced(m: seq<byte>, out0: seq<byte>, base: nat, src: seq<byte>, key: Key)
    requires base + |src| <= |out0|
    requires Masked(m, Place(out0, base, src), base, |src|, key)
    ensures m == Place(out0, base, Mask(src, key))
  {
    var placed := Place(out0, base, src);
    MaskedFinal(m, placed, base, |src|, key);
    PlaceAt(out0, base, src);
    var r := Place(out0, base, Mask(src, key));
    PlaceAt(out0, base, Mask(src, key));
    PlaceAt(placed, base, Mask(placed[base..base + |src|], key));
    forall p | 0 <= p < |m| ensures m[p] == r[p] {
    }
  }

  /** Placing a store's own bytes back is no change: the skipped copy. */
  lemma PlaceOwn(m: seq<byte>, at: nat, len: nat)
    requires at + len <= |m|
    ensures Place(m, at, m[at..at + len]) == m
  {
    assert m[..at] + m[at..at + len] + m[at + len..] == m;
  }

  /** Placing `a` and then `b` right after it is placing `a + b`. */
  lemma PlaceConcat(m: seq<byte>, at: nat, a: seq<byte>, b: seq<byte>)
    requires at + |a| + |b| <= |m|
    ensures Place(Place(m, at, a), at + |a|, b) == Place(m, at, a + b)
  {
    var l := Place(Place(m, at, a), at + |a|, b);
    var r := Place(m, at, a + b);
    PlaceAt(m, at, a);
    PlaceAt(Place(m, at, a), at + |a|, b);
    PlaceAt(m, at, a + b);
    forall p | 0 <= p < |m| ensures l[p] == r[p] {
      if at + |a| <= p < at + |a| + |b| {
        assert (a + b)[p - at] == b[p - at - |a|];
      }
    }
  }

  /**
   * Chunked processing: placing the masked next chunk after an already placed
   * prefix whose length is a multiple of 4 extends the placed prefix.
   */
  lemma PlaceChunk(out0: seq<byte>, off: nat, s: seq<byte>, so: nat, n: nat, key: Key)
    requires so % 4 == 0 && so + n <= |s| && off + so + n <= |out0|
    ensures Place(Place(out0, off, Mask(s[..so], key)), off + so, Mask(s[so..so + n], key))
         == Place(out0, off, Mask(s[..so + n], key))
  {
    assert Mask(s[..so + n], key) == Mask(s[..so], key) + Mask(s[so..so + n], key) by {
      MaskChunkSplit(s, so, n, key);
    }
    PlaceConcat(out0, off, Mask(s[..so], key), Mask(s[so..so + n], key));
  }

  /**
   * Loop progress of the loops that write `src[q] ^ key[q & 3]` straight into
   * the output instead of copying first: the first `done` bytes from `base`
   * hold masked source bytes and nothing else has changed.
   */
  ghost predicate Written(m: seq<byte>, m0: seq<byte>, base: nat, src: seq<byte>, done: nat, key: Key)
  {
    && |m| == |m0|
    && done <= |src|
    && base + done <= |m|
    && (forall p :: 0 <= p < |m| && !(base <= p < base + done) ==> m[p] == m0[p])
    && (forall q :: 0 <= q < done ==> m[base + q] == src[q] ^ key[q % 4])
  }

  /** One direct write: `out[base + done] = src[done] ^ key[done & 3]`. */
  lemma WriteByte(m: seq<byte>, m0: seq<byte>, base: nat, src: seq<byte>, done: nat, key: Key)
    requires Written(m, m0, base, src, done, key) && done < |src| && base + done < |m|
    ensures Written(m[base + done := src[done] ^ key[done % 4]], m0, base, src, done + 1, key)
  {
  }

  /** The unrolled `out[p] = src[q] ^ k0; out[p + 1] = src[q + 1] ^ k1; ...`. */
  function WriteQuadAt(m: seq<byte>, p: nat, src: seq<byte>, q: nat, k0: byte, k1: byte, k2: byte, k3: byte): (r: seq<byte>)
    requires p + 4 <= |m| && q + 4 <= |src|
    ensures |r| == |m|
    ensures r[p] == src[q] ^ k0 && r[p + 1] == src[q + 1] ^ k1 && r[p + 2] == src[q + 2] ^ k2 && r[p + 3] == src[q + 3] ^ k3
    ensures forall j :: 0 <= j < |m| && !(p <= j < p + 4) ==> r[j] == m[j]
  {
    m[p := src[q] ^ k0][p + 1 := src[q + 1] ^ k1][p + 2 := src[q + 2] ^ k2][p + 3 := src[q + 3] ^ k3]
  }

  /** Four direct writes from a phase-0 position, as the unrolled loops do them. */
  lemma WriteQuad(m: seq<byte>, m0: seq<byte>, base: nat, src: seq<byte>, done: nat, key: Key)
    requires Written(m, m0, base, src, done, key) && done % 4 == 0
    requires done + 4 <= |src| && base + done + 4 <= |m|
    ensures Written(WriteQuadAt(m, base + done, src, done, key[0], key[1], key[2], key[3]), m0, base, src, done + 4, key)
  {
    var r := WriteQuadAt(m, base + done, src, done, key[0], key[1], key[2], key[3]);
    forall q | done <= q < done + 4 ensures r[base + q] == src[q] ^ key[q % 4] {
      PhaseInQuad(done, q - done);
      if q == done {
      } else if q == done + 1 {
      } else if q == done + 2 {
      } else {
      }
    }
  }

  /** A region written to length `len` is the rule's output placed in the store. */
  lemma WrittenFinal(m: seq<byte>, m0: seq<byte>, base: nat, src: seq<byte>, len: nat, key: Key)
    requires Written(m, m0, base, src, len, key)
    ensures m == Place(m0, base, Mask(src[..len], key))
  {
    var r := Place(m0, base, Mask(src[..len], key));
    PlaceAt(m0, base, Mask(src[..len], key));
    forall p | 0 <= p < |m| ensures m[p] == r[p] {
      if base <= p < base + len {
        assert m[base + (p - base)] == src[p - base] ^ key[(p - base) % 4];
      }
    }
  }

  /**
   * Loop progress of the same direct-write loops when the output array is
   * also the source: step `q` reads byte `q` as it stands, which an earlier
   * step has already rewritten exactly when `0 < base <= q`.
   */
  ghost predicate WrittenOwn(m: seq<byte>, m0: seq<byte>, base: nat, done: nat, key: Key)
  {
    && |m| == |m0|
    && base + done <= |m|
    && (forall p :: 0 <= p < |m| ==> Kept(m, m0, base, done, p))
    && (forall q :: 0 <= q < done ==> OwnWritten(m, m0, base, q, key))
  }

  /** Byte `p` is in the written part of the window or still holds its old value. */
  ghost predicate Kept(m: seq<byte>, m0: seq<byte>, base: nat, done: nat, p: nat)
    requires |m| == |m0| && p < |m|
  {
    base <= p < base + done || m[p] == m0[p]
  }

  /** Output byte `q` is the key XORed into byte `q` as step `q` read it. */
  ghost predicate OwnWritten(m: seq<byte>, m0: seq<byte>, base: nat, q: nat, key: Key)
    requires |m| == |m0| && base + q < |m|
  {
    m[base + q] == (if 0 < base <= q then m[q] else m0[q]) ^ key[q % 4]
  }

  /** One direct write of the array onto itself: `out[base + done] = out[done] ^ key[done & 3]`. */
  lemma WriteOwnByte(m: seq<byte>, m0: seq<byte>, base: nat, done: nat, key: Key, k: byte)
    requires WrittenOwn(m, m0, base, done, key) && base + done < |m| && k == key[done % 4]
    ensures WrittenOwn(OwnByteAt(m, base + done, done, k), m0, base, done + 1, key)
  {
    var r := OwnByteAt(m, base + done, done, k);
    assert Kept(m, m0, base, done, done);
    var next := done + 1;
    forall p | 0 <= p < |r| ensures Kept(r, m0, base, next, p) {
      assert Kept(m, m0, base, done, p);
    }
    forall q | 0 <= q < done + 1 ensures OwnWritten(r, m0, base, q, key) {
      if q < done {
        assert OwnWritten(m, m0, base, q, key);
      }
    }
  }

  /** `out[p] = out[q] ^ k` on one array. */
  function OwnByteAt(m: seq<byte>, p: nat, q: nat, k: byte): (r: seq<byte>)
    requires p < |m| && q < |m|
    ensures |r| == |m|
  {
    m[p := m[q] ^ k]
  }

  /** The unrolled `out[p] = out[q] ^ k0; out[p + 1] = out[q + 1] ^ k1; ...` on one array, each read after the write before it. */
  function WriteOwnQuadAt(m: seq<byte>, p: nat, q: nat, k0: byte, k1: byte, k2: byte, k3: byte): (r: seq<byte>)
    requires p + 4 <= |m| && q + 4 <= |m|
    ensures |r| == |m|
  {
    OwnByteAt(OwnByteAt(OwnByteAt(OwnByteAt(m, p, q, k0), p + 1, q + 1, k1), p + 2, q + 2, k2), p + 3, q + 3, k3)
  }

  /** Four direct writes of the array onto itself from a phase-0 position. */
  lemma WriteOwnQuad(m: seq<byte>, m0: seq<byte>, base: nat, done: nat, key: Key)
    requires WrittenOwn(m, m0, base, done, key) && done % 4 == 0 && base + done + 4 <= |m|
    ensures WrittenOwn(WriteOwnQuadAt(m, base + done, done, key[0], key[1], key[2], key[3]), m0, base, done + 4, key)
  {
    PhaseInQuad(done, 0);
    PhaseInQuad(done, 1);
    PhaseInQuad(done, 2);
    PhaseInQuad(done, 3);
    var p := base + done;
    var m1 := OwnByteAt(m, p, done, key[0]);
    var m2 := OwnByteAt(m1, p + 1, done + 1, key[1]);
    var m3 := OwnByteAt(m2, p + 2, done + 2, key[2]);
    WriteOwnByte(m, m0, base, done, key, key[0]);
    WriteOwnByte(m1, m0, base, done + 1, key, key[1]);
    WriteOwnByte(m2, m0, base, done + 2, key, key[2]);
    WriteOwnByte(m3, m0, base, done + 3, key, key[3]);
  }

  /** Without an overlap that re-reads written bytes, the own-array loop is the rule placed at `base`. */
  lemma WrittenOwnApart(m: seq<byte>, m0: seq<byte>, base: nat, len: nat, key: Key)
    requires WrittenOwn(m, m0, base, len, key) && (base == 0 || len <= base)
    ensures m == Place(m0, base, Mask(m0[..len], key))
  {
    WrittenOwnSpelled(m, m0, base, len, key);
    WrittenFinal(m, m0, base, m0, len, key);
  }

  /** The own-array progress predicate written out byte by byte. */
  lemma WrittenOwnSpelled(m: seq<byte>, m0: seq<byte>, base: nat, len: nat, key: Key)
    requires WrittenOwn(m, m0, base, len, key)
    ensures forall p :: 0 <= p < |m0| && !(base <= p < base + len) ==> m[p] == m0[p]
    ensures forall q :: 0 <= q < len ==> m[base + q] == (if 0 < base <= q then m[q] else m0[q]) ^ key[q % 4]
  {
    forall p | 0 <= p < |m0| && !(base <= p < base + len) ensures m[p] == m0[p] {
      assert Kept(m, m0, base, len, p);
    }
    forall q | 0 <= q < len ensures m[base + q] == (if 0 < base <= q then m[q] else m0[q]) ^ key[q % 4] {
      assert OwnWritten(m, m0, base, q, key);
    }
  }

  // ---------------------------------------------------------------------
  // Loops over pieces of a region

  /** A region masked with the key rotated to `phase` is the rule's output from that phase. */
  lemma MaskedFinalFrom(m: seq<byte>, m0: seq<byte>, base: nat, len: nat, key: Key, phase: nat)
    requires Masked(m, m0, base, len, RotKey(key, phase))
    ensures m == Place(m0, base, MaskFrom(m0[base..base + len], key, phase))
  {
    MaskedFinal(m, m0, base, len, RotKey(key, phase));
    MaskFromRotKey(m0[base..base + len], key, phase);
  }

  /** One scalar step of a piece that starts at phase `from`. */
  lemma StepByteFrom(m: seq<byte>, m0: seq<byte>, base: nat, done: nat, key: Key, from: nat)
    requires Masked(m, m0, base, done, RotKey(key, from)) && base + done < |m|
    ensures Masked(XorByteAt(m, base + done, key[(from + done) % 4]), m0, base, done + 1, RotKey(key, from))
  {
    PhaseShift(from, done);
    StepByte(m, m0, base, done, RotKey(key, from));
  }

  /** `view32[k] ^= w` on the `Int32Array` that starts at the aligned address `base + i0`. */
  method XorWordK(m: seq<byte>, m0: seq<byte>, base: nat, i0: nat, k: nat, key: Key, w: bv32, host: Endian)
    returns (r: seq<byte>)
    requires Masked(m, m0, base, i0 + 4 * k, key)
    requires (base + i0) % 4 == 0 && base + i0 + 4 * k + 4 <= |m|
    requires Encode32(w, host) == RotKey(key, i0)
    ensures Masked(r, m0, base, i0 + 4 * k + 4, key)
  {
    RotKeyShift(key, i0, k);
    AlignedWord(base, i0, k);
    StepWord32(m, m0, base, i0 + 4 * k, key, w, host);
    r := XorWord32At(m, base + (i0 + 4 * k), w, host);
  }

  /**
   * One round of an unrolled word loop: words `j` to `j + 7` of the
   * `Int32Array` that starts at the aligned address `base + i0`.
   */
  method XorEightWords(m: seq<byte>, m0: seq<byte>, base: nat, i0: nat, j: nat, key: Key, w: bv32, host: Endian)
    returns (r: seq<byte>)
    requires Masked(m, m0, base, i0 + 4 * j, key)
    requires (base + i0) % 4 == 0 && base + i0 + 4 * (j + 8) <= |m|
    requires Encode32(w, host) == RotKey(key, i0)
    ensures Masked(r, m0, base, i0 + 4 * (j + 8), key)
  {
    r := m;
    r := XorWordK(r, m0, base, i0, j, key, w, host);
    r := XorWordK(r, m0, base, i0, j + 1, key, w, host);
    r := XorWordK(r, m0, base, i0, j + 2, key, w, host);
    r := XorWordK(r, m0, base, i0, j + 3, key, w, host);
    r := XorWordK(r, m0, base, i0, j + 4, key, w, host);
    r := XorWordK(r, m0, base, i0, j + 5, key, w, host);
    r := XorWordK(r, m0, base, i0, j + 6, key, w, host);
    r := XorWordK(r, m0, base, i0, j + 7, key, w, host);
  }

  /**
   * `count` words of the `Int32Array` at the aligned address `base + i0`,
   * eight per round while whole rounds remain (`count - (count & 7)`
   * words), then one at a time; each word is XORed exactly once.
   */
  method XorWordsUnrolled(m: seq<byte>, m0: seq<byte>, base: nat, i0: nat, count: nat, key: Key, w: bv32, host: Endian)
    returns (r: seq<byte>)
    requires Masked(m, m0, base, i0, key)
    requires (base + i0) % 4 == 0 && base + i0 + 4 * count <= |m|
    requires Encode32(w, host) == RotKey(key, i0)
    ensures Masked(r, m0, base, i0 + 4 * count, key)
  {
    var unrolled := count - count % 8;
    assert unrolled == 8 * (count / 8);
    r := m;
    ghost var rounds := 0;
    var j := 0;
    while j < unrolled
      invariant j == 8 * rounds && j <= unrolled
      invariant Masked(r, m0, base, i0 + 4 * j, key)
    {
      r := XorEightWords(r, m0, base, i0, j, key, w, host);
      j := j + 8;
      rounds := rounds + 1;
    }
    while j < count
      invariant j <= count
      invariant Masked(r, m0, base, i0 + 4 * j, key)
    {
      r := XorWordK(r, m0, base, i0, j, key, w, host);
      j := j + 1;
    }
  }

  /**
   * `for (i = from; i < to; ++i) view[i] = mask[i & 3]`: the key bytes
   * themselves are written over the bytes from `from` to `to`.
   */
  method AssignKeyBytes(m: seq<byte>, from: nat, to: nat, key: Key) returns (r: seq<byte>)
    requires from <= to <= |m|
    ensures r == Place(m, from, KeyStream(key, from, to - from))
  {
    r := m;
    var i := from;
    while i < to
      invariant from <= i <= to && |r| == |m|
      invariant forall p :: 0 <= p < |m| ==> r[p] == if from <= p < i then key[p % 4] else m[p]
    {
      r := r[i := key[i % 4]];
      i := i + 1;
    }
    PlaceAt(m, from, KeyStream(key, from, to - from));
    forall p | 0 <= p < |m| ensures r[p] == Place(m, from, KeyStream(key, from, to - from))[p] {
      if from <= p < to {
        assert from + (p - from) == p;
      }
    }
  }

  /** The loop of `XorBytesFrom`, with its progress as the contract. */
  method XorBytesLoop(m: seq<byte>, base: nat, from: nat, to: nat, key: Key) returns (r: seq<byte>)
    requires from <= to && base + to <= |m|
    ensures Masked(r, m, base + from, to - from, RotKey(key, from))
  {
    r := m;
    var i := from;
    while i < to
      invariant from <= i <= to
      invariant Masked(r, m, base + from, i - from, RotKey(key, from))
    {
      StepByteFrom(r, m, base + from, i - from, key, from);
      r := XorByteAt(r, base + i, key[i % 4]);
      i := i + 1;
    }
  }

  /**
   * `for (i = from; i < to; ++i) view[base + i] ^= key[i & 3]`: the bytes
   * `from` to `to` of the region at `base` masked at their own phases.
   */
  method XorBytesFrom(m: seq<byte>, base: nat, from: nat, to: nat, key: Key) returns (r: seq<byte>)
    requires from <= to && base + to <= |m|
    ensures r == Place(m, base + from, MaskFrom(m[base + from..base + to], key, from))
  {
    r := XorBytesLoop(m, base, from, to, key);
    MaskedFinalFrom(r, m, base + from, to - from, key, from);
  }

  /** The loop of `XorWordsFrom`, with its progress as the contract. */
  method XorWordsLoop(m: seq<byte>, addr: nat, count: nat, key: Key, w: bv32, host: Endian) returns (r: seq<byte>)
    requires addr % 4 == 0 && addr + 4 * count <= |m|
    requires Encode32(w, host) == key
    ensures Masked(r, m, addr, 4 * count, key)
  {
    RotKeyZero(key);
    r := m;
    var j := 0;
    while j < count
      invariant j <= count
      invariant Masked(r, m, addr, 4 * j, key)
    {
      r := XorWordK(r, m, addr, 0, j, key, w, host);
      j := j + 1;
    }
  }

  /**
   * `for (i = 0; i < count; ++i) view32[i] ^= w` over an `Int32Array` at the
   * aligned address `addr`, with `w` laid out as the key at phase `phase`:
   * the `4 * count` bytes are masked as if they started at that phase.
   */
  method XorWordsFrom(m: seq<byte>, addr: nat, count: nat, key: Key, phase: nat, w: bv32, host: Endian)
    returns (r: seq<byte>)
    requires addr % 4 == 0 && addr + 4 * count <= |m|
    requires Encode32(w, host) == RotKey(key, phase)
    ensures r == Place(m, addr, MaskFrom(m[addr..addr + 4 * count], key, phase))
  {
    r := XorWordsLoop(m, addr, count, RotKey(key, phase), w, host);
    MaskedFinalFrom(r, m, addr, 4 * count, key, phase);
  }

  /**
   * Progress of an implementation that transforms the region at `base`
   * piece by piece: the region holds the finished prefix `done` followed by
   * the untouched rest of `src`, and nothing outside it has changed.
   */
  ghost predicate Progress(r: seq<byte>, m0: seq<byte>, base: nat, done: seq<byte>, src: seq<byte>)
  {
    && |done| <= |src|
    && base + |src| <= |m0|
    && r == Place(m0, base, done + src[|done|..])
  }

  /** Before the first piece the region holds `src` itself. */
  lemma ProgressStart(m0: seq<byte>, base: nat, src: seq<byte>)
    requires base + |src| <= |m0|
    ensures Progress(Place(m0, base, src), m0, base, [], src)
  {
    assert [] + src[0..] == src;
  }

  /** A region that already holds `src` needs no copy. */
  lemma ProgressInPlace(m0: seq<byte>, base: nat, len: nat)
    requires base + len <= |m0|
    ensures Progress(m0, m0, base, [], m0[base..base + len])
  {
    PlaceOwn(m0, base, len);
    assert [] + m0[base..base + len][0..] == m0[base..base + len];
  }

  /** Placing `data` inside an earlier placed window splices it into the window. */
  lemma PlaceInside(m: seq<byte>, at: nat, x: seq<byte>, k: nat, y: seq<byte>)
    requires at + |x| <= |m| && k + |y| <= |x|
    ensures Place(m, at, x)[at + k..at + k + |y|] == x[k..k + |y|]
    ensures Place(Place(m, at, x), at + k, y) == Place(m, at, x[..k] + y + x[k + |y|..])
  {
    var l := Place(Place(m, at, x), at + k, y);
    var r := Place(m, at, x[..k] + y + x[k + |y|..]);
    PlaceAt(m, at, x);
    PlaceAt(Place(m, at, x), at + k, y);
    PlaceAt(m, at, x[..k] + y + x[k + |y|..]);
    forall p | 0 <= p < |m| ensures l[p] == r[p] {
      if at <= p < at + |x| {
        var z := x[..k] + y + x[k + |y|..];
        if p < at + k {
          assert z[p - at] == x[p - at];
        } else if p < at + k + |y| {
          assert z[p - at] == y[p - at - k];
        } else {
          assert z[p - at] == x[p - at];
        }
      }
    }
  }

  /**
   * The next piece: the bytes it reads are the untouched source bytes, and
   * placing its result extends the finished prefix.
   */
  lemma ProgressPlace(r: seq<byte>, m0: seq<byte>, base: nat, done: seq<byte>, src: seq<byte>, y: seq<byte>)
    requires Progress(r, m0, base, done, src) && |done| + |y| <= |src|
    ensures r[base + |done|..base + |done| + |y|] == src[|done|..|done| + |y|]
    ensures Progress(Place(r, base + |done|, y), m0, base, done + y, src)
  {
    var x := done + src[|done|..];
    PlaceInside(m0, base, x, |done|, y);
    assert x[|done|..|done| + |y|] == src[|done|..|done| + |y|];
    assert x[..|done|] + y + x[|done| + |y|..] == (done + y) + src[|done + y|..];
  }

  /** With the whole source finished, the region holds the finished bytes. */
  lemma ProgressDone(r: seq<byte>, m0: seq<byte>, base: nat, done: seq<byte>, src: seq<byte>)
    requires Progress(r, m0, base, done, src) && |done| == |src|
    ensures r == Place(m0, base, done)
  {
    assert done + src[|done|..] == done;
  }

  /**
   * A byte loop as the next piece: `view[base + i] ^= key[i & 3]` for `i`
   * from the end of the finished prefix up to `to`.
   */
  method PieceBytes(r: seq<byte>, ghost m0: seq<byte>, base: nat, ghost done: seq<byte>, ghost src: seq<byte>,
                    from: nat, to: nat, key: Key)
    returns (r': seq<byte>, ghost done': seq<byte>)
    requires Progress(r, m0, base, done, src) && from == |done| && from <= to <= |src|
    ensures done' == done + MaskFrom(src[from..to], key, from)
    ensures Progress(r', m0, base, done', src)
  {
    ProgressPlace(r, m0, base, done, src, MaskFrom(src[from..to], key, from));
    r' := XorBytesFrom(r, base, from, to, key);
    done' := done + MaskFrom(src[from..to], key, from);
  }

  /**
   * A word loop as the next piece: `count` words from the aligned address
   * `base + from` up to `base + to`, XORed with `w`, which is laid out as
   * the key at `phase`.
   */
  method PieceWords(r: seq<byte>, ghost m0: seq<byte>, base: nat, ghost done: seq<byte>, ghost src: seq<byte>,
                    from: nat, count: nat, ghost to: nat, key: Key, phase: nat, w: bv32, host: Endian)
    returns (r': seq<byte>, ghost done': seq<byte>)
    requires Progress(r, m0, base, done, src) && from == |done| && to == from + 4 * count && to <= |src|
    requires (base + from) % 4 == 0 && Encode32(w, host) == RotKey(key, phase)
    ensures done' == done + MaskFrom(src[from..to], key, phase)
    ensures Progress(r', m0, base, done', src)
  {
    var y := MaskFrom(src[from..to], key, phase);
    ProgressPlace(r, m0, base, done, src, y);
    assert r[base + from..base + from + 4 * count] == src[from..to];
    r' := XorWordsFrom(r, base + from, count, key, phase, w, host);
    assert r' == Place(r, base + |done|, y);
    done' := done + y;
  }

  /** A piece the source skips because it is empty. */
  lemma PieceSkip(r: seq<byte>, m0: seq<byte>, base: nat, done: seq<byte>, src: seq<byte>, from: nat, key: Key,
                  phase: nat)
    returns (done': seq<byte>)
    requires Progress(r, m0, base, done, src) && from == |done|
    ensures done' == done + MaskFrom(src[from..from], key, phase)
    ensures Progress(r, m0, base, done', src)
  {
    done' := done + MaskFrom(src[from..from], key, phase);
    assert done' == done;
  }

  // ---------------------------------------------------------------------
  // Whole-store helpers

  /** Placing data over a whole store is the data. */
  lemma PlaceWhole(m: seq<byte>, x: seq<byte>)
    requires |x| == |m|
    ensures Place(m, 0, x) == x
  {
    assert m[..0] + x + m[|x|..] == x;
  }

  /** Placing twice at the same address keeps the second data only. */
  lemma PlaceTwice(m: seq<byte>, at: nat, x: seq<byte>, y: seq<byte>)
    requires at + |x| <= |m| && |y| == |x|
    ensures Place(m, at, x)[at..at + |x|] == x
    ensures Place(Place(m, at, x), at, y) == Place(m, at, y)
  {
    PlaceInside(m, at, x, 0, y);
    assert x[..0] + y + x[|y|..] == y;
  }

  /** Two placements at the same address agree exactly when the data do. */
  lemma PlaceInjective(m: seq<byte>, at: nat, x: seq<byte>, y: seq<byte>)
    requires at + |x| <= |m| && |y| == |x|
    ensures Place(m, at, x) == Place(m, at, y) <==> x == y
  {
    if Place(m, at, x) == Place(m, at, y) {
      PlaceAt(m, at, x);
      PlaceAt(m, at, y);
    }
  }

  /**
   * A word loop over the first `length` bytes of a store followed by a tail
   * that assigns key bytes is `TailAssigned` of those bytes, placed at 0.
   */
  lemma TailAssignedPlaced(m: seq<byte>, length: nat, key: Key)
    requires length <= |m|
    ensures var fl := length - length % 4;
            Place(Place(m, 0, Oracle.Mask(m[0..fl], key)), fl, KeyStream(key, fl, length - fl))
            == Place(m, 0, TailAssigned(m[..length], key))
  {
    var fl := length - length % 4;
    assert m[..length][..fl] == m[0..fl];
    PlaceConcat(m, 0, Oracle.Mask(m[0..fl], key), KeyStream(key, fl, length - fl));
  }

  /**
   * `count` words from the aligned `offset`, XORed with `int32(mask[0], ...,
   * mask[3])` eight per round and then one at a time: the rule from phase 0.
   */
  method XorKeyWords(mem: seq<byte>, key: Key, offset: nat, count: nat, host: Endian) returns (r: seq<byte>)
    requires offset % 4 == 0 && offset + 4 * count <= |mem|
    ensures r == Place(mem, offset, Oracle.Mask(mem[offset..offset + 4 * count], key))
  {
    var maskKey := KeyWord(host, key);
    RotKeyZero(key);
    MaskedStart(mem, offset, key);
    r := XorWordsUnrolled(mem, mem, offset, 0, count, key, maskKey, host);
    MaskedFinal(r, mem, offset, 4 * count, key);
  }

  /** Placing no bytes changes nothing. */
  lemma PlaceNothing(m: seq<byte>, at: nat)
    requires at <= |m|
    ensures Place(m, at, []) == m
  {
    assert m[..at] + [] + m[at..] == m;
  }

  /**
   * `output.set(source.length === length ? source : source.subarray(0, length), offset)`
   * unless the call is in place at offset 0, where the bytes are already there.
   */
  method CopyIn(source: seq<byte>, mem: seq<byte>, view: nat, viewLen: nat, offset: nat, length: nat, same: bool)
    returns (placed: seq<byte>)
    requires view + viewLen <= |mem| && offset + length <= viewLen && length <= |source|
    requires same ==> source == mem[view..view + viewLen]
    ensures placed == Place(mem, view + offset, source[..length])
  {
    var src := source[..length];
    placed := mem;
    if !same || offset != 0 {
      placed := Place(mem, view + offset, if |source| == length then source else src);
    } else {
      PlaceOwn(mem, view, length);
      assert mem[view..view + length] == src;
    }
  }

  /** The bytes right after a placed window are the old ones. */
  lemma PlaceBeyond(m: seq<byte>, at: nat, x: seq<byte>, n: nat)
    requires at + |x| + n <= |m|
    ensures Place(m, at, x)[at + |x|..at + |x| + n] == m[at + |x|..at + |x| + n]
  {
  }
}
