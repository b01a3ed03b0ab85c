/**
 * `index.js`: the aligned word implementation. After the copy, bytes are
 * XORed one at a time until the output address is a multiple of 4; then an
 * `Int32Array` over the same `ArrayBuffer` XORs whole words (eight per
 * iteration, then the remainder) with the key packed for the current phase
 * and host byte order; the last `length & 3` bytes are done one at a time.
 *
 * The store is the whole `ArrayBuffer`; a view is its `byteOffset` `view`
 * and its length `viewLen`.
 */
module IndexJs {
  import opened Bytes
  import opened Oracle
  import opened Memory

  /** An unaligned address is still short of the next multiple of 4. */
  lemma HeadGap(base: nat, i: nat)
    requires i <= (4 - base % 4) % 4 && (base + i) % 4 != 0
    ensures i < (4 - base % 4) % 4
  {
  }

  /** The head: single bytes until the address is a multiple of 4 (at most three). */
  method XorHead(mem: seq<byte>, base: nat, length: nat, key: Key) returns (r: seq<byte>, i: nat)
    requires base + length <= |mem|
    ensures Masked(r, mem, base, i, key) && i <= length && i < 4
    ensures i < length ==> (base + i) % 4 == 0
    ensures i == if length < (4 - base % 4) % 4 then length else (4 - base % 4) % 4
  {
    r := mem;
    i := 0;
    ghost var gap := (4 - base % 4) % 4;
    while i < length && (base + i) % 4 != 0
      invariant i <= length && i <= gap < 4
      invariant Masked(r, mem, base, i, key)
    {
      HeadGap(base, i);
      StepByte(r, mem, base, i, key);
      r := XorByteAt(r, base + i, key[i % 4]);
      i := i + 1;
    }
  }

  /**
   * The word part: `(length - i) >> 2` words from the aligned address
   * `base + i`, eight per round and then the remainder, all with the key
   * packed for phase `i`.
   */
  method XorWords(m: seq<byte>, m0: seq<byte>, base: nat, i: nat, length: nat, key: Key, host: Endian)
    returns (r: seq<byte>, next: nat)
    requires Masked(m, m0, base, i, key) && i < 4 && i <= length && base + length <= |m|
    requires (base + i) % 4 == 0 && length < 0x8000_0000
    ensures Masked(r, m0, base, next, key) && i <= next <= length && length - next < 4
  {
    var maskKey := HeadKey(host, key, i);
    HeadKeyLayout(host, key, i);
    var i32al := (length - i) / 4;
    r := XorWordsUnrolled(m, m0, base, i, i32al, key, maskKey, host);
    next := i + i32al * 4;
  }

  /** The tail: single bytes to the end of the region. */
  method XorTail(m: seq<byte>, m0: seq<byte>, base: nat, i: nat, length: nat, key: Key) returns (r: seq<byte>)
    requires Masked(m, m0, base, i, key) && i <= length && base + length <= |m|
    ensures Masked(r, m0, base, length, key)
  {
    r := m;
    var k := i;
    while k < length
      invariant k <= length
      invariant Masked(r, m0, base, k, key)
    {
      StepByte(r, m0, base, k, key);
      r := XorByteAt(r, base + k, key[k % 4]);
      k := k + 1;
    }
  }

  /**
   * XORs the key into `length` bytes of the store from the aligned-or-not
   * address `base`, head/words/tail as the source does; the same loop body
   * serves `_mask` (after its copy) and `_unmask`.
   */
  method XorRegion(mem: seq<byte>, base: nat, length: nat, key: Key, host: Endian) returns (r: seq<byte>)
    requires base + length <= |mem| && length < 0x8000_0000
    ensures Masked(r, mem, base, length, key)
  {
    var i;
    r, i := XorHead(mem, base, length, key);
    if i < length {
      r, i := XorWords(r, mem, base, i, length, key, host);
    }
    r := XorTail(r, mem, base, i, length, key);
  }

  /**
   * `_mask`: the first `length` bytes of `source` masked into the output
   * view from `offset` on; the rest of the buffer is unchanged. `same` says
   * the source is the output view itself.
   */
  method Mask(source: seq<byte>, key: Key, mem: seq<byte>, view: nat, viewLen: nat, offset: nat, length: nat,
              same: bool, host: Endian) returns (r: seq<byte>)
    requires view + viewLen <= |mem| && offset + length <= viewLen && length <= |source|
    requires same ==> source == mem[view..view + viewLen]
    requires length < 0x8000_0000
    ensures r == Place(mem, view + offset, Oracle.Mask(source[..length], key))
  {
    var src := source[..length];
    var placed := mem;
    if !same || offset != 0 {
      placed := Place(mem, view + offset, if |source| == length then source else src);
    } else {
      PlaceOwn(mem, view, length);
      assert mem[view..view + length] == src;
    }
    assert placed == Place(mem, view + offset, src);
    var byteOffset := view + offset;
    r := XorRegion(placed, byteOffset, length, key, host);
    assert r == Place(mem, byteOffset, Oracle.Mask(src, key)) by {
      MaskedPlaced(r, mem, byteOffset, src, key);
    }
  }

  /** `_unmask`: the buffer view masked in place; the rest of the buffer is unchanged. */
  method Unmask(mem: seq<byte>, view: nat, length: nat, key: Key, host: Endian) returns (r: seq<byte>)
    requires view + length <= |mem| && length < 0x8000_0000
    ensures r == Place(mem, view, Oracle.Mask(mem[view..view + length], key))
  {
    r := XorRegion(mem, view, length, key, host);
    MaskedFinal(r, mem, view, length, key);
  }
}
