/**
 * `collections/legacy/dataview.js`: word-at-a-time masking through a
 * `DataView`. `_mask` reads a 32-bit word of `source` with
 * `getInt32(i, littleEndian)`, XORs the host-order key word `int32(mask)`
 * and writes it to `output` with `setInt32(i, ..., littleEndian)` for
 * `i < length >> 2`, then XORs the bytes from `(length >> 2) << 2` on with
 * `mask[i]`; `_unmask` does the same in place.
 *
 * As written, `i` is used as a byte offset, not as a word index, so the
 * words overlap and the bytes past `(length >> 2) + 3` are never reached
 * by the word loop; and `mask[i]` past the fourth byte is `undefined`,
 * which `^` reads as 0. The result is the rule of section 5.3 of RFC 6455
 * exactly when the payload has at most four bytes. `MaskCorrected` and
 * `UnmaskCorrected` use the byte offset `4 * i` and `mask[i & 3]`.
 */
module Dataview {
  import opened Bytes
  import opened Oracle
  import opened Memory

  /** `mask[i]` of the four-byte key: past the end it is `undefined`, which `^` reads as 0. */
  function KeyAt(key: Key, i: nat): byte
  {
    if i < 4 then key[i] else 0
  }

  // ---------------------------------------------------------------------
  // `_mask` as written

  /**
   * The word loop of `_mask` from iteration `i` on: iteration `i` stores the
   * four `source` bytes from `i` on, XORed with the key word's layout, at
   * `at + i`. Bytes outside `[at + i, at + n + 3)` keep their value.
   */
  function MaskWords(src: seq<byte>, o: seq<byte>, at: nat, w: bv32, host: Endian, i: nat, n: nat): (r: seq<byte>)
    requires i <= n && (i < n ==> n + 3 <= |src| && at + n + 3 <= |o|)
    ensures |r| == |o|
    ensures forall p :: 0 <= p < |o| && (p < at + i || at + n + 3 <= p) ==> r[p] == o[p]
    decreases n - i
  {
    if i == n then o
    else MaskWords(src, Place(o, at + i, XorCell32(src[i..i + 4], w, host)), at, w, host, i + 1, n)
  }

  /** The byte loop of `_mask` from `i` on: `output[i + offset] = source[i] ^ mask[i]`. */
  function MaskTail(src: seq<byte>, o: seq<byte>, at: nat, key: Key, i: nat, length: nat): (r: seq<byte>)
    requires i <= length <= |src| && at + length <= |o|
    ensures |r| == |o|
    ensures forall p :: 0 <= p < |o| && (p < at + i || at + length <= p) ==> r[p] == o[p]
    ensures forall j :: i <= j < length ==> r[at + j] == src[j] ^ KeyAt(key, j)
    decreases length - i
  {
    if i == length then o
    else MaskTail(src, o[at + i := src[i] ^ KeyAt(key, i)], at, key, i + 1, length)
  }

  /**
   * The word loop of `_mask` when `source` is the output view itself:
   * iteration `i` reads the four bytes from `src + i` as they stand, after
   * the earlier stores, and stores them XORed with the key word's layout at
   * `at + i`.
   */
  function AliasWords(o: seq<byte>, src: nat, at: nat, w: bv32, host: Endian, i: nat, n: nat): (r: seq<byte>)
    requires i <= n && (i < n ==> src + n + 3 <= |o| && at + n + 3 <= |o|)
    ensures |r| == |o|
    ensures forall p :: 0 <= p < |o| && (p < at + i || at + n + 3 <= p) ==> r[p] == o[p]
    decreases n - i
  {
    if i == n then o
    else AliasWords(Place(o, at + i, XorCell32(o[src + i..src + i + 4], w, host)), src, at, w, host, i + 1, n)
  }

  /** The byte loop of `_mask` when `source` is the output view: `source[i]` read as it stands. */
  function AliasTail(o: seq<byte>, src: nat, at: nat, key: Key, i: nat, length: nat): (r: seq<byte>)
    requires i <= length && src + length <= |o| && at + length <= |o|
    ensures |r| == |o|
    ensures forall p :: 0 <= p < |o| && (p < at + i || at + length <= p) ==> r[p] == o[p]
    decreases length - i
  {
    if i == length then o
    else AliasTail(o[at + i := o[src + i] ^ KeyAt(key, i)], src, at, key, i + 1, length)
  }

  /**
   * Both loops of `_mask` with `source` the output view: the payload at
   * `src`, the output window at `at`. In place it is `_unmask`; up to four
   * bytes it is the rule when the output is in place, lies past the
   * payload, or takes the payload in one word.
   */
  function AliasMask(mem: seq<byte>, src: nat, at: nat, length: nat, key: Key, host: Endian): (r: seq<byte>)
    requires src + length <= |mem| && at + length <= |mem|
    ensures |r| == |mem|
    ensures at == src ==> r == Unmask(mem, src, length, key, host)
    ensures length <= 4 && (at == src || src + length <= at || length == 4) ==>
              r == Place(mem, at, Oracle.Mask(mem[src..src + length], key))
  {
    var n := length / 4;
    assert n > 0 ==> n + 3 <= length;
    var r := AliasTail(AliasWords(mem, src, at, KeyWord(host, key), host, 0, n), src, at, key, 4 * n, length);
    if at == src then AliasInPlace(mem, src, length, key, host); r
    else if length == 4 then AliasOneWord(mem, src, at, key, host); r
    else if length < 4 && src + length <= at then AliasApartShort(mem, src, at, length, key); r
    else r
  }

  /**
   * `_mask(source, mask, output, offset, length)` as written, with the output
   * window at `view` in `mem`; `same` says `source` is that very view, so
   * the loops read what the earlier iterations stored. On a payload of at
   * most four bytes it is the rule's output at the window's `offset`,
   * unless the output overlaps the source a few bytes further on; called
   * in place it is `_unmask`.
   */
  function Mask(source: seq<byte>, key: Key, mem: seq<byte>, view: nat, viewLen: nat, offset: nat, length: nat,
                same: bool, host: Endian): (r: seq<byte>)
    requires view + viewLen <= |mem| && offset + length <= viewLen && length <= |source|
    requires same ==> source == mem[view..view + viewLen]
    ensures |r| == |mem|
    ensures length <= 4 && (!same || offset == 0 || length <= offset || length == 4) ==>
              r == Place(mem, view + offset, Oracle.Mask(source[..length], key))
    ensures same && offset == 0 ==> r == Unmask(mem, view, length, key, host)
  {
    if same then MaskOwn(source, key, mem, view, viewLen, offset, length, host)
    else MaskApart(source, key, mem, view + offset, length, host)
  }

  /** `_mask` with `source` the output view itself. */
  function MaskOwn(source: seq<byte>, key: Key, mem: seq<byte>, view: nat, viewLen: nat, offset: nat, length: nat,
                   host: Endian): (r: seq<byte>)
    requires view + viewLen <= |mem| && offset + length <= viewLen && source == mem[view..view + viewLen]
    ensures |r| == |mem|
    ensures length <= 4 && (offset == 0 || length <= offset || length == 4) ==>
              r == Place(mem, view + offset, Oracle.Mask(source[..length], key))
    ensures offset == 0 ==> r == Unmask(mem, view, length, key, host)
  {
    ViewPrefix(source, mem, view, viewLen, length);
    AliasMask(mem, view, view + offset, length, key, host)
  }

  /** The first `length` bytes of a view are the bytes from the view's start. */
  lemma ViewPrefix(source: seq<byte>, mem: seq<byte>, view: nat, viewLen: nat, length: nat)
    requires view + viewLen <= |mem| && length <= viewLen && source == mem[view..view + viewLen]
    ensures source[..length] == mem[view..view + length]
  {
  }

  /** Both loops of `_mask` with `source` a buffer of its own: up to four bytes, the rule at `at`. */
  function MaskApart(source: seq<byte>, key: Key, mem: seq<byte>, at: nat, length: nat, host: Endian): (r: seq<byte>)
    requires length <= |source| && at + length <= |mem|
    ensures |r| == |mem|
    ensures length <= 4 ==> r == Place(mem, at, Oracle.Mask(source[..length], key))
  {
    var n := length / 4;
    var r := MaskTail(source, MaskWords(source, mem, at, KeyWord(host, key), host, 0, n), at, key, 4 * n, length);
    if length <= 4 then MaskUpToFour(source, key, mem, at, length, host); r else r
  }

  /** Called in place, `_mask` runs the loops of `_unmask`. */
  lemma AliasInPlace(mem: seq<byte>, view: nat, length: nat, key: Key, host: Endian)
    requires view + length <= |mem|
    ensures AliasTail(AliasWords(mem, view, view, KeyWord(host, key), host, 0, length / 4), view, view, key,
                      4 * (length / 4), length)
            == Unmask(mem, view, length, key, host)
  {
    var n, w := length / 4, KeyWord(host, key);
    assert n > 0 ==> n + 3 <= length;
    AliasWordsInPlace(mem, view, w, host, 0, n);
    AliasTailInPlace(AliasWords(mem, view, view, w, host, 0, n), view, key, 4 * n, length);
  }

  /** Four bytes over its own view: one word read before it is stored, so the rule. */
  lemma AliasOneWord(mem: seq<byte>, src: nat, at: nat, key: Key, host: Endian)
    requires src + 4 <= |mem| && at + 4 <= |mem|
    ensures AliasTail(AliasWords(mem, src, at, KeyWord(host, key), host, 0, 1), src, at, key, 4, 4)
            == Place(mem, at, Oracle.Mask(mem[src..src + 4], key))
  {
    var w := KeyWord(host, key);
    var cell := XorCell32(mem[src..src + 4], w, host);
    WordCell(mem[src..src + 4], key, host);
    assert AliasWords(mem, src, at, w, host, 0, 1) == AliasWords(Place(mem, at, cell), src, at, w, host, 1, 1);
  }

  /** Fewer than four bytes stored past the payload: the byte loop reads them untouched, so the rule. */
  lemma AliasApartShort(mem: seq<byte>, src: nat, at: nat, length: nat, key: Key)
    requires length < 4 && src + length <= at && at + length <= |mem|
    ensures AliasTail(mem, src, at, key, 0, length) == Place(mem, at, Oracle.Mask(mem[src..src + length], key))
  {
    var s := mem[src..src + length];
    AliasTailApart(mem, s, src, at, key, 0, length);
    MaskTailShort(s, key, mem, at, length);
    assert s[..length] == s;
  }

  /** In place, the aliased word loop is the word loop of `_unmask`. */
  lemma {:induction false} AliasWordsInPlace(o: seq<byte>, at: nat, w: bv32, host: Endian, i: nat, n: nat)
    requires i <= n && (i < n ==> at + n + 3 <= |o|)
    ensures AliasWords(o, at, at, w, host, i, n) == UnmaskWords(o, at, w, host, i, n)
    decreases n - i
  {
    if i < n {
      AliasWordsInPlace(Place(o, at + i, XorCell32(o[at + i..at + i + 4], w, host)), at, w, host, i + 1, n);
    }
  }

  /** In place, the aliased byte loop is the byte loop of `_unmask`. */
  lemma {:induction false} AliasTailInPlace(o: seq<byte>, at: nat, key: Key, i: nat, length: nat)
    requires i <= length && at + length <= |o|
    ensures AliasTail(o, at, at, key, i, length) == UnmaskTail(o, at, key, i, length)
    decreases length - i
  {
    if i < length {
      AliasTailInPlace(o[at + i := o[at + i] ^ KeyAt(key, i)], at, key, i + 1, length);
    }
  }

  /** With the output past the payload, the aliased byte loop reads the bytes as they were. */
  lemma {:induction false} AliasTailApart(o: seq<byte>, s: seq<byte>, src: nat, at: nat, key: Key, i: nat, length: nat)
    requires i <= length == |s| && src + length <= at && at + length <= |o|
    requires forall q :: 0 <= q < length ==> s[q] == o[src + q]
    ensures AliasTail(o, src, at, key, i, length) == MaskTail(s, o, at, key, i, length)
    decreases length - i
  {
    if i < length {
      var o' := o[at + i := o[src + i] ^ KeyAt(key, i)];
      assert o' == o[at + i := s[i] ^ KeyAt(key, i)];
      AliasTailApart(o', s, src, at, key, i + 1, length);
    }
  }


  /** At most four bytes: either the byte loop alone with `mask[0..3]`, or one word. */
  lemma MaskUpToFour(source: seq<byte>, key: Key, mem: seq<byte>, at: nat, length: nat, host: Endian)
    requires length <= 4 && length <= |source| && at + length <= |mem|
    ensures MaskTail(source, MaskWords(source, mem, at, KeyWord(host, key), host, 0, length / 4), at, key,
                     4 * (length / 4), length)
            == Place(mem, at, Oracle.Mask(source[..length], key))
  {
    var w := KeyWord(host, key);
    if length == 4 {
      var cell := XorCell32(source[0..4], w, host);
      WordCell(source[0..4], key, host);
      assert source[0..4] == source[..4];
      assert MaskWords(source, mem, at, w, host, 0, 1) == MaskWords(source, Place(mem, at, cell), at, w, host, 1, 1);
    } else {
      MaskTailShort(source, key, mem, at, length);
    }
  }

  /** Below four bytes the byte loop alone reads `mask[0..3]`: the rule's output placed at `at`. */
  lemma MaskTailShort(source: seq<byte>, key: Key, mem: seq<byte>, at: nat, length: nat)
    requires length < 4 && length <= |source| && at + length <= |mem|
    ensures MaskTail(source, mem, at, key, 0, length) == Place(mem, at, Oracle.Mask(source[..length], key))
  {
    var r := MaskTail(source, mem, at, key, 0, length);
    var m := Oracle.Mask(source[..length], key);
    var rule := Place(mem, at, m);
    PlaceAt(mem, at, m);
    forall p | 0 <= p < |mem| ensures r[p] == rule[p] {
      if at <= p < at + length {
        var j := p - at;
        assert j % 4 == j && KeyAt(key, j) == key[j];
        assert m[j] == source[j] ^ key[j];
        assert r[at + j] == source[j] ^ KeyAt(key, j);
      }
    }
  }

  /** One `getInt32`/`setInt32` round trip with the key word XORs the key into the four bytes. */
  lemma WordCell(cell: seq<byte>, key: Key, host: Endian)
    requires |cell| == 4
    ensures XorCell32(cell, KeyWord(host, key), host) == Oracle.Mask(cell, key)
  {
    var r := XorCell32(cell, KeyWord(host, key), host);
    assert r == XorBytes(cell, key);
    var m := Oracle.Mask(cell, key);
    forall j | 0 <= j < 4 ensures r[j] == m[j] {
      assert j % 4 == j;
    }
  }

  /** Bytes that are all zero. */
  function Zeros(n: nat): (z: seq<byte>)
    ensures |z| == n && forall i :: 0 <= i < n ==> z[i] == 0
  {
    seq(n, _ => 0)
  }

  /** The key 1, 1, 1, 1: every byte of the rule's output of zeros is 1. */
  function Ones(): Key
  {
    Quad(1, 1, 1, 1)
  }

  /**
   * From five bytes on, `_mask` of zeros with the key 1, 1, 1, 1 differs
   * from the rule: a byte the word loop never reaches keeps its 0 (byte
   * `(length >> 2) + 3`), or, with one word only, the byte loop XORs byte 4
   * with `mask[4]`, which is `undefined`.
   */
  lemma MaskWrongFromFive(length: nat, host: Endian)
    requires length >= 5
    ensures Mask(Zeros(length), Ones(), Zeros(length), 0, length, 0, length, false, host)
            != Place(Zeros(length), 0, Oracle.Mask(Zeros(length), Ones()))
  {
    var z := Zeros(length);
    var n := length / 4;
    var words := MaskWords(z, z, 0, KeyWord(host, Ones()), host, 0, n);
    var r := MaskTail(z, words, 0, Ones(), 4 * n, length);
    assert r == Mask(z, Ones(), z, 0, length, 0, length, false, host);
    PlaceWhole(z, Oracle.Mask(z, Ones()));
    assert z[..length] == z;
    var p := if n == 1 then 4 else n + 3;
    if n == 1 {
      assert r[0 + 4] == z[4] ^ KeyAt(Ones(), 4);
    } else {
      assert words[p] == z[p];
      assert r[p] == words[p];
    }
    assert Oracle.Mask(z, Ones())[p] == 1;
  }

  // ---------------------------------------------------------------------
  // `_unmask` as written

  /**
   * The word loop of `_unmask` from iteration `i` on: iteration `i` XORs the
   * key word's layout into the four bytes from `at + i` on, as they stand.
   * Bytes outside `[at + i, at + n + 3)` keep their value.
   */
  function UnmaskWords(m: seq<byte>, at: nat, w: bv32, host: Endian, i: nat, n: nat): (r: seq<byte>)
    requires i <= n && (i < n ==> at + n + 3 <= |m|)
    ensures |r| == |m|
    ensures forall p :: 0 <= p < |m| && (p < at + i || at + n + 3 <= p) ==> r[p] == m[p]
    decreases n - i
  {
    if i == n then m
    else UnmaskWords(Place(m, at + i, XorCell32(m[at + i..at + i + 4], w, host)), at, w, host, i + 1, n)
  }

  /** The byte loop of `_unmask` from `i` on: `buffer[i] ^= mask[i]`. */
  function UnmaskTail(m: seq<byte>, at: nat, key: Key, i: nat, length: nat): (r: seq<byte>)
    requires i <= length && at + length <= |m|
    ensures |r| == |m|
    ensures forall p :: 0 <= p < |m| && (p < at + i || at + length <= p) ==> r[p] == m[p]
    ensures forall j :: i <= j < length ==> r[at + j] == m[at + j] ^ KeyAt(key, j)
    decreases length - i
  {
    if i == length then m
    else
      var m' := m[at + i := m[at + i] ^ KeyAt(key, i)];
      var r := UnmaskTail(m', at, key, i + 1, length);
      assert r[at + i] == m'[at + i];
      r
  }

  /**
   * `_unmask(buffer, mask)` as written over the window at `view`. On a
   * buffer of at most four bytes it is the rule in place.
   */
  function Unmask(mem: seq<byte>, view: nat, viewLen: nat, key: Key, host: Endian): (r: seq<byte>)
    requires view + viewLen <= |mem|
    ensures |r| == |mem|
    ensures viewLen <= 4 ==> r == Place(mem, view, Oracle.Mask(mem[view..view + viewLen], key))
  {
    var n := viewLen / 4;
    var words := UnmaskWords(mem, view, KeyWord(host, key), host, 0, n);
    var r := UnmaskTail(words, view, key, 4 * n, viewLen);
    if viewLen <= 4 then UnmaskUpToFour(mem, view, viewLen, key, host); r else r
  }

  /** At most four bytes in place: the byte loop alone, or one word. */
  lemma UnmaskUpToFour(mem: seq<byte>, view: nat, length: nat, key: Key, host: Endian)
    requires length <= 4 && view + length <= |mem|
    ensures UnmaskTail(UnmaskWords(mem, view, KeyWord(host, key), host, 0, length / 4), view, key,
                       4 * (length / 4), length)
            == Place(mem, view, Oracle.Mask(mem[view..view + length], key))
  {
    var w := KeyWord(host, key);
    if length == 4 {
      var cell := XorCell32(mem[view..view + 4], w, host);
      WordCell(mem[view..view + 4], key, host);
      assert UnmaskWords(mem, view, w, host, 0, 1) == UnmaskWords(Place(mem, view, cell), view, w, host, 1, 1);
    } else {
      UnmaskTailShort(mem, view, length, key);
    }
  }

  /** Below four bytes the byte loop alone reads `mask[0..3]`: the rule in place. */
  lemma UnmaskTailShort(mem: seq<byte>, view: nat, length: nat, key: Key)
    requires length < 4 && view + length <= |mem|
    ensures UnmaskTail(mem, view, key, 0, length) == Place(mem, view, Oracle.Mask(mem[view..view + length], key))
  {
    var r := UnmaskTail(mem, view, key, 0, length);
    var src := mem[view..view + length];
    var m := Oracle.Mask(src, key);
    var rule := Place(mem, view, m);
    PlaceAt(mem, view, m);
    forall p | view <= p < view + length ensures r[p] == rule[p] {
      var j := p - view;
      assert j % 4 == j && KeyAt(key, j) == key[j];
      assert src[j] == mem[view + j];
      assert r[view + j] == mem[view + j] ^ KeyAt(key, j);
    }
    assert forall p :: 0 <= p < |mem| ==> r[p] == rule[p];
  }

  /**
   * From five bytes on, `_unmask` of zeros with the key 1, 1, 1, 1 differs
   * from the rule: the first two overlapping words XOR byte 1 twice, back to
   * 0; with one word only, byte 4 is XORed with `undefined`.
   */
  lemma UnmaskWrongFromFive(length: nat, host: Endian)
    requires length >= 5
    ensures Unmask(Zeros(length), 0, length, Ones(), host) != Place(Zeros(length), 0, Oracle.Mask(Zeros(length), Ones()))
  {
    var z := Zeros(length);
    var n := length / 4;
    var w := KeyWord(host, Ones());
    var words := UnmaskWords(z, 0, w, host, 0, n);
    var r := UnmaskTail(words, 0, Ones(), 4 * n, length);
    assert r == Unmask(z, 0, length, Ones(), host);
    PlaceWhole(z, Oracle.Mask(z, Ones()));
    assert z[..length] == z;
    var p := if n == 1 then 4 else 1;
    if n == 1 {
      assert r[0 + 4] == words[4] ^ KeyAt(Ones(), 4);
    } else {
      var m2 := TwoWords(z, host, n);
      assert r[1] == words[1] == m2[1];
    }
    assert Oracle.Mask(z, Ones())[p] == 1;
  }

  /** The first two iterations of `_unmask`'s word loop over zeros with the key 1, 1, 1, 1: byte 1 is back to 0. */
  function TwoWords(z: seq<byte>, host: Endian, n: nat): (m2: seq<byte>)
    requires 2 <= n && n + 3 <= |z| && forall i :: 0 <= i < |z| ==> z[i] == 0
    ensures |m2| == |z| && m2[1] == 0
    ensures UnmaskWords(z, 0, KeyWord(host, Ones()), host, 0, n) == UnmaskWords(m2, 0, KeyWord(host, Ones()), host, 2, n)
  {
    var w := KeyWord(host, Ones());
    var m1 := UnmaskWordsStep(z, 0, w, host, 0, n);
    WordCell(z[0..4], Ones(), host);
    PlaceAt(z, 0, XorCell32(z[0..4], w, host));
    assert m1[1] == 1;
    var m2 := UnmaskWordsStep(m1, 0, w, host, 1, n);
    WordCell(m1[1..5], Ones(), host);
    PlaceAt(m1, 1, XorCell32(m1[1..5], w, host));
    assert m2[1] == m1[1] ^ 1;
    m2
  }

  /** One iteration of `_unmask`'s word loop: the store the rest of the loop starts from. */
  function UnmaskWordsStep(m: seq<byte>, at: nat, w: bv32, host: Endian, i: nat, n: nat): (r: seq<byte>)
    requires i < n && at + n + 3 <= |m|
    ensures r == Place(m, at + i, XorCell32(m[at + i..at + i + 4], w, host))
    ensures UnmaskWords(m, at, w, host, i, n) == UnmaskWords(r, at, w, host, i + 1, n)
  {
    Place(m, at + i, XorCell32(m[at + i..at + i + 4], w, host))
  }

  // ---------------------------------------------------------------------
  // Corrected: word `i` at byte offset `4 * i`, the byte loop with `mask[i & 3]`

  /** Storing a source word XORed with the key extends what is written by four bytes. */
  lemma WriteWord(m: seq<byte>, m0: seq<byte>, base: nat, src: seq<byte>, done: nat, key: Key, cell: seq<byte>)
    requires Written(m, m0, base, src, done, key) && done % 4 == 0 && done + 4 <= |src| && base + done + 4 <= |m|
    requires cell == XorBytes(src[done..done + 4], key)
    ensures Written(Place(m, base + done, cell), m0, base, src, done + 4, key)
  {
    PlaceAt(m, base + done, cell);
    forall q | done <= q < done + 4 ensures Place(m, base + done, cell)[base + q] == src[q] ^ key[q % 4] {
      assert (q - done) == q % 4;
    }
  }

  /** `_mask` with `setInt32(4 * i, ...)` and `mask[i & 3]`: the rule at the window's `offset`. */
  method MaskCorrected(source: seq<byte>, key: Key, mem: seq<byte>, view: nat, viewLen: nat, offset: nat,
                       length: nat, host: Endian) returns (r: seq<byte>)
    requires view + viewLen <= |mem| && offset + length <= viewLen && length <= |source|
    ensures r == Place(mem, view + offset, Oracle.Mask(source[..length], key))
  {
    var at, w, n := view + offset, KeyWord(host, key), length / 4;
    r := mem;
    var i := 0;
    while i < n
      invariant i <= n && Written(r, mem, at, source, 4 * i, key)
    {
      var cell := XorCell32(source[4 * i..4 * i + 4], w, host);
      WriteWord(r, mem, at, source, 4 * i, key, cell);
      r := Place(r, at + 4 * i, cell);
      i := i + 1;
    }
    var j := 4 * n;
    while j < length
      invariant 4 * n <= j <= length && Written(r, mem, at, source, j, key)
    {
      WriteByte(r, mem, at, source, j, key);
      r := r[at + j := source[j] ^ key[j % 4]];
      j := j + 1;
    }
    WrittenFinal(r, mem, at, source, length, key);
  }

  /** XORing the key word into an aligned word in place extends the masked region by four bytes. */
  lemma UnmaskWordStep(m: seq<byte>, m0: seq<byte>, base: nat, done: nat, key: Key, host: Endian)
    requires Masked(m, m0, base, done, key) && done % 4 == 0 && base + done + 4 <= |m|
    ensures Masked(Place(m, base + done, XorCell32(m[base + done..base + done + 4], KeyWord(host, key), host)),
                   m0, base, done + 4, key)
  {
    var at := base + done;
    var cell := m[at..at + 4];
    WordCell(cell, key, host);
    assert Oracle.Mask(cell, key) == XorBytes(cell, key);
    SpliceBlock(m, at, key);
    AlignedRotKey(key, done);
    StepXorBlock(m, m0, base, done, key, RotKey(key, done));
  }

  /** At an aligned position the key needs no rotation. */
  lemma AlignedRotKey(key: Key, done: nat)
    requires done % 4 == 0
    ensures RotKey(key, done) == key
  {
    var r := RotKey(key, done);
    forall j | 0 <= j < 4 ensures r[j] == key[j] {
      PhaseInQuad(done, j);
    }
  }

  /** `_unmask` with `setInt32(4 * i, ...)` and `mask[i & 3]`: the rule in place. */
  method UnmaskCorrected(mem: seq<byte>, view: nat, viewLen: nat, key: Key, host: Endian) returns (r: seq<byte>)
    requires view + viewLen <= |mem|
    ensures r == Place(mem, view, Oracle.Mask(mem[view..view + viewLen], key))
  {
    var w, n := KeyWord(host, key), viewLen / 4;
    r := mem;
    MaskedStart(mem, view, key);
    var i := 0;
    while i < n
      invariant i <= n && Masked(r, mem, view, 4 * i, key)
    {
      var at := view + 4 * i;
      UnmaskWordStep(r, mem, view, 4 * i, key, host);
      r := Place(r, at, XorCell32(r[at..at + 4], w, host));
      i := i + 1;
    }
    var j := 4 * n;
    while j < viewLen
      invariant 4 * n <= j <= viewLen && Masked(r, mem, view, j, key)
    {
      StepByte(r, mem, view, j, key);
      r := XorByteAt(r, view + j, key[j % 4]);
      j := j + 1;
    }
    MaskedFinal(r, mem, view, viewLen, key);
  }
}
