/**
 * `collections/zero-pool.js`: copy, then XOR in place in four pieces — the
 * bytes up to the next aligned address, whole words through an `Int32Array`,
 * the bytes of the word the head left over, and the bytes after the last
 * whole word.
 *
 * The key word is chosen by a `switch` on the residue `b` of the start
 * address, so it is laid out as the key at phase `b`; but the first word
 * starts at region position `4 - b`, whose phase is `(4 - b) mod 4`. For
 * `b` = 1 or 3 the word bytes get the wrong key bytes. `Mask`/`Unmask` model
 * the code as written, `MaskCorrected`/`UnmaskCorrected` pack the key for
 * phase `(4 - b) mod 4`.
 */
module ZeroPool {
  import opened Bytes
  import opened Oracle
  import opened Memory

  /** Region position of the first word for an address residue `b`: the end of the head. */
  function WordStart(b: nat): nat
    requires b < 4
  {
    if b == 0 then 0 else 4 - b
  }

  /**
   * Four consecutive pieces ending at `h`, `w`, `fl` and the end: masked
   * from phase 0, from phase `rot`, and from their own positions.
   */
  function Parts(src: seq<byte>, key: Key, h: nat, w: nat, fl: nat, rot: nat): (r: seq<byte>)
    requires h <= w <= fl <= |src|
    ensures |r| == |src|
  {
    MaskFrom(src[0..h], key, 0) + MaskFrom(src[h..w], key, rot) + MaskFrom(src[w..fl], key, w)
      + MaskFrom(src[fl..|src|], key, fl)
  }

  /**
   * The pieces in the order the source XORs them: the head up to the first
   * aligned address, the words with the key word packed for phase `rot`,
   * the leftover bytes of the last word the head cut into, and the bytes
   * after the last whole word. A short unaligned region is one piece.
   */
  function Pieces(src: seq<byte>, key: Key, b: nat, rot: nat): (r: seq<byte>)
    requires b < 4
    ensures |r| == |src|
  {
    if b != 0 && |src| < 4 then MaskFrom(src[0..|src|], key, 0)
    else Parts(src, key, WordStart(b), |src| - |src| % 4 - b, |src| - |src| % 4, rot)
  }

  /**
   * What the source leaves in the region: the word part, from `WordStart(b)`
   * to `b` bytes before the end of the last whole word, is masked as if it
   * began at phase `b` rather than at its own position.
   */
  function Effect(src: seq<byte>, key: Key, b: nat): (r: seq<byte>)
    requires b < 4
    ensures |r| == |src|
  {
    Pieces(src, key, b, b)
  }

  /** With the words packed for their own phase, the four parts are the rule's output. */
  lemma PartsCorrected(src: seq<byte>, key: Key, h: nat, w: nat, fl: nat)
    requires h <= w <= fl <= |src|
    ensures Parts(src, key, h, w, fl, h) == Oracle.Mask(src, key)
  {
    var n := |src|;
    MaskFromSplit(src, 0, h, n, key);
    MaskFromSplit(src, h, w, n, key);
    MaskFromSplit(src, w, fl, n, key);
    assert src[0..n] == src;
  }

  /** With the key word packed for the phase of the first word, the pieces are the rule's output. */
  lemma PiecesCorrected(src: seq<byte>, key: Key, b: nat)
    requires b < 4
    ensures Pieces(src, key, b, WordStart(b)) == Oracle.Mask(src, key)
  {
    var n := |src|;
    if b != 0 && n < 4 {
      assert src[0..n] == src;
    } else {
      var h, w, fl := WordStart(b), n - n % 4 - b, n - n % 4;
      assert Pieces(src, key, b, h) == Parts(src, key, h, w, fl, h);
      assert Parts(src, key, h, w, fl, h) == Oracle.Mask(src, key) by {
        PartsCorrected(src, key, h, w, fl);
      }
    }
  }

  /** Equal outer parts: two four-part sequences are equal exactly when their second parts are. */
  lemma SecondDecides(a: seq<byte>, x: seq<byte>, y: seq<byte>, c: seq<byte>, d: seq<byte>)
    requires |x| == |y|
    ensures a + x + c + d == a + y + c + d <==> x == y
  {
    if a + x + c + d == a + y + c + d {
      assert x == (a + x + c + d)[|a|..|a| + |x|];
      assert y == (a + y + c + d)[|a|..|a| + |y|];
    }
  }

  /** Parts that differ only in the phase of the words are equal exactly when the word parts are. */
  lemma PartsDecide(src: seq<byte>, key: Key, h: nat, w: nat, fl: nat, p: nat, q: nat)
    requires h <= w <= fl <= |src|
    ensures Parts(src, key, h, w, fl, p) == Parts(src, key, h, w, fl, q)
        <==> MaskFrom(src[h..w], key, p) == MaskFrom(src[h..w], key, q)
  {
    SecondDecides(MaskFrom(src[0..h], key, 0), MaskFrom(src[h..w], key, p), MaskFrom(src[h..w], key, q),
                  MaskFrom(src[w..fl], key, w), MaskFrom(src[fl..|src|], key, fl));
  }

  /**
   * The word part masked from phase `b` against its own phase `WordStart(b)`:
   * the same for even `b`, and for odd `b` exactly when it is empty or the key
   * has period 2.
   */
  lemma WordPhases(s: seq<byte>, key: Key, b: nat)
    requires b < 4 && (|s| == 0 || |s| >= 2)
    ensures MaskFrom(s, key, b) == MaskFrom(s, key, WordStart(b))
        <==> (b % 2 == 0 || |s| == 0 || (key[0] == key[2] && key[1] == key[3]))
  {
    if b % 2 == 1 {
      if |s| == 0 {
        assert MaskFrom(s, key, b) == [];
        assert MaskFrom(s, key, WordStart(b)) == [];
      } else {
        MaskFromHalfTurn(s, key, 1);
      }
    }
  }

  /**
   * The source masks correctly exactly when the start address residue is
   * even, the region is too short to hold a word after the head, or the key
   * repeats with period 2.
   */
  lemma EffectIsMaskIff(src: seq<byte>, key: Key, b: nat)
    requires b < 4
    ensures Effect(src, key, b) == Oracle.Mask(src, key)
        <==> (b % 2 == 0 || |src| < 8 || (key[0] == key[2] && key[1] == key[3]))
  {
    var n := |src|;
    if b != 0 && n < 4 {
      assert src[0..n] == src;
    } else {
      var h, w, fl := WordStart(b), n - n % 4 - b, n - n % 4;
      assert Effect(src, key, b) == Parts(src, key, h, w, fl, b);
      assert Oracle.Mask(src, key) == Parts(src, key, h, w, fl, h) by {
        PartsCorrected(src, key, h, w, fl);
      }
      PartsDecide(src, key, h, w, fl, b, h);
      WordPhases(src[h..w], key, b);
      assert b % 2 == 1 ==> (|src[h..w]| == 0 <==> n < 8);
    }
  }

  /**
   * A concrete input: eight zero bytes at an address with residue 1 and the
   * key 1, 2, 3, 4; byte 3 is the first word byte, and it gets 2 instead of 4.
   */
  lemma EffectCounterexample()
    ensures Effect(seq(8, _ => 0 as byte), Quad(1, 2, 3, 4), 1)[3] == 2
    ensures Oracle.Mask(seq(8, _ => 0 as byte), Quad(1, 2, 3, 4))[3] == 4
  {
    var src := seq(8, _ => 0 as byte);
    var a, c := MaskFrom(src[0..3], Quad(1, 2, 3, 4), 0), MaskFrom(src[3..7], Quad(1, 2, 3, 4), 1);
    var d, e := MaskFrom(src[7..8], Quad(1, 2, 3, 4), 7), MaskFrom(src[8..8], Quad(1, 2, 3, 4), 8);
    assert Effect(src, Quad(1, 2, 3, 4), 1) == a + c + d + e;
    assert (a + c + d + e)[3] == c[0];
  }

  /**
   * The head, the words, the leftover bytes and the tail, as `_mask` and
   * `_unmask` both run them after any copy; `rot` is the phase the key word
   * is packed for.
   */
  method XorPieces(r0: seq<byte>, ghost m0: seq<byte>, base: nat, ghost src: seq<byte>, length: nat, key: Key,
                   host: Endian, rot: nat)
    returns (r: seq<byte>)
    requires Progress(r0, m0, base, [], src) && |src| == length && length < 0x8000_0000 && rot < 4
    ensures r == Place(m0, base, Pieces(src, key, base % 4, rot))
  {
    var b := base % 4;
    ghost var done: seq<byte>;
    if b != 0 && length < 4 {
      r, done := PieceBytes(r0, m0, base, [], src, 0, length, key);
      assert done == Pieces(src, key, b, rot);
    } else {
      r, done := XorAlignedPieces(r0, m0, base, src, length, key, host, rot);
      assert done == Pieces(src, key, b, rot);
    }
    ProgressDone(r, m0, base, done, src);
  }

  /** The four pieces of a region that is aligned or at least four bytes long. */
  method XorAlignedPieces(r0: seq<byte>, ghost m0: seq<byte>, base: nat, ghost src: seq<byte>, length: nat,
                          key: Key, host: Endian, rot: nat)
    returns (r: seq<byte>, ghost done: seq<byte>)
    requires Progress(r0, m0, base, [], src) && |src| == length && length < 0x8000_0000 && rot < 4
    requires base % 4 == 0 || length >= 4
    ensures Progress(r, m0, base, done, src)
    ensures done == Parts(src, key, WordStart(base % 4), length - length % 4 - base % 4, length - length % 4, rot)
  {
    ghost var front, back;
    r, front := XorHeadAndWords(r0, m0, base, src, length, key, host, rot);
    r, back := XorLeftoverAndTail(r, m0, base, front, src, length, key);
    done := front + back;
  }

  /** The head up to the first aligned address, then the words. */
  method XorHeadAndWords(r0: seq<byte>, ghost m0: seq<byte>, base: nat, ghost src: seq<byte>, length: nat,
                         key: Key, host: Endian, rot: nat)
    returns (r: seq<byte>, ghost done: seq<byte>)
    requires Progress(r0, m0, base, [], src) && |src| == length && length < 0x8000_0000 && rot < 4
    requires base % 4 == 0 || length >= 4
    ensures Progress(r, m0, base, done, src)
    ensures done == MaskFrom(src[0..WordStart(base % 4)], key, 0)
                    + MaskFrom(src[WordStart(base % 4)..length - length % 4 - base % 4], key, rot)
  {
    var b := base % 4;
    var h := 0;
    if b != 0 {
      h := 4 - b;
      r, done := PieceBytes(r0, m0, base, [], src, 0, h, key);
    } else {
      r := r0;
      done := PieceSkip(r, m0, base, [], src, 0, key, 0);
    }
    ghost var head := done;
    assert head == MaskFrom(src[0..h], key, 0);
    var fixedLength := length - length % 4;
    var int32Length := fixedLength / 4;
    var int32FixedLength := if b != 0 then int32Length - 1 else int32Length;
    var maskKey := HeadKey(host, key, rot);
    HeadKeyLayout(host, key, rot);
    r, done := PieceWords(r, m0, base, done, src, h, int32FixedLength, fixedLength - b, key, rot, maskKey, host);
  }

  /** The leftover bytes of the last word the head cut into, then the bytes after the last whole word. */
  method XorLeftoverAndTail(r0: seq<byte>, ghost m0: seq<byte>, base: nat, ghost done0: seq<byte>,
                            ghost src: seq<byte>, length: nat, key: Key)
    returns (r: seq<byte>, ghost more: seq<byte>)
    requires Progress(r0, m0, base, done0, src) && |src| == length
    requires base % 4 == 0 || length >= 4
    requires |done0| == length - length % 4 - base % 4
    ensures Progress(r, m0, base, done0 + more, src)
    ensures more == MaskFrom(src[length - length % 4 - base % 4..length - length % 4], key, length - length % 4 - base % 4)
                    + MaskFrom(src[length - length % 4..length], key, length - length % 4)
  {
    var b := base % 4;
    var fixedLength := length - length % 4;
    var int32Length := fixedLength / 4;
    var int32FixedLength := if b != 0 then int32Length - 1 else int32Length;
    ghost var done := done0;
    if int32Length != int32FixedLength {
      r, done := PieceBytes(r0, m0, base, done, src, fixedLength - b, fixedLength, key);
    } else {
      r := r0;
      done := PieceSkip(r, m0, base, done, src, fixedLength, key, fixedLength - b);
    }
    ghost var leftover := done;
    if length != fixedLength {
      r, done := PieceBytes(r, m0, base, done, src, fixedLength, length, key);
    } else {
      done := PieceSkip(r, m0, base, done, src, fixedLength, key, fixedLength);
    }
    more := MaskFrom(src[fixedLength - b..fixedLength], key, fixedLength - b)
            + MaskFrom(src[fixedLength..length], key, fixedLength);
    assert done == done0 + more;
  }

  /**
   * `_mask` as written: the first `length` bytes of `source` copied into the
   * output view from `offset` on and XORed there; the region ends up holding
   * `Effect`, the rest of the buffer is unchanged.
   */
  method Mask(source: seq<byte>, key: Key, mem: seq<byte>, view: nat, viewLen: nat, offset: nat, length: nat,
              host: Endian) returns (r: seq<byte>)
    requires view + viewLen <= |mem| && offset + length <= viewLen && length <= |source|
    requires length < 0x8000_0000
    ensures r == Place(mem, view + offset, Effect(source[..length], key, (view + offset) % 4))
  {
    var src := if |source| == length then source else source[..length];
    assert src == source[..length];
    var byteOffset := view + offset;
    ProgressStart(mem, byteOffset, src);
    r := XorPieces(Place(mem, byteOffset, src), mem, byteOffset, src, length, key, host, byteOffset % 4);
  }

  /** `_unmask` as written: the buffer view XORed in place; it ends up holding `Effect`. */
  method Unmask(mem: seq<byte>, view: nat, length: nat, key: Key, host: Endian) returns (r: seq<byte>)
    requires view + length <= |mem| && length < 0x8000_0000
    ensures r == Place(mem, view, Effect(mem[view..view + length], key, view % 4))
  {
    ProgressInPlace(mem, view, length);
    r := XorPieces(mem, mem, view, mem[view..view + length], length, key, host, view % 4);
  }

  /** `_mask` with the key word packed for the phase of the first word: the rule's output. */
  method MaskCorrected(source: seq<byte>, key: Key, mem: seq<byte>, view: nat, viewLen: nat, offset: nat,
                       length: nat, host: Endian) returns (r: seq<byte>)
    requires view + viewLen <= |mem| && offset + length <= viewLen && length <= |source|
    requires length < 0x8000_0000
    ensures r == Place(mem, view + offset, Oracle.Mask(source[..length], key))
  {
    var src := if |source| == length then source else source[..length];
    assert src == source[..length];
    var byteOffset := view + offset;
    ProgressStart(mem, byteOffset, src);
    r := XorPieces(Place(mem, byteOffset, src), mem, byteOffset, src, length, key, host, WordStart(byteOffset % 4));
    PiecesCorrected(src, key, byteOffset % 4);
  }

  /** `_unmask` with the key word packed for the phase of the first word: the rule's output. */
  method UnmaskCorrected(mem: seq<byte>, view: nat, length: nat, key: Key, host: Endian) returns (r: seq<byte>)
    requires view + length <= |mem| && length < 0x8000_0000
    ensures r == Place(mem, view, Oracle.Mask(mem[view..view + length], key))
  {
    ProgressInPlace(mem, view, length);
    r := XorPieces(mem, mem, view, mem[view..view + length], length, key, host, WordStart(view % 4));
    PiecesCorrected(mem[view..view + length], key, view % 4);
  }
}
