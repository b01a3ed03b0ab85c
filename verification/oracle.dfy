/**
 * The masking rule of section 5.3 of RFC 6455: octet i of the transformed
 * payload is octet i of the original XOR octet (i MOD 4) of the masking key.
 * Every implementation in this model is measured against `Mask`/`MaskFrom`.
 */
module Oracle {
  import opened Bytes

  /**
   * Masking of a payload piece whose first byte sits at stream position
   * `phase`: byte i is XORed with `key[(phase + i) mod 4]`.
   */
  function MaskFrom(src: seq<byte>, key: Key, phase: nat): (r: seq<byte>)
    ensures |r| == |src|
  {
    seq(|src|, i requires 0 <= i < |src| => src[i] ^ key[(phase + i) % 4])
  }

  /** The rule for a whole payload: `out[i] = src[i] ^ key[i mod 4]`. */
  function Mask(src: seq<byte>, key: Key): (r: seq<byte>)
    ensures |r| == |src|
  {
    MaskFrom(src, key, 0)
  }

  /** Masking twice with the same key and phase restores the payload. */
  lemma MaskFromInvolutive(src: seq<byte>, key: Key, phase: nat)
    ensures MaskFrom(MaskFrom(src, key, phase), key, phase) == src
  {
    var once := MaskFrom(src, key, phase);
    var twice := MaskFrom(once, key, phase);
    forall i | 0 <= i < |src| ensures twice[i] == src[i] {
      assert twice[i] == (src[i] ^ key[(phase + i) % 4]) ^ key[(phase + i) % 4];
    }
  }

  /** Unmasking is masking: `Mask` is an involution. */
  lemma MaskInvolutive(src: seq<byte>, key: Key)
    ensures Mask(Mask(src, key), key) == src
  {
    MaskFromInvolutive(src, key, 0);
  }

  /**
   * Masking a concatenation is masking the pieces, the second one starting at
   * the phase the first one ends in.
   */
  lemma MaskFromConcat(a: seq<byte>, b: seq<byte>, key: Key, phase: nat)
    ensures MaskFrom(a + b, key, phase) == MaskFrom(a, key, phase) + MaskFrom(b, key, phase + |a|)
  {
    var l := MaskFrom(a + b, key, phase);
    var r := MaskFrom(a, key, phase) + MaskFrom(b, key, phase + |a|);
    forall i | 0 <= i < |a + b| ensures l[i] == r[i] {
      if i >= |a| {
        assert (a + b)[i] == b[i - |a|];
        assert phase + |a| + (i - |a|) == phase + i;
      }
    }
  }

  /** Reducing either summand modulo 4 does not change the phase. */
  lemma PhaseShift(a: nat, b: nat)
    ensures (a + b % 4) % 4 == (a + b) % 4
  {
  }

  /** Whole words do not change the phase. */
  lemma PhasePeriod(x: nat, k: nat)
    ensures (x + 4 * k) % 4 == x % 4
  {
  }

  /** Only the phase modulo 4 matters. */
  lemma MaskFromPhaseMod(src: seq<byte>, key: Key, phase: nat)
    ensures MaskFrom(src, key, phase) == MaskFrom(src, key, phase % 4)
  {
    forall i | 0 <= i < |src| ensures MaskFrom(src, key, phase)[i] == MaskFrom(src, key, phase % 4)[i] {
      PhaseShift(i, phase);
    }
  }

  /** Masking from a phase is masking from phase 0 with the rotated key. */
  lemma MaskFromRotKey(src: seq<byte>, key: Key, phase: nat)
    ensures MaskFrom(src, key, phase) == Mask(src, RotKey(key, phase))
  {
    var rk := RotKey(key, phase);
    forall i | 0 <= i < |src| ensures MaskFrom(src, key, phase)[i] == Mask(src, rk)[i] {
      PhaseShift(phase, i);
      assert rk[i % 4] == key[(phase + i % 4) % 4];
    }
  }

  /**
   * The masked prefix up to a multiple of 4 followed by the masked next
   * chunk is the masked longer prefix.
   */
  lemma MaskChunkSplit(s: seq<byte>, so: nat, n: nat, key: Key)
    requires so % 4 == 0 && so + n <= |s|
    ensures Mask(s[..so + n], key) == Mask(s[..so], key) + Mask(s[so..so + n], key)
  {
    assert s[..so + n] == s[..so] + s[so..so + n];
    MaskFromConcat(s[..so], s[so..so + n], key, 0);
    MaskFromPhaseMod(s[so..so + n], key, so);
  }

  /** Masking a slice from its own position splits at any point in between. */
  lemma MaskFromSplit(s: seq<byte>, i: nat, j: nat, k: nat, key: Key)
    requires i <= j <= k <= |s|
    ensures MaskFrom(s[i..k], key, i) == MaskFrom(s[i..j], key, i) + MaskFrom(s[j..k], key, j)
  {
    assert s[i..k] == s[i..j] + s[j..k];
    MaskFromConcat(s[i..j], s[j..k], key, i);
  }

  /**
   * Masking from a phase two further on gives the same bytes exactly when the
   * key repeats with period 2 (for a piece of at least two bytes).
   */
  lemma MaskFromHalfTurn(s: seq<byte>, key: Key, p: nat)
    requires |s| >= 2
    ensures MaskFrom(s, key, p + 2) == MaskFrom(s, key, p) <==> key[0] == key[2] && key[1] == key[3]
  {
    if key[0] == key[2] && key[1] == key[3] {
      forall i | 0 <= i < |s| ensures MaskFrom(s, key, p + 2)[i] == MaskFrom(s, key, p)[i] {
        HalfTurnAt(key, p + i);
        assert p + 2 + i == (p + i) + 2;
      }
    } else if MaskFrom(s, key, p + 2) == MaskFrom(s, key, p) {
      assert MaskFrom(s, key, p + 2)[0] == MaskFrom(s, key, p)[0];
      assert MaskFrom(s, key, p + 2)[1] == MaskFrom(s, key, p)[1];
      HalfTurnBack(key, p);
      assert false;
    }
  }

  /** With a key of period 2, two phases further on is the same key byte. */
  lemma HalfTurnAt(key: Key, x: nat)
    requires key[0] == key[2] && key[1] == key[3]
    ensures key[(x + 2) % 4] == key[x % 4]
  {
  }

  /** Two neighbouring phases that agree with the phases two further on force period 2. */
  lemma HalfTurnBack(key: Key, p: nat)
    requires key[(p + 2) % 4] == key[p % 4] && key[(p + 3) % 4] == key[(p + 1) % 4]
    ensures key[0] == key[2] && key[1] == key[3]
  {
    var r := p % 4;
    PhaseShift(2, p);
    PhaseShift(3, p);
    PhaseShift(1, p);
    assert (2 + r) % 4 == (p + 2) % 4 && (3 + r) % 4 == (p + 3) % 4 && (1 + r) % 4 == (p + 1) % 4;
    if r == 0 {
    } else if r == 1 {
    } else if r == 2 {
    } else {
    }
  }

  /** The key bytes themselves from `phase` on: what a loop that assigns instead of XORing writes. */
  function KeyStream(key: Key, phase: nat, n: nat): (r: seq<byte>)
    ensures |r| == n
  {
    seq(n, j requires 0 <= j < n => key[(phase + j) % 4])
  }

  /** Assigning the key bytes agrees with masking exactly over zero bytes. */
  lemma MaskFromIsKeyStreamIff(s: seq<byte>, key: Key, phase: nat)
    ensures MaskFrom(s, key, phase) == KeyStream(key, phase, |s|) <==> forall i :: 0 <= i < |s| ==> s[i] == 0
  {
    if MaskFrom(s, key, phase) == KeyStream(key, phase, |s|) {
      forall i | 0 <= i < |s| ensures s[i] == 0 {
        assert MaskFrom(s, key, phase)[i] == KeyStream(key, phase, |s|)[i];
        assert s[i] ^ key[(phase + i) % 4] == key[(phase + i) % 4];
        XorCancel(s[i], key[(phase + i) % 4]);
      }
    }
  }

  /** `a ^ b == b` only for `a == 0`. */
  lemma XorCancel(a: byte, b: byte)
    requires a ^ b == b
    ensures a == 0
  {
    assert a == (a ^ b) ^ b;
  }

  /**
   * The effect of a word loop over the whole words of a region followed by
   * a tail loop that assigns `mask[i & 3]` instead of XORing it.
   */
  function TailAssigned(s: seq<byte>, key: Key): (r: seq<byte>)
    ensures |r| == |s|
  {
    var fl := |s| - |s| % 4;
    Mask(s[..fl], key) + KeyStream(key, fl, |s| - fl)
  }

  /**
   * Assigning the tail is masking it exactly when the last `|s| mod 4`
   * bytes are zero; in particular whenever `|s|` is a multiple of 4.
   */
  lemma TailAssignedIsMaskIff(s: seq<byte>, key: Key)
    ensures TailAssigned(s, key) == Mask(s, key) <==> forall i :: |s| - |s| % 4 <= i < |s| ==> s[i] == 0
  {
    var fl := |s| - |s| % 4;
    var tail := s[fl..];
    assert s == s[..fl] + tail;
    MaskFromConcat(s[..fl], tail, key, 0);
    assert Mask(s, key) == Mask(s[..fl], key) + MaskFrom(tail, key, fl);
    MaskFromIsKeyStreamIff(tail, key, fl);
    if TailAssigned(s, key) == Mask(s, key) {
      assert TailAssigned(s, key)[fl..] == Mask(s, key)[fl..];
      assert KeyStream(key, fl, |s| - fl) == MaskFrom(tail, key, fl);
      forall i | fl <= i < |s| ensures s[i] == 0 {
        assert tail[i - fl] == 0;
      }
    } else {
      if forall i :: fl <= i < |s| ==> s[i] == 0 {
        forall j | 0 <= j < |tail| ensures tail[j] == 0 {
          assert tail[j] == s[fl + j];
        }
        assert false;
      }
    }
  }

  /** A non-zero tail byte shows the difference: five bytes, the last one 0xff. */
  lemma TailAssignedCounterexample()
    ensures var s := [0, 0, 0, 0, 0xff];
            TailAssigned(s, Quad(1, 2, 3, 4))[4] == 1 && Mask(s, Quad(1, 2, 3, 4))[4] == 0xfe
  {
    var s: seq<byte> := [0, 0, 0, 0, 0xff];
    var key := Quad(1, 2, 3, 4);
    assert TailAssigned(s, key)[4] == KeyStream(key, 4, 1)[0];
  }
}
