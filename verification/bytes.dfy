/**
 * Bytes, the 4-byte masking key, host byte order and the 32/64-bit word
 * encodings that the typed-array views (`Int32Array`, `BigInt64Array`,
 * `BigUint64Array`, `DataView`) impose on a flat byte memory.
 *
 * A JS number computed as `k1 + k2 * 2 ** 8 + k3 * 2 ** 16 + (k4 << 24)` is
 * an exact integer; every consumer reads it through ToInt32 (a bitwise `^`
 * or a store into an `Int32Array`), i.e. modulo 2^32. Since reduction
 * modulo 2^32 commutes with `+` and `*`, the number is modelled directly as
 * bv32 wrap-around arithmetic.
 */
module Bytes {

  type byte = bv8

  /** The masking key: exactly the four bytes the source ever reads. */
  type Key = k: seq<byte> | |k| == 4 witness [0, 0, 0, 0]

  /** Host byte order, detected once at load time by the source. */
  datatype Endian = Little | Big

  /**
   * Four bytes in address order. Every four-byte sequence in the model is
   * built through this function rather than a display.
   */
  function Quad(b0: byte, b1: byte, b2: byte, b3: byte): (r: seq<byte>)
    ensures |r| == 4 && r[0] == b0 && r[1] == b1 && r[2] == b2 && r[3] == b3
  {
    [b0, b1, b2, b3]
  }

  /** A four-byte sequence is the quad of its elements. */
  lemma QuadOf(s: seq<byte>)
    requires |s| == 4
    ensures Quad(s[0], s[1], s[2], s[3]) == s
  {
  }

  /** The key as seen from a stream position of the given phase. */
  function RotKey(key: Key, phase: nat): (r: Key)
    ensures forall k :: 0 <= k < 4 ==> r[k] == key[(phase + k) % 4]
  {
    var r := Quad(key[phase % 4], key[(phase + 1) % 4], key[(phase + 2) % 4], key[(phase + 3) % 4]);
    forall k | 0 <= k < 4 ensures r[k] == key[(phase + k) % 4] {
      if k == 0 {} else if k == 1 {} else if k == 2 {} else {}
    }
    r
  }

  /** Rotating by phase 0 is no change. */
  lemma RotKeyZero(key: Key)
    ensures RotKey(key, 0) == key
  {
    assert RotKey(key, 0)[0] == key[0];
  }

  // ---------------------------------------------------------------------
  // 32-bit words

  /** Byte lanes of a 32-bit word, least significant first. */
  function Lane0(w: bv32): byte { (w & 0xff) as bv8 }
  function Lane1(w: bv32): byte { ((w >> 8) & 0xff) as bv8 }
  function Lane2(w: bv32): byte { ((w >> 16) & 0xff) as bv8 }
  function Lane3(w: bv32): byte { ((w >> 24) & 0xff) as bv8 }

  /** Four lanes, least significant first, in address order for the host. */
  function Arrange(b0: byte, b1: byte, b2: byte, b3: byte, e: Endian): (r: seq<byte>)
    ensures |r| == 4
  {
    if e.Little? then Quad(b0, b1, b2, b3) else Quad(b3, b2, b1, b0)
  }

  /** The four bytes a 32-bit word occupies in memory, lowest address first. */
  function Encode32(w: bv32, e: Endian): (r: seq<byte>)
    ensures |r| == 4
  {
    Arrange(Lane0(w), Lane1(w), Lane2(w), Lane3(w), e)
  }

  /** The word with the given lanes, least significant first. */
  function Join32(b0: byte, b1: byte, b2: byte, b3: byte): bv32
  {
    (b0 as bv32) | ((b1 as bv32) << 8) | ((b2 as bv32) << 16) | ((b3 as bv32) << 24)
  }

  /** The 32-bit word read from four bytes of memory, lowest address first. */
  function Decode32(b: seq<byte>, e: Endian): bv32
    requires |b| == 4
  {
    if e.Little? then Join32(b[0], b[1], b[2], b[3]) else Join32(b[3], b[2], b[1], b[0])
  }

  lemma JoinLanes(b0: byte, b1: byte, b2: byte, b3: byte)
    ensures Lane0(Join32(b0, b1, b2, b3)) == b0 && Lane1(Join32(b0, b1, b2, b3)) == b1
    ensures Lane2(Join32(b0, b1, b2, b3)) == b2 && Lane3(Join32(b0, b1, b2, b3)) == b3
  {
  }

  lemma XorLanes(a: bv32, b: bv32)
    ensures Lane0(a ^ b) == Lane0(a) ^ Lane0(b) && Lane1(a ^ b) == Lane1(a) ^ Lane1(b)
    ensures Lane2(a ^ b) == Lane2(a) ^ Lane2(b) && Lane3(a ^ b) == Lane3(a) ^ Lane3(b)
  {
  }

  /** Encoding after decoding gives the same four bytes back. */
  lemma Encode32Decode32(b: seq<byte>, e: Endian)
    requires |b| == 4
    ensures Encode32(Decode32(b, e), e) == b
  {
    if e.Little? {
      JoinLanes(b[0], b[1], b[2], b[3]);
    } else {
      JoinLanes(b[3], b[2], b[1], b[0]);
    }
  }

  lemma Xor32Little(a: bv32, b: bv32)
    ensures forall k :: 0 <= k < 4 ==>
      Encode32(a ^ b, Little)[k] == Encode32(a, Little)[k] ^ Encode32(b, Little)[k]
  {
    XorLanes(a, b);
    Pointwise4(Encode32(a ^ b, Little), Encode32(a, Little), Encode32(b, Little));
  }

  lemma Xor32Big(a: bv32, b: bv32)
    ensures forall k :: 0 <= k < 4 ==>
      Encode32(a ^ b, Big)[k] == Encode32(a, Big)[k] ^ Encode32(b, Big)[k]
  {
    XorLanes(a, b);
    Pointwise4(Encode32(a ^ b, Big), Encode32(a, Big), Encode32(b, Big));
  }

  /** XOR on a word is bytewise XOR of the word encodings, on either host. */
  lemma Xor32Bytewise(a: bv32, b: bv32, e: Endian)
    ensures forall k :: 0 <= k < 4 ==> Encode32(a ^ b, e)[k] == Encode32(a, e)[k] ^ Encode32(b, e)[k]
  {
    if e.Little? { Xor32Little(a, b); } else { Xor32Big(a, b); }
  }

  lemma Pointwise4(s: seq<byte>, t: seq<byte>, u: seq<byte>)
    requires |s| == 4 && |t| == 4 && |u| == 4
    requires s[0] == t[0] ^ u[0] && s[1] == t[1] ^ u[1] && s[2] == t[2] ^ u[2] && s[3] == t[3] ^ u[3]
    ensures forall k :: 0 <= k < 4 ==> s[k] == t[k] ^ u[k]
  {
    forall k | 0 <= k < 4 ensures s[k] == t[k] ^ u[k] {
      if k == 0 {} else if k == 1 {} else if k == 2 {} else {}
    }
  }

  /**
   * `k1 + k2 * 2 ** 8 + k3 * 2 ** 16 + (k4 << 24)` read modulo 2^32: the
   * little-endian packing that several files hard-code.
   */
  function PackLE(k1: byte, k2: byte, k3: byte, k4: byte): bv32
  {
    (k1 as bv32) + (k2 as bv32) * 0x100 + (k3 as bv32) * 0x1_0000 + ((k4 as bv32) << 24)
  }

  lemma PackLELanes(k1: byte, k2: byte, k3: byte, k4: byte)
    ensures Lane0(PackLE(k1, k2, k3, k4)) == k1 && Lane1(PackLE(k1, k2, k3, k4)) == k2
    ensures Lane2(PackLE(k1, k2, k3, k4)) == k3 && Lane3(PackLE(k1, k2, k3, k4)) == k4
  {
  }

  /** The fixed little-endian packing as it sits in memory on either host. */
  lemma PackLELayout(k1: byte, k2: byte, k3: byte, k4: byte, host: Endian)
    ensures Encode32(PackLE(k1, k2, k3, k4), host)
            == if host.Little? then Quad(k1, k2, k3, k4) else Quad(k4, k3, k2, k1)
  {
    PackLELanes(k1, k2, k3, k4);
  }

  /**
   * The host-aware `int32(k1, k2, k3, k4)` of index.js and its copies: the
   * little-endian packing on a little-endian host, the reversed one otherwise.
   */
  function Int32(host: Endian, k1: byte, k2: byte, k3: byte, k4: byte): (w: bv32)
  {
    if host.Little? then PackLE(k1, k2, k3, k4) else PackLE(k4, k3, k2, k1)
  }

  /**
   * Stored as an `Int32Array` element, `int32(k1, k2, k3, k4)` places k1, k2,
   * k3, k4 at increasing addresses on both little- and big-endian hosts.
   */
  lemma Int32Layout(host: Endian, k1: byte, k2: byte, k3: byte, k4: byte)
    ensures Encode32(Int32(host, k1, k2, k3, k4), host) == Quad(k1, k2, k3, k4)
  {
    if host.Little? {
      PackLELayout(k1, k2, k3, k4, host);
    } else {
      PackLELayout(k4, k3, k2, k1, host);
    }
  }

  /** `int32(key[0], key[1], key[2], key[3])`. */
  function KeyWord(host: Endian, key: Key): (w: bv32)
    ensures Encode32(w, host) == key
  {
    Int32Layout(host, key[0], key[1], key[2], key[3]);
    QuadOf(key);
    Int32(host, key[0], key[1], key[2], key[3])
  }

  /**
   * The key word the implementations pick with a `switch` on a residue `i`:
   * `int32(mask[i], mask[i + 1], mask[i + 2], mask[i + 3])`, indices modulo 4.
   */
  function HeadKey(host: Endian, key: Key, i: nat): bv32
    requires i < 4
  {
    if i == 3 then Int32(host, key[3], key[0], key[1], key[2])
    else if i == 2 then Int32(host, key[2], key[3], key[0], key[1])
    else if i == 1 then Int32(host, key[1], key[2], key[3], key[0])
    else Int32(host, key[0], key[1], key[2], key[3])
  }

  /** The cascade picks the word laid out as the key seen from phase `i`. */
  lemma HeadKeyLayout(host: Endian, key: Key, i: nat)
    requires i < 4
    ensures Encode32(HeadKey(host, key, i), host) == RotKey(key, i)
  {
    if i == 3 {
      Int32Layout(host, key[3], key[0], key[1], key[2]);
      assert RotKey(key, 3) == Quad(key[3], key[0], key[1], key[2]);
    } else if i == 2 {
      Int32Layout(host, key[2], key[3], key[0], key[1]);
      assert RotKey(key, 2) == Quad(key[2], key[3], key[0], key[1]);
    } else if i == 1 {
      Int32Layout(host, key[1], key[2], key[3], key[0]);
      assert RotKey(key, 1) == Quad(key[1], key[2], key[3], key[0]);
    } else {
      Int32Layout(host, key[0], key[1], key[2], key[3]);
      assert RotKey(key, 0) == Quad(key[0], key[1], key[2], key[3]);
    }
  }

  // ---------------------------------------------------------------------
  // 64-bit words

  function Low32(d: bv64): bv32 { (d & 0xffff_ffff) as bv32 }
  function High32(d: bv64): bv32 { ((d >> 32) & 0xffff_ffff) as bv32 }
  function Join64(lo: bv32, hi: bv32): bv64 { (lo as bv64) | ((hi as bv64) << 32) }

  /** The eight bytes a 64-bit word occupies in memory, lowest address first. */
  function Encode64(d: bv64, e: Endian): (r: seq<byte>)
    ensures |r| == 8
  {
    var lo, hi := Low32(d), High32(d);
    if e.Little? then Encode32(lo, Little) + Encode32(hi, Little)
    else Encode32(hi, Big) + Encode32(lo, Big)
  }

  function Decode64(b: seq<byte>, e: Endian): bv64
    requires |b| == 8
  {
    if e.Little? then Join64(Decode32(b[..4], Little), Decode32(b[4..], Little))
    else Join64(Decode32(b[4..], Big), Decode32(b[..4], Big))
  }

  lemma HalvesJoin(lo: bv32, hi: bv32)
    ensures Low32(Join64(lo, hi)) == lo && High32(Join64(lo, hi)) == hi
  {
  }

  lemma XorHalves(a: bv64, b: bv64)
    ensures Low32(a ^ b) == Low32(a) ^ Low32(b) && High32(a ^ b) == High32(a) ^ High32(b)
  {
  }

  lemma Encode64Decode64(b: seq<byte>, e: Endian)
    requires |b| == 8
    ensures Encode64(Decode64(b, e), e) == b
  {
    if e.Little? {
      HalvesJoin(Decode32(b[..4], Little), Decode32(b[4..], Little));
      Encode32Decode32(b[..4], Little);
      Encode32Decode32(b[4..], Little);
    } else {
      HalvesJoin(Decode32(b[4..], Big), Decode32(b[..4], Big));
      Encode32Decode32(b[..4], Big);
      Encode32Decode32(b[4..], Big);
    }
    assert b[..4] + b[4..] == b;
  }

  /** `s` is the bytewise XOR of `t` and `u`. */
  ghost predicate IsXor(s: seq<byte>, t: seq<byte>, u: seq<byte>)
  {
    |s| == |t| == |u| && forall k :: 0 <= k < |s| ==> s[k] == t[k] ^ u[k]
  }

  lemma ConcatXor(s1: seq<byte>, t1: seq<byte>, u1: seq<byte>, s2: seq<byte>, t2: seq<byte>, u2: seq<byte>)
    requires IsXor(s1, t1, u1) && IsXor(s2, t2, u2)
    ensures IsXor(s1 + s2, t1 + t2, u1 + u2)
  {
    forall k | 0 <= k < |s1| + |s2| ensures (s1 + s2)[k] == (t1 + t2)[k] ^ (u1 + u2)[k] {
      if k < |s1| {
        assert (s1 + s2)[k] == s1[k] && (t1 + t2)[k] == t1[k] && (u1 + u2)[k] == u1[k];
      } else {
        assert (s1 + s2)[k] == s2[k - |s1|] && (t1 + t2)[k] == t2[k - |t1|] && (u1 + u2)[k] == u2[k - |u1|];
      }
    }
  }

  lemma Xor32IsXor(a: bv32, b: bv32, c: bv32, e: Endian)
    requires c == a ^ b
    ensures IsXor(Encode32(c, e), Encode32(a, e), Encode32(b, e))
  {
    Xor32Bytewise(a, b, e);
  }

  /** Bytewise XOR of two equally long byte strings. */
  function XorBytes(t: seq<byte>, u: seq<byte>): (s: seq<byte>)
    requires |t| == |u|
    ensures |s| == |t|
  {
    seq(|t|, k requires 0 <= k < |t| => t[k] ^ u[k])
  }

  lemma IsXorBytes(s: seq<byte>, t: seq<byte>, u: seq<byte>)
    requires IsXor(s, t, u)
    ensures s == XorBytes(t, u)
  {
  }

  /**
   * A 32-bit cell after `cell ^= w`: read in host order, XORed, written back.
   * The effect is the bytewise XOR with the word's layout.
   */
  function XorCell32(cell: seq<byte>, w: bv32, host: Endian): (r: seq<byte>)
    requires |cell| == 4
    ensures r == XorBytes(cell, Encode32(w, host))
  {
    var v := Decode32(cell, host);
    Encode32Decode32(cell, host);
    Xor32IsXor(v, w, v ^ w, host);
    IsXorBytes(Encode32(v ^ w, host), cell, Encode32(w, host));
    Encode32(v ^ w, host)
  }

  lemma Xor64Little(a: bv64, b: bv64)
    ensures IsXor(Encode64(a ^ b, Little), Encode64(a, Little), Encode64(b, Little))
  {
    var la, lb, lc := Low32(a), Low32(b), Low32(a ^ b);
    var ha, hb, hc := High32(a), High32(b), High32(a ^ b);
    XorHalves(a, b);
    Xor32IsXor(la, lb, lc, Little);
    Xor32IsXor(ha, hb, hc, Little);
    ConcatXor(Encode32(lc, Little), Encode32(la, Little), Encode32(lb, Little),
              Encode32(hc, Little), Encode32(ha, Little), Encode32(hb, Little));
  }

  lemma Xor64Big(a: bv64, b: bv64)
    ensures IsXor(Encode64(a ^ b, Big), Encode64(a, Big), Encode64(b, Big))
  {
    var la, lb, lc := Low32(a), Low32(b), Low32(a ^ b);
    var ha, hb, hc := High32(a), High32(b), High32(a ^ b);
    XorHalves(a, b);
    Xor32IsXor(la, lb, lc, Big);
    Xor32IsXor(ha, hb, hc, Big);
    ConcatXor(Encode32(hc, Big), Encode32(ha, Big), Encode32(hb, Big),
              Encode32(lc, Big), Encode32(la, Big), Encode32(lb, Big));
  }

  /** XOR on a 64-bit word is bytewise XOR of the encodings, on either host. */
  lemma Xor64Bytewise(a: bv64, b: bv64, e: Endian)
    ensures IsXor(Encode64(a ^ b, e), Encode64(a, e), Encode64(b, e))
  {
    if e.Little? { Xor64Little(a, b); } else { Xor64Big(a, b); }
  }

  /** A 64-bit cell after `cell ^= d`: the bytewise XOR with the word's layout. */
  function XorCell64(cell: seq<byte>, d: bv64, host: Endian): (r: seq<byte>)
    requires |cell| == 8
    ensures r == XorBytes(cell, Encode64(d, host))
  {
    var v := Decode64(cell, host);
    Encode64Decode64(cell, host);
    Xor64Bytewise(v, d, host);
    IsXorBytes(Encode64(v ^ d, host), cell, Encode64(d, host));
    Encode64(v ^ d, host)
  }

  /** A 64-bit pattern whose two halves are both the given 32-bit pattern. */
  function Doubled(w: bv32): bv64
  {
    Join64(w, w)
  }

  /** Adding a 32-bit value to itself shifted up carries nothing between the halves. */
  lemma DisjointHalves(x: bv64)
    requires x & 0xffff_ffff_0000_0000 == 0
    ensures x + (x << 32) == x | (x << 32)
  {
  }

  /** A doubled word lays the 32-bit layout out twice, on either host. */
  lemma DoubledLayout(w: bv32, e: Endian)
    ensures Encode64(Doubled(w), e) == Encode32(w, e) + Encode32(w, e)
  {
    HalvesJoin(w, w);
  }
}
