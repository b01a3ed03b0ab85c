/**
 * `collections/internal-js-module.js`: a JavaScript stand-in for the
 * WebAssembly kernel. It owns a 64 KiB buffer with an `Int32Array` over
 * it; `execute(mask, length)` converts the little-endian-packed `mask` to
 * host order with `toLittleEndian` and XORs it into the first
 * `(length + 3) >> 2` words, four words per round; `grow` always throws.
 *
 * As written, `toLittleEndian` on a big-endian host shifts the top byte
 * down with the sign-extending `>>`, so a top byte of 0x80 or more sets
 * the three upper bytes of the result to 0xff. `ToLittleEndian` models it
 * as written, `ToLittleEndianCorrected` with the zero-filling shift.
 */
module InternalJsModule {
  import opened Bytes
  import opened Oracle
  import opened Memory

  /** `new ArrayBuffer(1 << 16)`: the byte length of the simulated memory. */
  const MemoryBytes: nat := 65536

  /** JavaScript `x >> 24` on an int32: the shift that copies the sign bit. */
  function ArithShift24(x: bv32): (r: bv32)
    ensures x & 0x8000_0000 == 0 ==> r == x >> 24
    ensures x & 0x8000_0000 != 0 ==> r == (x >> 24) | 0xffff_ff00
  {
    if x & 0x8000_0000 == 0 then x >> 24 else (x >> 24) | 0xffff_ff00
  }

  /**
   * `toLittleEndian(value)` as written: `value | 0` on a little-endian host,
   * otherwise the four byte lanes moved to the mirrored lanes, the top one
   * with the sign-extending shift.
   */
  function ToLittleEndian(host: Endian, value: bv32): bv32
  {
    if host.Little? then value
    else ((value & 0xff) << 24) | ((value & 0xff00) << 8) | ((value & 0xff_0000) >> 8)
         | ArithShift24(value & 0xff00_0000)
  }

  /** `toLittleEndian` with `>>> 24` for the top lane: a plain byte swap on a big-endian host. */
  function ToLittleEndianCorrected(host: Endian, value: bv32): bv32
  {
    if host.Little? then value
    else ((value & 0xff) << 24) | ((value & 0xff00) << 8) | ((value & 0xff_0000) >> 8)
         | ((value & 0xff00_0000) >> 24)
  }

  /** The lanes of the as-written conversion on a big-endian host. */
  lemma ToLittleEndianBigLanes(v: bv32)
    ensures Lane0(ToLittleEndian(Big, v)) == Lane3(v)
    ensures Lane3(v) < 0x80 ==>
      (Lane1(ToLittleEndian(Big, v)) == Lane2(v) && Lane2(ToLittleEndian(Big, v)) == Lane1(v)
       && Lane3(ToLittleEndian(Big, v)) == Lane0(v))
    ensures Lane3(v) >= 0x80 ==>
      (Lane1(ToLittleEndian(Big, v)) == 0xff && Lane2(ToLittleEndian(Big, v)) == 0xff
       && Lane3(ToLittleEndian(Big, v)) == 0xff)
  {
  }

  /**
   * What the conversion is for: stored as a host-order word, the result
   * sits in memory as `value` would on a little-endian machine.
   */
  lemma ToLittleEndianCorrectedLayout(host: Endian, v: bv32)
    ensures Encode32(ToLittleEndianCorrected(host, v), host) == Encode32(v, Little)
  {
  }

  /** On a little-endian host the as-written conversion is the identity. */
  lemma ToLittleEndianLittle(v: bv32)
    ensures ToLittleEndian(Little, v) == v
    ensures Encode32(ToLittleEndian(Little, v), Little) == Encode32(v, Little)
  {
  }

  /**
   * On a big-endian host the as-written conversion lays the word out as a
   * little-endian machine would exactly when the top byte is below 0x80 or
   * the three bytes below it are all 0xff (the ones the sign fills in).
   */
  lemma ToLittleEndianBigIff(v: bv32)
    ensures Encode32(ToLittleEndian(Big, v), Big) == Encode32(v, Little)
            <==> Lane3(v) < 0x80 || (Lane0(v) == 0xff && Lane1(v) == 0xff && Lane2(v) == 0xff)
  {
    ToLittleEndianBigLanes(v);
    var e := Encode32(ToLittleEndian(Big, v), Big);
    var want := Encode32(v, Little);
    if Lane3(v) >= 0x80 {
      assert e == [0xff, 0xff, 0xff, Lane3(v)];
      assert want == [Lane0(v), Lane1(v), Lane2(v), Lane3(v)];
    }
  }

  /** `0x80000000` comes out as `0xffffff80` instead of `0x00000080`. */
  lemma ToLittleEndianCounterexample()
    ensures ToLittleEndian(Big, 0x8000_0000) == 0xffff_ff80
    ensures ToLittleEndianCorrected(Big, 0x8000_0000) == 0x0000_0080
  {
  }

  /**
   * `_execute(mask, length)`: the key word `toLittleEndian(mask)` XORed into
   * the words `i`, `i + 1`, `i + 2`, `i + 3` for `i = 0, 4, 8, ...` while
   * `i < (length + 3) >> 2`. The bytes masked are the smallest multiple of
   * 16 at or above `length` (`touched`), all inside the buffer; the key is
   * the converted word's host layout.
   */
  method Execute(memory: seq<byte>, mask: bv32, length: nat, host: Endian)
    returns (r: seq<byte>, touched: nat)
    requires |memory| == MemoryBytes && length <= MemoryBytes
    ensures touched % 16 == 0 && length <= touched < length + 16 && touched <= MemoryBytes
    ensures Masked(r, memory, 0, touched, Encode32(ToLittleEndian(host, mask), host))
  {
    r, touched := XorRounds(memory, ToLittleEndian(host, mask), length, host);
  }

  /** `_execute` with the corrected conversion: the key is `mask` as a little-endian machine lays it out. */
  method ExecuteCorrected(memory: seq<byte>, mask: bv32, length: nat, host: Endian)
    returns (r: seq<byte>, touched: nat)
    requires |memory| == MemoryBytes && length <= MemoryBytes
    ensures touched % 16 == 0 && length <= touched < length + 16 && touched <= MemoryBytes
    ensures Masked(r, memory, 0, touched, Encode32(mask, Little))
  {
    r, touched := XorRounds(memory, ToLittleEndianCorrected(host, mask), length, host);
    ToLittleEndianCorrectedLayout(host, mask);
  }

  /** The loop of `_execute` with the converted word `maskKey`. */
  method XorRounds(memory: seq<byte>, maskKey: bv32, length: nat, host: Endian)
    returns (r: seq<byte>, touched: nat)
    requires |memory| == MemoryBytes && length <= MemoryBytes
    ensures touched % 16 == 0 && length <= touched < length + 16 && touched <= MemoryBytes
    ensures Masked(r, memory, 0, touched, Encode32(maskKey, host))
  {
    var key: Key := Encode32(maskKey, host);
    RotKeyZero(key);
    var endIndex := (length + 3) / 4;
    r := memory;
    MaskedStart(memory, 0, key);
    var i := 0;
    ghost var rounds := 0;
    while i < endIndex
      invariant i == 4 * rounds && i <= endIndex + 3
      invariant Masked(r, memory, 0, 4 * i, key)
    {
      r := XorFourWords(r, memory, i, key, maskKey, host);
      i := i + 4;
      rounds := rounds + 1;
    }
    touched := 4 * i;
  }

  /** One round of `_execute`: words `i` to `i + 3`, each XORed with the key word. */
  method XorFourWords(m: seq<byte>, m0: seq<byte>, i: nat, key: Key, w: bv32, host: Endian)
    returns (r: seq<byte>)
    requires |m| == |m0| && Masked(m, m0, 0, 4 * i, key) && 4 * i + 16 <= |m|
    requires Encode32(w, host) == key
    ensures Masked(r, m0, 0, 4 * i + 16, key)
  {
    RotKeyZero(key);
    r := XorWordK(m, m0, 0, 0, i, key, w, host);
    r := XorWordK(r, m0, 0, 0, i + 1, key, w, host);
    r := XorWordK(r, m0, 0, 0, i + 2, key, w, host);
    r := XorWordK(r, m0, 0, 0, i + 3, key, w, host);
  }

  /** How `memory.grow(pages)` ends. */
  datatype GrowOutcome = Grown(previousPages: nat) | Threw

  /** `memoryImpl.grow(pages)`: the simulated memory cannot grow, whatever is asked. */
  function Grow(pages: int): (r: GrowOutcome)
    ensures r == Threw
  {
    Threw
  }
}
