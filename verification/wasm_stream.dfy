/**
 * `collections/legacy/wasm-stream.js`: masking a payload that arrives in
 * pieces. A `Stream` remembers the key phase (`#offset`, the bytes written
 * so far modulo 4) and hands `execute` the key rotated by it; each `write`
 * returns a fresh copy of its piece masked. A `StreamWriter` feeds one
 * large payload to its stream in slices of at most 64 KiB and returns
 * `null` once the payload is used up.
 *
 * The kernel is the JavaScript stand-in of `collections/internal-js-module.js`,
 * as in `WasmSync`: on a little-endian host every key is laid out as is.
 *
 * As written, `StreamWriter.write` on an empty payload resets its position
 * to 0 and returns an empty piece on every call, never `null`, so the
 * documented loop over it does not end. `NextSlice` models it as written,
 * `NextSliceCorrected` tests for the end of the payload first.
 */
module WasmStream {
  import opened Bytes
  import opened Oracle
  import opened Memory
  import InternalJsModule
  import Staging
  import WasmSync

  /** `1 << 16`: the largest piece `Stream.write` accepts, the size of the module's memory. */
  const StreamBytes: nat := InternalJsModule.MemoryBytes

  /** A `Stream`: the key and the phase `#offset`. */
  datatype Stream = Stream(key: Key, phase: nat)

  /** `new Stream(mask)`. */
  function NewStream(key: Key): (s: Stream)
    ensures s.key == key && s.phase == 0
  {
    Stream(key, 0)
  }

  /**
   * The `maskKey` of `write`: `int32` of the key read from position
   * `#offset & 3` on, which is the fixed little-endian packing of the key
   * rotated by the phase.
   */
  function PhaseWord(key: Key, phase: nat): (r: bv32)
    ensures r == WasmSync.MaskWord(RotKey(key, phase))
  {
    var rk := RotKey(key, phase);
    if phase % 4 == 3 then
      assert rk == Quad(key[3], key[0], key[1], key[2]);
      PackLE(key[3], key[0], key[1], key[2])
    else if phase % 4 == 2 then
      assert rk == Quad(key[2], key[3], key[0], key[1]);
      PackLE(key[2], key[3], key[0], key[1])
    else if phase % 4 == 1 then
      assert rk == Quad(key[1], key[2], key[3], key[0]);
      PackLE(key[1], key[2], key[3], key[0])
    else
      assert rk == Quad(key[0], key[1], key[2], key[3]);
      PackLE(key[0], key[1], key[2], key[3])
  }

  /** How `Stream.write` ends: the stream, the module's memory and the returned copy, or the `TypeError`. */
  datatype Written = Written(stream: Stream, memory: seq<byte>, out: seq<byte>) | TypeError

  /**
   * `Stream.write(binary)`: a piece larger than 64 KiB throws and leaves the
   * stream as it was; any other is staged at address 0, masked by `execute`
   * with the phase's key word, and copied out; the phase advances by its
   * length modulo 4.
   */
  method Write(s: Stream, memory: seq<byte>, binary: seq<byte>, host: Endian) returns (r: Written)
    requires |memory| == StreamBytes
    ensures |binary| > StreamBytes <==> r.TypeError?
    ensures r.Written? ==> r.stream == Stream(s.key, (s.phase + |binary|) % 4) && |r.memory| == StreamBytes
    ensures r.Written? ==> r.out == Oracle.Mask(binary, WasmSync.LaidOut(host, RotKey(s.key, s.phase)))
    ensures r.Written? && host.Little? ==> r.out == MaskFrom(binary, s.key, s.phase)
  {
    if |binary| > StreamBytes {
      return TypeError;
    }
    var k := Staging.Execute(PhaseWord(s.key, s.phase), false);
    assert k == WasmSync.Kernel(RotKey(s.key, s.phase));
    assert binary[..|binary|] == binary;
    var memory', out := Staging.RunKernel(k, memory, binary, |binary|, host);
    MaskFromRotKey(binary, s.key, s.phase);
    r := Written(Stream(s.key, (s.phase + |binary|) % 4), memory', out);
  }

  /** The pieces written one after another, joined. */
  function Concat(pieces: seq<seq<byte>>): (r: seq<byte>)
  {
    if |pieces| == 0 then [] else Concat(pieces[..|pieces| - 1]) + pieces[|pieces| - 1]
  }

  /**
   * Successive `write` calls on one stream: the returned copies, joined,
   * are the joined pieces masked from the stream's starting phase, and the
   * phase ends at the total length modulo 4.
   */
  method WriteAll(s: Stream, memory: seq<byte>, pieces: seq<seq<byte>>, host: Endian)
    returns (s': Stream, memory': seq<byte>, outs: seq<byte>)
    requires |memory| == StreamBytes && s.phase < 4
    requires forall i :: 0 <= i < |pieces| ==> |pieces[i]| <= StreamBytes
    ensures s'.key == s.key && s'.phase == (s.phase + |Concat(pieces)|) % 4
    ensures host.Little? ==> outs == MaskFrom(Concat(pieces), s.key, s.phase)
  {
    s', memory', outs := s, memory, [];
    var i := 0;
    while i < |pieces|
      invariant i <= |pieces| && |memory'| == StreamBytes
      invariant s'.key == s.key && s'.phase == (s.phase + |Concat(pieces[..i])|) % 4
      invariant host.Little? ==> outs == MaskFrom(Concat(pieces[..i]), s.key, s.phase)
    {
      var r := Write(s', memory', pieces[i], host);
      assert pieces[..i + 1][..i] == pieces[..i];
      ContinuePhase(s.key, s.phase, Concat(pieces[..i]), pieces[i]);
      s', memory', outs := r.stream, r.memory, outs + r.out;
      i := i + 1;
    }
    assert pieces[..|pieces|] == pieces;
  }

  /** A piece written at the phase the earlier pieces left continues their masking. */
  lemma ContinuePhase(key: Key, p: nat, before: seq<byte>, piece: seq<byte>)
    ensures MaskFrom(before, key, p) + MaskFrom(piece, key, (p + |before|) % 4) == MaskFrom(before + piece, key, p)
    ensures ((p + |before|) % 4 + |piece|) % 4 == (p + |before + piece|) % 4
  {
    MaskFromConcat(before, piece, key, p);
    MaskFromPhaseMod(piece, key, p + |before|);
    PhaseShift(|piece|, p + |before|);
  }

  // ---------------------------------------------------------------------
  // StreamWriter

  /** What one `StreamWriter.write` does with the payload: write `binary[lo..hi]`, or return `null`. */
  datatype Step = Emit(lo: nat, hi: nat) | Null

  /**
   * `StreamWriter.write` as written, at position `offset` of a payload of
   * `length` bytes: the whole payload when the position is 0 and it fits,
   * `null` at the end, otherwise the next slice of at most 64 KiB.
   */
  function NextSlice(offset: nat, length: nat): (r: Step)
    requires offset <= length
    ensures r.Emit? ==> r.lo == offset <= r.hi <= length && r.hi - r.lo <= StreamBytes
    ensures r.Emit? && r.hi < length ==> r.hi - r.lo == StreamBytes
    ensures r.Null? ==> offset == length
  {
    if offset == 0 && length <= StreamBytes then Emit(0, length)
    else if offset == length then Null
    else Emit(offset, if offset + StreamBytes < length then offset + StreamBytes else length)
  }

  /** `StreamWriter.write` testing for the end of the payload before anything else. */
  function NextSliceCorrected(offset: nat, length: nat): (r: Step)
    requires offset <= length
    ensures r.Emit? ==> r.lo == offset < r.hi <= length && r.hi - r.lo <= StreamBytes
    ensures r.Emit? && r.hi < length ==> r.hi - r.lo == StreamBytes
    ensures r.Null? <==> offset == length
  {
    if offset == length then Null
    else if offset == 0 && length <= StreamBytes then Emit(0, length)
    else Emit(offset, if offset + StreamBytes < length then offset + StreamBytes else length)
  }

  /** On a payload that is not empty the two agree: only the empty payload tells them apart. */
  lemma NextSliceAgreeIff(offset: nat, length: nat)
    requires offset <= length
    ensures NextSlice(offset, length) == NextSliceCorrected(offset, length) <==> length != 0
  {
  }

  /**
   * As written, an empty payload is a fixed point: the writer emits the
   * empty slice and stays at position 0, so it never returns `null`.
   */
  lemma EmptyNeverNull()
    ensures NextSlice(0, 0) == Emit(0, 0)
    ensures NextSliceCorrected(0, 0) == Null
  {
  }

  /**
   * The slices the corrected writer emits from `offset` on, until `null`:
   * each holds 1 to 65536 bytes, all but the last exactly 65536, and joined
   * they are the rest of the payload. Its `decreases` clause is the proof
   * that the loop over the writer ends.
   */
  function Slices(binary: seq<byte>, offset: nat): (r: seq<seq<byte>>)
    requires offset <= |binary|
    ensures Concat(r) == binary[offset..]
    ensures forall i :: 0 <= i < |r| ==> 0 < |r[i]| <= StreamBytes
    decreases |binary| - offset
  {
    match NextSliceCorrected(offset, |binary|)
    case Null => []
    case Emit(lo, hi) =>
      var rest := Slices(binary, hi);
      ConcatFront(binary[lo..hi], rest);
      assert binary[lo..hi] + binary[hi..] == binary[offset..];
      [binary[lo..hi]] + rest
  }

  /** Joining a piece in front of the others. */
  lemma {:induction false} ConcatFront(a: seq<byte>, rest: seq<seq<byte>>)
    ensures Concat([a] + rest) == a + Concat(rest)
    decreases |rest|
  {
    if |rest| == 0 {
      assert [a] + rest == [a];
      assert Concat([a]) == Concat([a][..0]) + a;
    } else {
      var front := rest[..|rest| - 1];
      assert ([a] + rest)[..|rest|] == [a] + front;
      ConcatFront(a, front);
      assert Concat(rest) == Concat(front) + rest[|rest| - 1];
    }
  }

  /** A `StreamWriter`: its stream and its position `#offset` in the payload. */
  datatype Writer = Writer(stream: Stream, offset: nat)

  /** `new StreamWriter(mask)`. */
  function NewWriter(key: Key): (w: Writer)
    ensures w.stream == NewStream(key) && w.offset == 0
  {
    Writer(NewStream(key), 0)
  }

  /** How `StreamWriter.write` ends: the next masked slice, or `null`. */
  datatype WriterResult = Chunk(writer: Writer, memory: seq<byte>, out: seq<byte>) | Done(writer: Writer)

  /**
   * `StreamWriter.write(binary)` as written: the slice `NextSlice` picks,
   * written to the stream (which never throws for it), the position moved
   * to its end; or `null` with nothing changed.
   */
  method WriterWrite(w: Writer, memory: seq<byte>, binary: seq<byte>, host: Endian) returns (r: WriterResult)
    requires |memory| == StreamBytes && w.offset <= |binary|
    ensures NextSlice(w.offset, |binary|).Null? <==> r.Done?
    ensures r.Done? ==> r.writer == w
    ensures r.Chunk? ==> (
      var lo, hi := NextSlice(w.offset, |binary|).lo, NextSlice(w.offset, |binary|).hi;
      && r.writer == Writer(Stream(w.stream.key, (w.stream.phase + (hi - lo)) % 4), hi)
      && |r.memory| == StreamBytes
      && r.out == Oracle.Mask(binary[lo..hi], WasmSync.LaidOut(host, RotKey(w.stream.key, w.stream.phase)))
      && (host.Little? ==> r.out == MaskFrom(binary[lo..hi], w.stream.key, w.stream.phase)))
  {
    match NextSlice(w.offset, |binary|)
    case Null =>
      r := Done(w);
    case Emit(lo, hi) =>
      var written := Write(w.stream, memory, binary[lo..hi], host);
      r := Chunk(Writer(written.stream, hi), written.memory, written.out);
  }

  /**
   * The documented loop `for (chunk = writer.write(data); chunk !== null; ...)`
   * over a fresh writer, as written: on a payload that is not empty it ends,
   * and the chunks joined are the payload masked by the rule on a
   * little-endian host.
   */
  method DrainWriter(key: Key, memory: seq<byte>, binary: seq<byte>, host: Endian)
    returns (outs: seq<byte>, memory': seq<byte>)
    requires |memory| == StreamBytes && |binary| > 0
    ensures |memory'| == StreamBytes
    ensures host.Little? ==> outs == Oracle.Mask(binary, key)
  {
    var w := NewWriter(key);
    outs, memory' := [], memory;
    while true
      invariant w.offset <= |binary| && |memory'| == StreamBytes
      invariant w.stream == Stream(key, w.offset % 4)
      invariant host.Little? ==> outs == MaskFrom(binary[..w.offset], key, 0)
      decreases |binary| - w.offset
    {
      var r := WriterWrite(w, memory', binary, host);
      if r.Done? {
        assert binary[..w.offset] == binary;
        MaskFromRotKey(binary, key, 0);
        RotKeyZero(key);
        return;
      }
      var lo, hi := w.offset, r.writer.offset;
      assert binary[..hi] == binary[..lo] + binary[lo..hi];
      ContinuePhase(key, 0, binary[..lo], binary[lo..hi]);
      outs, memory', w := outs + r.out, r.memory, r.writer;
    }
  }
}
