/**
 * `collections/legacy/wasm-growup.js`: `initialize-wasm-sync.js` without
 * chunks. Every call stages the whole payload in one pass; a payload larger
 * than the memory first goes through `glowUp(length)`, which calls
 * `memory.grow(Math.ceil(memorySize - length) / (2 << 15))`.
 *
 * As written, that delta is negative whenever `glowUp` grows at all, so no
 * call can ever make room: `grow` truncates it towards zero and either
 * grows by no pages (less than one page short) or throws a `TypeError`.
 * With the JavaScript stand-in memory of `collections/internal-js-module.js`
 * `grow` always throws. `GlowUp` models it as written, `GlowUpCorrected`
 * with the page count `Math.ceil((length - memorySize) / (2 << 15))`.
 */
module WasmGrowup {
  import opened Bytes
  import opened Oracle
  import opened Memory
  import InternalJsModule
  import Staging
  import WasmSync

  /** `2 << 15`: the WebAssembly page size in bytes. */
  const PageBytes: nat := 65536

  /** `memorySize` before any growth: one page, the size of the stand-in's memory. */
  const MemorySize: nat := InternalJsModule.MemoryBytes

  /** Which memory `memory.grow` acts on. */
  datatype Backend =
      /** The stand-in of `__js_module()`, used when `WebAssembly` is missing. */
    | StandIn
      /** A `WebAssembly.Memory` without a maximum. */
    | WasmMemory

  /** `memorySize` after a call to `glowUp`, or the exception that `grow` threw. */
  datatype Sized = Sized(bytes: nat) | GrowThrew

  /**
   * The `[EnforceRange]` conversion of `x / (2 << 15)` for an integer `x`:
   * the quotient truncated towards zero.
   */
  function TruncPages(x: int): (r: int)
    ensures x >= 0 ==> 0 <= r * PageBytes <= x < r * PageBytes + PageBytes
    ensures x < 0 ==> r * PageBytes - PageBytes < x <= r * PageBytes <= 0
  {
    if x >= 0 then x / PageBytes else -((-x) / PageBytes)
  }

  /**
   * `memory.grow(delta)` for a page count already truncated: the stand-in
   * always throws; a WebAssembly memory rejects a negative count with a
   * `TypeError` and otherwise grows by that many pages.
   */
  function Grow(backend: Backend, bytes: nat, pages: int): (r: Sized)
    ensures backend.StandIn? || pages < 0 ==> r == GrowThrew
    ensures backend.WasmMemory? && pages >= 0 ==> r == Sized(bytes + pages * PageBytes)
  {
    match backend
    case StandIn =>
      assert InternalJsModule.Grow(pages).Threw?;
      GrowThrew
    case WasmMemory =>
      if pages < 0 then GrowThrew else Sized(bytes + pages * PageBytes)
  }

  /** `glowUp(length)` as written: `Math.ceil` acts on the integer `memorySize - length`, not on the quotient. */
  function GlowUp(backend: Backend, memorySize: nat, length: nat): (r: Sized)
    ensures length <= memorySize ==> r == Sized(memorySize)
  {
    if length > memorySize then Grow(backend, memorySize, TruncPages(memorySize - length))
    else Sized(memorySize)
  }

  /**
   * Whenever `glowUp` acts, the memory stays as small as it was, or `grow`
   * throws: exactly when the backend is the stand-in or the payload is a
   * whole page or more too large.
   */
  lemma GlowUpNeverFits(backend: Backend, memorySize: nat, length: nat)
    requires length > memorySize
    ensures GlowUp(backend, memorySize, length) == GrowThrew
            <==> backend.StandIn? || length - memorySize >= PageBytes
    ensures GlowUp(backend, memorySize, length) != GrowThrew ==> GlowUp(backend, memorySize, length) == Sized(memorySize)
  {
    var p := TruncPages(memorySize - length);
    if length - memorySize < PageBytes {
      assert p * PageBytes + PageBytes > 0;
      assert p == 0;
    } else {
      assert p * PageBytes + PageBytes <= 0;
    }
  }

  /** One byte too many leaves the memory at 64 KiB; 200000 bytes make `grow` throw. */
  lemma GlowUpCounterexample()
    ensures GlowUp(WasmMemory, 65536, 65537) == Sized(65536)
    ensures GlowUp(WasmMemory, 65536, 200000) == GrowThrew
  {
    assert TruncPages(-1) == 0;
    assert TruncPages(-134464) == -2;
  }

  /** `glowUp` with the page count `Math.ceil((length - memorySize) / (2 << 15))`. */
  function GlowUpCorrected(backend: Backend, memorySize: nat, length: nat): (r: Sized)
    ensures length <= memorySize ==> r == Sized(memorySize)
    ensures length > memorySize && backend.StandIn? ==> r == GrowThrew
    ensures length > memorySize && backend.WasmMemory? ==>
      r.Sized? && length <= r.bytes < length + PageBytes && (r.bytes - memorySize) % PageBytes == 0
  {
    if length > memorySize then
      var pages := (length - memorySize + PageBytes - 1) / PageBytes;
      assert pages * PageBytes >= length - memorySize;
      Grow(backend, memorySize, pages)
    else Sized(memorySize)
  }

  /** How `_mask` and `_unmask` end: the memory afterwards and the staging buffer, or an exception. */
  datatype Outcome = Done(store: seq<byte>, staging: seq<byte>) | Threw

  /**
   * `_mask(source, mask, output, offset, length)` over the stand-in: a
   * payload larger than its memory throws in `glowUp`; any other is masked
   * in one pass (of `source` cut to `length` bytes) under the key that
   * `WasmSync.LaidOut` describes, and placed at `output`'s `offset`.
   */
  method Mask(source: seq<byte>, key: Key, mem: seq<byte>, view: nat, viewLen: nat, offset: nat, length: nat,
              staging: seq<byte>, host: Endian)
    returns (r: Outcome)
    requires view + viewLen <= |mem| && offset + length <= viewLen && length <= |source| && |staging| == MemorySize
    ensures length > MemorySize <==> r == Threw
    ensures r.Done? ==> |r.staging| == MemorySize
    ensures r.Done? ==> r.store == Place(mem, view + offset, Oracle.Mask(source[..length], WasmSync.LaidOut(host, key)))
  {
    if length > MemorySize {
      GlowUpNeverFits(StandIn, MemorySize, length);
      return Threw;
    }
    var staged := if |source| < length then source else source[..length];
    assert staged[..length] == source[..length];
    var staging', out := Staging.RunKernel(WasmSync.Kernel(key), staging, staged, length, host);
    r := Done(Place(mem, view + offset, out), staging');
  }

  /** `_unmask(buffer, mask)` over the stand-in: one pass in place, or the exception of `glowUp`. */
  method Unmask(mem: seq<byte>, view: nat, viewLen: nat, key: Key, staging: seq<byte>, host: Endian)
    returns (r: Outcome)
    requires view + viewLen <= |mem| && |staging| == MemorySize
    ensures viewLen > MemorySize <==> r == Threw
    ensures r.Done? ==> |r.staging| == MemorySize
    ensures r.Done? ==> r.store == Place(mem, view, Oracle.Mask(mem[view..view + viewLen], WasmSync.LaidOut(host, key)))
  {
    if viewLen > MemorySize {
      GlowUpNeverFits(StandIn, MemorySize, viewLen);
      return Threw;
    }
    var buffer := mem[view..view + viewLen];
    assert buffer[..viewLen] == buffer;
    var staging', out := Staging.RunKernel(WasmSync.Kernel(key), staging, buffer, viewLen, host);
    r := Done(Place(mem, view, out), staging');
  }
}
