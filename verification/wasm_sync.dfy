/**
 * `collections/initialize-wasm-sync.js`: the staged implementation over the
 * memory of a WebAssembly module, with `execute(mask, length)` as the
 * kernel and the memory's byte length (64 KiB) as the chunk size. The mask
 * word handed to `execute` is the fixed little-endian packing
 * `mask[0] + mask[1] * 2 ** 8 + mask[2] * 2 ** 16 + (mask[3] << 24)`.
 *
 * The model runs the JavaScript stand-in of `collections/internal-js-module.js`,
 * which the file loads when `WebAssembly` is missing. On a little-endian
 * host the result is the rule of section 5.3 of RFC 6455; on a big-endian
 * host the stand-in's `toLittleEndian` spoils every key whose last byte is
 * 0x80 or more (see `LaidOut`). `MaskCorrected` and `UnmaskCorrected` run
 * the stand-in with the zero-filling shift and meet the rule on both hosts.
 */
module WasmSync {
  import opened Bytes
  import opened Oracle
  import opened Memory
  import InternalJsModule
  import Staging

  /** `memorySize`: the byte length of the module's memory. */
  const MemorySize: nat := InternalJsModule.MemoryBytes

  /** The word `wasmMask` passes to `execute`. */
  function MaskWord(key: Key): bv32
  {
    PackLE(key[0], key[1], key[2], key[3])
  }

  /** `wasmMask` with the stand-in module as written. */
  function Kernel(key: Key): (k: Staging.Kernel)
    ensures Staging.Valid(k) && Staging.Size(k) == MemorySize
  {
    Staging.Execute(MaskWord(key), false)
  }

  /**
   * The four bytes the stand-in XORs with: the key on a little-endian host
   * or when its last byte is below 0x80; otherwise 0xff three times and
   * then the last byte.
   */
  function LaidOut(host: Endian, key: Key): (r: Key)
    ensures host.Little? || key[3] < 0x80 ==> r == key
    ensures host.Big? && key[3] >= 0x80 ==> r == Quad(0xff, 0xff, 0xff, key[3])
  {
    var v := MaskWord(key);
    PackLELanes(key[0], key[1], key[2], key[3]);
    PackLELayout(key[0], key[1], key[2], key[3], Little);
    QuadOf(key);
    InternalJsModule.ToLittleEndianBigLanes(v);
    Staging.KernelKey(Kernel(key), host)
  }

  /**
   * The stand-in keeps the key exactly on a little-endian host, for a last
   * byte below 0x80, or when the first three bytes are 0xff already.
   */
  lemma LaidOutIsKeyIff(host: Endian, key: Key)
    ensures LaidOut(host, key) == key
            <==> host.Little? || key[3] < 0x80 || (key[0] == 0xff && key[1] == 0xff && key[2] == 0xff)
  {
    QuadOf(key);
    if host.Big? && key[3] >= 0x80 && LaidOut(host, key) == key {
      assert key[0] == LaidOut(host, key)[0] == 0xff;
      assert key[1] == LaidOut(host, key)[1] == 0xff;
      assert key[2] == LaidOut(host, key)[2] == 0xff;
    }
  }

  /**
   * On a big-endian host the key 0, 0, 0, 0x80 masks a zero byte to 0xff
   * where the rule leaves it 0.
   */
  lemma BigEndianCounterexample()
    ensures Oracle.Mask([0], LaidOut(Big, Quad(0, 0, 0, 0x80))) == [0xff]
    ensures Oracle.Mask([0], Quad(0, 0, 0, 0x80)) == [0]
  {
  }

  /**
   * `_mask(source, mask, output, offset, length)`: `wasmMask` at `output`'s
   * `offset`, in one pass over `source` cut to `length` bytes, or in chunks
   * of 64 KiB; the output is the rule's under `LaidOut(host, key)`.
   */
  method Mask(source: seq<byte>, key: Key, mem: seq<byte>, view: nat, viewLen: nat, offset: nat, length: nat,
              same: bool, staging: seq<byte>, host: Endian)
    returns (r: seq<byte>, staging': seq<byte>)
    requires view + viewLen <= |mem| && offset + length <= viewLen && length <= |source| && |staging| == MemorySize
    requires same ==> source == mem[view..view + viewLen]
    requires same && 0 < offset < length ==> length <= MemorySize
    ensures |staging'| == MemorySize
    ensures r == Place(mem, view + offset, Oracle.Mask(source[..length], LaidOut(host, key)))
  {
    r, staging' := Staging.StagedMask(Kernel(key), true, source, mem, view + offset, length, staging, host);
  }

  /** `_unmask(buffer, mask)`: `wasmMask` in place over the whole view, under `LaidOut(host, key)`. */
  method Unmask(mem: seq<byte>, view: nat, viewLen: nat, key: Key, staging: seq<byte>, host: Endian)
    returns (r: seq<byte>, staging': seq<byte>)
    requires view + viewLen <= |mem| && |staging| == MemorySize
    ensures |staging'| == MemorySize
    ensures r == Place(mem, view, Oracle.Mask(mem[view..view + viewLen], LaidOut(host, key)))
  {
    r, staging' := Staging.StagedUnmask(Kernel(key), mem, view, viewLen, staging, host);
  }

  /** `wasmMask` with the stand-in's `toLittleEndian` using `>>> 24`: the key on both hosts. */
  function KernelCorrected(key: Key): (k: Staging.Kernel)
    ensures Staging.Valid(k) && Staging.Size(k) == MemorySize
    ensures forall host :: Staging.KernelKey(k, host) == key
  {
    PackLELayout(key[0], key[1], key[2], key[3], Little);
    QuadOf(key);
    Staging.Execute(MaskWord(key), true)
  }

  /** `_mask` with the corrected stand-in: the rule on both hosts. */
  method MaskCorrected(source: seq<byte>, key: Key, mem: seq<byte>, view: nat, viewLen: nat, offset: nat,
                       length: nat, same: bool, staging: seq<byte>, host: Endian)
    returns (r: seq<byte>, staging': seq<byte>)
    requires view + viewLen <= |mem| && offset + length <= viewLen && length <= |source| && |staging| == MemorySize
    requires same ==> source == mem[view..view + viewLen]
    requires same && 0 < offset < length ==> length <= MemorySize
    ensures |staging'| == MemorySize
    ensures r == Place(mem, view + offset, Oracle.Mask(source[..length], key))
  {
    r, staging' := Staging.StagedMask(KernelCorrected(key), true, source, mem, view + offset, length, staging, host);
  }

  /** `_unmask` with the corrected stand-in: the rule on both hosts. */
  method UnmaskCorrected(mem: seq<byte>, view: nat, viewLen: nat, key: Key, staging: seq<byte>, host: Endian)
    returns (r: seq<byte>, staging': seq<byte>)
    requires view + viewLen <= |mem| && |staging| == MemorySize
    ensures |staging'| == MemorySize
    ensures r == Place(mem, view, Oracle.Mask(mem[view..view + viewLen], key))
  {
    r, staging' := Staging.StagedUnmask(KernelCorrected(key), mem, view, viewLen, staging, host);
  }
}
