# ws-masking in Dafny

This project models `ws-masking`, a family of JavaScript implementations
of the WebSocket payload mask of section 5.3 of RFC 6455. Every
implementation offers the same two entry points:

- `mask(source, mask, output, offset, length)` writes
  `source[i] ^ mask[i % 4]` for `i < length` into `output` at `offset`;
- `unmask(buffer, mask)` applies the same transformation to `buffer` in
  place.

The implementations differ in how they get there:

- byte loops;
- 32-bit and 64-bit word loops over `Int32Array`, `BigInt64Array` and
  `BigUint64Array` views;
- a DataView variant;
- a 16 KiB staging buffer that is processed in chunks;
- a JavaScript stand-in for a WebAssembly kernel, with drivers that grow
  the kernel memory or stream through it.

The project also models the `createFrame` header serialiser of the
benchmark backend, which builds the frame of section 5.2 of RFC 6455.

## How the model is built

- `Oracle.Mask` is the rule of section 5.3 of RFC 6455. It is a pure
  function on byte sequences. `Oracle.MaskFrom` is the same rule started
  at a key phase.
- The `ArrayBuffer` of an implementation is a `seq<byte>`. A `Uint8Array`
  is a window `(view, viewLen)` into it. `Memory.Place(m, at, data)` is
  `TypedArray.set`.
- An `Int32Array` element is four bytes laid out by the host byte order.
  The host byte order is an `Endian` parameter, because the source
  detects it at run time.
- 32-bit JavaScript arithmetic (`|0`, `>>`, `<<`, ToInt32) is written out
  as `bv32` arithmetic. `BigInt` keys are written out as `bv64`.
- Each implementation has one module, named after its file. The
  entry-point members of a module state the implementation's effect in
  terms of the oracle:
  - `r == Place(mem, view + offset, Oracle.Mask(source[..length], key))`
    for `mask`;
  - `r == Place(mem, view, Oracle.Mask(mem[view..view + viewLen], key))`
    for `unmask`.
- Where an implementation does not follow the rule, its members model the
  code as written. Lemmas characterise exactly when it agrees with the
  rule and give a concrete input where it does not. A `...Corrected`
  member with the evident fix is proved to follow the rule (see
  "Findings").
- `Memory.Masked` and `Memory.Written` are the loop invariants shared by
  all word loops. A `same` flag on a `mask` member says the caller passed
  the output array itself as the source. The byte loops of
  `assets/js.js` and `collections/legacy/js-legacy.js` make no copy, so
  they then read bytes they may already have rewritten.
  `Memory.WrittenOwn` is their loop invariant for that case. `Staging` is the chunked driver shared by the staged
  variants.
- `Frame` models `createFrame` together with an independent reader of the
  frame layout of section 5.2 of RFC 6455, `Frame.Parse`. It proves that every frame
  `createFrame` builds reads back as the flags, opcode, key and payload it
  was given.

## Model

| member | source | states |
|---|---|---|
| Oracle.MaskInvolutive | collections/js-simple.js:34-39 | Applying the mask twice with the same key gives back the input, so `unmask` inverts `mask` |
| Oracle.MaskFromConcat | collections/js-simple.js:13-27 | Masking a concatenation is masking each part, the second part starting at the key phase where the first part ends |
| Oracle.MaskFromRotKey | collections/zero-pool.js:74-90 | Masking from phase p equals masking from phase 0 with the key rotated by p |
| Oracle.MaskFromHalfTurn | collections/zero-pool.js:74-90 | Shifting the phase by two leaves the output unchanged exactly when the key repeats with period two |
| Oracle.MaskFromIsKeyStreamIff | collections/limited.js:52-56 | The masked output equals the bare key stream exactly when every payload byte is zero |
| Oracle.TailAssignedIsMaskIff | default.js:71-75 | Assigning the key to the trailing `length % 4` bytes, instead of XORing it in, agrees with the rule exactly when those bytes are zero |
| Oracle.TailAssignedCounterexample | default.js:71-75 | For payload [0,0,0,0,0xff] and key 1,2,3,4, byte 4 becomes 1 where the rule gives 0xfe |
| Bytes.KeyWord | index.js:23-27 | The host-aware `int32(k1, k2, k3, k4)` word, stored as an `Int32Array` element, lays the four key bytes out in order on either host |
| Bytes.PackLELayout | initialize.js:44-45 | The little-endian packing `k1 + k2*2^8 + k3*2^16 + (k4 << 24)` lays out as k1..k4 on a little-endian host and as k4..k1 on a big-endian one |
| Bytes.HeadKeyLayout | index.js:47-50 | The rotated key word used after an unaligned head of i bytes lays out as the key rotated by i |
| Bytes.DoubledLayout | collections/legacy/initialize-ubigint.js:79-87 | The key word doubled into 64 bits lays out as the four key bytes twice |
| Memory.MaskedFinal | index.js:37-86 | Masking done over the whole region is the rule placed at the region |
| Memory.StepWord32 | index.js:51-82 | XORing a host-order key word into an aligned word continues the masking by four bytes at the right phase |
| IndexJs.XorHead | index.js:44-49 | The byte loop masks exactly `min(length, (4 - byteOffset % 4) % 4)` bytes, and the address after them is aligned unless the payload ends first |
| IndexJs.XorWords | index.js:51-82 | The unrolled and plain word loops keep the masked prefix growing until fewer than four bytes remain |
| IndexJs.XorTail | index.js:83-85 | The trailing byte loop finishes the masking of the whole region |
| IndexJs.Mask | index.js:37-86 | `_mask` leaves `source[..length]` masked by the rule at `output[offset..]` and every other byte of the buffer unchanged |
| IndexJs.Unmask | index.js:93-137 | `_unmask` replaces the view with its masked image and changes nothing else |
| CollectionsJs.Mask | collections/js.js:13-31 | `mask` writes the rule's output at `offset` in `output` and nothing else |
| CollectionsJs.Unmask | collections/js.js:38-52 | `unmask` turns the buffer into its masked image |
| JsSimple.Mask | collections/js-simple.js:13-27 | The copy-then-XOR `mask` places the rule's output at `offset` |
| JsSimple.Unmask | collections/js-simple.js:34-39 | `unmask` turns the buffer into its masked image |
| AssetsJs.Mask | assets/js.js:13-25 | `mask` places the rule's output at `offset`, unless the output array is the source and the output window starts inside the payload; a same-array call keeps every byte outside the window and XORs the key into each payload byte as it stands when read |
| AssetsJs.MaskOwn | assets/js.js:13-25 | With the output array as its own source, bytes outside the window keep their values and output byte `q` is the key XORed into byte `q`, read after the earlier writes; at offset 0 or with `offset >= length` this is the rule placed at `offset` |
| AssetsJs.SameViewOverlap | assets/js.js:16-22 | Three zero bytes masked onto themselves at offset 1, length 2, key 1,2,3,4 give 0,1,3, not the rule's 0,1,2 |
| AssetsJs.Unmask | assets/js.js:32-45 | `unmask` turns the buffer into its masked image |
| JsLegacy.Mask | collections/legacy/js-legacy.js:23-47 | The unrolled legacy `mask` places the rule's output at `offset`, unless the output array is the source and the output window starts inside the payload; a same-array call keeps every byte outside the window and XORs the key into each payload byte as it stands when read |
| JsLegacy.MaskOwn | collections/legacy/js-legacy.js:23-47 | With the output array as its own source, bytes outside the window keep their values and output byte `q` is the key XORed into byte `q`, read after the earlier writes; at offset 0 or with `offset >= length` this is the rule placed at `offset` |
| JsLegacy.SameViewOverlap | collections/legacy/js-legacy.js:39-45 | Three zero bytes masked onto themselves at offset 1, length 2, key 1,2,3,4 give 0,1,3, not the rule's 0,1,2 |
| JsLegacy.Unmask | collections/legacy/js-legacy.js:54-67 | The legacy `unmask` turns the buffer into its masked image |
| JsSingleOptimized.Mask | collections/js-single-optimized.js:13-22 | The single-loop `mask` places the rule's output at `offset` |
| JsSingleOptimized.Unmask | collections/js-single-optimized.js:29-35 | The single-loop `unmask` turns the buffer into its masked image |
| Limited.FastMask | collections/limited.js:24-57 | `fastMask` throws a TypeError exactly for a partial view or an unaligned offset and then changes nothing; otherwise it masks the whole words and assigns the key to the trailing bytes |
| Limited.Mask | collections/limited.js:67-78 | `mask` throws before copying for an unaligned offset or a partial source, and after copying for a partial output; otherwise its effect is `MaskEffect`, which masks from byte 0 whatever the offset |
| Limited.Unmask | collections/limited.js:85-87 | `unmask` throws for a partial view; otherwise the whole words are masked and the trailing bytes get the key assigned |
| Limited.MaskEffectAtZeroIff | collections/limited.js:52-56 | At offset 0 the as-written effect equals the rule exactly when the trailing `length % 4` payload bytes are zero |
| Limited.MaskEffectIgnoresOffset | collections/limited.js:77 | At offset 4, four zero bytes are masked at bytes 0..3 instead of 4..7 |
| Limited.FastMaskCorrected | collections/limited.js:24-57 | With the tail XORed, `fastMask` keeps its throw conditions and otherwise leaves the rule's output at `offset` |
| Limited.MaskCorrected | collections/limited.js:67-78 | With the tail XORed and the offset passed on, `mask` keeps its throw cases and otherwise places the rule's output at `offset` |
| Limited.UnmaskCorrected | collections/limited.js:85-87 | The corrected `unmask` throws for a partial view and otherwise gives the masked image |
| ZeroPool.Mask | collections/zero-pool.js:37-107 | `_mask` places `Effect` at the output window: rule bytes in the head, leftover and tail, and whole words masked with a key rotated by the address residue |
| ZeroPool.Unmask | collections/zero-pool.js:114-181 | `_unmask` replaces the view with `Effect` of its contents |
| ZeroPool.EffectIsMaskIff | collections/zero-pool.js:74-90 | The as-written effect equals the rule exactly when the address residue is even, the payload is shorter than 8 bytes, or the key has period two |
| ZeroPool.EffectCounterexample | collections/zero-pool.js:74-90 | Eight zero bytes at residue 1 with key 1,2,3,4: byte 3 becomes 2 where the rule gives 4 |
| ZeroPool.PiecesCorrected | collections/zero-pool.js:49-105 | With the word key rotated by the head length, the four pieces together are the rule |
| ZeroPool.PartsDecide | collections/zero-pool.js:92 | The as-written and intended results differ only in the word piece, so they agree exactly when the word piece agrees |
| ZeroPool.MaskCorrected | collections/zero-pool.js:37-107 | `_mask` with the head-length rotation places the rule's output at `offset` |
| ZeroPool.UnmaskCorrected | collections/zero-pool.js:114-181 | `_unmask` with the head-length rotation gives the masked image of the view |
| DefaultJs.KernelIsMask | default.js:35-45 | The staged `jsMask` kernel XORs whole words and the final partial word, and gives the rule's output for any staged chunk |
| DefaultJs.SmallMask | default.js:89-94 | Below 64 bytes the byte loop places the rule's output at `offset` |
| DefaultJs.FastWords | default.js:55-70 | The word loop of `fastJsMask` masks the bytes up to the last multiple of four |
| DefaultJs.FastJsMask | default.js:55-78 | `fastJsMask` gives the whole-word mask followed by the key assigned to the trailing bytes |
| DefaultJs.FastJsMaskCorrected | default.js:55-78 | `fastJsMask` with the tail XORed gives the masked image |
| DefaultJs.StagedMask | default.js:106-137 | The staged path places the rule's output at `offset`, in one pass or in 16384-byte chunks |
| DefaultJs.StagedUnmask | default.js:158-184 | The staged `unmask` path gives the masked image of the view |
| DefaultJs.Mask | default.js:88-139 | On the fast path (64 bytes or more, in place, whole buffer) `_mask` assigns the tail; on every other path it places the rule's output |
| DefaultJs.Unmask | default.js:146-186 | On a whole buffer of 64 bytes or more `_unmask` assigns the tail; otherwise it gives the masked image |
| DefaultJs.FastPathCounterexample | default.js:96-104 | 65 bytes ending in 0xff with key 1,2,3,4: byte 64 becomes 1 where the rule gives 0xfe |
| DefaultJs.MaskCorrected | default.js:88-139 | `_mask` with the fast path's tail XORed places the rule's output on every path |
| DefaultJs.UnmaskCorrected | default.js:146-186 | `_unmask` with the fast path's tail XORed gives the masked image on every path |
| Staging.KernelOutIsMaskIff | collections/initialize-bigint.js:41 | A staged kernel's output equals the rule exactly when it keeps no half word, or the key is zero |
| Staging.StagedMask | default.js:110-137 | For any staged kernel, the chunked driver places the kernel's output for `source[..length]` at the output window and nothing else |
| Staging.StagedUnmask | default.js:162-184 | For any staged kernel, the chunked driver replaces the view with the kernel's output for it |
| InitializeJs.KernelOutLaidOut | initialize.js:23-33 | The `jsMask` kernel with the little-endian-packed key masks with the key as the host lays that word out |
| InitializeJs.Mask | initialize.js:43-75 | On a little-endian host `_mask` places the rule's output; on a big-endian one it uses the key reversed |
| InitializeJs.Unmask | initialize.js:82-109 | On a little-endian host `_unmask` gives the masked image; on a big-endian one it uses the reversed key |
| InitializeJs.LaidOutIsKeyIff | initialize.js:44-45 | The effective key is the real key exactly on a little-endian host or for a palindromic key |
| InitializeJs.BigEndianCounterexample | initialize.js:44-45 | With key 1,2,3,4 on a big-endian host, a zero byte masks to 4 instead of 1 |
| InitializeJs.MaskCorrected | initialize.js:43-75 | With the host-aware key word, `_mask` places the rule's output on either host |
| InitializeJs.UnmaskCorrected | initialize.js:82-109 | With the host-aware key word, `_unmask` gives the masked image on either host |
| CollectionsInitialize.Mask | collections/initialize.js:66-99 | The endian-switched key and the eight-word unrolled kernel place the rule's output on either host |
| CollectionsInitialize.Unmask | collections/initialize.js:106-135 | The `>> 0` key of `_unmask` is the same 32 bits; `_unmask` gives the masked image on either host |
| InitializeBigint.BigIntKeyDoubled | collections/initialize-bigint.js:56-71 | `BigInt(u) + (BigInt(s) << 32n)` stored modulo 2^64 is the 32-bit key word doubled, whatever its sign |
| InitializeBigint.KernelOutAsWritten | collections/initialize-bigint.js:35-45 | The kernel gives the rule unless `length % 8 == 4`, when the last four bytes pass through unmasked |
| InitializeBigint.Mask | collections/initialize-bigint.js:55-101 | `_mask` places the rule's output, except that for `length % 8 == 4` the last four bytes are copied unmasked |
| InitializeBigint.Unmask | collections/initialize-bigint.js:108-149 | `_unmask` gives the masked image, except that for `length % 8 == 4` the last four bytes keep their value |
| InitializeBigint.KernelIsMaskIff | collections/initialize-bigint.js:41 | The as-written kernel agrees with the rule exactly when `length % 8 != 4` or the key is all zeros |
| InitializeBigint.HalfWordCounterexample | collections/initialize-bigint.js:41 | Four zero bytes with key 1,2,3,4 stay zero where the rule gives 1,2,3,4 |
| InitializeBigint.MaskCorrected | collections/initialize-bigint.js:55-101 | Testing `length & 7`, `_mask` places the rule's output |
| InitializeBigint.UnmaskCorrected | collections/initialize-bigint.js:108-149 | Testing `length & 7`, `_unmask` gives the masked image |
| InitializeUbigint.UBigIntKeyDoubled | collections/legacy/initialize-ubigint.js:79-87 | The unsigned 64-bit key built from the word is the word doubled |
| InitializeUbigint.Kernel | collections/legacy/initialize-ubigint.js:36-52 | The `BigUint64Array` kernel gives the rule's output for every chunk |
| InitializeUbigint.Mask | collections/legacy/initialize-ubigint.js:62-123 | `_mask` places the rule's output, the source being truncated to `length` first |
| InitializeUbigint.Unmask | collections/legacy/initialize-ubigint.js:130-179 | `_unmask` gives the masked image of the view |
| InternalJsModule.ToLittleEndianBigIff | collections/internal-js-module.js:30-37 | On a big-endian host the as-written conversion lays the word out little-endian exactly when the top byte is below 0x80 or the three lower bytes are 0xff |
| InternalJsModule.ToLittleEndianCounterexample | collections/internal-js-module.js:30-37 | 0x80000000 converts to 0xffffff80 instead of 0x00000080 |
| InternalJsModule.ToLittleEndianCorrectedLayout | collections/internal-js-module.js:30-37 | With `>>>`, the converted word stored in host order lies in memory as the original word would on a little-endian machine |
| InternalJsModule.Execute | collections/internal-js-module.js:40-52 | `_execute` masks the first multiple of 16 bytes at or above `length` with the converted key and leaves the rest of memory unchanged |
| InternalJsModule.ExecuteCorrected | collections/internal-js-module.js:40-52 | With the corrected conversion, `_execute` masks with the little-endian layout of `mask` on either host |
| InternalJsModule.Grow | collections/internal-js-module.js:55-62 | `grow` throws for every page count |
| WasmSync.LaidOutIsKeyIff | collections/initialize-wasm-sync.js:72-80 | The key the kernel applies is the real key exactly on a little-endian host, or when key[3] < 0x80, or when the first three key bytes are 0xff |
| WasmSync.BigEndianCounterexample | collections/initialize-wasm-sync.js:72-80 | On a big-endian host with key 0,0,0,0x80, a zero byte masks to 0xff instead of 0 |
| WasmSync.Mask | collections/initialize-wasm-sync.js:90-126 | `_mask` through the stand-in kernel places the payload masked with the key the kernel applies |
| WasmSync.Unmask | collections/initialize-wasm-sync.js:133-157 | `_unmask` through the stand-in kernel gives the view masked with the key the kernel applies |
| WasmSync.MaskCorrected | collections/initialize-wasm-sync.js:90-126 | With the zero-filling conversion, `_mask` places the rule's output on either host |
| WasmSync.UnmaskCorrected | collections/initialize-wasm-sync.js:133-157 | With the zero-filling conversion, `_unmask` gives the masked image on either host |
| WasmGrowup.TruncPages | collections/legacy/wasm-growup.js:64 | The page count that `memory.grow` takes is the argument truncated toward zero |
| WasmGrowup.Grow | collections/legacy/wasm-growup.js:64 | `memory.grow` adds whole 64 KiB pages; a negative count or the JavaScript stand-in throws |
| WasmGrowup.GlowUp | collections/legacy/wasm-growup.js:62-68 | When the memory already fits, `glowUp` leaves its size alone |
| WasmGrowup.GlowUpNeverFits | collections/legacy/wasm-growup.js:62-68 | As written, `glowUp` never enlarges the memory: it throws exactly on the stand-in or when at least a page is missing, and otherwise keeps the old size |
| WasmGrowup.GlowUpCounterexample | collections/legacy/wasm-growup.js:62-68 | A 65537-byte payload leaves 65536 bytes; a 200000-byte payload throws |
| WasmGrowup.GlowUpCorrected | collections/legacy/wasm-growup.js:62-68 | With `Math.ceil((length - memorySize) / 65536)` pages, the memory grows to the smallest page multiple that holds the payload |
| WasmGrowup.Mask | collections/legacy/wasm-growup.js:102-114 | `_mask` fails exactly when the payload exceeds the memory; otherwise it places the payload masked with the kernel's key |
| WasmGrowup.Unmask | collections/legacy/wasm-growup.js:121-127 | `_unmask` fails exactly when the view exceeds the memory; otherwise it gives the view masked with the kernel's key |
| WasmStream.PhaseWord | collections/legacy/wasm-stream.js:100-107 | The word picked for the current phase is the packing of the key rotated by that phase |
| WasmStream.Write | collections/legacy/wasm-stream.js:94-116 | `Stream.write` throws exactly above 65536 bytes; otherwise it advances the phase by the length and, on a little-endian host, masks from the current phase |
| WasmStream.WriteAll | collections/legacy/wasm-stream.js:94-116 | Successive writes on a little-endian host mask their concatenation as one payload from the starting phase |
| WasmStream.ContinuePhase | collections/legacy/wasm-stream.js:113 | Carrying `(phase + length) % 4` over to the next write continues the mask exactly |
| WasmStream.NextSlice | collections/legacy/wasm-stream.js:145-166 | Each slice starts at the saved offset and spans at most 65536 bytes; a short slice is the last one; `null` only once the offset reaches the end |
| WasmStream.NextSliceAgreeIff | collections/legacy/wasm-stream.js:148-157 | The as-written slicing agrees with the intended one at every offset exactly when the payload is not empty |
| WasmStream.EmptyNeverNull | collections/legacy/wasm-stream.js:121-127 | For an empty payload the writer returns an empty slice instead of `null`, so the drain loop does not stop |
| WasmStream.NextSliceCorrected | collections/legacy/wasm-stream.js:145-166 | The corrected writer returns `null` exactly when the offset has reached the end, and otherwise a non-empty slice |
| WasmStream.Slices | collections/legacy/wasm-stream.js:121-127 | The corrected slices are non-empty, at most 65536 bytes, and concatenate to the rest of the payload |
| WasmStream.WriterWrite | collections/legacy/wasm-stream.js:145-166 | `StreamWriter.write` returns `null` exactly when `NextSlice` does; otherwise it masks that slice from the stream's phase and moves the offset |
| WasmStream.DrainWriter | collections/legacy/wasm-stream.js:121-127 | Draining a fresh writer on a little-endian host gives the whole payload masked by the rule |
| Dataview.Mask | collections/legacy/dataview.js:38-65 | As written, `_mask` follows the rule for payloads of at most four bytes, also over its own view unless the output overlaps the payload a few bytes further on; called in place it computes exactly what `_unmask` does |
| Dataview.MaskWrongFromFive | collections/legacy/dataview.js:52-64 | For every length of five or more, zeros masked with key 1,1,1,1 differ from the rule |
| Dataview.Unmask | collections/legacy/dataview.js:73-96 | As written, `_unmask` follows the rule for views of at most four bytes |
| Dataview.UnmaskWrongFromFive | collections/legacy/dataview.js:85-95 | For every length of five or more, unmasking zeros with key 1,1,1,1 differs from the rule |
| Dataview.MaskCorrected | collections/legacy/dataview.js:38-65 | With word `i` at byte `4 * i` and the tail key `mask[i & 3]`, `_mask` places the rule's output at `offset` |
| Dataview.UnmaskCorrected | collections/legacy/dataview.js:73-96 | With word `i` at byte `4 * i` and the tail key `mask[i & 3]`, `_unmask` gives the masked image |
| Frame.HeaderSizeRead | benchmarks/mask-backend.mjs:55-67 | The payload offset `createFrame` computes is where a reader of section 5.2 of RFC 6455 finds the payload after reading the length code and mask bit from byte 1 |
| Frame.FirstByte | benchmarks/mask-backend.mjs:69-90 | Byte 0 carries FIN, RSV1, RSV2 and RSV3 in bits 7..4 exactly when the flags have them, and the low nibble of the opcode |
| Frame.SecondByte | benchmarks/mask-backend.mjs:92-116 | Byte 1 has the MASK bit exactly when the flags ask for it, and the 7-bit length code below it |
| Frame.LengthField | benchmarks/mask-backend.mjs:97-116 | The extended length field is 0, 2 or 8 bytes and reads back big-endian as the payload length |
| Frame.CreateFrame | benchmarks/mask-backend.mjs:54-134 | `createFrame` throws exactly above 0x7fffffff bytes; otherwise the frame is the header followed by the payload (masked when MASK is set), and it parses back to the given flags, opcode, key and payload |
| Frame.ParseFrame | benchmarks/mask-backend.mjs:54-134 | A header from `createFrame` followed by the (masked) payload reads back as the given fields, key and payload |
| Frame.RuleMaskMeetsRule | benchmarks/mask-backend.mjs:127 | A mask callback that follows the rule meets what `createFrame` expects of its callback |
| Vectors.WsMaskInPlace | testing/ws.js:32-42 | In-place masking of the eight-byte vector with key 48 2a ce 24 gives the expected bytes |
| Vectors.WsMaskAtOffset | testing/ws.js:44-55 | Masking into a zeroed buffer at offset 2 gives two zeros and then the expected bytes |
| Vectors.WsUnmask | testing/ws.js:57-67 | Unmasking the masked vector gives back the plain bytes |
| Vectors.WsVector | testing/ws.js:32-67 | The rule maps the eight-byte vector to the expected bytes with key 48 2a ce 24, and those bytes back to the vector |
| Vectors.MaskCycling | testing/_test/test.js:12-26 | Sixteen bytes masked with key 1,2,3,4 give the expected cycle |
| Vectors.CyclingVector | testing/_test/test.js:12-26 | The rule maps the sixteen-byte vector to the expected output and back |
| Vectors.MaskPartialWindow | testing/_test/test.js:28-37 | Masking three of five bytes into an 0xee-filled buffer at offset 2 changes only those three bytes |
| Vectors.MaskNothing | testing/_test/test.js:39-55 | A length of 0 leaves the output unchanged, whatever the source |
| Vectors.UnmaskCycling | testing/_test/test.js:59-70 | Unmasking the sixteen masked bytes gives back the original |
| Vectors.UnmaskShort | testing/_test/test.js:73-79 | Unmasking ab b9 with key 1,2,3,4 gives aa bb |

## Left out

- The WebAssembly binaries are not modelled. Every WebAssembly driver is
  modelled over the JavaScript stand-in kernel of
  `collections/internal-js-module.js`, which is what runs when
  `WebAssembly` is undefined.
- Host byte order detection is not modelled; the host order is an `Endian`
  parameter of every member that depends on it.
- Mask key generation is not modelled. The random key of `generateMask`
  is a parameter of `Frame.CreateFrame`.
- The contents of `Buffer.allocUnsafeSlow` are a parameter. Every byte of
  the allocation is overwritten, so the model shows they do not matter.
- Payloads of 2^31 bytes or more are not modelled. The source's `>>` and
  `&` work on 32-bit signed integers, and `ArrayBuffer` allocation fails
  long before that size.
- A source window that overlaps the output window without being the same
  view is left out. Callers that alias the two use the same view.
- The key is exactly four bytes (`Bytes.Key`). The source accepts a
  `mask` array of any length. Only `collections/legacy/dataview.js` reads
  it past index 3. With a longer array it would read real key bytes there
  instead of `undefined`.
- On the byte-loop and chunked paths of `default.js`, `initialize.js`,
  `collections/initialize.js`, `collections/initialize-bigint.js`,
  `collections/legacy/initialize-ubigint.js` and
  `collections/initialize-wasm-sync.js`, a same-view call whose output
  window starts inside the payload (`0 < offset < length`) is left out.
  There the source reads bytes it has already rewritten. The `Mask`
  members of those modules require that such a call takes the one-pass
  path. Same-view calls at offset 0 or with `offset >= length` are
  modelled.
- The staged variants throw a `RangeError` when `source` is larger than
  the staging buffer on the one-pass path. The model states this as a
  precondition and does not model the throw.
- Promises, module getters, `initialize` plumbing and module caching are
  not modelled. They do not touch payload bytes.
- The real `WebAssembly.Memory.grow` page limit is not modelled. `Grow`
  grows by any non-negative page count.
- The benchmark harnesses and timing code are not modelled. This includes
  everything in `benchmarks/` apart from `createFrame`.
- `scripts/pretypes.mjs` and the `types/*.d.ts` declarations are not part
  of this model.
- WasmStream.Write, WasmStream.WriteAll, WasmStream.WriterWrite and
  WasmStream.DrainWriter state the rule only on a little-endian host. On
  a big-endian host they state the output with the key the stand-in
  kernel applies, which is covered by the WasmSync findings.
- Frame.CreateFrame states the frame contents only when the mask callback
  meets the rule, when MASK is clear, or when the payload is empty. The
  callback is an arbitrary function of the caller. Its throw condition is
  stated for every callback.
- Dataview.Mask and Dataview.Unmask state the rule only up to four bytes.
  Over its own view with `0 < offset < length < 4`, Dataview.Mask states
  nothing, because the byte loop reads bytes it has already rewritten.
  From five bytes on they do not follow it, which
  Dataview.MaskWrongFromFive and Dataview.UnmaskWrongFromFive prove.
- Reuse of one `StreamWriter` with a different payload after it returned
  `null` is not modelled.

## Findings

| source | as written | input that shows it | evidently intended | confidence | as-written member | corrected member |
|---|---|---|---|---|---|---|
| collections/zero-pool.js:74-90 | After a head of `4 - b` bytes (b = address residue) the word key is rotated by `b` | residue 1, eight zero bytes, key 1,2,3,4: byte 3 is 2 instead of 4 | rotate by the head length `(4 - b) % 4` | not executed | ZeroPool.EffectCounterexample | ZeroPool.MaskCorrected |
| default.js:71-75 | The fast path's tail assigns `mask[i & 3]` instead of XORing it | 65 bytes ending in 0xff, key 1,2,3,4: byte 64 is 1 instead of 0xfe | `source[i] ^= mask[i & 3]` | not executed | DefaultJs.FastPathCounterexample | DefaultJs.MaskCorrected |
| collections/limited.js:52-56 | The tail assigns the key instead of XORing it | payload [0,0,0,0,0xff], key 1,2,3,4: byte 4 is 1 instead of 0xfe | `source[i] ^= mask[i & 3]` | not executed | Oracle.TailAssignedCounterexample | Limited.FastMaskCorrected |
| collections/limited.js:77 | `mask` calls `fastMask(output, mask, 0, length)`, so it masks from byte 0 whatever the offset | offset 4, four zero bytes: bytes 0..3 get masked, 4..7 stay zero | pass `offset` to `fastMask` | not executed | Limited.MaskEffectIgnoresOffset | Limited.MaskCorrected |
| initialize.js:44-45 | The key word is the little-endian packing on every host | big-endian host, key 1,2,3,4: a zero byte masks to 4 instead of 1 | the host-aware word `int32(...)` | not executed | InitializeJs.BigEndianCounterexample | InitializeJs.MaskCorrected |
| collections/initialize-bigint.js:41 | The partial 64-bit word is masked only when `(length & 3) !== 0` | four zero bytes, key 1,2,3,4: they stay zero instead of 1,2,3,4 | test `(length & 7) !== 0` | not executed | InitializeBigint.HalfWordCounterexample | InitializeBigint.MaskCorrected |
| collections/internal-js-module.js:30-37 | On a big-endian host the top byte is moved down with the sign-extending `>>` | 0x80000000 converts to 0xffffff80 | `>>> 24` | not executed | InternalJsModule.ToLittleEndianCounterexample | InternalJsModule.ExecuteCorrected |
| collections/initialize-wasm-sync.js:72-80 | Only on the JavaScript stand-in path, where `WebAssembly` is undefined (lines 20-25): the packed key, correct for a real little-endian kernel, goes through the stand-in's sign-extending `toLittleEndian` (collections/internal-js-module.js:30-37), so key bytes 0..2 become 0xff when key[3] >= 0x80 on a big-endian host | key 0,0,0,0x80, big-endian host: a zero byte masks to 0xff instead of 0 | a zero-filling conversion | not executed | WasmSync.BigEndianCounterexample | WasmSync.MaskCorrected |
| collections/legacy/wasm-growup.js:62-68 | `memory.grow(Math.ceil(memorySize - length) / 65536)` asks for a negative or fractional page count | memory 65536, length 65537: nothing grows; length 200000: `grow` throws | `Math.ceil((length - memorySize) / 65536)` pages | not executed | WasmGrowup.GlowUpCounterexample | WasmGrowup.GlowUpCorrected |
| collections/legacy/wasm-stream.js:148-157 | For an empty payload the first branch leaves `#offset` at 0, so `write` never returns `null` | an empty payload: every call returns an empty slice | return `null` once the whole payload is written | not executed | WasmStream.EmptyNeverNull | WasmStream.NextSliceCorrected |
| collections/legacy/dataview.js:52-64 | `setInt32(i, ...)` writes word `i` at byte `i` instead of `4 * i`, and the tail reads `mask[i]`, which is undefined past index 3 | five zero bytes, key 1,1,1,1 | byte offset `i << 2` and `mask[i & 3]` | not executed | Dataview.MaskWrongFromFive | Dataview.MaskCorrected |
