# Modulated delay (OpenAudio F32) — Dafny model

A model of the circular delay line at the core of `AudioEffectModulatedDelay_F32`.
The caller lends the node a buffer of `float`s. `begin` adopts the first
`d_length` slots as a ring and zero-fills them. Each call to `update` then
processes one audio block against one modulation block, sample by sample:

- write the input sample at the write cursor;
- scale the modulation value by the centre offset (half the ring) and split it
  with `modff` into an integral part and a fraction;
- read the slot `offset + integral part` behind the cursor and its wrapping
  neighbour;
- replace the audio sample in place by the two-tap blend of those slots.

The project has two files:

- `DelayLineSpec.dfy` (module `DelayLineSpec`) holds the pure specification:
  - `ModSplit`, `modff` on exact reals;
  - the read-index and neighbour-index arithmetic and the blend;
  - `LineOf`, the contents of the ring after any history of writes since `begin`;
  - `Emit`, the sample one step produces, as a function of that history.

  The lemmas prove:
  - every index lands inside the ring;
  - a write changes exactly one slot;
  - the ring holds the last `length` inputs;
  - zero modulation is an exact fixed delay.
- `ModulatedDelay.dfy` (module `ModulatedDelayF32`) holds the class
  `ModulatedDelay`. Its fields are the buffer, cursor, length and offset of the
  C++ object, plus a ghost `History` of the samples written since `begin`. Its
  invariant `Valid()` ties the buffer's first `length` slots to
  `LineOf(History, length)` and the cursor to the number of samples written.
  `Begin`, `GetDelayLength`, `Update` and the per-sample loop are imperative
  methods proved against the specification functions.

Points where the code's behaviour is easy to misread:

- With zero modulation the output is the input delayed by `length / 2 - 1`
  samples (49 for a ring of 100), not by `length / 2`. The neighbour slot gets
  weight `1 - fraction`, and the neighbour of the slot `offset` behind the
  cursor is one slot newer. `ZeroModulationIsFixedDelay` and `ImpulseScenario`
  state the delay the code produces.
- The code does not clamp the modulation input to [-1, 1]. A value outside
  that range can drive the read index out of the ring
  (`UnboundedModulationEscapesRing`). `Update` therefore requires the range of
  its callers.
- An uninitialised node does not pass audio through: `update` returns before
  it receives any block.
- There is no operation that sets the delay in milliseconds. `delay(float)` is
  declared in `effect_modulated_delay_F32.h` but defined in neither of the two
  source files.

## Model

| member | source | states |
|---|---|---|
| DelayLineSpec.ModSplit | effect_modulated_delay_F32.cpp:93 | `modff`: integral part plus fraction equals the input, the fraction lies strictly between -1 and 1, and both parts carry the sign of the input (truncation toward zero) |
| DelayLineSpec.ModNumberBounded | effect_modulated_delay_F32.cpp:92-93 | for modulation in [-1, 1], the integral part of `m * offset` lies within ±offset |
| DelayLineSpec.ModulationSplit | effect_modulated_delay_F32.cpp:92-93 | the per-sample split of `m * offset` keeps its integral part within ±offset; zero modulation splits into integral part 0 and fraction 0 |
| DelayLineSpec.ReadIndex | effect_modulated_delay_F32.cpp:96-98 | the signed read index `cursor - (offset + number)` with one `+length` correction when it is negative; it has no contract of its own, and `ReadIndexInRange` states its range and its value modulo the length |
| DelayLineSpec.ReadIndexInRange | effect_modulated_delay_F32.cpp:96-98 | with the cursor in the ring and the integral part within the offset, `cursor - (offset + number)` plus one `+length` correction lies in [0, length) and equals the remainder modulo the length |
| DelayLineSpec.NeighborIndex | effect_modulated_delay_F32.cpp:100-103 | for a read index in the ring, the neighbour is in the ring and equals `(read + 1) mod length` |
| DelayLineSpec.NeighborIndexAsWritten | effect_modulated_delay_F32.cpp:76 | the neighbour as stored in an `int16_t` always lies in [-32768, 32767] |
| DelayLineSpec.ToInt16 | effect_modulated_delay_F32.cpp:103 | conversion to `int16_t` yields a value in [-32768, 32767] that is congruent to its input modulo 65536 |
| DelayLineSpec.NeighborAsWrittenAgrees | effect_modulated_delay_F32.cpp:100-103 | on rings of at most 32768 slots, the 16-bit neighbour equals the wrapping neighbour |
| DelayLineSpec.NeighborAsWrittenOverflows | effect_modulated_delay_F32.cpp:100-105 | on a ring of 40000 slots with zero modulation, the read index 32767 is reached and its 16-bit neighbour is -32768 |
| DelayLineSpec.Blend | effect_modulated_delay_F32.cpp:105 | the blend is the neighbour moved toward the read slot by the fraction of their difference; fraction 0 gives the neighbour exactly, and equal taps give that value |
| DelayLineSpec.CursorAfter | effect_modulated_delay_F32.cpp:88-110 | the stored cursor never exceeds the length, and the wrap at the head of the next step sends it to slot `n mod length` after `n` samples |
| DelayLineSpec.LineOf | effect_modulated_delay_F32.cpp:52-89 | the ring written from a zeroed state always has exactly `length` slots |
| DelayLineSpec.LineAppend | effect_modulated_delay_F32.cpp:89 | writing one more sample changes exactly the slot `n mod length` of the ring |
| DelayLineSpec.LineRecent | effect_modulated_delay_F32.cpp:88-110 | the slot `d` writes behind the latest one holds the sample written `d` steps ago, for every `d < length` |
| DelayLineSpec.DistinctSlots | effect_modulated_delay_F32.cpp:88-110 | two writes fewer than `length` steps apart go to different slots |
| DelayLineSpec.LineUnwritten | effect_modulated_delay_F32.cpp:52 | a slot the history has not reached still holds the zero written by `begin` |
| DelayLineSpec.Emit | effect_modulated_delay_F32.cpp:88-105 | the sample one loop pass writes back to `*bp`, as a function of the history since `begin` and the split modulation index; it has no contract of its own, and `EmitAt` (its taps and blend) and `ZeroModulationIsFixedDelay` (its value without modulation) describe it |
| DelayLineSpec.EmitAt | effect_modulated_delay_F32.cpp:96-105 | both taps of a step lie in the ring, and the emitted sample is their blend in the ring after the write |
| DelayLineSpec.CentreNeighbor | effect_modulated_delay_F32.cpp:96-103 | without modulation the neighbour tap is the slot `offset - 1` writes behind the current one |
| DelayLineSpec.ZeroModulationIsFixedDelay | effect_modulated_delay_F32.cpp:88-110 | with zero modulation, step `n` outputs input `n - (length/2 - 1)`, and 0.0 while that index is negative |
| DelayLineSpec.ImpulseEchoesAtStep49 | effect_modulated_delay_F32.cpp:88-110 | on a ring of 100 slots, a unit impulse at step 0 comes out at step 49 and nowhere else |
| DelayLineSpec.ImpulseBlock | effect_modulated_delay_F32.cpp:85-111 | the same over a 60-sample block with all-zero modulation |
| DelayLineSpec.UnboundedModulationEscapesRing | effect_modulated_delay_F32.cpp:92-98 | modulation 2.0 on a ring of 10 slots gives a negative read index from cursor 0, despite the single correction |
| ModulatedDelayF32.ModulatedDelay.Valid | effect_modulated_delay_F32.h:65-70 | the object invariant over the fields `_delayline`, `_cb_index`, `_delay_length` and `_delay_offset`. Uninitialised means no buffer and zero counters. Ready means the ring lies inside the buffer, has at least 10 and fewer than 65536 slots, and has its offset at half the length. The cursor sits where the samples written since `begin` leave it, and the ring holds `LineOf` of those samples. It is a predicate, kept by every method. |
| ModulatedDelayF32.ModulatedDelay.constructor | effect_modulated_delay_F32.h:50-54 | a new node records its sample rate, has no delay line, and satisfies the invariant |
| ModulatedDelayF32.ModulatedDelay.Begin | effect_modulated_delay_F32.cpp:38-56 | the node is reset first. It succeeds exactly when the buffer is present and the length is at least 10. On success the ring is the buffer's first `d_length` slots, all zero, with the cursor at 0, offset `d_length/2`, and the rest of the buffer unchanged. On failure the node is uninitialised and the buffer untouched. |
| ModulatedDelayF32.ModulatedDelay.GetDelayLength | effect_modulated_delay_F32.cpp:58-61 | returns the active delay length, which fits in 16 bits |
| ModulatedDelayF32.ModulatedDelay.ReadTap | effect_modulated_delay_F32.cpp:96-105 | both taps lie in the ring, and the result is the blend of the slot `offset + number` behind the cursor and its wrapping neighbour; nothing changes |
| ModulatedDelayF32.ModulatedDelay.ProcessSample | effect_modulated_delay_F32.cpp:88-110 | one loop pass keeps the invariant and appends the input to the history. It writes the input to slot `n mod length` and leaves every other buffer slot unchanged. It returns `Emit` of the extended history. |
| ModulatedDelayF32.ModulatedDelay.ProcessBlock | effect_modulated_delay_F32.cpp:85-111 | every input sample is appended to the history in order, and sample `i` of the block is replaced by `Emit` of the history up to and including it; the buffer beyond the ring is unchanged |
| ModulatedDelayF32.ModulatedDelay.Update | effect_modulated_delay_F32.cpp:63-121 | when uninitialised or when either block is missing, the ring, cursor, history and audio block are unchanged. Otherwise every sample of the audio block is replaced by the `Emit` of the history through it under its own modulation value, and the history grows by the whole input block. |
| ModulatedDelayF32.ImpulseScenario | effect_modulated_delay_F32.cpp:38-121 | `begin` with 100 slots, then one 60-sample block holding a unit impulse with zero modulation, outputs 1.0 at index 49 and 0.0 everywhere else |

## Left out

- Audio stream plumbing is not modelled: `receiveWritable_f32`, `receiveReadOnly_f32`, `transmit` and `release`. `Update` takes the two blocks as parameters, possibly null, and the audio block it leaves behind is what would be transmitted.
- Samples are exact reals. The 32-bit float rounding of the product, the `modff` split and the blend is not modelled.
- `_delay_offset` is a `float` in the code. It always holds an integer below 32768, so the model uses a `nat`.
- `cb_mod_index` is declared in neither `effect_modulated_delay_F32.h` nor `effect_modulated_delay_F32.cpp`. The model treats it as an unbounded integer.
- `delay(float ms)` is declared in `effect_modulated_delay_F32.h` but not defined in either source file, so it is not part of this model. Neither is `_max_delay_length`, which nothing in these two files sets.
- `get_mod_delay_ms` is not modelled. It reads the field `_mod_index`, which nothing in these two files writes. The loop uses a local `mod_index` instead.
- The default constructor's `AUDIO_SAMPLE_RATE_EXACT` constant is not modelled. The sample rate is a constructor parameter, and nothing modelled reads it.
- The C++ constructors leave the buffer pointer and counters uninitialised. The model starts a new node with no buffer and zero counters, the state a refused `begin` also produces.
- ModulatedDelayF32.ModulatedDelay.Update requires modulation values in [-1, 1] and a block shorter than 65536 samples. The code neither clamps the modulation nor can count past 65535 with its 16-bit loop counter.
- ModulatedDelayF32.ModulatedDelay.Update computes all modulation splits before the loop, not inside it. The result is the same, because the modulation block is read-only and the offset is constant during `update`.
- ModulatedDelayF32.ModulatedDelay.Update and ProcessBlock require the audio block, the modulation block and the delay line to be distinct arrays. Aliasing between them is not modelled.
- Concurrency between the audio interrupt and calls to `begin` is not modelled.
- The class uses the corrected neighbour index (`NeighborIndex`). For rings longer than 32768 slots, the 16-bit overflow recorded under Findings is therefore not reproduced by `Update`.

## Findings

| source | as written | input that shows it | evidently intended | confidence | as-written member | corrected member |
|---|---|---|---|---|---|---|
| effect_modulated_delay_F32.cpp:76 | `cb_mod_index_neighbor` is `int16_t`, so `read + 1` wraps when the read index is 32767 | `begin` with a ring of 40000 slots, zero modulation, a step whose cursor is at slot 12767: the read index is 32767 and the neighbour becomes -32768, a read before the buffer | the neighbour is `read + 1` wrapping only at `length - 1`, which is in range for every length `begin` accepts (up to 65535) | medium, not executed (assumes the usual two's-complement conversion to `int16_t`) | DelayLineSpec.NeighborAsWrittenOverflows | DelayLineSpec.NeighborIndex |
