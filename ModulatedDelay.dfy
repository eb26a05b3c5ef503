// The modulated delay node: a caller-supplied delay line used as a ring of
// `delayLength` slots, a write cursor, and the centre offset around which the
// modulation input swings the read point.

module ModulatedDelayF32 {
  import opened DelayLineSpec

  class ModulatedDelay {
    /** Sample rate given at construction; nothing in the modelled code reads it. */
    var sampleRateHz: real
    /** The caller's buffer; null until a successful `Begin`. */
    var delayline: array?<real>
    /** Write cursor (`uint16_t`). */
    var cbIndex: nat
    /** Number of ring slots in use (`uint16_t`). */
    var delayLength: nat
    /** Centre of the modulation window, half the delay length. */
    var delayOffset: nat
    /** Every sample written since the last successful `Begin`, oldest first. */
    ghost var History: seq<real>

    /** Object invariant. Uninitialised: no buffer and all counters zero.
        Ready: the ring lies inside the buffer, fits 16 bits, the offset is
        half the length, the cursor is where `History` left it, and the ring
        holds exactly what writing `History` into a zeroed ring produces. */
    ghost predicate Valid()
      reads this, delayline
    {
      if delayline == null then
        delayLength == 0 && cbIndex == 0 && delayOffset == 0 && History == []
      else
        MinDelayLength <= delayLength <= delayline.Length && delayLength < U16Limit
        && delayOffset == delayLength / 2
        && cbIndex == CursorAfter(|History|, delayLength)
        && delayline[..delayLength] == LineOf(History, delayLength)
    }

    /** A new node has only its sample rate set and is not ready to process. */
    constructor (sampleRateHz: real)
      ensures Valid() && delayline == null
      ensures this.sampleRateHz == sampleRateHz
    {
      this.sampleRateHz := sampleRateHz;
      delayline := null;
      cbIndex, delayLength, delayOffset := 0, 0, 0;
      History := [];
    }

    /** Resets the node, then adopts `buffer` as a ring of `dLength` zeroed
        slots if the buffer is present and long enough. A refused call leaves
        the node uninitialised and the buffer untouched. */
    method Begin(buffer: array?<real>, dLength: nat) returns (ok: bool)
      requires dLength < U16Limit
      requires buffer != null && MinDelayLength <= dLength ==> dLength <= buffer.Length
      modifies this, buffer
      ensures Valid()
      ensures ok == (buffer != null && MinDelayLength <= dLength)
      ensures ok ==> delayline == buffer && delayLength == dLength && cbIndex == 0
                     && delayOffset == dLength / 2 && History == []
      ensures ok ==> forall i :: 0 <= i < dLength ==> buffer[i] == 0.0
      ensures ok ==> buffer[dLength..] == old(buffer[dLength..])
      ensures !ok ==> delayline == null && delayLength == 0 && cbIndex == 0 && delayOffset == 0
      ensures !ok && buffer != null ==> buffer[..] == old(buffer[..])
      ensures sampleRateHz == old(sampleRateHz)
    {
      delayline := null;
      delayLength := 0;
      cbIndex := 0;
      delayOffset := 0;
      History := [];

      if buffer == null {
        return false;
      }
      if dLength < MinDelayLength {
        return false;
      }

      delayline := buffer;
      delayLength := dLength;
      var i := 0;
      while i < dLength
        modifies buffer
        invariant 0 <= i <= dLength
        invariant forall j :: 0 <= j < i ==> buffer[j] == 0.0
        invariant buffer[dLength..] == old(buffer[dLength..])
      {
        buffer[i] := 0.0;
        i := i + 1;
      }
      delayOffset := delayLength / 2;
      assert buffer[..dLength] == LineOf([], dLength);
      return true;
    }

    /** The active delay length, at most 65535 samples. */
    method GetDelayLength() returns (length: nat)
      requires Valid()
      ensures length == delayLength && length < U16Limit
    {
      length := delayLength;
    }

    /** The read half of one step (`cb_mod_index`, its neighbour and the blend
        written back to `*bp`): with the cursor on the slot
        just written, take the slot `offset + number` behind it (one `+length`
        correction) and its wrapping neighbour, and blend them with the
        fraction. Both taps lie inside the ring and nothing changes. */
    method ReadTap(split: Split) returns (y: real)
      requires delayline != null && cbIndex < delayLength <= delayline.Length
      requires delayOffset == delayLength / 2 && InWindow(split, delayLength)
      ensures var r := ReadIndex(cbIndex, delayOffset, split.number, delayLength);
              0 <= r < delayLength
              && y == Blend(delayline[..delayLength][r], delayline[..delayLength][NeighborIndex(r, delayLength)], split.fraction)
    {
      ReadIndexInRange(cbIndex, delayOffset, split.number, delayLength);
      var readIndex := cbIndex - (delayOffset + split.number);
      if readIndex < 0 {
        readIndex := readIndex + delayLength;
      }
      var neighbor;
      if readIndex == delayLength - 1 {
        neighbor := 0;
      } else {
        neighbor := readIndex + 1;
      }
      y := Blend(delayline[readIndex], delayline[neighbor], split.fraction);
    }

    /** One pass of the per-sample loop for input `x` and split modulation
        index `split`: wrap the cursor, record `x` in the cursor slot, read the
        blended taps, and advance the cursor. Exactly one slot of the buffer
        changes; the result is the `Emit` of the extended history. */
    method ProcessSample(x: real, split: Split) returns (y: real)
      requires Valid() && delayline != null && InWindow(split, delayLength)
      modifies this`cbIndex, this`History, delayline
      ensures Valid()
      ensures History == old(History) + [x]
      ensures y == Emit(History, delayLength, split)
      ensures delayline[|old(History)| % delayLength] == x
      ensures forall j :: 0 <= j < delayline.Length && j != |old(History)| % delayLength ==>
                delayline[j] == old(delayline[j])
    {
      ghost var h := History + [x];
      if cbIndex >= delayLength {
        cbIndex := 0;
      }
      assert cbIndex == |History| % delayLength == (|h| - 1) % delayLength;
      LineAppend(History, x, delayLength);
      delayline[cbIndex] := x;
      assert delayline[..delayLength] == old(delayline[..delayLength])[cbIndex := x];

      y := ReadTap(split);
      EmitAt(h, delayLength, split, delayOffset, cbIndex, delayline[..delayLength]);

      cbIndex := cbIndex + 1;
      History := h;
    }

    /** One audio block. Uninitialised: nothing happens. A missing audio or
        modulation block: the ring and cursor are untouched and any audio block
        passes through unmodified. Otherwise `ProcessBlock` runs. */
    method Update(block: array?<real>, modulation: array?<real>)
      requires Valid()
      requires delayline != null && block != null && modulation != null ==>
                 BlockPair(block, modulation)
      modifies this`cbIndex, this`History, delayline, block
      ensures Valid()
      ensures delayline == null || block == null || modulation == null ==>
                cbIndex == old(cbIndex) && History == old(History)
                && (delayline != null ==> delayline[..] == old(delayline[..]))
                && (block != null ==> block[..] == old(block[..]))
      ensures delayline != null && block != null && modulation != null ==>
                History == old(History) + old(block[..])
                && (forall i :: 0 <= i < block.Length ==>
                      block[i] == Emit(old(History) + old(block[..])[..i + 1], delayLength,
                                       ModulationSplit(modulation[i], delayOffset)))
                && delayline[delayLength..] == old(delayline[delayLength..])
    {
      if delayline == null {
        return;
      }
      if block != null && modulation != null {
        // mod_index = *mp * _delay_offset, split by modff, for each sample
        var offset := delayOffset;
        var ms := modulation[..block.Length];
        var splits := seq(|ms|, i requires 0 <= i < |ms| && -1.0 <= ms[i] <= 1.0 =>
                                  ModulationSplit(ms[i], offset));
        ProcessBlock(block, splits);
      }
    }

    /** What the per-sample loop needs of the two blocks: distinct from each
        other and from the delay line, a modulation sample in [-1, 1] for every
        audio sample, and a length the 16-bit loop counter can reach. */
    ghost predicate BlockPair(block: array<real>, modulation: array<real>)
      reads this, modulation
    {
      block != delayline && modulation != delayline && block != modulation
      && block.Length <= modulation.Length && block.Length < U16Limit
      && forall i :: 0 <= i < block.Length ==> -1.0 <= modulation[i] <= 1.0
    }

    /** The per-sample loop over a present audio block, given the split
        modulation index of each sample: every input sample is written to the
        ring in order and replaced in place by the sample `Emit` gives for it. */
    method ProcessBlock(block: array<real>, splits: seq<Split>)
      requires Valid() && delayline != null && block != delayline
      requires |splits| == block.Length < U16Limit
      requires forall i :: 0 <= i < |splits| ==> InWindow(splits[i], delayLength)
      modifies this`cbIndex, this`History, delayline, block
      ensures Valid()
      ensures History == old(History) + old(block[..])
      ensures forall i :: 0 <= i < block.Length ==>
                block[i] == Emit(old(History) + old(block[..])[..i + 1], delayLength, splits[i])
      ensures delayline[delayLength..] == old(delayline[delayLength..])
    {
      ghost var input := block[..];
      var i := 0;
      while i < block.Length
        invariant 0 <= i <= block.Length
        invariant Valid()
        invariant History == old(History) + input[..i]
        invariant forall j :: i <= j < block.Length ==> block[j] == input[j]
        invariant forall j :: 0 <= j < i ==>
                    block[j] == Emit(old(History) + input[..j + 1], delayLength, splits[j])
        invariant delayline[delayLength..] == old(delayline[delayLength..])
      {
        var y := ProcessSample(block[i], splits[i]);
        assert input[..i + 1] == input[..i] + [input[i]];
        assert old(History) + input[..i + 1] == (old(History) + input[..i]) + [input[i]];
        block[i] := y;
        i := i + 1;
      }
      assert input[..block.Length] == input;
    }
  }

  /** The impulse scenario: a ring of 100 samples, a unit impulse followed by
      zeros and constant zero modulation over a block of 60 samples. The
      impulse comes back once, 49 samples later. */
  method ImpulseScenario() returns (out: seq<real>)
    ensures |out| == 60
    ensures forall i :: 0 <= i < 60 ==> out[i] == if i == 49 then 1.0 else 0.0
  {
    var node := new ModulatedDelay(44100.0);
    var buffer := new real[100];
    var ok := node.Begin(buffer, 100);
    assert ok && node.delayLength == 100 && node.delayOffset == 50 && node.History == [];
    var block := new real[60](i => if i == 0 then 1.0 else 0.0);
    var modulation := new real[60](_ => 0.0);
    ghost var input, mods := block[..], modulation[..];
    assert node.BlockPair(block, modulation);
    node.Update(block, modulation);
    ImpulseBlock(input, mods);
    forall i | 0 <= i < 60
      ensures block[i] == if i == 49 then 1.0 else 0.0
    {
      assert [] + input[..i + 1] == input[..i + 1];
      assert modulation[i] == mods[i];
    }
    out := block[..];
  }
}
