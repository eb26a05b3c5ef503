// Pure specification of the circular delay line used by the modulated delay
// effect: the integer/fraction split of the modulation index, the read and
// neighbour index arithmetic, the contents of the ring after a history of
// writes, and the sample emitted by one step of the per-sample loop.

module DelayLineSpec {

  /** `begin` rejects delay lines shorter than this many samples. */
  const MinDelayLength: nat := 10

  /** Exclusive upper bound of a `uint16_t` (cursor, length, `begin`'s argument). */
  const U16Limit: nat := 0x1_0000

  /** Result of `modff`: the integral part and the fractional part. */
  datatype Split = Split(number: int, fraction: real)

  /** `modff` on exact reals: the integral part is `x` truncated toward zero and
      the fraction carries the sign of `x`. The four postconditions determine
      the result uniquely. */
  function ModSplit(x: real): (s: Split)
    ensures s.number as real + s.fraction == x
    ensures -1.0 < s.fraction < 1.0
    ensures 0.0 <= x ==> 0 <= s.number && 0.0 <= s.fraction
    ensures x <= 0.0 ==> s.number <= 0 && s.fraction <= 0.0
  {
    if 0.0 <= x then
      Split(x.Floor, x - x.Floor as real)
    else
      var k := -((-x).Floor);
      Split(k, x - k as real)
  }

  /** A modulation value in [-1, 1] scaled by the centre offset has an integral
      part of magnitude at most that offset. */
  lemma ModNumberBounded(m: real, offset: nat)
    requires -1.0 <= m <= 1.0
    ensures -(offset as int) <= ModSplit(m * offset as real).number <= offset
  {
    var o := offset as real;
    var x := m * o;
    ProductNonNegative(1.0 - m, o);
    ProductNonNegative(1.0 + m, o);
    assert (1.0 - m) * o == o - x && (1.0 + m) * o == o + x;
    var s := ModSplit(x);
    if 0.0 <= x {
      assert s.number as real <= x;
    } else {
      assert s.number as real >= x;
    }
  }

  /** The sign of a product of non-negative reals, stated apart from the
      bound above: inside that proof the solver does not find it. */
  lemma ProductNonNegative(a: real, b: real)
    requires 0.0 <= a && 0.0 <= b
    ensures 0.0 <= a * b
  {
  }

  /** Signed read index `cursor - (offset + number)` with one `+length`
      correction when it is negative. */
  function ReadIndex(cursor: int, offset: int, number: int, length: int): int
  {
    var r := cursor - (offset + number);
    if r < 0 then r + length else r
  }

  /** With the cursor inside the ring, the centre offset at half the length and
      the integral part of the modulation within the offset, the single
      correction lands inside the ring and agrees with reduction modulo the
      length. */
  lemma ReadIndexInRange(cursor: int, offset: int, number: int, length: int)
    requires 0 <= cursor < length
    requires offset == length / 2
    requires -offset <= number <= offset
    ensures 0 <= ReadIndex(cursor, offset, number, length) < length
    ensures ReadIndex(cursor, offset, number, length) == (cursor - offset - number) % length
  {
    var r := cursor - (offset + number);
    if r < 0 {
      ModUnique(r, length, -1, r + length);
    } else {
      ModUnique(r, length, 0, r);
    }
  }

  /** Neighbour of a read index: the next slot, wrapping to 0 after the last
      slot of the ring. */
  function NeighborIndex(read: int, length: int): (nb: int)
    ensures 0 <= read < length ==> 0 <= nb < length && nb == (read + 1) % length
  {
    if read == length - 1 then 0 else read + 1
  }

  /** Neighbour index as the loop stores it: `read + 1` assigned to the
      `int16_t` variable `cb_mod_index_neighbor`. */
  function NeighborIndexAsWritten(read: int, length: int): (nb: int)
    ensures -0x8000 <= nb < 0x8000
  {
    if read == length - 1 then 0 else ToInt16(read + 1)
  }

  /** Conversion to `int16_t` by two's-complement wrap-around. */
  function ToInt16(x: int): (v: int)
    ensures -0x8000 <= v < 0x8000
    ensures (v - x) % 0x1_0000 == 0
  {
    (x + 0x8000) % 0x1_0000 - 0x8000
  }

  /** On rings of at most 32768 slots the 16-bit neighbour is the neighbour. */
  lemma NeighborAsWrittenAgrees(read: int, length: int)
    requires 0 <= read < length <= 0x8000
    ensures NeighborIndexAsWritten(read, length) == NeighborIndex(read, length)
  {
    if read != length - 1 {
      ModUnique(read + 1 + 0x8000, 0x1_0000, 0, read + 1 + 0x8000);
    }
  }

  /** On a ring of 40000 slots with zero modulation, the step whose cursor is
      at slot 12767 reads slot 32767, and its neighbour 32768 wraps to -32768
      in the 16-bit variable: a read before the start of the buffer. */
  lemma NeighborAsWrittenOverflows()
    ensures ReadIndex(12767, 40000 / 2, ModSplit(0.0 * 20000.0).number, 40000) == 0x7FFF
    ensures NeighborIndex(0x7FFF, 40000) == 0x8000
    ensures NeighborIndexAsWritten(0x7FFF, 40000) == -0x8000
  {
  }

  /** Two-tap blend: the read slot weighted by the fraction and the neighbour by
      its complement, which is the neighbour moved toward the read slot by the
      fraction of their difference. */
  function Blend(base: real, neighbor: real, fraction: real): (y: real)
    ensures y == neighbor + fraction * (base - neighbor)
    ensures fraction == 0.0 ==> y == neighbor
    ensures base == neighbor ==> y == base
  {
    base * fraction + neighbor * (1.0 - fraction)
  }

  /** Write cursor stored between samples after `n` samples since `begin`:
      0 before the first sample, otherwise one past the slot last written.
      The wrap at the head of each step sends it to slot `n % length`. */
  function CursorAfter(n: nat, length: nat): (c: nat)
    requires 0 < length
    ensures c <= length
    ensures (if c >= length then 0 else c) == n % length
  {
    if n == 0 then 0 else CursorWrap(n, length); (n - 1) % length + 1
  }

  lemma CursorWrap(n: nat, length: nat)
    requires 0 < n && 0 < length
    ensures (n - 1) % length + 1 <= length
    ensures (if (n - 1) % length + 1 >= length then 0 else (n - 1) % length + 1) == n % length
  {
    var q, r := (n - 1) / length, (n - 1) % length;
    assert n == q * length + r + 1;
    if r + 1 == length {
      ModUnique(n, length, q + 1, 0);
    } else {
      ModUnique(n, length, q, r + 1);
    }
  }

  /** Contents of a ring of `length` slots that was zero-filled and then
      received the samples of `h`, sample `i` going to slot `i % length`. */
  function LineOf(h: seq<real>, length: nat): (line: seq<real>)
    requires 0 < length
    ensures |line| == length
  {
    if h == [] then seq(length, _ => 0.0)
    else LineOf(h[..|h| - 1], length)[(|h| - 1) % length := h[|h| - 1]]
  }

  /** Writing one more sample changes exactly one slot of the ring. */
  lemma LineAppend(h: seq<real>, x: real, length: nat)
    requires 0 < length
    ensures LineOf(h + [x], length) == LineOf(h, length)[|h| % length := x]
  {
    assert (h + [x])[..|h|] == h;
  }

  /** The slot `d` samples behind the most recent write holds the sample
      written `d` steps ago, as long as fewer than `length` steps separate
      them. */
  lemma {:induction false} LineRecent(h: seq<real>, length: nat, d: nat)
    requires 0 < length
    requires d < length && d < |h|
    ensures LineOf(h, length)[(|h| - 1 - d) % length] == h[|h| - 1 - d]
  {
    var n := |h| - 1;
    var p := h[..n];
    if d > 0 {
      LineRecent(p, length, d - 1);
      assert p[|p| - 1 - (d - 1)] == h[n - d];
      DistinctSlots(n, d, length);
    }
  }

  /** Two writes fewer than `length` steps apart go to different slots. */
  lemma DistinctSlots(n: int, d: int, length: int)
    requires 0 < d < length
    ensures (n - d) % length != n % length
  {
    var a, b := (n - d) % length, n % length;
    var qa, qb := (n - d) / length, n / length;
    assert n - d == qa * length + a;
    assert n == qb * length + b;
    if a == b {
      assert d == (qb - qa) * length;
      MulBounds(qb - qa, length);
    }
  }

  /** A slot the history has not reached yet still holds the zero of `begin`. */
  lemma {:induction false} LineUnwritten(h: seq<real>, length: nat, j: int)
    requires 0 < length
    requires |h| <= j < length
    ensures LineOf(h, length)[j] == 0.0
  {
    if h != [] {
      var n := |h| - 1;
      LineUnwritten(h[..n], length, j);
      ModUnique(n, length, 0, n);
      assert LineOf(h, length) == LineOf(h[..n], length)[n := h[n]];
    }
  }

  /** The per-sample `mod_index = *mp * _delay_offset`, split by `modff`. A value in [-1, 1] keeps the integral part
      within the offset, which is what the single read-index correction needs. */
  function ModulationSplit(m: real, offset: nat): (s: Split)
    requires -1.0 <= m <= 1.0
    ensures -(offset as int) <= s.number <= offset
    ensures m == 0.0 ==> s == Split(0, 0.0)
  {
    ModNumberBounded(m, offset);
    ModSplit(m * offset as real)
  }

  /** A split modulation index whose integral part stays within the centre
      offset of a ring of `length` slots. */
  predicate InWindow(s: Split, length: nat)
  {
    -(length / 2) <= s.number <= length / 2
  }

  /** Sample emitted by the step that has just written the last sample of `h`
      (counting from `begin`), with split modulation index `s`: the blend of the
      slot `offset + s.number` behind the cursor and its neighbour. */
  function Emit(h: seq<real>, length: nat, s: Split): real
    requires 0 < length && 0 < |h| && InWindow(s, length)
  {
    var offset := length / 2;
    var cursor := (|h| - 1) % length;
    ReadIndexInRange(cursor, offset, s.number, length);
    var r := ReadIndex(cursor, offset, s.number, length);
    var line := LineOf(h, length);
    Blend(line[r], line[NeighborIndex(r, length)], s.fraction)
  }

  /** `Emit` spelled out for a step whose cursor slot is `cursor` and whose
      ring after the write is `line`; both taps lie inside the ring. */
  lemma EmitAt(h: seq<real>, length: nat, s: Split, offset: nat, cursor: int, line: seq<real>)
    requires 0 < length && 0 < |h| && InWindow(s, length)
    requires offset == length / 2 && cursor == (|h| - 1) % length && line == LineOf(h, length)
    ensures var r := ReadIndex(cursor, offset, s.number, length);
            0 <= r < length &&
            Emit(h, length, s) == Blend(line[r], line[NeighborIndex(r, length)], s.fraction)
  {
    ReadIndexInRange(cursor, offset, s.number, length);
  }

  /** With zero modulation the effect is an exact fixed delay of
      `length / 2 - 1` samples: step `n` emits input `n - (length / 2 - 1)`,
      and zero while that index is still negative. */
  lemma ZeroModulationIsFixedDelay(h: seq<real>, length: nat)
    requires 2 <= length && 0 < |h|
    ensures var n, d := |h| - 1, length / 2 - 1;
            Emit(h, length, ModulationSplit(0.0, length / 2)) == if d <= n then h[n - d] else 0.0
  {
    var n, offset := |h| - 1, length / 2;
    var d := offset - 1;
    assert ModulationSplit(0.0, offset) == Split(0, 0.0);
    CentreNeighbor(n, offset, length);
    if d <= n {
      LineRecent(h, length, d);
    } else {
      ModUnique(n - d, length, -1, n - d + length);
      LineUnwritten(h, length, n - d + length);
    }
  }

  /** Without modulation the neighbour slot sits `offset - 1` slots behind the
      slot written at step `n`. */
  lemma CentreNeighbor(n: nat, offset: int, length: int)
    requires 0 < length && offset == length / 2
    ensures var r := ReadIndex(n % length, offset, 0, length);
            0 <= r < length && NeighborIndex(r, length) == (n - offset + 1) % length
  {
    var q, c := n / length, n % length;
    ReadIndexInRange(c, offset, 0, length);
    var r := ReadIndex(c, offset, 0, length);
    assert n - offset == q * length + (c - offset);
    ModAddMultiple(c - offset, q, length);
    assert r == (n - offset) % length;
    var p := (n - offset) / length;
    assert n - offset + 1 == p * length + (r + 1);
    ModAddMultiple(r + 1, p, length);
  }

  /** Remainders are invariant under adding multiples of the modulus. */
  lemma ModAddMultiple(a: int, q: int, length: int)
    requires 0 < length
    ensures (a + q * length) % length == a % length
  {
    var p, r := a / length, a % length;
    assert a == p * length + r;
    assert a + q * length == (p + q) * length + r;
    ModUnique(a + q * length, length, p + q, r);
  }

  /** `a % n` and `a / n` are the unique remainder and quotient. */
  lemma ModUnique(a: int, n: int, q: int, r: int)
    requires 0 < n && 0 <= r < n && a == q * n + r
    ensures a % n == r && a / n == q
  {
    var p, s := a / n, a % n;
    assert a == p * n + s;
    assert (q - p) * n == s - r;
    MulBounds(q - p, n);
  }

  /** A non-zero multiple of a positive `n` is at least `n` in magnitude. */
  lemma MulBounds(k: int, n: int)
    requires 0 < n
    ensures 1 <= k ==> n <= k * n
    ensures k <= -1 ==> k * n <= -n
    decreases if k < 0 then -k else k
  {
    if k > 1 {
      MulBounds(k - 1, n);
      assert k * n == (k - 1) * n + n;
    } else if k < -1 {
      MulBounds(k + 1, n);
      assert k * n == (k + 1) * n - n;
    }
  }

  /** Impulse response of a ring of 100 samples with zero modulation: the
      single 1.0 at step 0 comes out at step 49 and nowhere else. */
  lemma ImpulseEchoesAtStep49(h: seq<real>)
    requires 0 < |h| && h[0] == 1.0
    requires forall i :: 1 <= i < |h| ==> h[i] == 0.0
    ensures Emit(h, 100, ModulationSplit(0.0, 50)) == if |h| - 1 == 49 then 1.0 else 0.0
  {
    ZeroModulationIsFixedDelay(h, 100);
  }

  /** The same impulse over a whole block of 60 samples with zero modulation. */
  lemma ImpulseBlock(input: seq<real>, mods: seq<real>)
    requires |input| == 60 == |mods|
    requires input[0] == 1.0 && forall i :: 1 <= i < 60 ==> input[i] == 0.0
    requires forall i :: 0 <= i < 60 ==> mods[i] == 0.0
    ensures forall i :: 0 <= i < 60 ==>
              Emit(input[..i + 1], 100, ModulationSplit(mods[i], 50)) == if i == 49 then 1.0 else 0.0
  {
    forall i | 0 <= i < 60
      ensures Emit(input[..i + 1], 100, ModulationSplit(mods[i], 50)) == if i == 49 then 1.0 else 0.0
    {
      ImpulseEchoesAtStep49(input[..i + 1]);
    }
  }

  /** Without the precondition on the modulation range the single correction
      is not enough: modulation 2.0 on a ring of 10 slots gives a negative read
      index from cursor 0. */
  lemma UnboundedModulationEscapesRing()
    ensures ModSplit(2.0 * 5.0).number == 10
    ensures ReadIndex(0, 5, ModSplit(2.0 * 5.0).number, 10) < 0
  {
  }
}
