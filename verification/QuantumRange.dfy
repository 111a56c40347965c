/** The arithmetic decoder of Quantum: 16-bit registers with underflow handling, on every bit stream. */
module QuantumRange {
  import opened Words
  import opened ByteStreams
  import opened MsbBits
  import opened QuantumBits

  // ---------- the registers, and the unbounded interval they stand for ----------

  /** All streams whose first `bits` bits denote a number in [base, base + range);
      low is what the 16-bit register `Low` holds. */
  datatype Span = Span(low: nat, range: nat, base: nat, bits: nat) {
    predicate Ok() {
      range >= 1 && low + range <= 0x10000
    }

    function High(): int {
      low + range - 1
    }

    ghost predicate Holds(s: Source) {
      base <= Prefix(s, bits) < base + range
    }

    /** The loop stops here: the interval straddles the middle, and not only its two inner quarters. */
    predicate Settled() {
      low < 0x8000 <= High() && (low < 0x4000 || High() >= 0xC000)
    }
  }

  const INITIAL := Span(0, 0x10000, 0, 16)

  /** One renormalisation step takes in one bit and makes the interval exactly twice as wide. */
  function Doubled(w: Span): Span {
    var low := if w.High() < 0x8000 then w.low else if w.low >= 0x8000 then w.low - 0x8000 else
      if w.low >= 0x4000 then w.low - 0x4000 else 0;
    Span(2 * low, 2 * w.range, 2 * w.base, w.bits + 1)
  }

  function Settle(w: Span): (r: Span)
    requires w.Ok()
    ensures r.Ok() && r.Settled()
    ensures r.range >= 0x4002
    decreases 0x10000 - w.range
  {
    if w.Settled() then w else Settle(Doubled(w))
  }

  /** The part of w that begins at offset and is width wide, doubled k times for k more bits, until it
      straddles the middle of the registers and reaches into an outer quarter. */
  ghost predicate SettledOn(w: Span, offset: int, width: int, r: Span) {
    var k := r.bits - w.bits;
    && k >= 0 && w.base + offset >= 0 && width >= 0
    && r.base == Shl(w.base + offset, k) && r.range == Shl(width, k)
    && 0 <= r.low < 0x8000 <= r.low + r.range - 1 <= 0xFFFF
    && (r.low < 0x4000 || r.low + r.range - 1 >= 0xC000)
  }

  lemma {:induction false} SettleExact(w: Span)
    requires w.Ok()
    ensures SettledOn(w, 0, w.range, Settle(w))
    decreases 0x10000 - w.range
  {
    if w.Settled() {
    } else {
      var r, once := Settle(w), Doubled(w);
      SettleExact(once);
      var k: nat := r.bits - once.bits;
      ShlShl(w.base, 1, k);
      ShlShl(w.range, 1, k);
      assert Shl(w.base, 1) == 2 * w.base && Shl(w.range, 1) == 2 * w.range;
    }
  }

  function Part(range: nat, cum: nat, total: nat): (offset: nat)
    requires total >= 1
  {
    PartNonNegative(range, cum, total);
    cum * range / total
  }

  lemma PartNonNegative(range: nat, cum: nat, total: nat)
    requires total >= 1
    ensures 0 <= cum * range && 0 <= cum * range / total
  {
    MulLe(0, cum, range);
    DivMod(cum * range, total);
  }

  lemma PartMonotone(range: nat, a: nat, b: nat, total: nat)
    requires a <= b && total >= 1
    ensures Part(range, a, total) <= Part(range, b, total)
  {
    PartNonNegative(range, a, total);
    MulLe(a, b, range);
    DivLe(a * range, b * range, total);
  }

  lemma PartAll(range: nat, total: nat)
    requires total >= 1
    ensures Part(range, total, total) == range
  {
    assert total * range == range * total;
    MulDiv(range, total);
  }

  lemma PartBelow(range: nat, a: nat, total: nat)
    requires a <= total && total >= 1
    ensures Part(range, a, total) <= range
  {
    PartMonotone(range, a, total, total);
    PartAll(range, total);
  }

  /** Choosing the symbol with cumulative frequencies [start, end) out of total. */
  function Narrow(w: Span, start: nat, end: nat, total: nat): (r: Span)
    requires w.Ok() && end <= total && 1 <= total
    requires Part(w.range, start, total) < Part(w.range, end, total)
    ensures r.Ok() && 0x4002 <= r.range <= 0x10000
  {
    var offset := Part(w.range, start, total);
    PartBelow(w.range, end, total);
    Settle(Span(w.low + offset, Part(w.range, end, total) - offset, w.base + offset, w.bits))
  }

  function Threshold(code: nat, range: nat, total: nat): nat
    requires range >= 1 && total >= 1
  {
    MulLe(1, total, code + 1);
    DivMod((code + 1) * total - 1, range);
    ((code + 1) * total - 1) / range
  }

  /** A cumulative frequency is at most the threshold exactly when its offset is at most the code. */
  lemma ThresholdExact(code: nat, range: nat, cum: nat, total: nat)
    requires range >= 1 && total >= 1
    ensures cum <= Threshold(code, range, total) <==> Part(range, cum, total) <= code
  {
    var x := (code + 1) * total - 1;
    MulLe(1, total, code + 1);
    PartNonNegative(range, cum, total);
    DivLt(x, cum, range);
    DivLt(cum * range, code + 1, total);
  }

  /** So the symbol looked up by threshold is the one whose part of the interval holds the stream. */
  lemma ThresholdPicks(w: Span, s: Source, start: nat, end: nat, total: nat)
    requires w.Ok() && w.Holds(s) && start <= end <= total && total >= 1
    ensures var code := Prefix(s, w.bits) - w.base;
      start <= Threshold(code, w.range, total) < end
      <==> Part(w.range, start, total) <= code < Part(w.range, end, total)
  {
    var code := Prefix(s, w.bits) - w.base;
    ThresholdExact(code, w.range, start, total);
    ThresholdExact(code, w.range, end, total);
  }

  lemma ThresholdBelowTotal(code: nat, range: nat, total: nat)
    requires code < range && total >= 1
    ensures Threshold(code, range, total) < total
  {
    ThresholdExact(code, range, total, total);
    PartAll(range, total);
  }

  // ---------- what a stream inside an interval says about the wider ones ----------

  lemma {:induction false} SettleHolds(w: Span, s: Source)
    requires w.Ok()
    ensures Settle(w).Holds(s) ==> w.Holds(s)
    decreases 0x10000 - w.range
  {
    if w.Settled() {
    } else {
      SettleHolds(Doubled(w), s);
    }
  }

  /** A stream in the narrowed interval lies in the wide one, and its threshold falls in the symbol's range. */
  lemma NarrowHolds(w: Span, s: Source, start: nat, end: nat, total: nat)
    requires w.Ok() && start < end <= total
    requires Part(w.range, start, total) < Part(w.range, end, total)
    requires Narrow(w, start, end, total).Holds(s)
    ensures w.Holds(s)
    ensures start <= Threshold(Prefix(s, w.bits) - w.base, w.range, total) < end
  {
    var offset := Part(w.range, start, total);
    PartBelow(w.range, end, total);
    SettleHolds(Span(w.low + offset, Part(w.range, end, total) - offset, w.base + offset, w.bits), s);
    assert w.Holds(s);
    ThresholdPicks(w, s, start, end, total);
  }

  lemma PartSettled(w: Span, part: Span, r: Span, offset: nat, width: nat)
    requires part.base == w.base + offset && part.range == width && part.bits == w.bits
    requires SettledOn(part, 0, part.range, r)
    ensures SettledOn(w, offset, width, r)
  {
  }

  /** The register arithmetic of one pass of the loop, on both 16-bit registers. */
  lemma RegisterStep(low: nat, high: nat, base: nat, bits: nat)
    requires low <= high <= 0xFFFF
    ensures var w := Span(low, high - low + 1, base, bits);
      var straddles := low / 0x8000 % 2 != high / 0x8000 % 2;
      if straddles && (low / 0x4000 % 2 == 0 || high / 0x4000 % 2 != 0) then
        w.Settled()
      else
        var low1 := (if straddles then low % 0x4000 else low) * 2 % 0x10000;
        var high1 := ((if straddles then high + 0x4000 else high) * 2 + 1) % 0x10000;
        && !w.Settled() && low1 <= high1
        && high1 - low1 + 1 == 2 * (high - low + 1)
        && Span(low1, high1 - low1 + 1, 2 * base, bits + 1) == Doubled(w)
  {
    TopBits(low);
    TopBits(high);
    WrappedDouble(low);
    WrappedDouble(low % 0x4000);
    WrappedDouble(high);
    if high < 0xC000 {
      WrappedDouble(high + 0x4000);
    }
  }

  lemma TopBits(x: nat)
    requires x <= 0xFFFF
    ensures x / 0x8000 % 2 == if x < 0x8000 then 0 else 1
    ensures x / 0x4000 % 2 == if x < 0x4000 || 0x8000 <= x < 0xC000 then 0 else 1
    ensures x < 0x4000 ==> x % 0x4000 == x
    ensures 0x4000 <= x < 0x8000 ==> x % 0x4000 == x - 0x4000
  {
  }

  lemma WrappedDouble(x: nat)
    requires x <= 0xFFFF
    ensures x * 2 % 0x10000 == if x < 0x8000 then 2 * x else 2 * x - 0x10000
    ensures (x * 2 + 1) % 0x10000 == if x < 0x8000 then 2 * x + 1 else 2 * x + 1 - 0x10000
  {
  }

  // ---------- the decoder ----------

  class Decoder {
    var low: nat
    var range: nat
    var code: nat
    const stream: StreamBitDecoder
    ghost var base: nat

    ghost function State(): Span
      reads this, stream
    {
      Span(low, range, base, stream.bitPos)
    }

    /** The code register is the stream's distance above the interval's low end, and inside it. */
    ghost predicate Valid()
      reads this, stream
    {
      && stream.Valid() && State().Ok()
      && code < range
      && Prefix(stream.source, stream.bitPos) == base + code
    }

    constructor Init(source: Source)
      ensures Valid() && fresh(stream) && stream.source == source && State() == INITIAL
      ensures low == 0 && range == 0x10000 && code == Prefix(source, 16)
    {
      stream := new StreamBitDecoder.Init(source);
      low, range, base := 0, 0x10000, 0;
      new;
      code := stream.ReadBits(16);
      Pow2Values();
      ShrZero(16);
    }

    function GetThreshold(total: nat): (threshold: nat)
      requires range >= 1 && total >= 1
      reads this
      ensures threshold * range <= (code + 1) * total - 1 < threshold * range + range
    {
      MulLe(1, total, code + 1);
      DivMod((code + 1) * total - 1, range);
      Threshold(code, range, total)
    }

    /** total is a UInt16 frequency sum, so end * Range stays below 2^32. */
    method Decode(start: nat, end: nat, total: nat)
      requires Valid() && start < end <= total < 0x10000
      requires start <= GetThreshold(total) < end
      modifies this, stream
      ensures Valid()
      ensures old(Part(range, start, total) < Part(range, end, total))
      ensures State() == Narrow(old(State()), start, end, total)
      ensures var lower, upper := start * old(range) / total, end * old(range) / total;
        lower <= old(code) < upper && SettledOn(old(State()), lower, upper - lower, State())
      ensures range >= 0x4002
    {
      hide SettledOn, Settle;
      ThresholdExact(code, range, start, total);
      ThresholdExact(code, range, end, total);
      PartBelow(range, end, total);
      var upper, offset := Part(range, end, total), Part(range, start, total);
      ghost var narrowed := Narrow(State(), start, end, total);
      ghost var part := Span(low + offset, upper - offset, base + offset, stream.bitPos);
      assert narrowed == Settle(part);
      SettleExact(part);
      PartSettled(State(), part, narrowed, offset, upper - offset);
      var high := low + upper - 1;
      code := code - offset;
      low := low + offset;
      base := base + offset;
      assert Registers(high) == part;
      high := Renormalize(high);
      range := high - low + 1;
    }

    /** The for loop of Decode. */
    method Renormalize(high0: nat) returns (high: nat)
      requires stream.Valid() && low <= high0 <= 0xFFFF && code <= high0 - low
      requires Prefix(stream.source, stream.bitPos) == base + code
      modifies this`low, this`code, this`base, stream
      ensures stream.Valid() && low <= high <= 0xFFFF && code <= high - low
      ensures Prefix(stream.source, stream.bitPos) == base + code
      ensures Registers(high) == Settle(old(Registers(high0)))
    {
      high := high0;
      while true
        invariant stream.Valid() && low <= high <= 0xFFFF && code <= high - low
        invariant Prefix(stream.source, stream.bitPos) == base + code
        invariant Settle(Registers(high)) == Settle(old(Registers(high0)))
        decreases 0x10000 - (high - low)
      {
        var more;
        high, more := Double(high);
        if !more {
          break;
        }
      }
    }

    ghost function Registers(high: nat): Span
      requires low <= high
      reads this, stream
    {
      Span(low, high - low + 1, base, stream.bitPos)
    }

    /** One pass of that loop: it stops, or takes in one bit. */
    method Double(high0: nat) returns (high: nat, more: bool)
      requires stream.Valid() && low <= high0 <= 0xFFFF && code <= high0 - low
      requires Prefix(stream.source, stream.bitPos) == base + code
      modifies this`low, this`code, this`base, stream
      ensures stream.Valid() && low <= high <= 0xFFFF && code <= high - low
      ensures Prefix(stream.source, stream.bitPos) == base + code
      ensures more <==> !old(Registers(high0)).Settled()
      ensures Registers(high) == if more then Doubled(old(Registers(high0))) else old(Registers(high0))
    {
      hide Doubled, Span.Settled, MsbBits.BitAt;
      RegisterStep(low, high0, base, stream.bitPos);
      high := high0;
      if low / 0x8000 % 2 != high / 0x8000 % 2 {
        if low / 0x4000 % 2 == 0 || high / 0x4000 % 2 != 0 {
          return high, false;
        }
        low := low % 0x4000;
        high := high + 0x4000;
      }
      low := low * 2 % 0x10000;
      high := (high * 2 + 1) % 0x10000;
      var bit := stream.ReadBit();
      code := code * 2 + bit;
      base := base * 2;
      more := true;
    }

    /** Two extra bits are taken before the stream is aligned. */
    method Finish()
      requires Valid()
      modifies stream
      ensures stream.Valid() && stream.bitPos == (old(stream.bitPos) + 2 + 7) / 8 * 8
    {
      var _ := stream.ReadBit();
      var _ := stream.ReadBit();
      stream.Finish();
    }
  }
}
