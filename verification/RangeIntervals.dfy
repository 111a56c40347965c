/** The range coder in unbounded arithmetic: what `Low`, `Range` and the bytes already
    produced stand for, with no carry, no cache and no truncation. */
module RangeIntervals {
  import opened Words
  import opened ByteStreams

  const TOP := 0x100_0000

  /** All streams whose first `digits + 4` bytes denote a number in [low, low + range). */
  datatype Interval = Interval(low: nat, range: nat, digits: nat)

  const INITIAL := Interval(0, 0xFFFF_FFFF, 1)

  ghost predicate Holds(i: Interval, s: Source) {
    i.low <= s.Value(i.digits + 4) < i.low + i.range
  }

  ghost predicate Normalized(i: Interval) {
    TOP <= i.range < TWO32
  }

  function Shift(i: Interval): Interval {
    Interval(i.low * 256, i.range * 256, i.digits + 1)
  }

  function Normalize(i: Interval): Interval
    requires i.range > 0
    decreases TOP - i.range
  {
    if i.range < TOP then Normalize(Shift(i)) else i
  }

  function Times256(x: int, k: nat): int {
    if k == 0 then x else 256 * Times256(x, k - 1)
  }

  /** The part of `before` that begins at offset and is width wide, in the fewest more digits that
      make it at least 2^24 wide. */
  ghost predicate NarrowedTo(before: Interval, offset: int, width: int, after: Interval) {
    var k := after.digits - before.digits;
    && k >= 0
    && after.low == Times256(before.low + offset, k)
    && after.range == Times256(width, k)
    && after.range >= 0x100_0000
    && (k > 0 ==> Times256(width, k - 1) < 0x100_0000)
  }

  lemma {:induction false} Times256Front(x: int, k: nat)
    ensures Times256(256 * x, k) == Times256(x, k + 1)
  {
    if k == 0 {
    } else {
      Times256Front(x, k - 1);
    }
  }

  lemma {:induction false} NormalizeExact(before: Interval, offset: nat, width: nat)
    requires width > 0
    ensures NarrowedTo(before, offset, width, Normalize(Interval(before.low + offset, width, before.digits)))
    decreases TOP - width
  {
    if width >= TOP {
    } else {
      var once := Interval(before.low * 256, before.range * 256, before.digits + 1);
      NormalizeExact(once, offset * 256, width * 256);
      var after := Normalize(Interval(once.low + offset * 256, width * 256, once.digits));
      var k: nat := after.digits - once.digits;
      Times256Front(before.low + offset, k);
      Times256Front(width, k);
      if k > 0 {
        Times256Front(width, k - 1);
      }
    }
  }

  /** What a single conditional shift does, where Normalize would go on. */
  function ShiftIf(i: Interval): Interval {
    if i.range < TOP then Shift(i) else i
  }

  lemma ShiftIfExact(i: Interval)
    requires i.range > 0
    ensures ShiftIf(i) == Normalize(i) <==> TOP <= i.range * 256
  {
    NormalizeReachesTop(i);
  }

  // ---------- narrowing by one coded item ----------

  function FreqStep(i: Interval, start: nat, size: nat, total: nat): Interval
    requires size >= 1 && 1 <= total <= i.range
  {
    var unit := i.range / total;
    UnitPositive(i.range, total, size);
    Normalize(Interval(i.low + start * unit, unit * size, i.digits))
  }

  lemma FreqStepParts(i: Interval, start: nat, size: nat, total: nat, width: int, offset: int)
    requires size >= 1 && start + size <= total <= i.range
    requires width == i.range / total * size && offset == start * (i.range / total)
    ensures width >= 1 && offset >= 0 && offset + width <= i.range
    ensures FreqStep(i, start, size, total) == Normalize(Interval(i.low + offset, width, i.digits))
  {
    UnitPositive(i.range, total, size);
    PartInside(start, size, total, i.range / total);
  }

  lemma FreqStepIs(i: Interval, start: nat, size: nat, total: nat)
    requires size >= 1 && start + size <= total <= i.range
    ensures NarrowedTo(i, start * (i.range / total), size * (i.range / total), FreqStep(i, start, size, total))
  {
    var unit := i.range / total;
    UnitPositive(i.range, total, size);
    assert unit * size == size * unit;
    MulLe(0, start, unit);
    NormalizeExact(i, start * unit, size * unit);
  }

  function BitBound(range: nat, size0: nat, numTotalBits: nat): nat {
    MulLe(0, size0, Shr(range, numTotalBits));
    Shr(range, numTotalBits) * size0
  }

  /** The width of symbol 0's part is size0 whole units of 2^-numTotalBits of the range. */
  lemma BitBoundExact(range: nat, size0: nat, numTotalBits: nat)
    ensures BitBound(range, size0, numTotalBits) == range / Pow2(numTotalBits) * size0
    ensures var b, p := range / Pow2(numTotalBits) * size0, Pow2(numTotalBits);
      b * p <= range * size0 && (size0 > 0 ==> range * size0 < b * p + size0 * p)
  {
    ShrDiv(range, numTotalBits);
    UnitsBetween(range, size0, Shr(range, numTotalBits), Pow2(numTotalBits));
  }

  lemma UnitsBetween(range: nat, size0: nat, unit: nat, p: nat)
    requires unit * p <= range < unit * p + p
    ensures unit * size0 * p <= range * size0
    ensures size0 > 0 ==> range * size0 < unit * size0 * p + size0 * p
  {
    MulLe(unit * p, range, size0);
    assert unit * p * size0 == unit * size0 * p;
    if size0 > 0 {
      MulLt(range, unit * p + p, size0);
      assert (unit * p + p) * size0 == unit * size0 * p + size0 * p;
    }
  }

  predicate BitOk(size0: nat, numTotalBits: nat, symbol: nat) {
    && numTotalBits <= 24
    && size0 <= Pow2(numTotalBits)
    && (if symbol == 0 then size0 >= 1 else size0 < Pow2(numTotalBits))
  }

  function BitStep(i: Interval, size0: nat, numTotalBits: nat, symbol: nat): Interval
    requires i.range >= TOP && BitOk(size0, numTotalBits, symbol)
  {
    BitBoundInside(i.range, size0, numTotalBits, symbol);
    var bound := BitBound(i.range, size0, numTotalBits);
    if symbol == 0 then Normalize(i.(range := bound))
    else Normalize(Interval(i.low + bound, i.range - bound, i.digits))
  }

  lemma BitStepIs(i: Interval, size0: nat, numTotalBits: nat, symbol: nat)
    requires i.range >= TOP && BitOk(size0, numTotalBits, symbol)
    ensures var b := i.range / Pow2(numTotalBits) * size0;
      NarrowedTo(i, if symbol == 0 then 0 else b, if symbol == 0 then b else i.range - b,
        BitStep(i, size0, numTotalBits, symbol))
  {
    hide NarrowedTo, BitOk;
    BitBoundInside(i.range, size0, numTotalBits, symbol);
    BitBoundExact(i.range, size0, numTotalBits);
    var b := BitBound(i.range, size0, numTotalBits);
    if symbol == 0 {
      NormalizeExact(i, 0, b);
    } else {
      NormalizeExact(i, b, i.range - b);
    }
  }

  function DirectStep(i: Interval, bit: nat): Interval
    requires i.range >= 2
  {
    Normalize(Interval(i.low + bit * (i.range / 2), i.range / 2, i.digits))
  }

  /** The low numBits bits of value, most significant bit first. */
  function DirectSteps(i: Interval, value: nat, numBits: nat): (r: Interval)
    requires i.range >= TOP
    ensures r.range >= TOP
  {
    if numBits == 0 then i
    else
      var before := DirectSteps(i, value / 2, numBits - 1);
      NormalizeReachesTop(Interval(before.low + value % 2 * (before.range / 2), before.range / 2, before.digits));
      DirectStep(before, value % 2)
  }

  lemma UnitPositive(range: nat, total: nat, size: nat)
    requires 1 <= total <= range && size >= 1
    ensures range / total >= 1 && range / total * size >= 1
    ensures range / total * total <= range
  {
    DivMod(range, total);
    DivLt(range, 1, total);
    MulLe(1, range / total, size);
  }

  lemma BitBoundInside(range: nat, size0: nat, numTotalBits: nat, symbol: nat)
    requires range >= TOP && BitOk(size0, numTotalBits, symbol)
    ensures BitBound(range, size0, numTotalBits) <= range
    ensures if symbol == 0 then BitBound(range, size0, numTotalBits) > 0
            else BitBound(range, size0, numTotalBits) < range
  {
    var p := Pow2(numTotalBits);
    Pow2Values();
    Pow2Le(numTotalBits, 24);
    var unit := Shr(range, numTotalBits);
    ShrDiv(range, numTotalBits);
    DivLt(range, 1, p);
    MulLe(size0, p, unit);
    if symbol == 0 {
      MulLe(1, size0, unit);
    } else {
      MulLt(size0, p, unit);
    }
  }

  lemma {:induction false} NormalizeReachesTop(i: Interval)
    requires i.range > 0
    ensures Normalize(i).range >= TOP
    ensures i.range < TWO32 ==> Normalize(i).range < TWO32
    ensures Normalize(i).digits >= i.digits
    decreases TOP - i.range
  {
    if i.range >= TOP {
    } else {
      NormalizeReachesTop(Shift(i));
    }
  }

  lemma {:induction false} DirectStepsInWord(i: Interval, value: nat, numBits: nat)
    requires Normalized(i)
    ensures Normalized(DirectSteps(i, value, numBits))
  {
    if numBits == 0 {
    } else {
      DirectStepsInWord(i, value / 2, numBits - 1);
      var before := DirectSteps(i, value / 2, numBits - 1);
      NormalizeReachesTop(Interval(before.low + value % 2 * (before.range / 2), before.range / 2, before.digits));
    }
  }

  // ---------- where direct bits lead ----------

  /** r, in k more digits, begins at about the v-th of 2^numBits equal pieces of i: never below v of its own
      widths, never above v true pieces, and it is no wider than a true piece. */
  ghost predicate Between(i: Interval, v: nat, numBits: nat, r: Interval) {
    var k := r.digits - i.digits;
    && k >= 0
    && Times256(i.low, k) + v * r.range <= r.low
    && Pow2(numBits) * (r.low - Times256(i.low, k)) <= Times256(i.range, k) * v
    && Pow2(numBits) * r.range <= Times256(i.range, k)
  }

  lemma BetweenShift(i: Interval, v: nat, numBits: nat, r: Interval)
    requires Between(i, v, numBits, r)
    ensures Between(i, v, numBits, Shift(r))
  {
    var k: nat := r.digits - i.digits;
    var p, low, range, d := Pow2(numBits), Times256(i.low, k), Times256(i.range, k), r.low - Times256(i.low, k);
    Scaled(v, r.range);
    Scaled(p, d);
    Scaled(v, range);
    Scaled(p, r.range);
  }

  lemma Scaled(x: int, y: int)
    ensures x * (256 * y) == 256 * (x * y) == 256 * y * x
  {
  }

  lemma {:induction false} BetweenNormalize(i: Interval, v: nat, numBits: nat, r: Interval)
    requires r.range > 0 && Between(i, v, numBits, r)
    ensures Between(i, v, numBits, Normalize(r))
    decreases TOP - r.range
  {
    if r.range >= TOP {
    } else {
      BetweenShift(i, v, numBits, r);
      BetweenNormalize(i, v, numBits, Shift(r));
    }
  }

  lemma BetweenHalf(i: Interval, v: nat, numBits: nat, r: Interval, b: bit)
    requires Between(i, v, numBits, r)
    ensures Between(i, 2 * v + b, numBits + 1, Interval(r.low + b * (r.range / 2), r.range / 2, r.digits))
  {
    var k: nat := r.digits - i.digits;
    var h, d := r.range / 2, r.low - Times256(i.low, k);
    Halves(v, h, r.range, b);
    HalfPieces(Pow2(numBits), d, h, r.range, Times256(i.range, k), v, b);
    assert Pow2(numBits + 1) == 2 * Pow2(numBits);
  }

  lemma HalfPieces(p: nat, d: int, h: nat, width: nat, range: int, v: nat, b: bit)
    requires p * d <= range * v && p * width <= range && 2 * h <= width
    ensures 2 * p * (d + b * h) <= range * (2 * v + b)
    ensures 2 * p * h <= range
  {
    MulLe(2 * h, width, p);
    assert 2 * p * h == 2 * h * p;
    if b == 0 {
      assert b * h == 0 && 2 * p * d == 2 * (p * d) && range * (2 * v) == 2 * (range * v);
    } else {
      assert b * h == h && 2 * p * (d + h) == 2 * (p * d) + 2 * p * h && range * (2 * v + 1) == 2 * (range * v) + range;
    }
  }

  lemma Halves(v: nat, h: nat, range: nat, b: bit)
    requires 2 * h <= range
    ensures (2 * v + b) * h <= v * range + b * h
  {
    MulLe(2 * h, range, v);
    assert (2 * v + b) * h == v * (2 * h) + b * h;
  }

  /** Most significant bit first: the bits of the value choose that piece. */
  lemma {:induction false} DirectStepsBetween(i: Interval, value: nat, numBits: nat)
    requires i.range >= TOP
    ensures Between(i, Low(value, numBits), numBits, DirectSteps(i, value, numBits))
  {
    if numBits == 0 {
    } else {
      var before := DirectSteps(i, value / 2, numBits - 1);
      DirectStepsBetween(i, value / 2, numBits - 1);
      BetweenHalf(i, Low(value / 2, numBits - 1), numBits - 1, before, value % 2);
      var half := Interval(before.low + value % 2 * (before.range / 2), before.range / 2, before.digits);
      BetweenNormalize(i, Low(value, numBits), numBits, half);
    }
  }

  // ---------- a stream in the narrowed interval was already in the wide one ----------

  lemma {:induction false} NormalizeHolds(i: Interval, s: Source)
    requires i.range > 0 && Holds(Normalize(i), s)
    ensures Holds(i, s)
    decreases TOP - i.range
  {
    if i.range >= TOP {
    } else {
      NormalizeHolds(Shift(i), s);
      assert s.Value(i.digits + 5) == s.Value(i.digits + 4) * 256 + s.At(i.digits + 4);
    }
  }

  /** The stream's number, read up to where i ends, lies in the symbol's part of i. */
  lemma FreqHolds(i: Interval, start: nat, size: nat, total: nat, s: Source)
    requires size >= 1 && 1 <= total <= i.range && start + size <= total
    requires Holds(FreqStep(i, start, size, total), s)
    ensures var x := s.Value(i.digits + 4) - i.low;
            Holds(i, s) && start <= x / (i.range / total) < start + size
  {
    var unit := i.range / total;
    UnitPositive(i.range, total, size);
    PartInside(start, size, total, unit);
    var x := s.Value(i.digits + 4) - i.low;
    assert start * unit <= x < (start + size) * unit by {
      NormalizeHolds(Interval(i.low + start * unit, unit * size, i.digits), s);
    }
    DivLt(x, start, unit);
    DivLt(x, start + size, unit);
  }

  lemma PartInside(start: nat, size: nat, total: nat, unit: nat)
    requires start + size <= total
    ensures start * unit + unit * size == (start + size) * unit <= total * unit
  {
    MulLe(start + size, total, unit);
  }

  lemma BitHolds(i: Interval, size0: nat, numTotalBits: nat, symbol: nat, s: Source)
    requires i.range >= TOP && BitOk(size0, numTotalBits, symbol)
    requires Holds(BitStep(i, size0, numTotalBits, symbol), s)
    ensures Holds(i, s)
    ensures symbol == 0 <==> s.Value(i.digits + 4) - i.low < BitBound(i.range, size0, numTotalBits)
  {
    BitBoundInside(i.range, size0, numTotalBits, symbol);
    var bound := BitBound(i.range, size0, numTotalBits);
    if symbol == 0 {
      NormalizeHolds(i.(range := bound), s);
    } else {
      NormalizeHolds(Interval(i.low + bound, i.range - bound, i.digits), s);
    }
  }

  lemma DirectHolds(i: Interval, bit: nat, s: Source)
    requires i.range >= TOP && bit < 2
    requires Holds(DirectStep(i, bit), s)
    ensures Holds(i, s)
    ensures bit == 0 <==> s.Value(i.digits + 4) - i.low < i.range / 2
    ensures s.Value(i.digits + 4) - i.low < 2 * (i.range / 2)
  {
    NormalizeHolds(Interval(i.low + bit * (i.range / 2), i.range / 2, i.digits), s);
  }

  /** A stream in the interval of all numBits bits lies in that of the leading numBits - drop bits. */
  lemma {:induction false} DirectPrefixHolds(i: Interval, value: nat, numBits: nat, drop: nat, s: Source)
    requires i.range >= TOP && drop <= numBits
    requires Holds(DirectSteps(i, value, numBits), s)
    ensures Holds(DirectSteps(i, Shr(value, drop), numBits - drop), s)
    decreases drop
  {
    if drop == 0 {
    } else {
      DirectHolds(DirectSteps(i, value / 2, numBits - 1), value % 2, s);
      DirectPrefixHolds(i, value / 2, numBits - 1, drop - 1, s);
    }
  }

  /** The same, one bit further, with the value those leading bits spell. */
  lemma DirectNextHolds(i: Interval, value: nat, numBits: nat, drop: nat, s: Source)
    requires i.range >= TOP && drop < numBits
    requires Holds(DirectSteps(i, value, numBits), s)
    ensures Holds(DirectStep(DirectSteps(i, Shr(value, drop + 1), numBits - drop - 1), Shr(value, drop) % 2), s)
    ensures Low(Shr(value, drop), numBits - drop)
         == 2 * Low(Shr(value, drop + 1), numBits - drop - 1) + Shr(value, drop) % 2
  {
    DirectPrefixHolds(i, value, numBits, drop, s);
    ShrNext(value, drop);
  }

  // ---------- sequences of coded items ----------

  /** One call on the encoder: Encode, EncodeBit or EncodeDirectBits. */
  datatype Item =
    | Freq(start: nat, size: nat, total: nat)
    | Bit(size0: nat, numTotalBits: nat, symbol: uint32)
    | Direct(value: uint32, numBits: nat)
  {
    /** What the encoder's arithmetic demands of its caller: no part may be empty. */
    predicate Ok() {
      match this
      case Freq(start, size, total) => size >= 1 && start + size <= total <= TOP
      case Bit(size0, numTotalBits, symbol) => BitOk(size0, numTotalBits, symbol)
      case Direct(value, numBits) => numBits <= 32
    }

    /** The mirrored decoder call gives back what was encoded. */
    predicate DecodedAs(r: nat) {
      match this
      case Freq(start, size, total) => start <= r < start + size
      case Bit(size0, numTotalBits, symbol) => r == if symbol == 0 then 0 else 1
      case Direct(value, numBits) => r == Low(value, numBits)
    }
  }

  function Narrow(i: Interval, item: Item): Interval
    requires i.range >= TOP && item.Ok()
  {
    match item
    case Freq(start, size, total) => FreqStep(i, start, size, total)
    case Bit(size0, numTotalBits, symbol) => BitStep(i, size0, numTotalBits, symbol)
    case Direct(value, numBits) => DirectSteps(i, value, numBits)
  }

  lemma NarrowNormalized(i: Interval, item: Item)
    requires Normalized(i) && item.Ok()
    ensures Normalized(Narrow(i, item))
  {
    match item
    case Freq(start, size, total) =>
      var unit := i.range / total;
      UnitPositive(i.range, total, size);
      MulLe(size, total, unit);
      NormalizeReachesTop(Interval(i.low + start * unit, unit * size, i.digits));
    case Bit(size0, numTotalBits, symbol) =>
      BitBoundInside(i.range, size0, numTotalBits, symbol);
      var bound := BitBound(i.range, size0, numTotalBits);
      NormalizeReachesTop(
        if symbol == 0 then i.(range := bound) else Interval(i.low + bound, i.range - bound, i.digits));
    case Direct(value, numBits) =>
      DirectStepsInWord(i, value, numBits);
  }

  lemma NarrowHolds(i: Interval, item: Item, s: Source)
    requires i.range >= TOP && item.Ok() && Holds(Narrow(i, item), s)
    ensures Holds(i, s)
  {
    match item
    case Freq(start, size, total) => FreqHolds(i, start, size, total, s);
    case Bit(size0, numTotalBits, symbol) => BitHolds(i, size0, numTotalBits, symbol, s);
    case Direct(value, numBits) =>
      DirectPrefixHolds(i, value, numBits, numBits, s);
  }

  predicate AllOk(items: seq<Item>) {
    forall k :: 0 <= k < |items| ==> items[k].Ok()
  }

  function NarrowAll(items: seq<Item>): (r: Interval)
    requires AllOk(items)
    ensures TOP <= r.range < TWO32
  {
    if items == [] then INITIAL
    else
      var before := NarrowAll(items[..|items| - 1]);
      NarrowNormalized(before, items[|items| - 1]);
      Narrow(before, items[|items| - 1])
  }

  lemma NarrowAllNext(items: seq<Item>, k: nat)
    requires AllOk(items) && k < |items|
    ensures NarrowAll(items[..k + 1]) == Narrow(NarrowAll(items[..k]), items[k])
  {
    assert items[..k + 1][..k] == items[..k];
  }

  /** Nesting over a whole run: a stream in the last interval lies in every earlier one. */
  lemma {:induction false} NestedIntervals(items: seq<Item>, k: nat, s: Source)
    requires AllOk(items) && k <= |items| && Holds(NarrowAll(items), s)
    ensures Holds(NarrowAll(items[..k]), s)
    decreases |items| - k
  {
    if k == |items| {
      assert items[..k] == items;
    } else {
      NestedIntervals(items, k + 1, s);
      NarrowAllNext(items, k);
      NarrowHolds(NarrowAll(items[..k]), items[k], s);
    }
  }

  // ---------- the leading byte ----------

  /** The interval lies below 1.0, read with the point after the first byte. */
  ghost predicate BelowOne(i: Interval) {
    i.digits >= 1 && i.low + i.range <= Pow2(8 * (i.digits + 3))
  }

  lemma {:induction false} NormalizeBelowOne(i: Interval)
    requires i.range > 0 && BelowOne(i)
    ensures BelowOne(Normalize(i))
    decreases TOP - i.range
  {
    if i.range >= TOP {
    } else {
      Pow2Add(8, 8 * (i.digits + 3));
      assert Pow2(8) == 256;
      assert 8 * (i.digits + 4) == 8 + 8 * (i.digits + 3);
      NormalizeBelowOne(Shift(i));
    }
  }

  lemma {:induction false} DirectStepsBelowOne(i: Interval, value: nat, numBits: nat)
    requires i.range >= TOP && BelowOne(i)
    ensures BelowOne(DirectSteps(i, value, numBits))
  {
    if numBits == 0 {
    } else {
      var b := DirectSteps(i, value / 2, numBits - 1);
      DirectStepsBelowOne(i, value / 2, numBits - 1);
      NormalizeBelowOne(Interval(b.low + value % 2 * (b.range / 2), b.range / 2, b.digits));
    }
  }

  lemma NarrowBelowOne(i: Interval, item: Item)
    requires i.range >= TOP && item.Ok() && BelowOne(i)
    ensures BelowOne(Narrow(i, item))
  {
    match item
    case Freq(start, size, total) =>
      var unit := i.range / total;
      UnitPositive(i.range, total, size);
      PartInside(start, size, total, unit);
      NormalizeBelowOne(Interval(i.low + start * unit, unit * size, i.digits));
    case Bit(size0, numTotalBits, symbol) =>
      BitBoundInside(i.range, size0, numTotalBits, symbol);
      var bound := BitBound(i.range, size0, numTotalBits);
      NormalizeBelowOne(if symbol == 0 then i.(range := bound) else Interval(i.low + bound, i.range - bound, i.digits));
    case Direct(value, numBits) =>
      DirectStepsBelowOne(i, value, numBits);
  }

  lemma {:induction false} RunBelowOne(items: seq<Item>)
    requires AllOk(items)
    ensures BelowOne(NarrowAll(items))
  {
    if items == [] {
      Pow2Values();
    } else {
      RunBelowOne(items[..|items| - 1]);
      NarrowBelowOne(NarrowAll(items[..|items| - 1]), items[|items| - 1]);
    }
  }
}
