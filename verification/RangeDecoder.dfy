/** The range decoder, on every input stream. The ghost field `state` is the interval that the
    decoder's own answers have narrowed to; `Code` always is the stream's distance above its low end,
    in 32-bit arithmetic. */
module RangeDecoder {
  import opened Words
  import opened ByteStreams
  import opened RangeIntervals

  class Decoder {
    const source: Source
    var pos: nat
    var range: uint32
    var code: uint32
    ghost var state: Interval

    ghost predicate Coherent()
      reads this
    {
      && range == state.range
      && pos == state.digits + 4
      && code == (source.Value(pos) - state.low) % TWO32
    }

    ghost predicate Valid()
      reads this
    {
      Coherent() && range >= TOP
    }

    /** On a stream that lies in the interval, `Code` is the exact distance, below `Range`. */
    lemma CodeBelowRange()
      requires Coherent() && Holds(state, source)
      ensures code == source.Value(pos) - state.low < range
    {
    }

    constructor Init(source: Source)
      ensures Valid() && this.source == source && state == INITIAL && pos == 5
      ensures range == 0xFFFF_FFFF && code == source.Value(5) % 0x1_0000_0000
    {
      this.source := source;
      pos, code, range := 0, 0, 0xFFFF_FFFF;
      state := INITIAL;
      new;
      for i := 0 to 5
        invariant pos == i && range == 0xFFFF_FFFF && state == INITIAL
        invariant code == source.Value(pos) % TWO32
      {
        NextDigit(source.Value(pos), 0, source.At(pos));
        code := code * 256 % TWO32 + source.At(pos);
        pos := pos + 1;
      }
    }

    /** `(Code << 8) | byte`, on residues. */
    static lemma NextDigit(x: nat, low: nat, b: byte)
      ensures (x - low) % TWO32 * 256 % TWO32 + b == (x * 256 + b - low * 256) % TWO32
    {
      var q, r := (x - low) / TWO32, (x - low) % TWO32;
      assert (x - low) * 256 + b == (q * 256 + r / TOP) * TWO32 + (r % TOP * 256 + b);
    }

    method Normalize()
      requires Coherent() && range >= 1
      modifies this
      ensures Valid()
      ensures state == RangeIntervals.Normalize(old(state))
    {
      while range < TOP
        invariant Coherent() && range >= 1
        invariant RangeIntervals.Normalize(state) == RangeIntervals.Normalize(old(state))
        decreases TOP - range
      {
        NextDigit(source.Value(pos), state.low, source.At(pos));
        code := code * 256 % TWO32 + source.At(pos);
        pos := pos + 1;
        range := range * 256;
        state := Shift(state);
      }
    }

    lemma ThresholdInside(start: nat, size: nat, total: nat)
      requires Valid() && size >= 1 && start + size <= total <= range
      requires Holds(FreqStep(state, start, size, total), source)
      ensures range / total >= 1 && start <= code / (range / total) < start + size
    {
      hide FreqStep;
      FreqHolds(state, start, size, total, source);
      CodeBelowRange();
      UnitPositive(range, total, size);
    }

    /** Leaves Range as the width of one unit. If the stream was encoded with some part of the
        total, the threshold lies in that part. */
    method GetThreshold(total: nat) returns (threshold: nat)
      requires Valid() && 1 <= total <= range
      modifies this
      ensures Coherent() && range >= 1 && state == old(state).(range := old(state).range / total)
      ensures pos == old(pos) && code == old(code)
      ensures range == old(range) / total && threshold * range <= code < threshold * range + range
      ensures forall start: nat, size: nat {:trigger FreqStep(old(state), start, size, total)} ::
        size >= 1 && start + size <= total && Holds(FreqStep(old(state), start, size, total), source)
        ==> start <= threshold < start + size
    {
      UnitPositive(range, total, 1);
      forall start: nat, size: nat
        | size >= 1 && start + size <= total && Holds(FreqStep(state, start, size, total), source)
        ensures start <= code / (range / total) < start + size
      {
        ThresholdInside(start, size, total);
      }
      DivMod(range, total);
      range := range / total;
      state := state.(range := state.range / total);
      DivMod(code, range);
      threshold := code / range;
    }

    method Decode(start: nat, size: nat, ghost total: nat, ghost before: Interval)
      requires Coherent() && size >= 1 && start + size <= total <= before.range < TWO32
      requires state == before.(range := before.range / total)
      modifies this
      ensures Valid()
      ensures state == FreqStep(before, start, size, total)
      ensures NarrowedTo(before, start * old(range), size * old(range), state)
    {
      hide NarrowedTo;
      FreqStepIs(before, start, size, total);
      FreqStepParts(before, start, size, total, range * size, start * range);
      hide FreqStep;
      MovedUp(source.Value(pos), state.low, start * range);
      code := (code - start * range) % TWO32;
      range := range * size;
      state := Interval(state.low + start * state.range, state.range * size, state.digits);
      Normalize();
    }

    static lemma MovedUp(x: nat, low: nat, step: nat)
      ensures step <= (x - low) % TWO32 ==> (x - low) % TWO32 - step == (x - (low + step)) % TWO32
      ensures ((x - low) % TWO32 - step) % TWO32 == (x - (low + step)) % TWO32
    {
    }

    /** The answer follows the stream, whose part must not be empty; if the stream was encoded
        from s, the answer is s. */
    method DecodeBit(size0: nat, numTotalBits: nat) returns (symbol: uint32)
      requires Valid()
      requires BitOk(size0, numTotalBits, if code < BitBound(range, size0, numTotalBits) then 0 else 1)
      modifies this
      ensures Valid() && symbol <= 1
      ensures symbol == 0 <==> old(code) < BitBound(old(range), size0, numTotalBits)
      ensures state == BitStep(old(state), size0, numTotalBits, symbol)
      ensures var b := old(range) / Pow2(numTotalBits) * size0;
        && (symbol == 0 <==> old(code) < b)
        && NarrowedTo(old(state), if symbol == 0 then 0 else b, if symbol == 0 then b else old(range) - b, state)
      ensures var b, p := old(range) / Pow2(numTotalBits) * size0, Pow2(numTotalBits);
        b * p <= old(range) * size0 && (size0 > 0 ==> old(range) * size0 < b * p + size0 * p)
    {
      hide NarrowedTo, Shr;
      BitBoundExact(range, size0, numTotalBits);
      BitStepIs(state, size0, numTotalBits, if code < BitBound(range, size0, numTotalBits) then 0 else 1);
      var newBound := Shr(range, numTotalBits) * size0;
      BitBoundInside(range, size0, numTotalBits, if code < newBound then 0 else 1);
      if code < newBound {
        symbol := 0;
        range := newBound;
        state := state.(range := newBound);
      } else {
        symbol := 1;
        MovedUp(source.Value(pos), state.low, newBound);
        code := code - newBound;
        range := range - newBound;
        state := Interval(state.low + newBound, state.range - newBound, state.digits);
      }
      Normalize();
    }

    /** A stream encoded from s decodes to s. */
    lemma BitDecodes(size0: nat, numTotalBits: nat, s: uint32)
      requires Valid() && BitOk(size0, numTotalBits, s)
      requires Holds(BitStep(state, size0, numTotalBits, s), source)
      ensures s == 0 <==> code < BitBound(range, size0, numTotalBits)
    {
      BitHolds(state, size0, numTotalBits, s, source);
    }

    /** The single conditional shift of DecodeDirectBits and CBitDecoder::Decode. */
    method NormalizeOnce()
      requires Coherent()
      modifies this
      ensures Coherent() && state == ShiftIf(old(state))
      ensures TOP <= old(range) * 256 ==> range >= TOP && state == RangeIntervals.Normalize(old(state))
    {
      if range > 0 {
        ShiftIfExact(state);
      }
      if range < TOP {
        NextDigit(source.Value(pos), state.low, source.At(pos));
        code := code * 256 % TWO32 + source.At(pos);
        pos := pos + 1;
        range := range * 256;
        state := Shift(state);
      }
    }

    /** No other bit than this one can have been encoded into the stream here. */
    ghost predicate OnlyBit(before: Interval, bit: nat)
      requires before.range >= TOP
    {
      forall b: nat :: b < 2 && Holds(DirectStep(before, b), source) ==> bit == b
    }

    /** One step of the direct-bit loop, with the branchless comparison of the source:
        t is the sign bit of the wrapped difference. */
    method DecodeDirectBit() returns (bit: nat)
      requires Valid()
      modifies this
      ensures Valid() && bit < 2
      ensures state == DirectStep(old(state), bit)
      ensures OnlyBit(old(state), bit)
      ensures bit == PlainBit(old(code), old(range) / 2) <==> old(code) - old(range) / 2 < 0x8000_0000
      ensures old(code) < old(range) ==> bit == if old(code) >= old(range) / 2 then 1 else 0
      ensures NarrowedTo(old(state), bit * (old(range) / 2), old(range) / 2, state)
    {
      ghost var before := state;
      hide OnlyBit, SignBit, DirectStep, NarrowedTo, Source.Value, RangeIntervals.Normalize;
      BranchlessStepExact(code, range);
      range := range / 2;
      var t := SignBit(code - range);
      bit := 1 - t;
      BitIsOnly(before, code, bit);
      MovedUp(source.Value(pos), state.low, bit * range);
      code := (code - bit * range) % TWO32;
      state := Interval(before.low + bit * range, range, before.digits);
      DirectStepIs(before, bit);
      NormalizeExact(before, bit * (before.range / 2), before.range / 2);
      NormalizeOnce();
    }

    static lemma DirectStepIs(i: Interval, bit: nat)
      requires i.range >= 2
      ensures DirectStep(i, bit)
           == RangeIntervals.Normalize(Interval(i.low + bit * (i.range / 2), i.range / 2, i.digits))
    {
    }

    lemma BitIsOnly(before: Interval, code: uint32, bit: nat)
      requires Normalized(before) && code == (source.Value(before.digits + 4) - before.low) % TWO32
      requires bit == 1 - SignBit(code - before.range / 2)
      ensures OnlyBit(before, bit)
    {
      hide DirectStep;
      BranchlessStepExact(code, before.range);
      forall b: nat | b < 2 && Holds(DirectStep(before, b), source)
        ensures bit == b
      {
        LastPlainBit(before, source, b);
        DirectHolds(before, b, source);
      }
    }

    method DecodeDirectBits(numTotalBits: nat) returns (result: nat)
      requires Valid() && numTotalBits <= 32
      modifies this
      ensures Valid() && result < Pow2(numTotalBits)
      ensures state == DirectSteps(old(state), result, numTotalBits)
      ensures Between(old(state), result, numTotalBits, state)
      ensures forall v: nat ::
        Holds(DirectSteps(old(state), v, numTotalBits), source) ==> result == Low(v, numTotalBits)
    {
      hide DirectStep, OnlyBit, Low, Holds, Between;
      result := 0;
      var i: nat := numTotalBits;
      NothingRead(state, numTotalBits);
      while i != 0
        invariant 0 <= i <= numTotalBits && Valid() && result < Pow2(numTotalBits - i)
        invariant state == DirectSteps(old(state), result, numTotalBits - i)
        invariant Agrees(old(state), result, numTotalBits, i)
      {
        ghost var leading := result;
        var bit := DecodeDirectBit();
        i := i - 1;
        result := 2 * result + bit;
        AgreesNext(old(state), leading, bit, numTotalBits, i);
      }
      LowSmall(result, numTotalBits);
      DirectStepsBetween(old(state), result, numTotalBits);
    }

    /** Whatever numBits-bit value the stream was encoded from, result is all but its last `left` bits. */
    ghost predicate Agrees(i: Interval, result: nat, numBits: nat, left: nat)
      requires i.range >= TOP && left <= numBits
    {
      forall v: nat :: Holds(DirectSteps(i, v, numBits), source) ==> result == Low(Shr(v, left), numBits - left)
    }

    lemma NothingRead(i: Interval, numBits: nat)
      requires i.range >= TOP
      ensures Agrees(i, 0, numBits, numBits)
    {
    }

    lemma AgreesNext(i: Interval, result: nat, bit: nat, numBits: nat, left: nat)
      requires i.range >= TOP && left < numBits && Agrees(i, result, numBits, left + 1)
      requires OnlyBit(DirectSteps(i, result, numBits - left - 1), bit)
      requires result < Pow2(numBits - left - 1)
      ensures Agrees(i, 2 * result + bit, numBits, left)
    {
      forall v: nat | Holds(DirectSteps(i, v, numBits), source)
        ensures 2 * result + bit == Low(Shr(v, left), numBits - left)
      {
        DirectNextHolds(i, v, numBits, left, source);
        LowSmall(result, numBits - left - 1);
        SameLeadingBits(i, Shr(v, left + 1), result, numBits - left - 1);
      }
    }

    /** DirectSteps looks at the low numBits bits only. */
    static lemma {:induction false} SameLeadingBits(i: Interval, v: nat, w: nat, numBits: nat)
      requires i.range >= TOP && Low(v, numBits) == Low(w, numBits)
      ensures DirectSteps(i, v, numBits) == DirectSteps(i, w, numBits)
    {
      if numBits == 0 {
      } else {
        SameLeadingBits(i, v / 2, w / 2, numBits - 1);
      }
    }
  }

  /** The top bit of a wrapped 32-bit difference: `(code - range) >> 31`. */
  function SignBit(x: int): bit {
    x % TWO32 / 0x8000_0000
  }

  /** The bit of the compare-and-subtract loop that the source has in its comment. */
  function PlainBit(code: nat, half: nat): bit {
    if code >= half then 1 else 0
  }

  /** The branchless step takes the same branch exactly when the code is less than 2^31 above the
      halved range, as it is when it lies below the range. */
  lemma BranchlessStepExact(code: uint32, range: uint32)
    ensures var half := range / 2;
      1 - SignBit(code - half) == PlainBit(code, half) <==> code - half < 0x8000_0000
    ensures code < range ==> code - range / 2 < 0x8000_0000
  {
  }

  /** A stream on which the two part: Code is 0xFFFFFFFF, and its distance above the halved range is 2^31. */
  function FailingStream(): Source {
    Source([0, 0xFF, 0xFF, 0xFF, 0xFF], 0)
  }

  method BranchlessFails() returns (d: Decoder, bit: nat)
    ensures d.source == FailingStream() && bit == 0
    ensures CodeAt(INITIAL, d.source) == 0xFFFF_FFFF && PlainBit(0xFFFF_FFFF, 0x7FFF_FFFF) == 1
  {
    FailingSource(FailingStream());
    hide FailingStream, CodeAt, Source.Value, Source.At, Decoder.Coherent;
    d := DecoderFor(FailingStream());
    bit := FirstBit(d);
  }

  method DecoderFor(source: Source) returns (d: Decoder)
    ensures d.Valid() && d.source == source && d.state == INITIAL && fresh(d)
    ensures d.range == 0xFFFF_FFFF && d.code == CodeAt(INITIAL, source)
  {
    hide Source.Value;
    d := new Decoder.Init(source);
  }

  method FirstBit(d: Decoder) returns (bit: nat)
    requires d.Valid() && d.state == INITIAL && d.range == 0xFFFF_FFFF && d.code == 0xFFFF_FFFF
    modifies d
    ensures bit == 0
  {
    hide DirectStep, NarrowedTo, Decoder.OnlyBit, Decoder.Coherent;
    bit := d.DecodeDirectBit();
  }

  lemma FailingSource(source: Source)
    requires source == FailingStream()
    ensures CodeAt(INITIAL, source) == 0xFFFF_FFFF
  {
    assert source.At(0) == 0 && source.At(1) == source.At(2) == source.At(3) == source.At(4) == 0xFF;
    FiveBytes(source);
  }

  lemma FiveBytes(s: Source)
    requires s.At(0) == 0 && s.At(1) == s.At(2) == s.At(3) == s.At(4) == 0xFF
    ensures s.Value(5) == 0xFFFF_FFFF
  {
    assert s.Value(1) == 0 && s.Value(2) == 0xFF && s.Value(3) == 0xFFFF;
    assert s.Value(4) == 0xFF_FFFF;
  }

  /** The loop of the comment reads a 1 there. */
  lemma PlainBitThere()
    ensures PlainBits(INITIAL, FailingStream(), 1) == 1
  {
    FailingSource(FailingStream());
  }

  // ---------- the loop of the comment, on whole values ----------

  ghost function CodeAt(i: Interval, s: Source): uint32 {
    (s.Value(i.digits + 4) - i.low) % TWO32
  }

  /** What the compare-and-subtract loop reads. */
  ghost function PlainBits(i: Interval, s: Source, numBits: nat): nat
    requires i.range >= TOP
  {
    if numBits == 0 then 0
    else
      var leading := PlainBits(i, s, numBits - 1);
      var before := DirectSteps(i, leading, numBits - 1);
      2 * leading + PlainBit(CodeAt(before, s), before.range / 2)
  }

  lemma LastPlainBit(before: Interval, s: Source, b: bit)
    requires Normalized(before) && Holds(DirectStep(before, b), s)
    ensures Holds(before, s) && PlainBit(CodeAt(before, s), before.range / 2) == b
  {
    hide DirectStep;
    DirectHolds(before, b, s);
    hide Holds;
    var x := s.Value(before.digits + 4) - before.low;
    QuotientUnique(x, TWO32, 0, x);
  }

  /** On encoder output it reads the value, and so does the branchless loop (see DecodeDirectBits). */
  lemma {:induction false} LoopsAgree(i: Interval, s: Source, v: nat, numBits: nat)
    requires Normalized(i) && Holds(DirectSteps(i, v, numBits), s)
    ensures PlainBits(i, s, numBits) == Low(v, numBits)
  {
    hide DirectStep, Holds, CodeAt, PlainBit;
    if numBits == 0 {
    } else {
      var leading := PlainBits(i, s, numBits - 1);
      var before := DirectSteps(i, v / 2, numBits - 1);
      DirectStepsInWord(i, v / 2, numBits - 1);
      LastPlainBit(before, s, v % 2);
      LoopsAgree(i, s, v / 2, numBits - 1);
      LowSmall(leading, numBits - 1);
      Decoder.SameLeadingBits(i, leading, v / 2, numBits - 1);
    }
  }
}
