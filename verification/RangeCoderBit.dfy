/** Adaptive bit coding: a probability per model, moved towards every coded bit. */
module RangeCoderBit {
  import opened Words
  import opened ByteStreams
  import opened RangeIntervals
  import opened RangeEncoder
  import opened RangeDecoder

  const MODEL_BITS := 11
  const MODEL_TOTAL := 2048

  function Updated(prob: nat, moveBits: nat, symbol: nat): nat {
    if symbol == 0 then
      prob + (if prob <= MODEL_TOTAL then Shr(MODEL_TOTAL - prob, moveBits) else 0)
    else
      prob - Shr(prob, moveBits)
  }

  /** The probability moves by the whole 2^moveBits parts of its distance to the end. */
  lemma UpdatedExact(prob: nat, moveBits: nat)
    requires prob <= MODEL_TOTAL
    ensures var d := Updated(prob, moveBits, 0) - prob;
      d * Pow2(moveBits) <= 2048 - prob < d * Pow2(moveBits) + Pow2(moveBits)
    ensures forall symbol: nat :: symbol != 0 ==> var d := prob - Updated(prob, moveBits, symbol);
      d * Pow2(moveBits) <= prob < d * Pow2(moveBits) + Pow2(moveBits)
  {
    ShrDiv(MODEL_TOTAL - prob, moveBits);
    ShrDiv(prob, moveBits);
  }

  /** How close to 0 and to the total a probability can come; moveBits is 5 in Bcj2Coder. */
  function Edge(moveBits: nat): nat {
    Pow2(if moveBits <= 10 then moveBits else 10) - 1
  }

  /** The probabilities a model can reach. */
  predicate InBand(prob: int, moveBits: nat) {
    Edge(moveBits) <= prob <= MODEL_TOTAL - Edge(moveBits)
  }

  lemma InitInBand(moveBits: nat)
    ensures InBand(MODEL_TOTAL / 2, moveBits)
  {
    Pow2Le(if moveBits <= 10 then moveBits else 10, 10);
    Pow2Values();
  }

  lemma BandKept(prob: nat, moveBits: nat, symbol: nat)
    requires InBand(prob, moveBits)
    ensures InBand(Updated(prob, moveBits, symbol), moveBits)
  {
    var x := if symbol == 0 then MODEL_TOTAL - prob else prob;
    if moveBits <= 10 {
      MovesTowardsZero(x, moveBits);
    } else {
      Pow2Values();
      Pow2Le(11, moveBits);
      ShrBelow(x, 0, moveBits);
    }
  }

  lemma OneFewer(q: nat, p: nat)
    requires p >= 1
    ensures q * p == q * (p - 1) + q
  {
  }

  /** x - (x >> n) never falls below 2^n - 1, if x did not, and never exceeds x. */
  lemma MovesTowardsZero(x: nat, n: nat)
    requires x >= Pow2(n) - 1
    ensures Pow2(n) - 1 <= x - Shr(x, n) <= x
  {
    var q, p := Shr(x, n), Pow2(n);
    ShrDiv(x, n);
    if q >= 1 {
      MulLe(1, q, p - 1);
      OneFewer(q, p);
    }
  }

  /** Where a model with moveBits >= 4 stays. */
  lemma BandLimits(prob: int, moveBits: nat)
    requires InBand(prob, moveBits)
    ensures moveBits >= 4 ==> 15 <= prob <= MODEL_TOTAL - 15
    ensures moveBits == 5 ==> 31 <= prob <= 2017
    ensures 0 <= prob <= MODEL_TOTAL
  {
    if moveBits >= 4 {
      Pow2Le(4, if moveBits <= 10 then moveBits else 10);
    }
    Pow2Values();
  }

  /** One conditional shift is enough for this probability, whatever the range and the symbol. */
  ghost predicate OneShiftIsEnough(prob: nat) {
    forall range: nat :: TOP <= range < TWO32 ==>
      && TOP <= BitBound(range, prob, MODEL_BITS) * 256
      && TOP <= (range - BitBound(range, prob, MODEL_BITS)) * 256
  }

  lemma BoundIs(range: nat, prob: nat)
    ensures BitBound(range, prob, MODEL_BITS) == range / MODEL_TOTAL * prob
  {
    ShrDiv(range, MODEL_BITS);
    Pow2Values();
  }

  lemma OneShiftExact(prob: nat)
    ensures OneShiftIsEnough(prob) <==> 8 <= prob <= MODEL_TOTAL - 8
  {
    if OneShiftIsEnough(prob) {
      BoundIs(TOP, prob);
    }
    if 8 <= prob <= MODEL_TOTAL - 8 {
      forall range: nat | TOP <= range < TWO32
        ensures TOP <= BitBound(range, prob, MODEL_BITS) * 256
        ensures TOP <= (range - BitBound(range, prob, MODEL_BITS)) * 256
      {
        OneShiftWide(range, prob);
      }
    }
  }

  lemma OneShiftWide(range: nat, prob: nat)
    requires TOP <= range && 8 <= prob <= MODEL_TOTAL - 8
    ensures TOP <= BitBound(range, prob, MODEL_BITS) * 256
    ensures TOP <= (range - BitBound(range, prob, MODEL_BITS)) * 256
  {
    BoundIs(range, prob);
    hide BitBound;
    var unit, bound := range / MODEL_TOTAL, BitBound(range, prob, MODEL_BITS);
    assert 8 * unit <= bound by { MulLe(8, prob, unit); }
    assert bound + 8 * unit <= MODEL_TOTAL * unit by {
      MulLe(prob, MODEL_TOTAL - 8, unit);
    }
    assert TOP <= 8 * unit * 256;
  }

  // ---------- one coded bit, in unbounded arithmetic ----------

  lemma BoundInside(range: nat, prob: nat)
    requires prob <= MODEL_TOTAL
    ensures BitBound(range, prob, MODEL_BITS) <= range
  {
    BoundIs(range, prob);
    MulLe(prob, MODEL_TOTAL, range / MODEL_TOTAL);
  }

  function PartRange(range: nat, prob: nat, symbol: nat): (part: nat)
    requires prob <= MODEL_TOTAL
    ensures part <= range
  {
    BoundInside(range, prob);
    if symbol == 0 then BitBound(range, prob, MODEL_BITS) else range - BitBound(range, prob, MODEL_BITS)
  }

  /** The symbol's part of an interval. */
  function Part(i: Interval, prob: nat, symbol: nat): (r: Interval)
    requires prob <= MODEL_TOTAL
  {
    var offset := if symbol == 0 then 0 else BitBound(i.range, prob, MODEL_BITS);
    Interval(i.low + offset, PartRange(i.range, prob, symbol), i.digits)
  }

  /** The part, shifted once if it is narrow. */
  function OneShiftStep(i: Interval, prob: nat, symbol: nat): (r: Interval)
    requires prob <= MODEL_TOTAL
    ensures i.range < TWO32 ==> r.range < TWO32
    ensures r.range >= 1 ==> i.range >= 1 && PartRange(i.range, prob, symbol) >= 1
  {
    ShiftIf(Part(i, prob, symbol))
  }

  /** It is the step of EncodeBit exactly when one shift suffices. */
  lemma OneShiftStepExact(i: Interval, prob: nat, symbol: nat)
    requires i.range >= TOP && prob <= MODEL_TOTAL && BitOk(prob, MODEL_BITS, symbol)
    ensures OneShiftStep(i, prob, symbol) == BitStep(i, prob, MODEL_BITS, symbol)
      <==> TOP <= PartRange(i.range, prob, symbol) * 256
  {
    BitBoundInside(i.range, prob, MODEL_BITS, symbol);
    ShiftIfExact(Part(i, prob, symbol));
  }

  /** A step that is the one of EncodeBit. */
  ghost predicate StepOfEncodeBit(i: Interval, prob: nat, symbol: nat)
    requires i.range >= TOP
  {
    && prob <= MODEL_TOTAL && BitOk(prob, MODEL_BITS, symbol)
    && OneShiftStep(i, prob, symbol) == BitStep(i, prob, MODEL_BITS, symbol)
  }

  /** With moveBits >= 4 every step is. */
  lemma WideStep(i: Interval, prob: nat, moveBits: nat, symbol: nat)
    requires i.range >= TOP && InBand(prob, moveBits) && moveBits >= 4
    ensures StepOfEncodeBit(i, prob, symbol) && OneShiftStep(i, prob, symbol).range >= TOP
  {
    BandLimits(prob, moveBits);
    Pow2Values();
    OneShiftWide(i.range, prob);
    OneShiftStepExact(i, prob, symbol);
  }

  lemma StepHolds(i: Interval, prob: nat, symbol: nat, s: Source)
    requires prob <= MODEL_TOTAL && Holds(OneShiftStep(i, prob, symbol), s)
    ensures Holds(i, s)
    ensures symbol == 0 <==> s.Value(i.digits + 4) - i.low < BitBound(i.range, prob, MODEL_BITS)
  {
    BoundInside(i.range, prob);
    assert s.Value(i.digits + 5) == s.Value(i.digits + 4) * 256 + s.At(i.digits + 4);
  }

  // ---------- the two coders ----------

  class BitEncoder {
    const moveBits: nat
    var prob: nat

    constructor Init(moveBits: nat)
      ensures this.moveBits == moveBits && prob == MODEL_TOTAL / 2 == 1024 && InBand(prob, moveBits)
    {
      this.moveBits, prob := moveBits, MODEL_TOTAL / 2;
      InitInBand(moveBits);
    }

    /** Narrows to the symbol's part, which must not be empty, shifts at most once, and moves the model. */
    method Encode(encoder: Encoder, symbol: uint32)
      requires encoder.Room(encoder.range) && prob <= MODEL_TOTAL && PartRange(encoder.range, prob, symbol) >= 1
      modifies this, encoder
      ensures encoder.Room(encoder.range) && encoder.range >= 1
      ensures encoder.State() == OneShiftStep(old(encoder.State()), old(prob), symbol)
      ensures var b := old(encoder.range) / 2048 * old(prob);
        var width := if symbol == 0 then b else old(encoder.range) - b;
        var base := old(encoder.Value()) + if symbol == 0 then 0 else b;
        && encoder.range == (if width < 0x100_0000 then width * 256 else width)
        && encoder.Value() == if width < 0x100_0000 then base * 256 else base
      ensures prob == Updated(old(prob), moveBits, symbol)
      ensures symbol == 0 ==> var d := prob - old(prob);
        d * Pow2(moveBits) <= 2048 - old(prob) < d * Pow2(moveBits) + Pow2(moveBits)
      ensures symbol != 0 ==> var d := old(prob) - prob;
        d * Pow2(moveBits) <= old(prob) < d * Pow2(moveBits) + Pow2(moveBits)
      ensures old(encoder.out) <= encoder.out
    {
      hide Shr, Num, Fill, Pow2;
      UpdatedExact(prob, moveBits);
      BoundIs(encoder.range, prob);
      var newBound := Shr(encoder.range, MODEL_BITS) * prob;
      assert newBound == BitBound(encoder.range, prob, MODEL_BITS);
      BoundInside(encoder.range, prob);
      if symbol == 0 {
        encoder.range := newBound;
        prob := prob + Shr(MODEL_TOTAL - prob, moveBits);
      } else {
        encoder.low := encoder.low + newBound;
        encoder.range := encoder.range - newBound;
        prob := prob - Shr(prob, moveBits);
      }
      encoder.NormalizeOnce();
    }
  }

  class BitDecoder {
    const moveBits: nat
    var prob: nat

    constructor Init(moveBits: nat)
      ensures this.moveBits == moveBits && prob == MODEL_TOTAL / 2 == 1024 && InBand(prob, moveBits)
    {
      this.moveBits, prob := moveBits, MODEL_TOTAL / 2;
      InitInBand(moveBits);
    }

    /** On every stream and from every state: the answer follows the stream, and interval and model
        move as the encoder's would for that answer. */
    method Decode(decoder: Decoder) returns (symbol: uint32)
      requires decoder.Coherent() && prob <= MODEL_TOTAL
      modifies this, decoder
      ensures decoder.Coherent() && symbol <= 1
      ensures decoder.state == OneShiftStep(old(decoder.state), old(prob), symbol)
      ensures symbol == 0 <==> old(decoder.code) < old(decoder.range) / 2048 * old(prob)
      ensures var b := old(decoder.range) / 2048 * old(prob);
        var width := if symbol == 0 then b else old(decoder.range) - b;
        decoder.range == if width < 0x100_0000 then width * 256 else width
      ensures prob == Updated(old(prob), moveBits, symbol)
      ensures symbol == 0 ==> var d := prob - old(prob);
        d * Pow2(moveBits) <= 2048 - old(prob) < d * Pow2(moveBits) + Pow2(moveBits)
      ensures symbol != 0 ==> var d := old(prob) - prob;
        d * Pow2(moveBits) <= old(prob) < d * Pow2(moveBits) + Pow2(moveBits)
    {
      hide Shr, Pow2;
      UpdatedExact(prob, moveBits);
      BoundIs(decoder.range, prob);
      var newBound := Shr(decoder.range, MODEL_BITS) * prob;
      assert newBound == BitBound(decoder.range, prob, MODEL_BITS);
      BoundInside(decoder.range, prob);
      if decoder.code < newBound {
        decoder.range := newBound;
        decoder.state := decoder.state.(range := newBound);
        prob := prob + Shr(MODEL_TOTAL - prob, moveBits);
        decoder.NormalizeOnce();
        return 0;
      } else {
        decoder.MovedUp(decoder.source.Value(decoder.pos), decoder.state.low, newBound);
        decoder.range := decoder.range - newBound;
        decoder.code := decoder.code - newBound;
        decoder.state := Interval(decoder.state.low + newBound, decoder.range, decoder.state.digits);
        prob := prob - Shr(prob, moveBits);
        decoder.NormalizeOnce();
        return 1;
      }
    }
  }
}
