/** Whole runs of the adaptive coder, with any number of models on one range coder. */
module AdaptiveRuns {
  import opened Words
  import opened ByteStreams
  import opened RangeIntervals
  import opened RangeEncoder
  import opened RangeDecoder
  import opened RangeCoderRuns
  import opened RangeCoderBit
  import OneModelRuns

  /** The coders tell 0 from everything else. */
  function AsBit(symbol: uint32): uint32 {
    if symbol == 0 then 0 else 1
  }

  function AsBits(symbols: seq<uint32>): (bits: seq<uint32>)
    ensures |bits| == |symbols| && forall k :: 0 <= k < |bits| ==> bits[k] == AsBit(symbols[k])
  {
    seq(|symbols|, k requires 0 <= k < |symbols| => AsBit(symbols[k]))
  }

  /** What a run is given: the models and the rule that picks one from the bits coded so far. */
  datatype Scheme = Scheme(moveBits: nat, numModels: nat, choose: seq<uint32> -> nat) {
    ghost predicate Ok() {
      forall h :: choose(h) < numModels
    }

    /** All probabilities after a history. */
    ghost function Probs(history: seq<uint32>): (probs: seq<nat>)
      requires Ok()
      ensures |probs| == numModels
      ensures forall j :: 0 <= j < numModels ==> InBand(probs[j], moveBits) && probs[j] <= MODEL_TOTAL
    {
      if history == [] then
        InitInBand(moveBits);
        seq(numModels, _ => MODEL_TOTAL / 2)
      else
        var earlier := history[..|history| - 1];
        var before := Probs(earlier);
        var prob := Updated(before[choose(earlier)], moveBits, history[|history| - 1]);
        BandKept(before[choose(earlier)], moveBits, history[|history| - 1]);
        BandLimits(prob, moveBits);
        before[choose(earlier) := prob]
    }

    /** The interval after a history. */
    ghost function Narrowed(history: seq<uint32>): (i: Interval)
      requires Ok()
      ensures i.range < TWO32
    {
      if history == [] then INITIAL
      else
        var earlier := history[..|history| - 1];
        OneShiftStep(Narrowed(earlier), Probs(earlier)[choose(earlier)], history[|history| - 1])
    }

    /** No symbol met an empty part. */
    ghost predicate Open(history: seq<uint32>)
      requires Ok()
    {
      Narrowed(history).range >= 1
    }

    lemma AtFirst(history: seq<uint32>)
      requires Ok()
      ensures history[..0] == [] && Narrowed(history[..0]) == INITIAL
    {
    }

    lemma OpenIs(history: seq<uint32>)
      requires Ok()
      ensures Open(history) <==> Narrowed(history).range >= 1
    {
    }

    /** One more symbol: one step of the interval, one model moved. */
    lemma Next(history: seq<uint32>, k: nat)
      requires Ok() && k < |history|
      ensures var earlier := history[..k]; var prob := Probs(earlier)[choose(earlier)];
        && Narrowed(history[..k + 1]) == OneShiftStep(Narrowed(earlier), prob, history[k])
        && Probs(history[..k + 1]) == Probs(earlier)[choose(earlier) := Updated(prob, moveBits, history[k])]
    {
      assert history[..k + 1][..k] == history[..k];
    }

    lemma {:induction false} OpenBefore(history: seq<uint32>, k: nat)
      requires Ok() && k <= |history| && Open(history)
      ensures Open(history[..k])
      decreases |history|
    {
      if k == |history| {
        assert history[..k] == history;
      } else {
        var earlier := history[..|history| - 1];
        OpenBefore(earlier, k);
        assert earlier[..k] == history[..k];
      }
    }

    /** A stream in the interval after a history was in the intervals of all its beginnings. */
    lemma {:induction false} Nested(history: seq<uint32>, k: nat, s: Source)
      requires Ok() && k <= |history| && Holds(Narrowed(history), s)
      ensures Holds(Narrowed(history[..k]), s)
      decreases |history|
    {
      if k == |history| {
        assert history[..k] == history;
      } else {
        var earlier := history[..|history| - 1];
        StepHolds(Narrowed(earlier), Probs(earlier)[choose(earlier)], history[|history| - 1], s);
        Nested(earlier, k, s);
        assert earlier[..k] == history[..k];
      }
    }

    /** With moveBits >= 4 no run meets an empty part, and every step is that of EncodeBit. */
    lemma {:induction false} AlwaysWide(history: seq<uint32>)
      requires Ok() && moveBits >= 4
      ensures Narrowed(history).range >= TOP
      ensures forall symbol: uint32 :: StepOfEncodeBit(Narrowed(history), Probs(history)[choose(history)], symbol)
    {
      if history == [] {
      } else {
        var earlier := history[..|history| - 1];
        AlwaysWide(earlier);
        WideStep(Narrowed(earlier), Probs(earlier)[choose(earlier)], moveBits, history[|history| - 1]);
      }
      forall symbol: uint32
        ensures StepOfEncodeBit(Narrowed(history), Probs(history)[choose(history)], symbol)
      {
        WideStep(Narrowed(history), Probs(history)[choose(history)], moveBits, symbol);
      }
    }
  }

  /** With one model the range and the probability are those of OneModelRuns. */
  lemma {:induction false} OneModelRun(scheme: Scheme, history: seq<uint32>)
    requires scheme.Ok() && scheme.numModels == 1
    ensures OneModelRuns.After(scheme.moveBits, history)
         == OneModelRuns.Reached(scheme.Narrowed(history).range, scheme.Probs(history)[0])
  {
    if history == [] {
    } else {
      OneModelRun(scheme, history[..|history| - 1]);
    }
  }

  ghost predicate EncoderModels(scheme: Scheme, models: seq<BitEncoder>, history: seq<uint32>)
    requires scheme.Ok()
    reads models
  {
    && |models| == scheme.numModels
    && (forall i, j :: 0 <= i < j < |models| ==> models[i] != models[j])
    && forall j :: 0 <= j < |models| ==>
      models[j].moveBits == scheme.moveBits && models[j].prob == scheme.Probs(history)[j]
  }

  ghost predicate DecoderModels(scheme: Scheme, models: seq<BitDecoder>, history: seq<uint32>)
    requires scheme.Ok()
    reads models
  {
    && |models| == scheme.numModels
    && (forall i, j :: 0 <= i < j < |models| ==> models[i] != models[j])
    && forall j :: 0 <= j < |models| ==>
      models[j].moveBits == scheme.moveBits && models[j].prob == scheme.Probs(history)[j]
  }

  method NewEncoderModels(scheme: Scheme) returns (models: seq<BitEncoder>)
    requires scheme.Ok()
    ensures EncoderModels(scheme, models, []) && fresh(models)
  {
    models := [];
    while |models| < scheme.numModels
      invariant |models| <= scheme.numModels && fresh(models)
      invariant forall j :: 0 <= j < |models| ==>
        models[j].moveBits == scheme.moveBits && models[j].prob == MODEL_TOTAL / 2
      invariant forall i, j :: 0 <= i < j < |models| ==> models[i] != models[j]
    {
      var model := new BitEncoder.Init(scheme.moveBits);
      models := models + [model];
    }
  }

  method NewDecoderModels(scheme: Scheme) returns (models: seq<BitDecoder>)
    requires scheme.Ok()
    ensures DecoderModels(scheme, models, []) && fresh(models)
  {
    models := [];
    while |models| < scheme.numModels
      invariant |models| <= scheme.numModels && fresh(models)
      invariant forall j :: 0 <= j < |models| ==>
        models[j].moveBits == scheme.moveBits && models[j].prob == MODEL_TOTAL / 2
      invariant forall i, j :: 0 <= i < j < |models| ==> models[i] != models[j]
    {
      var model := new BitDecoder.Init(scheme.moveBits);
      models := models + [model];
    }
  }

  /** Any nonzero symbol is coded as a 1. */
  method EncodeNext(scheme: Scheme, models: seq<BitEncoder>, e: Encoder, bits: seq<uint32>, k: nat, symbol: uint32)
    requires scheme.Ok() && k < |bits| && bits[k] == AsBit(symbol) && scheme.Open(bits)
    requires EncoderModels(scheme, models, bits[..k])
    requires e.Room(e.range) && e.State() == scheme.Narrowed(bits[..k])
    modifies e, models
    ensures EncoderModels(scheme, models, bits[..k + 1])
    ensures e.Room(e.range) && e.State() == scheme.Narrowed(bits[..k + 1])
  {
    hide Scheme.Probs, Scheme.Narrowed, PartRange, Part, InBand, Num;
    scheme.Next(bits, k);
    scheme.OpenBefore(bits, k + 1);
    var j := scheme.choose(bits[..k]);
    SameBit(e.State(), models[j].prob, models[j].moveBits, symbol);
    models[j].Encode(e, symbol);
  }

  lemma SameBit(i: Interval, prob: nat, moveBits: nat, symbol: nat)
    requires prob <= MODEL_TOTAL
    ensures var bit := if symbol == 0 then 0 else 1;
      && OneShiftStep(i, prob, symbol) == OneShiftStep(i, prob, bit)
      && PartRange(i.range, prob, symbol) == PartRange(i.range, prob, bit)
      && Updated(prob, moveBits, symbol) == Updated(prob, moveBits, bit)
  {
  }

  /** The model is chosen from what has been decoded, not from the bits that were encoded. */
  method DecodeNext(scheme: Scheme, models: seq<BitDecoder>, d: Decoder, decoded: seq<uint32>, ghost bits: seq<uint32>)
    returns (symbol: uint32)
    requires scheme.Ok() && |decoded| < |bits| && decoded == bits[..|decoded|] && bits[|decoded|] <= 1
    requires DecoderModels(scheme, models, decoded)
    requires d.Coherent() && d.state == scheme.Narrowed(bits[..|decoded|])
    requires Holds(scheme.Narrowed(bits), d.source)
    modifies d, models
    ensures symbol == bits[|decoded|]
    ensures DecoderModels(scheme, models, bits[..|decoded| + 1])
    ensures d.Coherent() && d.state == scheme.Narrowed(bits[..|decoded| + 1])
    ensures d.code < d.range
  {
    hide Scheme.Probs, Scheme.Narrowed, PartRange, Part, OneShiftStep, InBand, Updated, BitBound;
    ghost var k := |decoded|;
    scheme.Next(bits, k);
    scheme.Nested(bits, k + 1, d.source);
    var j := scheme.choose(decoded);
    StepHolds(d.state, models[j].prob, bits[k], d.source);
    BoundIs(d.range, models[j].prob);
    d.CodeBelowRange();
    symbol := models[j].Decode(d);
    d.CodeBelowRange();
  }

  method EncodeAdaptive(scheme: Scheme, symbols: seq<uint32>) returns (bytes: seq<byte>, models: seq<BitEncoder>)
    requires scheme.Ok() && scheme.Open(AsBits(symbols))
    ensures Num(bytes) == scheme.Narrowed(AsBits(symbols)).low
    ensures |bytes| == scheme.Narrowed(AsBits(symbols)).digits + 4
    ensures EncoderModels(scheme, models, AsBits(symbols))
  {
    hide Scheme.Probs, Scheme.Narrowed, Scheme.Open, Num;
    var bits := AsBits(symbols);
    scheme.AtFirst(bits);
    models := NewEncoderModels(scheme);
    var e := new Encoder.Init();
    for k := 0 to |symbols|
      invariant fresh(e) && fresh(models)
      invariant EncoderModels(scheme, models, bits[..k])
      invariant e.Room(e.range) && e.State() == scheme.Narrowed(bits[..k])
    {
      EncodeNext(scheme, models, e, bits, k, symbols[k]);
    }
    assert bits[..|symbols|] == bits;
    assert e.range >= 1 by { scheme.OpenIs(bits); }
    e.FlushData();
    bytes := e.out;
  }

  method DecodeAdaptive(scheme: Scheme, count: nat, source: Source, ghost bits: seq<uint32>)
    returns (decoded: seq<uint32>, models: seq<BitDecoder>, consumed: nat)
    requires scheme.Ok() && |bits| == count && forall k :: 0 <= k < count ==> bits[k] <= 1
    requires Holds(scheme.Narrowed(bits), source)
    ensures decoded == bits
    ensures DecoderModels(scheme, models, bits)
    ensures consumed == scheme.Narrowed(bits).digits + 4
  {
    hide Scheme.Probs, Scheme.Narrowed;
    scheme.AtFirst(bits);
    models := NewDecoderModels(scheme);
    var d := new Decoder.Init(source);
    decoded := [];
    for k := 0 to count
      invariant fresh(d) && fresh(models) && d.source == source
      invariant decoded == bits[..k]
      invariant DecoderModels(scheme, models, bits[..k])
      invariant d.Coherent() && d.state == scheme.Narrowed(bits[..k])
    {
      var symbol := DecodeNext(scheme, models, d, decoded, bits);
      decoded := decoded + [symbol];
      assert bits[..k + 1] == bits[..k] + [bits[k]];
    }
    assert bits[..|bits|] == bits;
    consumed := d.pos;
  }

  /** The adaptive round trip: whatever follows the flushed bytes in the stream, the decoder, picking its
      models from what it has itself decoded, returns every bit and reads exactly those bytes, and the
      models of both sides end as the run leads them. It holds for every run that meets no empty part;
      AlwaysWide says that with moveBits >= 4 none does. */
  method AdaptiveRoundTrip(scheme: Scheme, symbols: seq<uint32>, tail: seq<byte>, pad: byte)
    returns (bytes: seq<byte>, decoded: seq<uint32>, consumed: nat, encoders: seq<BitEncoder>,
             decoders: seq<BitDecoder>)
    requires scheme.Ok() && scheme.Open(AsBits(symbols))
    ensures decoded == AsBits(symbols) && consumed == |bytes|
    ensures EncoderModels(scheme, encoders, AsBits(symbols))
    ensures DecoderModels(scheme, decoders, AsBits(symbols))
  {
    bytes, encoders := EncodeAdaptive(scheme, symbols);
    ghost var bits := AsBits(symbols);
    FlushedHolds(scheme.Narrowed(bits), bytes, Source(bytes + tail, pad));
    decoded, decoders, consumed := DecodeAdaptive(scheme, |symbols|, Source(bytes + tail, pad), bits);
  }
}
