/** Whole runs of the range coder: every interleaving of the three kinds of coded item comes back. */
module RangeCoderRuns {
  import opened Words
  import opened ByteStreams
  import opened RangeIntervals
  import opened RangeEncoder
  import opened RangeDecoder

  method EncodeItem(e: Encoder, item: Item)
    requires e.Valid() && item.Ok()
    modifies e
    ensures e.Valid() && e.State() == Narrow(old(e.State()), item)
    ensures old(e.out) <= e.out
  {
    match item
    case Freq(start, size, total) => e.Encode(start, size, total);
    case Bit(size0, numTotalBits, symbol) => e.EncodeBit(size0, numTotalBits, symbol);
    case Direct(value, numBits) => e.EncodeDirectBits(value, numBits);
  }

  /** The answer is the threshold; start and size are what the caller's frequency table holds for it. */
  method DecodeFreq(d: Decoder, start: nat, size: nat, total: nat) returns (answer: nat)
    requires d.Valid() && Freq(start, size, total).Ok() && Holds(FreqStep(d.state, start, size, total), d.source)
    modifies d
    ensures d.Valid() && d.state == FreqStep(old(d.state), start, size, total)
    ensures start <= answer < start + size
  {
    hide FreqStep;
    ghost var before := d.state;
    answer := d.GetThreshold(total);
    assert Holds(FreqStep(before, start, size, total), d.source);
    d.Decode(start, size, total, before);
  }

  method DecodeDirect(d: Decoder, value: uint32, numBits: nat) returns (answer: nat)
    requires d.Valid() && numBits <= 32 && Holds(DirectSteps(d.state, value, numBits), d.source)
    modifies d
    ensures d.Valid() && d.state == DirectSteps(old(d.state), value, numBits)
    ensures answer == Low(value, numBits)
  {
    hide DirectSteps;
    ghost var before := d.state;
    answer := d.DecodeDirectBits(numBits);
    LowSmall(answer, numBits);
    d.SameLeadingBits(before, answer, value, numBits);
  }

  method DecodeItem(d: Decoder, item: Item) returns (answer: nat)
    requires d.Valid() && item.Ok() && Holds(Narrow(d.state, item), d.source)
    modifies d
    ensures d.Valid() && d.state == Narrow(old(d.state), item)
    ensures item.DecodedAs(answer) && d.code < d.range
  {
    hide FreqStep, DirectSteps, Shr, Low;
    match item {
      case Freq(start, size, total) =>
        answer := DecodeFreq(d, start, size, total);
      case Bit(size0, numTotalBits, symbol) =>
        d.BitDecodes(size0, numTotalBits, symbol);
        answer := d.DecodeBit(size0, numTotalBits);
      case Direct(value, numBits) =>
        answer := DecodeDirect(d, value, numBits);
    }
    d.CodeBelowRange();
  }

  method EncodeAll(items: seq<Item>) returns (bytes: seq<byte>)
    requires AllOk(items)
    ensures Num(bytes) == NarrowAll(items).low
    ensures |bytes| == NarrowAll(items).digits + 4 >= 5
    ensures bytes[0] == 0
  {
    var e := new Encoder.Init();
    for k := 0 to |items|
      invariant e.Valid() && e.State() == NarrowAll(items[..k])
    {
      NarrowAllNext(items, k);
      EncodeItem(e, items[k]);
    }
    assert items[..|items|] == items;
    e.FlushData();
    bytes := e.out;
    RunBelowOne(items);
    LeadingZero(bytes);
  }

  lemma LeadingZero(bytes: seq<byte>)
    requires bytes != [] && Num(bytes) < Pow2(8 * (|bytes| - 1))
    ensures bytes[0] == 0
  {
    NumLeadingByte(bytes);
    if bytes[0] >= 1 {
      MulLe(1, bytes[0], Pow2(8 * (|bytes| - 1)));
    }
  }

  method DecodeAll(items: seq<Item>, source: Source) returns (answers: seq<nat>, consumed: nat)
    requires AllOk(items) && Holds(NarrowAll(items), source)
    ensures |answers| == |items| && forall k :: 0 <= k < |items| ==> items[k].DecodedAs(answers[k])
    ensures consumed == NarrowAll(items).digits + 4
  {
    var d := new Decoder.Init(source);
    answers := [];
    for k := 0 to |items|
      invariant d.Valid() && d.source == source && d.state == NarrowAll(items[..k])
      invariant |answers| == k && forall j :: 0 <= j < k ==> items[j].DecodedAs(answers[j])
    {
      NarrowAllNext(items, k);
      NestedIntervals(items, k + 1, source);
      var answer := DecodeItem(d, items[k]);
      answers := answers + [answer];
    }
    assert items[..|items|] == items;
    consumed := d.pos;
  }

  /** Any stream that starts with the flushed bytes denotes a number in the final interval. */
  lemma FlushedHolds(i: Interval, bytes: seq<byte>, s: Source)
    requires i.range >= 1 && Num(bytes) == i.low && |bytes| == i.digits + 4 && bytes <= s.bytes
    ensures Holds(i, s)
  {
    NumIsValue(s, |bytes|);
    assert s.bytes[..|bytes|] == bytes;
  }

  /** The mixed round trip: whatever follows the flushed bytes in the stream, the mirrored decoder
      calls give every item back and read exactly the flushed bytes. */
  method RoundTrip(items: seq<Item>, tail: seq<byte>, pad: byte)
    returns (bytes: seq<byte>, answers: seq<nat>, consumed: nat)
    requires AllOk(items)
    ensures |answers| == |items| && forall k :: 0 <= k < |items| ==> items[k].DecodedAs(answers[k])
    ensures consumed == |bytes| >= 5 && bytes[0] == 0
  {
    bytes := EncodeAll(items);
    FlushedHolds(NarrowAll(items), bytes, Source(bytes + tail, pad));
    answers, consumed := DecodeAll(items, Source(bytes + tail, pad));
  }
}
