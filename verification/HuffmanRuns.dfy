/** Whole messages: codewords written most significant bit first are decoded back. */
module HuffmanRuns {
  import opened Words
  import opened ByteStreams
  import opened MsbBits
  import opened BitmRuns
  import opened HuffmanCodes
  import opened HuffmanDecoder
  import BitmCoders

  /** Every symbol of the message has a code. */
  predicate Encodable(lens: seq<byte>, message: seq<nat>) {
    forall k :: 0 <= k < |message| ==> message[k] < |lens| && lens[message[k]] >= 1
  }

  /** The WriteBits call for one symbol. */
  function CodeItem(lens: seq<byte>, max: nat, s: nat): (item: Item)
    requires Feasible(lens, max) && max <= 24 && s < |lens| && 1 <= lens[s]
    ensures item.Fits() && item.width == lens[s] <= 24 && item.value == Codeword(lens, s)
  {
    CodewordFits(lens, max, s);
    Pow2Le(lens[s], 24);
    Pow2Values();
    Item(Codeword(lens, s), lens[s])
  }

  function Items(lens: seq<byte>, max: nat, message: seq<nat>): (items: seq<Item>)
    requires Feasible(lens, max) && max <= 24 && Encodable(lens, message)
    ensures |items| == |message|
    ensures forall k :: 0 <= k < |items| ==> items[k] == CodeItem(lens, max, message[k])
  {
    seq(|message|, k requires 0 <= k < |message| => CodeItem(lens, max, message[k]))
  }

  /** A stream that spells the codeword of s next decodes to s. */
  lemma SpelledIsStart(lens: seq<byte>, max: nat, source: Source, p: nat, s: nat)
    requires Feasible(lens, max) && s < |lens| && 1 <= lens[s]
    requires Field(source, p, lens[s]) == Codeword(lens, s)
    ensures StartsWith(lens, max, Field(source, p, max), s)
  {
    FieldShr(source, p, lens[s], max - lens[s]);
    assert lens[s] + (max - lens[s]) == max;
  }

  /** One symbol of a message that was written at bit position p. */
  method DecodeNext(decoder: Decoder, d: BitmCoders.Decoder, ghost lens: seq<byte>, ghost s: nat) returns (symbol: nat)
    requires decoder.Describes(lens) && d.Valid() && s < |lens| && 1 <= lens[s]
    requires Field(d.source, d.Position(), lens[s]) == Codeword(lens, s)
    modifies d
    ensures decoder.Describes(lens)
    ensures d.Valid() && symbol == s && d.Position() == old(d.Position()) + lens[s]
  {
    SpelledIsStart(lens, decoder.maxBits, d.source, d.Position(), s);
    symbol := decoder.DecodeSymbol(d, lens);
  }

  /** Encoding a message with the canonical codewords and decoding it symbol by symbol is the identity,
      and the decoder stands right behind the last codeword. */
  method RoundTrip(decoder: Decoder, lens: seq<byte>, message: seq<nat>, pad: byte, uninitialised: uint32)
    returns (bytes: seq<byte>, decoded: seq<nat>, processed: int)
    requires decoder.Describes(lens) && Encodable(lens, message)
    ensures decoded == message && processed == |bytes|
  {
    var items := Items(lens, decoder.maxBits, message);
    bytes := WriteAll(items);
    var d := new BitmCoders.Decoder.Init(Source(bytes, pad), uninitialised);
    decoded := DecodeMessage(decoder, d, lens, |message|, message, items);
    processed := d.GetProcessedSize();
  }

  method DecodeMessage(decoder: Decoder, d: BitmCoders.Decoder, ghost lens: seq<byte>, count: nat,
                       ghost message: seq<nat>, ghost items: seq<Item>) returns (decoded: seq<nat>)
    requires decoder.Describes(lens) && Encodable(lens, message) && |message| == count
    requires items == Items(lens, decoder.maxBits, message)
    requires d.Valid() && d.Position() == 0 && Unpacked(d.source.bytes) == Padded(AllBits(items))
    modifies d
    ensures decoded == message
    ensures d.Valid() && d.Position() == |AllBits(items)|
  {
    hide Field, Codeword, AllBits, Unpacked, Decoder.Describes, Padded;
    NoBits(items);
    decoded := [];
    for k := 0 to count
      invariant d.Valid() && decoder.Describes(lens)
      invariant d.Position() == |AllBits(items[..k])|
      invariant decoded == message[..k]
    {
      ItemAt(items, k, d.source.bytes, d.source.pad);
      var symbol := DecodeNext(decoder, d, lens, message[k]);
      decoded := decoded + [symbol];
      assert message[..k + 1] == message[..k] + [message[k]];
    }
    assert items[..|items|] == items;
  }
}
