/** Whole messages in the packing of section 3.1.1 of RFC 1951: codewords with their most significant
    bit first, in a stream whose bytes fill up from the least significant bit. */
module HuffmanLsbRuns {
  import opened Words
  import opened ByteStreams
  import opened LsbBits
  import opened BitlRuns
  import opened HuffmanCodes
  import opened HuffmanDecoder
  import BitlCoders
  import HuffmanRuns

  /** The WriteBits call for one symbol: the codeword's bits, turned round. */
  function CodeItem(lens: seq<byte>, max: nat, s: nat): (item: Item)
    requires Feasible(lens, max) && max <= 24 && s < |lens| && 1 <= lens[s]
    ensures item.Bits? && item.width == lens[s] && item.value == Reversed(Codeword(lens, s), lens[s]) && item.Ok()
  {
    ReversedRange(Codeword(lens, s), lens[s]);
    Pow2Le(lens[s], 24);
    Pow2Values();
    Bits(Reversed(Codeword(lens, s), lens[s]), lens[s])
  }

  function Items(lens: seq<byte>, max: nat, message: seq<nat>): (items: seq<Item>)
    requires Feasible(lens, max) && max <= 24 && HuffmanRuns.Encodable(lens, message)
    ensures |items| == |message|
    ensures forall k :: 0 <= k < |items| ==> items[k] == CodeItem(lens, max, message[k])
  {
    seq(|message|, k requires 0 <= k < |message| => CodeItem(lens, max, message[k]))
  }

  /** A stream that spells the reversed codeword of s next has a window that starts with the codeword. */
  lemma SpelledIsStart(lens: seq<byte>, max: nat, source: Source, p: nat, s: nat)
    requires Feasible(lens, max) && s < |lens| && 1 <= lens[s]
    requires Field(source, p, lens[s]) == Low(Reversed(Codeword(lens, s), lens[s]), lens[s])
    ensures StartsWith(lens, max, Reversed(Field(source, p, max), max), s)
  {
    var c, n := Codeword(lens, s), lens[s];
    ReversedRange(c, n);
    LowSmall(Reversed(c, n), n);
    ReversedTwice(c, n);
    CodewordFits(lens, max, s);
    LowSmall(c, n);
    ReversedField(source, p, n, max);
  }

  method DecodeNext(decoder: Decoder, d: BitlCoders.Decoder, ghost lens: seq<byte>, ghost s: nat) returns (symbol: nat)
    requires decoder.Describes(lens) && d.Valid() && s < |lens| && 1 <= lens[s]
    requires Field(d.cursor.Stream(), d.cursor.Position(), lens[s])
          == Low(Reversed(Codeword(lens, s), lens[s]), lens[s])
    modifies d, d.cursor
    ensures decoder.Describes(lens)
    ensures d.Valid() && symbol == s && d.cursor.Position() == old(d.cursor.Position()) + lens[s]
  {
    hide Field, Reversed, Codeword, Low, BitlCoders.Decoder.MirrorHeld;
    SpelledIsStart(lens, decoder.maxBits, d.cursor.Stream(), d.cursor.Position(), s);
    symbol := decoder.DecodeSymbolLsb(d, lens);
  }

  /** Writing the reversed codewords through the LSB-first writer and decoding symbol by symbol is the
      identity; the reader has processed the bytes written and invented none. */
  method RoundTrip(decoder: Decoder, lens: seq<byte>, message: seq<nat>)
    returns (bytes: seq<byte>, decoded: seq<nat>, processed: int, extra: bool)
    requires decoder.Describes(lens) && HuffmanRuns.Encodable(lens, message)
    ensures decoded == message && processed == |bytes| && !extra
  {
    var items := Items(lens, decoder.maxBits, message);
    bytes := WriteAll(items);
    var d := new BitlCoders.Decoder.Init(bytes);
    decoded := DecodeMessage(decoder, d, lens, |message|, message, items);
    processed := d.cursor.GetProcessedSize();
    extra := d.cursor.ExtraBitsWereRead();
  }

  method DecodeMessage(decoder: Decoder, d: BitlCoders.Decoder, ghost lens: seq<byte>, count: nat,
                       ghost message: seq<nat>, ghost items: seq<Item>) returns (decoded: seq<nat>)
    requires decoder.Describes(lens) && HuffmanRuns.Encodable(lens, message) && |message| == count
    requires items == Items(lens, decoder.maxBits, message)
    requires d.Valid() && d.cursor.Position() == 0 && Unpacked(d.cursor.bytes) == Padded(AllBits(items))
    modifies d, d.cursor
    ensures decoded == message
    ensures d.Valid() && d.cursor.Position() == |AllBits(items)|
  {
    hide Field, Reversed, Codeword, Low, AllBits, Unpacked, Item.After, Decoder.Describes;
    hide BitlCoders.Decoder.MirrorHeld;
    decoded := [];
    NoBits(items);
    for k := 0 to count
      invariant d.Valid() && decoder.Describes(lens)
      invariant d.cursor.Position() == |AllBits(items[..k])|
      invariant decoded == message[..k]
    {
      ItemAt(items, k, d.cursor.bytes);
      var symbol := DecodeNext(decoder, d, lens, message[k]);
      decoded := decoded + [symbol];
      assert message[..k + 1] == message[..k] + [message[k]];
    }
    assert items[..|items|] == items;
  }

  /** Bit field k of a written run stands right behind the items before it. */
  lemma ItemAt(items: seq<Item>, k: nat, bytes: seq<byte>)
    requires k < |items| && items[k].Bits? && Unpacked(bytes) == Padded(AllBits(items))
    ensures Field(Source(bytes, 0xFF), |AllBits(items[..k])|, items[k].width) == Low(items[k].value, items[k].width)
    ensures |AllBits(items[..k + 1])| == |AllBits(items[..k])| + items[k].width
  {
    NextSpelled(items, k, bytes);
    ItemSpelled(Source(bytes, 0xFF), items[k], AllBits(items[..k]));
  }
}
