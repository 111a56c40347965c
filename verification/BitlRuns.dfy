/** Whole runs over LSB-first streams: bit fields and aligned bytes, mixed at will, come back. */
module BitlRuns {
  import opened Words
  import opened ByteStreams
  import opened LsbBits
  import opened BitlCoders

  /** One WriteBits call of any value, or FlushByte and then WriteByte. */
  datatype Item = Bits(value: uint32, width: nat) | Aligned(b: byte) {
    predicate Ok() {
      Bits? ==> width <= 25
    }

    ghost function After(before: seq<bit>): seq<bit> {
      Start(before) + if Bits? then BitsOf(value, width) else BitsOf(b, 8)
    }

    /** Where the item's own bits begin. */
    ghost function Start(before: seq<bit>): seq<bit> {
      if Bits? then before else Padded(before)
    }

    predicate ReadAs(r: nat) {
      r == if Bits? then Low(value, width) else b
    }
  }

  ghost function AllBits(items: seq<Item>): seq<bit> {
    if items == [] then [] else items[|items| - 1].After(AllBits(items[..|items| - 1]))
  }

  lemma NoBits(items: seq<Item>)
    ensures AllBits(items[..0]) == []
  {
  }

  lemma AllBitsNext(items: seq<Item>, k: nat)
    requires k < |items|
    ensures AllBits(items[..k + 1]) == items[k].After(AllBits(items[..k]))
  {
    assert items[..k + 1][..k] == items[..k];
  }

  lemma {:induction false} AllBitsPrefix(items: seq<Item>, k: nat)
    requires k <= |items|
    ensures AllBits(items[..k]) <= AllBits(items)
    decreases |items| - k
  {
    if k == |items| {
      assert items[..k] == items;
    } else {
      AllBitsNext(items, k);
      AllBitsPrefix(items, k + 1);
    }
  }

  method WriteItem(e: Encoder, item: Item)
    requires e.Valid()
    modifies e
    ensures e.Valid() && e.Contents() == item.After(old(e.Contents()))
  {
    match item
    case Bits(value, width) => e.WriteBits(value, width);
    case Aligned(b) =>
      e.FlushByte();
      e.WriteByte(b);
  }

  method WriteAll(items: seq<Item>) returns (out: seq<byte>)
    ensures Unpacked(out) == Padded(AllBits(items))
  {
    var e := new Encoder.Init();
    for k := 0 to |items|
      invariant e.Valid() && e.Contents() == AllBits(items[..k])
    {
      AllBitsNext(items, k);
      WriteItem(e, items[k]);
    }
    assert items[..|items|] == items;
    e.FlushByte();
    out := e.out;
  }

  /** The mirrored call: ReadBits, or AlignToByte and then ReadByte. */
  method ReadItem(d: Decoder, item: Item, ghost before: seq<bit>) returns (r: nat)
    requires d.Valid() && item.Ok() && d.cursor.Position() == |before|
    requires Spells(d.cursor.Stream(), 0, item.After(before))
    modifies d, d.cursor
    ensures d.Valid() && item.ReadAs(r) && d.cursor.Position() == |item.After(before)|
  {
    hide Field, BitsOf, Low, Decoder.MirrorHeld;
    ItemSpelled(d.cursor.Stream(), item, before);
    match item
    case Bits(value, width) =>
      r := d.ReadBits(width);
    case Aligned(b) =>
      d.AlignToByte();
      r := d.ReadByte();
  }

  lemma ItemSpelled(s: Source, item: Item, before: seq<bit>)
    requires Spells(s, 0, item.After(before))
    ensures var n := if item.Bits? then item.width else 8;
      |item.After(before)| == |item.Start(before)| + n && item.ReadAs(Field(s, |item.Start(before)|, n))
  {
    hide Field, BitAt, Low, Shr, BitsOf;
    var start := item.Start(before);
    var value, n := if item.Bits? then item.value else item.b, if item.Bits? then item.width else 8;
    forall k | 0 <= k < n ensures BitsOf(value, n)[k] == BitAt(s, |start| + k) {
      assert item.After(before)[|start| + k] == BitsOf(value, n)[k];
    }
    FieldOfBits(s, |start|, value, n);
    assert Pow2(8) == 0x100;
    if item.Aligned? {
      LowSmall(item.b, 8);
    }
  }

  /** What was written is what the stream spells. */
  lemma WrittenSpelled(out: seq<byte>, all: seq<bit>, part: seq<bit>)
    requires Unpacked(out) == Padded(all) && part <= all
    ensures Spells(Source(out, 0xFF), 0, part)
  {
    forall k | 0 <= k < |part| ensures part[k] == BitAt(Source(out, 0xFF), 0 + k) {
      UnpackedAt(out, 0xFF, k);
    }
  }

  lemma NextSpelled(items: seq<Item>, k: nat, out: seq<byte>)
    requires k < |items| && Unpacked(out) == Padded(AllBits(items))
    ensures AllBits(items[..k + 1]) == items[k].After(AllBits(items[..k]))
    ensures Spells(Source(out, 0xFF), 0, AllBits(items[..k + 1]))
  {
    AllBitsNext(items, k);
    AllBitsPrefix(items, k + 1);
    WrittenSpelled(out, AllBits(items), AllBits(items[..k + 1]));
  }

  /** Any mix of bit fields and aligned bytes comes back, no bits beyond the stream are touched,
      and the reader has processed exactly the bytes written. */
  method RoundTrip(items: seq<Item>) returns (out: seq<byte>, values: seq<nat>, processed: int, extra: bool)
    requires forall k :: 0 <= k < |items| ==> items[k].Ok()
    ensures |values| == |items| && forall k :: 0 <= k < |items| ==> items[k].ReadAs(values[k])
    ensures processed == |out| && !extra
  {
    hide Item.After, Item.ReadAs, Item.Ok, AllBits, Spells, Field, BitsOf, Low, Decoder.MirrorHeld, Unpacked;
    out := WriteAll(items);
    assert |AllBits(items[..0])| == 0 by { NoBits(items); }
    var d := new Decoder.Init(out);
    values := [];
    for k := 0 to |items|
      invariant fresh(d) && fresh(d.cursor) && d.Valid() && d.cursor.bytes == out
      invariant d.cursor.Position() == |AllBits(items[..k])|
      invariant |values| == k && forall j :: 0 <= j < k ==> items[j].ReadAs(values[j])
    {
      NextSpelled(items, k, out);
      var v := ReadItem(d, items[k], AllBits(items[..k]));
      values := values + [v];
    }
    assert items[..|items|] == items;
    processed := d.cursor.GetProcessedSize();
    extra := d.cursor.ExtraBitsWereRead();
  }

  /** The plain reader undoes runs of bit fields as well. */
  method RoundTripBase(items: seq<Item>) returns (out: seq<byte>, values: seq<nat>, processed: int, extra: bool)
    requires forall k :: 0 <= k < |items| ==> items[k].Ok() && items[k].Bits?
    ensures |values| == |items| && forall k :: 0 <= k < |items| ==> items[k].ReadAs(values[k])
    ensures processed == |out| && !extra
  {
    hide Item.After, AllBits, Spells, Field, BitsOf, Low, Unpacked;
    out := WriteAll(items);
    assert |AllBits(items[..0])| == 0 by { NoBits(items); }
    var d := new BaseDecoder.Init(out);
    values := [];
    for k := 0 to |items|
      invariant fresh(d) && fresh(d.cursor) && d.Valid() && d.cursor.bytes == out
      invariant d.cursor.Position() == |AllBits(items[..k])|
      invariant |values| == k && forall j :: 0 <= j < k ==> items[j].ReadAs(values[j])
    {
      NextSpelled(items, k, out);
      ItemSpelled(d.cursor.Stream(), items[k], AllBits(items[..k]));
      var v := d.ReadBits(items[k].width);
      values := values + [v];
    }
    assert items[..|items|] == items;
    processed := d.cursor.GetProcessedSize();
    extra := d.cursor.ExtraBitsWereRead();
  }
}
