/** Whole runs over MSB-first streams: both writers make the same bytes, and the reader undoes them. */
module BitmRuns {
  import opened Words
  import opened ByteStreams
  import opened MsbBits
  import opened BitmCoders

  /** One WriteBits call, of any value; it comes back if it fits its width. */
  datatype Item = Item(value: uint32, width: nat) {
    ghost predicate Fits() {
      value < Pow2(width)
    }
  }

  ghost predicate AllFit(items: seq<Item>) {
    forall k :: 0 <= k < |items| ==> items[k].Fits()
  }

  ghost function AllBits(items: seq<Item>): seq<bit> {
    if items == [] then []
    else Written(AllBits(items[..|items| - 1]), items[|items| - 1].value, items[|items| - 1].width)
  }

  lemma NoBits(items: seq<Item>)
    ensures AllBits(items[..0]) == []
  {
  }

  lemma AllBitsNext(items: seq<Item>, k: nat)
    requires k < |items|
    ensures AllBits(items[..k + 1]) == Written(AllBits(items[..k]), items[k].value, items[k].width)
    ensures |AllBits(items[..k + 1])| == |AllBits(items[..k])| + items[k].width
    ensures items[k].Fits() ==> AllBits(items[..k + 1]) == AllBits(items[..k]) + BitsOf(items[k].value, items[k].width)
  {
    assert items[..k + 1][..k] == items[..k];
    if items[k].Fits() {
      WrittenFits(AllBits(items[..k]), items[k].value, items[k].width);
    }
  }

  lemma {:induction false} AllBitsPrefix(items: seq<Item>, k: nat)
    requires k <= |items|
    ensures |AllBits(items[..k])| <= |AllBits(items)|
    ensures AllFit(items) ==> AllBits(items[..k]) <= AllBits(items)
    decreases |items| - k
  {
    if k == |items| {
      assert items[..k] == items;
    } else {
      AllBitsNext(items, k);
      AllBitsPrefix(items, k + 1);
    }
  }

  method WriteAll(items: seq<Item>) returns (out: seq<byte>)
    ensures Unpacked(out) == Padded(AllBits(items))
  {
    hide BitsOf, Written, Unpacked, Padded, AllBits;
    var e := new Encoder.Init();
    NoBits(items);
    for k := 0 to |items|
      invariant e.Valid() && e.Contents() == AllBits(items[..k])
    {
      AllBitsNext(items, k);
      e.WriteBits(items[k].value, items[k].width);
    }
    assert items[..|items|] == items;
    e.Flush();
    out := e.out;
  }

  method WriteAllTemp(items: seq<Item>, buffer: array<byte>) returns (size: nat)
    requires |AllBits(items)| <= 8 * buffer.Length
    modifies buffer
    ensures size <= buffer.Length && Unpacked(buffer[..size]) == Padded(AllBits(items))
  {
    hide BitsOf, Written, Unpacked, Padded, AllBits;
    var e := new TempEncoder.Init(buffer);
    NoBits(items);
    for k := 0 to |items|
      invariant fresh(e) && e.Valid() && e.buffer == buffer
      invariant e.Contents() == AllBits(items[..k]) && e.GetPos() == |AllBits(items[..k])|
    {
      AllBitsNext(items, k);
      AllBitsPrefix(items, k + 1);
      e.WriteBits(items[k].value, items[k].width);
    }
    assert items[..|items|] == items;
    e.Flush();
    size := e.pos;
  }

  /** Both writers, given the same calls, produce the same bytes, whatever the values. */
  method SameBytes(items: seq<Item>, buffer: array<byte>) returns (out: seq<byte>, size: nat)
    requires |AllBits(items)| <= 8 * buffer.Length
    modifies buffer
    ensures size <= buffer.Length && out == buffer[..size]
    ensures |out| == (|AllBits(items)| + 7) / 8
  {
    out := WriteAll(items);
    size := WriteAllTemp(items, buffer);
    UnpackedInjective(out, buffer[..size]);
  }

  /** Save and restore: the position and the byte register of a moment, given back after any writes,
      bring back the bits of that moment. */
  method WriteAndTakeBack(e: TempEncoder, items: seq<Item>)
    requires e.Valid() && e.GetPos() + |AllBits(items)| < 8 * e.buffer.Length + 8
    requires e.GetPos() <= 8 * e.buffer.Length
    modifies e, e.buffer
    ensures e.Valid() && e.Contents() == old(e.Contents()) && e.GetPos() == old(e.GetPos())
    ensures e.GetCurByte() == old(e.GetCurByte())
  {
    hide BitsOf, Written, Unpacked, AllBits;
    var bitPosition, curByte := e.GetPos(), e.GetCurByte();
    ghost var stored, pending := e.buffer[..e.pos], BitsOf(e.curByte, 8 - e.bitPos);
    NoBits(items);
    for k := 0 to |items|
      invariant e.Valid() && e.GetPos() == bitPosition + |AllBits(items[..k])|
      invariant e.pos >= |stored| && e.buffer[..|stored|] == stored
    {
      AllBitsNext(items, k);
      AllBitsPrefix(items, k + 1);
      ghost var before := e.buffer[..e.pos];
      e.WriteBits(items[k].value, items[k].width);
      assert e.buffer[..|stored|] == before[..|stored|];
    }
    e.SetPos(bitPosition);
    e.SetCurState(bitPosition % 8, curByte);
    assert e.buffer[..e.pos] == stored;
  }

  /** Reading the widths back gives the values; the reader then stands at the last bit written. */
  method RoundTrip(items: seq<Item>, pad: byte, uninitialised: uint32)
    returns (out: seq<byte>, values: seq<nat>, processed: int)
    requires AllFit(items) && forall k :: 0 <= k < |items| ==> items[k].width <= 24
    ensures |values| == |items| && forall k :: 0 <= k < |items| ==> values[k] == items[k].value
    ensures processed == |out|
  {
    hide BitsOf, Written, Unpacked, Padded, AllBits, Field, Item.Fits;
    out := WriteAll(items);
    var d := new Decoder.Init(Source(out, pad), uninitialised);
    values := [];
    NoBits(items);
    for k := 0 to |items|
      invariant d.Valid() && d.source == Source(out, pad) && d.Position() == |AllBits(items[..k])|
      invariant |values| == k && forall j :: 0 <= j < k ==> values[j] == items[j].value
    {
      ItemAt(items, k, out, pad);
      var v := d.ReadBits(items[k].width);
      values := values + [v];
    }
    assert items[..|items|] == items;
    processed := d.GetProcessedSize();
  }

  /** Item k of a written run stands right behind the items before it. */
  lemma ItemAt(items: seq<Item>, k: nat, bytes: seq<byte>, pad: byte)
    requires k < |items| && AllFit(items) && Unpacked(bytes) == Padded(AllBits(items))
    ensures Field(Source(bytes, pad), |AllBits(items[..k])|, items[k].width) == items[k].value
    ensures |AllBits(items[..k + 1])| == |AllBits(items[..k])| + items[k].width
  {
    AllBitsNext(items, k);
    AllBitsPrefix(items, k + 1);
    ItemSpelled(bytes, pad, AllBits(items), AllBits(items[..k]), items[k].value, items[k].width);
  }

  /** An item's bits inside the padded whole are what the stream spells at its position. */
  lemma ItemSpelled(out: seq<byte>, pad: byte, all: seq<bit>, before: seq<bit>, value: nat, width: nat)
    requires Unpacked(out) == Padded(all) && value < Pow2(width)
    requires before + BitsOf(value, width) <= all
    ensures Field(Source(out, pad), |before|, width) == value
  {
    var b := BitsOf(value, width);
    forall k | 0 <= k < |b| ensures b[k] == BitAt(Source(out, pad), |before| + k) {
      SpelledAt(out, pad, all, before, b, k);
    }
    FieldOfBits(Source(out, pad), |before|, value, width);
  }

  lemma SpelledAt(out: seq<byte>, pad: byte, all: seq<bit>, before: seq<bit>, b: seq<bit>, k: nat)
    requires Unpacked(out) == Padded(all) && before + b <= all && k < |b|
    ensures b[k] == BitAt(Source(out, pad), |before| + k)
  {
    PaddedAt(out, pad, all, |before| + k);
    assert (before + b)[|before| + k] == b[k];
    assert all[..|before + b|] == before + b;
  }

  lemma PaddedAt(out: seq<byte>, pad: byte, all: seq<bit>, i: nat)
    requires Unpacked(out) == Padded(all) && i < |all|
    ensures BitAt(Source(out, pad), i) == all[i]
  {
    UnpackedAt(out, pad, i);
  }
}
