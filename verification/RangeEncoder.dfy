/** The range encoder: a 33-bit `Low` whose carries are deferred through one cached byte
    and a run of 0xFF bytes. */
module RangeEncoder {
  import opened Words
  import opened ByteStreams
  import opened RangeIntervals

  class Encoder {
    var out: seq<byte>      // Stream
    var cache: byte
    var cacheSize: nat
    var low: nat            // UInt64, kept below 2^33
    var range: uint32

    /** The number denoted by the emitted bytes, the cached byte and the pending 0xFF run, then Low. */
    ghost function Value(): nat
      reads this
      requires cacheSize >= 1
    {
      Num(out + [cache] + Fill(255, cacheSize - 1)) * TWO32 + low
    }

    ghost function State(): Interval
      reads this
      requires cacheSize >= 1
    {
      Interval(Value(), range, |out| + cacheSize)
    }

    /** An interval of width r fits above Low without ever carrying out of the cached byte. */
    ghost predicate Room(r: nat)
      reads this
    {
      cacheSize >= 1 && low + r <= 2 * TWO32 && (cache == 255 ==> low + r <= TWO32)
    }

    ghost predicate Valid()
      reads this
    {
      Room(range) && range >= TOP
    }

    constructor Init()
      ensures Valid() && State() == INITIAL && out == []
      ensures low == 0 && range == 0xFFFF_FFFF && cacheSize == 1 && cache == 0
      ensures GetProcessedSize() == 5
    {
      out, low, range, cacheSize, cache := [], 0, 0xFFFF_FFFF, 1, 0;
      new;
      assert Num([0]) == 0 by { NumAppend([], 0); assert [] + [0 as byte] == [0]; }
      assert out + [cache] + Fill(255, 0) == [0];
    }

    function GetProcessedSize(): (size: nat)
      reads this
    {
      |out| + cacheSize + 4
    }

    /** The do-while loop of ShiftLow: the cached byte and its run, with the carry of Low added. */
    method WriteCached()
      requires cacheSize >= 1
      modifies this`out, this`cacheSize
      ensures cacheSize == 0
      ensures out == Emitted(old(out), cache, low / TWO32, old(cacheSize))
    {
      var temp := cache;
      while true
        invariant 1 <= cacheSize <= old(cacheSize)
        invariant temp == if cacheSize == old(cacheSize) then cache else 255
        invariant out == Emitted(old(out), cache, low / TWO32, old(cacheSize) - cacheSize)
        decreases cacheSize
      {
        out := out + [(temp + low / TWO32) % 256];
        temp := 0xFF;
        cacheSize := cacheSize - 1;
        if cacheSize == 0 {
          break;
        }
      }
    }

    /** Multiplies the denoted number by exactly 256; the bytes already out stay as they are.
        r is the width of the interval above Low, which the caller has scaled up already. */
    method ShiftLow(ghost r: nat)
      requires Room(r) && 1 <= r <= TOP
      modifies this`out, this`cache, this`cacheSize, this`low
      ensures Room(256 * r)
      ensures Value() == 256 * old(Value())
      ensures |out| + cacheSize == old(|out| + cacheSize) + 1
      ensures old(out) <= out
      ensures low == old(low) % TOP * 256
      ensures old(low) < 0xFF00_0000 ==> cacheSize == 1 && cache == old(low) / TOP
    {
      hide Num, Fill, Emitted;
      if low % TWO32 < 0xFF00_0000 || low / TWO32 != 0 {
        WriteCached();
        cache := low % TWO32 / 0x100_0000;
        EmittedValue(old(out), old(cache), old(cacheSize) - 1, low, out, cache);
      } else {
        PendingValue(out, cache, cacheSize, low);
      }
      RoomAfterShift(low, r, old(cache), cache);
      LowShifted(low);
      cacheSize := cacheSize + 1;
      low := low % TWO32 * 256 % TWO32;
    }

    /** The first n bytes of the cached byte and its 0xFF run, with the carry added, after s. */
    static ghost function Emitted(s: seq<byte>, c: byte, carry: nat, n: nat): (r: seq<byte>)
      ensures |r| == |s| + n && s <= r
    {
      if n == 0 then s else Emitted(s, c, carry, n - 1) + [((if n == 1 then c else 255) + carry) % 256]
    }

    static lemma {:induction false} EmittedIs(s: seq<byte>, c: byte, carry: nat, n: nat)
      requires n >= 1 && c + carry <= 255
      ensures Emitted(s, c, carry, n) == s + [c + carry] + Fill((255 + carry) % 256, n - 1)
    {
      if n == 1 {
        assert Emitted(s, c, carry, 0) == s;
      } else {
        EmittedIs(s, c, carry, n - 1);
      }
    }

    /** The emitting branch: the run, with the carry added, is written and one digit is cached. */
    static lemma EmittedValue(s: seq<byte>, c: byte, n: nat, low: nat, s': seq<byte>, c': byte)
      requires low < 2 * TWO32 && c + low / TWO32 <= 255
      requires s' == Emitted(s, c, low / TWO32, n + 1)
      requires c' == low % TWO32 / 0x100_0000
      ensures Num(s' + [c'] + Fill(255, 0)) * TWO32 + low % TWO32 * 256 % TWO32
           == 256 * (Num(s + [c] + Fill(255, n)) * TWO32 + low)
      ensures low % TWO32 * 256 % TWO32 == low % TOP * 256
    {
      CarriedNum(s, c, low / TWO32, n);
      assert s' + [c'] + Fill(255, 0) == s' + [c'];
      NumAppend(s', c');
      LowShifted(low);
    }

    static lemma CarriedNum(s: seq<byte>, c: byte, carry: nat, n: nat)
      requires carry <= 1 && c + carry <= 255
      ensures Num(Emitted(s, c, carry, n + 1)) == Num(s + [c] + Fill(255, n)) + carry
    {
      hide Emitted, Num;
      EmittedIs(s, c, carry, n + 1);
      if carry == 1 {
        NumCarry(s, c, n);
      }
    }

    /** The other branch: the digit is 0xFF and joins the run. */
    static lemma PendingValue(s: seq<byte>, c: byte, n: nat, low: nat)
      requires n >= 1 && 0xFF00_0000 <= low < TWO32
      ensures Num(s + [c] + Fill(255, n)) * TWO32 + low % TWO32 * 256 % TWO32
           == 256 * (Num(s + [c] + Fill(255, n - 1)) * TWO32 + low)
      ensures low % TWO32 * 256 % TWO32 == low % TOP * 256
    {
      assert s + [c] + Fill(255, n) == (s + [c] + Fill(255, n - 1)) + [255];
      NumAppend(s + [c] + Fill(255, n - 1), 255);
      LowShifted(low);
    }

    static lemma LowShifted(low: nat)
      requires low < 2 * TWO32
      ensures low % TWO32 * 256 % TWO32 == low % TOP * 256
      ensures low % TWO32 / 0x100_0000 * TWO32 + low % TOP * 256 == low % TWO32 * 256
    {
    }

    static lemma RoomAfterShift(low: nat, r: nat, c: byte, c': byte)
      requires 1 <= r <= TOP && low + r <= 2 * TWO32 && (c == 255 ==> low + r <= TWO32)
      requires if low % TWO32 < 0xFF00_0000 || low / TWO32 != 0 then c' == low % TWO32 / 0x100_0000 else c' == c
      ensures low % TOP * 256 + 256 * r <= 2 * TWO32
      ensures c' == 255 ==> low % TOP * 256 + 256 * r <= TWO32
    {
    }

    /** The while loop that both Encode and EncodeBit end with. */
    method Normalize()
      requires Room(range) && range >= 1
      modifies this
      ensures Valid()
      ensures State() == RangeIntervals.Normalize(old(State()))
      ensures old(out) <= out
    {
      while range < TOP
        invariant Room(range) && range >= 1
        invariant RangeIntervals.Normalize(State()) == RangeIntervals.Normalize(old(State()))
        invariant old(out) <= out
        decreases TOP - range
      {
        ghost var r := range;
        range := range * 256;
        ShiftLow(r);
      }
    }

    /** The single conditional shift of EncodeDirectBits and CBitEncoder::Encode. */
    method NormalizeOnce()
      requires Room(range) && range >= 1
      modifies this
      ensures Room(range) && range >= 1 && State() == ShiftIf(old(State()))
      ensures TOP <= old(range) * 256 ==> range >= TOP && State() == RangeIntervals.Normalize(old(State()))
      ensures old(out) <= out
    {
      ShiftIfExact(State());
      if range < TOP {
        ghost var before := State();
        ghost var r := range;
        range := range * 256;
        ShiftLow(r);
        assert State() == Shift(before);
      }
    }

    method Encode(start: nat, size: nat, total: nat)
      requires Valid()
      requires size >= 1 && start + size <= total <= range
      modifies this
      ensures Valid()
      ensures State() == FreqStep(old(State()), start, size, total)
      ensures NarrowedTo(old(State()), start * (old(range) / total), size * (old(range) / total), State())
      ensures old(out) <= out
    {
      hide Num, Fill, FreqStep, NarrowedTo, RangeIntervals.Normalize;
      ghost var before := State();
      var unit := range / total;
      FreqStepIs(before, start, size, total);
      FreqStepParts(before, start, size, total, unit * size, start * unit);
      range := unit;
      low := low + start * range;
      range := range * size;
      assert State() == Interval(before.low + start * unit, unit * size, before.digits);
      Normalize();
    }

    method EncodeBit(size0: nat, numTotalBits: nat, symbol: uint32)
      requires Valid() && BitOk(size0, numTotalBits, symbol)
      modifies this
      ensures Valid()
      ensures State() == BitStep(old(State()), size0, numTotalBits, symbol)
      ensures var b := old(range) / Pow2(numTotalBits) * size0;
        NarrowedTo(old(State()), if symbol == 0 then 0 else b, if symbol == 0 then b else old(range) - b, State())
      ensures var b, p := old(range) / Pow2(numTotalBits) * size0, Pow2(numTotalBits);
        b * p <= old(range) * size0 && (size0 > 0 ==> old(range) * size0 < b * p + size0 * p)
      ensures old(out) <= out
    {
      hide Num, Fill, Shr, BitOk, NarrowedTo, RangeIntervals.Normalize;
      BitBoundInside(range, size0, numTotalBits, symbol);
      BitBoundExact(range, size0, numTotalBits);
      BitStepIs(State(), size0, numTotalBits, symbol);
      var newBound := Shr(range, numTotalBits) * size0;
      if symbol == 0 {
        range := newBound;
      } else {
        low := low + newBound;
        range := range - newBound;
      }
      Normalize();
    }

    /** One step of the direct-bit loop. */
    method EncodeDirectBit(bit: nat)
      requires Valid() && bit < 2
      modifies this
      ensures Valid()
      ensures State() == DirectStep(old(State()), bit)
      ensures NarrowedTo(old(State()), bit * (old(range) / 2), old(range) / 2, State())
      ensures old(out) <= out
    {
      hide NarrowedTo, Num, Fill;
      NormalizeExact(State(), bit * (range / 2), range / 2);
      range := range / 2;
      if bit == 1 {
        low := low + range;
      }
      NormalizeOnce();
    }

    method EncodeDirectBits(value: uint32, numBits: nat)
      requires Valid() && numBits <= 32
      modifies this
      ensures Valid()
      ensures State() == DirectSteps(old(State()), value, numBits)
      ensures Between(old(State()), Low(value, numBits), numBits, State())
      ensures old(out) <= out
    {
      hide Between, DirectStep, NarrowedTo, Low;
      DirectStepsBetween(State(), value, numBits);
      var n: nat := numBits;
      while n > 0
        invariant 0 <= n <= numBits && Valid()
        invariant State() == DirectSteps(old(State()), Shr(value, n), numBits - n)
        invariant old(out) <= out
      {
        n := n - 1;
        ShrNext(value, n);
        EncodeDirectBit(Shr(value, n) % 2);
      }
    }

    /** Five shifts push everything out: the bytes denote exactly the low end of the interval. */
    method FlushData()
      requires Room(range) && range >= 1
      modifies this
      ensures Num(out) == old(Value())
      ensures |out| == old(GetProcessedSize())
      ensures old(out) <= out
    {
      hide Num, Fill;
      ShiftLow(1);
      ShiftLow(1);
      ShiftLow(1);
      ShiftLow(1);
      LowEmptied(old(low));
      ShiftLow(1);
      NumAppend(out, 0);
      NothingPending(out, cache);
    }

    static lemma NothingPending(s: seq<byte>, c: byte)
      ensures s + [c] + Fill(255, 0) == s + [c]
    {
    }

    static lemma LowEmptied(low: nat)
      ensures low % TOP * 256 % TOP * 256 % TOP * 256 % TOP * 256 == 0
    {
      var m := low % TOP;
      assert m * 256 % TOP == m % 65536 * 256;
      assert m % 65536 * 65536 % TOP == m % 65536 % 256 * 65536;
      assert m % 65536 % 256 * TOP % TOP == 0;
    }
  }
}
