/** The bit reader of the Quantum decoder: most significant bit first, with a sentinel
    bit above the current byte that tells when the byte is used up. */
module QuantumBits {
  import opened Words
  import opened ByteStreams
  import opened MsbBits

  /** `Value` with the sentinel above byte b, after k bits of b have been delivered. */
  ghost function Sentinel(b: byte, k: nat): nat {
    if k == 0 then 0x100 + b else 2 * Sentinel(b, k - 1)
  }

  lemma {:induction false} SentinelRange(b: byte, k: nat)
    ensures 0x100 * Pow2(k) <= Sentinel(b, k) < 0x200 * Pow2(k)
  {
    if k == 0 {
    } else {
      SentinelRange(b, k - 1);
    }
  }

  lemma {:induction false} SentinelShifted(b: byte, k: nat, m: nat)
    ensures Shr(Sentinel(b, k), k + m) == Shr(0x100 + b, m)
  {
    if k == 0 {
    } else {
      SentinelShifted(b, k - 1, m);
    }
  }

  lemma {:induction false} ShrAddHigh(x: nat, c: nat, m: nat)
    ensures Shr(x + Shl(c, m + 1), m) == Shr(x, m) + 2 * c
  {
    if m == 0 {
    } else {
      assert (x + Shl(c, m + 1)) / 2 == x / 2 + Shl(c, m);
      ShrAddHigh(x / 2, c, m - 1);
    }
  }

  /** The bit that ReadBit picks out of `Value`. */
  lemma SentinelBit(b: byte, k: nat)
    requires k < 8
    ensures Sentinel(b, k) < 0x10000
    ensures Sentinel(b, k) / 0x80 % 2 == Shr(b, 7 - k) % 2
    ensures k == 7 ==> 0x10000 <= Sentinel(b, 8) < 0x20000
  {
    assert Sentinel(b, k) < 0x10000 && (k == 7 ==> 0x10000 <= Sentinel(b, 8) < 0x20000) by {
      assert Pow2(8) == 256 && Pow2(7) == 128;
      SentinelRange(b, k);
      SentinelRange(b, 8);
      PowBelow(k);
    }
    Shr7(Sentinel(b, k));
    SentinelShifted(b, k, 7 - k);
    SentinelAbove(b, k);
    SameParity(Shr(0x100 + b, 7 - k), Shr(b, 7 - k), Pow2(k));
  }

  lemma SentinelFirst(b: byte)
    ensures Sentinel(b, 0) == 0x100 + b
  {
  }

  lemma SentinelNext(b: byte, k: nat)
    ensures Sentinel(b, k + 1) == 2 * Sentinel(b, k)
  {
  }

  lemma NextPlace(i: nat)
    ensures if i % 8 == 7 then (i + 1) % 8 == 0 && (i + 1) / 8 == i / 8 + 1
            else (i + 1) % 8 == i % 8 + 1 && (i + 1) / 8 == i / 8
  {
  }

  /** The sentinel never reaches the bit delivered. */
  lemma SentinelAbove(b: byte, k: nat)
    requires k < 8
    ensures Shr(0x100 + b, 7 - k) == Shr(b, 7 - k) + 2 * Pow2(k)
  {
    assert Pow2(8) == 0x100;
    hide Shr, Shl, Pow2;
    ShlPow2(k, 8 - k);
    assert k + (8 - k) == 8 && 7 - k + 1 == 8 - k;
    ShrAddHigh(b, Pow2(k), 7 - k);
  }

  lemma SameParity(x: nat, y: nat, c: nat)
    requires x == y + 2 * c
    ensures x % 2 == y % 2
  {
  }

  lemma PowBelow(k: nat)
    requires k < 8
    ensures Pow2(k) <= 128
  {
    Pow2Le(k, 7);
    assert Pow2(7) == 128;
  }

  lemma Shr7(x: nat)
    ensures Shr(x, 7) == x / 0x80
  {
    ShrDiv(x, 7);
    assert Pow2(7) == 0x80;
  }

  class StreamBitDecoder {
    const source: Source
    var pos: nat
    var value: nat        // UInt32
    ghost var bitPos: nat // bits delivered so far

    ghost predicate Valid()
      reads this
    {
      && 8 * pos - 8 < bitPos <= 8 * pos
      && (if bitPos == 8 * pos then 0x10000 <= value < 0x20000
          else value == Sentinel(source.At(bitPos / 8), bitPos % 8))
    }

    constructor Init(source: Source)
      ensures Valid() && this.source == source && bitPos == 0
    {
      this.source := source;
      pos, value, bitPos := 0, 0x10000, 0;
    }

    method ReadBit() returns (res: nat)
      requires Valid()
      modifies this
      ensures Valid() && res == BitAt(source, old(bitPos)) && bitPos == old(bitPos) + 1
    {
      if value >= 0x10000 {
        if bitPos != 8 * pos {
          SentinelBit(source.At(bitPos / 8), bitPos % 8);
        }
        SentinelFirst(source.At(pos));
        value := 0x100 + source.At(pos);
        pos := pos + 1;
      }
      hide Sentinel, Shr;
      SentinelBit(source.At(bitPos / 8), bitPos % 8);
      SentinelNext(source.At(bitPos / 8), bitPos % 8);
      NextPlace(bitPos);
      res := value / 0x80 % 2;
      value := value * 2;
      bitPos := bitPos + 1;
    }

    method ReadBits(numBits: nat) returns (res: nat)
      requires Valid() && numBits > 0
      modifies this
      ensures Valid() && bitPos == old(bitPos) + numBits
      ensures Prefix(source, bitPos) == Shl(Prefix(source, old(bitPos)), numBits) + res
      ensures res < Pow2(numBits)
    {
      hide BitAt, Sentinel, Valid;
      res := 0;
      var n: nat := numBits;
      while true
        invariant 0 < n <= numBits && Valid() && bitPos == old(bitPos) + numBits - n
        invariant Prefix(source, bitPos) == Shl(Prefix(source, old(bitPos)), numBits - n) + res
        invariant res < Pow2(numBits - n)
        decreases n
      {
        var bit := ReadBit();
        res := res * 2 + bit;
        n := n - 1;
        if n == 0 {
          break;
        }
      }
    }

    /** Drops what is left of the current byte. */
    method Finish()
      requires Valid()
      modifies this
      ensures Valid() && bitPos == (old(bitPos) + 7) / 8 * 8 && pos == old(pos)
    {
      value := 0x10000;
      bitPos := 8 * pos;
    }
  }
}
