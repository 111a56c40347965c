/** Byte streams read as bits, least significant bit of each byte first. */
module LsbBits {
  import opened Words
  import opened ByteStreams
  import MsbBits

  /** Bit i of the stream. */
  function BitAt(s: Source, i: nat): bit {
    Shr(s.At(i / 8), i % 8) % 2
  }

  /** The n bits from bit p on, as one number: the first bit is the least significant. */
  ghost function Field(s: Source, p: nat, n: nat): nat
    decreases n
  {
    if n == 0 then 0 else BitAt(s, p) + 2 * Field(s, p + 1, n - 1)
  }

  lemma {:induction false} FieldRange(s: Source, p: nat, n: nat)
    ensures Field(s, p, n) < Pow2(n)
    decreases n
  {
    if n == 0 {
    } else {
      FieldRange(s, p + 1, n - 1);
    }
  }

  lemma {:induction false} FieldJoined(s: Source, p: nat, a: nat, b: nat)
    ensures Field(s, p, a + b) == Shl(Field(s, p + a, b), a) + Field(s, p, a)
    decreases a
  {
    if a == 0 {
    } else {
      FieldJoined(s, p + 1, a - 1, b);
      assert p + 1 + (a - 1) == p + a;
    }
  }

  /** The low bits of a field come first in the stream, the others behind them. */
  lemma FieldSplit(s: Source, p: nat, n: nat, a: nat)
    requires a <= n
    ensures Low(Field(s, p, n), a) == Field(s, p, a)
    ensures Shr(Field(s, p, n), a) == Field(s, p + a, n - a)
  {
    hide Field, Low, Shr, Shl;
    FieldJoined(s, p, a, n - a);
    FieldRange(s, p, a);
    Joined(Field(s, p + a, n - a), Field(s, p, a), a);
  }

  lemma FieldBit(s: Source, p: nat, n: nat, k: nat)
    requires k < n
    ensures Shr(Field(s, p, n), k) % 2 == BitAt(s, p + k)
  {
    hide Shr, Low, BitAt;
    FieldSplit(s, p, n, k);
    assert Field(s, p + k, n - k) == BitAt(s, p + k) + 2 * Field(s, p + k + 1, n - k - 1);
  }

  /** Eight bits from a byte boundary are the byte. */
  lemma FieldByte(s: Source, i: nat)
    ensures Field(s, 8 * i, 8) == s.At(i)
  {
    RestOfByte(s, i, 0);
  }

  lemma {:induction false} RestOfByte(s: Source, i: nat, k: nat)
    requires k <= 8
    ensures Field(s, 8 * i + k, 8 - k) == Shr(s.At(i), k)
    decreases 8 - k
  {
    if k == 8 {
      MsbBits.ByteShr8(s.At(i));
    } else {
      RestOfByte(s, i, k + 1);
      ShrNext(s.At(i), k);
      assert (8 * i + k) / 8 == i && (8 * i + k) % 8 == k;
    }
  }

  // ---------- finite bit strings ----------

  /** The n low bits of value, least significant first. */
  ghost function BitsOf(value: nat, n: nat): (b: seq<bit>)
    ensures |b| == n
  {
    if n == 0 then [] else [value % 2] + BitsOf(value / 2, n - 1)
  }

  /** Bits c below, v above them. */
  lemma {:induction false} BitsJoined(c: nat, v: nat, k: nat, n: nat)
    requires c < Pow2(k)
    ensures BitsOf(Shl(v, k) + c, k + n) == BitsOf(c, k) + BitsOf(v, n)
  {
    if k == 0 {
    } else {
      assert (Shl(v, k) + c) / 2 == Shl(v, k - 1) + c / 2 && (Shl(v, k) + c) % 2 == c % 2;
      BitsJoined(c / 2, v, k - 1, n);
    }
  }

  /** Writing a + b bits is writing the low a bits, then those above. */
  lemma {:induction false} BitsSplit(value: nat, a: nat, b: nat)
    ensures BitsOf(value, a + b) == BitsOf(value, a) + BitsOf(Shr(value, a), b)
  {
    if a == 0 {
    } else {
      BitsSplit(value / 2, a - 1, b);
    }
  }

  /** Only the low bits matter. */
  lemma {:induction false} BitsOfLow(value: nat, n: nat, m: nat)
    requires n <= m
    ensures BitsOf(Low(value, m), n) == BitsOf(value, n)
  {
    if n == 0 {
    } else {
      BitsOfLow(value / 2, n - 1, m - 1);
    }
  }

  lemma {:induction false} BitsOfAt(value: nat, n: nat, k: nat)
    requires k < n
    ensures BitsOf(value, n)[k] == Shr(value, k) % 2
  {
    if k == 0 {
    } else {
      BitsOfAt(value / 2, n - 1, k - 1);
    }
  }

  lemma ZeroBits(n: nat)
    ensures BitsOf(0, n) == Zeros(n)
  {
    MsbBits.ZeroBits(n);
    forall k: nat | k < n ensures BitsOf(0, n)[k] == Zeros(n)[k] {
      BitsOfAt(0, n, k);
      MsbBits.BitsOfAt(0, n, k);
      ShrZero(k);
      ShrZero(n - 1 - k);
    }
  }

  /** All bits of a byte string: those of the reversed bytes, most significant bit first. */
  ghost function Unpacked(s: seq<byte>): (b: seq<bit>)
    ensures |b| == 8 * |s|
  {
    MsbBits.Unpacked(InvertedBytes(s))
  }

  lemma UnpackedAppend(s: seq<byte>, b: byte)
    ensures Unpacked(s + [b]) == Unpacked(s) + BitsOf(b, 8)
  {
    assert InvertedBytes(s + [b]) == InvertedBytes(s) + [Inverted(b)];
    MsbBits.UnpackedAppend(InvertedBytes(s), Inverted(b));
    InvertedBits(b);
  }

  lemma InvertedBits(b: byte)
    ensures MsbBits.BitsOf(Inverted(b), 8) == BitsOf(b, 8)
  {
    forall k: nat | k < 8 ensures MsbBits.BitsOf(Inverted(b), 8)[k] == BitsOf(b, 8)[k] {
      MsbBits.BitsOfAt(Inverted(b), 8, k);
      BitsOfAt(b, 8, k);
      ReversedBit(b, 8, k);
    }
  }

  /** The bit string is the stream's bits, one by one. */
  lemma UnpackedAt(s: seq<byte>, pad: byte, i: nat)
    requires i < 8 * |s|
    ensures Unpacked(s)[i] == BitAt(Source(s, pad), i)
  {
    MsbBits.UnpackedAt(InvertedBytes(s), Inverted(pad), i);
    MirrorBit(Source(s, pad), i);
  }

  /** The stream's bits from p on begin with b. */
  ghost predicate Spells(s: Source, p: nat, b: seq<bit>) {
    forall k :: 0 <= k < |b| ==> b[k] == BitAt(s, p + k)
  }

  lemma {:induction false} FieldOfBits(s: Source, p: nat, value: nat, n: nat)
    requires Spells(s, p, BitsOf(value, n))
    ensures Field(s, p, n) == Low(value, n)
    decreases n
  {
    if n == 0 {
    } else {
      var b := BitsOf(value, n);
      assert b[0] == value % 2 && b[1..] == BitsOf(value / 2, n - 1);
      forall k | 0 <= k < |b[1..]| ensures b[1..][k] == BitAt(s, p + 1 + k) {
        assert b[1..][k] == b[k + 1];
      }
      FieldOfBits(s, p + 1, value / 2, n - 1);
    }
  }

  // ---------- reversal ----------

  /** The n low bits of x in the opposite order. */
  function Reversed(x: nat, n: nat): nat {
    if n == 0 then 0 else 2 * Reversed(x, n - 1) + Shr(x, n - 1) % 2
  }

  lemma {:induction false} ReversedRange(x: nat, n: nat)
    ensures Reversed(x, n) < Pow2(n)
  {
    if n == 0 {
    } else {
      ReversedRange(x, n - 1);
    }
  }

  lemma {:induction false} ReversedBit(x: nat, n: nat, k: nat)
    requires k < n
    ensures Shr(Reversed(x, n), n - 1 - k) % 2 == Shr(x, k) % 2
  {
    if k == n - 1 {
    } else {
      assert Reversed(x, n) / 2 == Reversed(x, n - 1);
      ReversedBit(x, n - 1, k);
    }
  }

  /** Only the n low bits matter, and the first ones come first. */
  lemma {:induction false} ReversedShr(x: nat, n: nat, k: nat)
    ensures Shr(Reversed(x, n + k), k) == Reversed(x, n)
  {
    if k == 0 {
    } else {
      assert Reversed(x, n + k) / 2 == Reversed(x, n + (k - 1));
      ReversedShr(x, n, k - 1);
    }
  }

  lemma {:induction false} ReversedSame(x: nat, y: nat, n: nat)
    requires forall k :: 0 <= k < n ==> Shr(x, k) % 2 == Shr(y, k) % 2
    ensures Reversed(x, n) == Reversed(y, n)
  {
    if n == 0 {
    } else {
      ReversedSame(x, y, n - 1);
    }
  }

  /** The reversal of a longer field starts with the reversal of a shorter one. */
  lemma ReversedField(s: Source, p: nat, n: nat, max: nat)
    requires n <= max
    ensures Shr(Reversed(Field(s, p, max), max), max - n) == Reversed(Field(s, p, n), n)
  {
    ReversedShr(Field(s, p, max), n, max - n);
    forall k | 0 <= k < n ensures Shr(Field(s, p, max), k) % 2 == Shr(Field(s, p, n), k) % 2 {
      FieldBit(s, p, max, k);
      FieldBit(s, p, n, k);
    }
    ReversedSame(Field(s, p, max), Field(s, p, n), n);
  }

  /** Reversing twice gives the bits back. */
  lemma ReversedTwice(x: nat, n: nat)
    ensures Reversed(Reversed(x, n), n) == Low(x, n)
  {
    var y := Reversed(x, n);
    ReversedRange(y, n);
    forall k | 0 <= k < n ensures Shr(Reversed(y, n), k) % 2 == Shr(x, k) % 2 {
      ReversedBit(y, n, n - 1 - k);
      ReversedBit(x, n, k);
    }
    SameBits(Reversed(y, n), x, n);
    LowSmall(Reversed(y, n), n);
  }

  lemma {:induction false} SameBits(x: nat, y: nat, n: nat)
    requires forall k :: 0 <= k < n ==> Shr(x, k) % 2 == Shr(y, k) % 2
    ensures Low(x, n) == Low(y, n)
  {
    if n == 0 {
    } else {
      assert Shr(x, 0) % 2 == Shr(y, 0) % 2;
      forall k | 0 <= k < n - 1 ensures Shr(x / 2, k) % 2 == Shr(y / 2, k) % 2 {
        assert Shr(x, k + 1) % 2 == Shr(y, k + 1) % 2;
      }
      SameBits(x / 2, y / 2, n - 1);
    }
  }

  /** kInvertTable, whose contents are taken to be the reversed bytes. */
  function Inverted(b: byte): byte {
    ReversedRange(b, 8);
    assert Pow2(8) == 0x100;
    Reversed(b, 8)
  }

  function InvertedBytes(s: seq<byte>): (t: seq<byte>)
    ensures |t| == |s| && forall i :: 0 <= i < |s| ==> t[i] == Inverted(s[i])
  {
    seq(|s|, i requires 0 <= i < |s| => Inverted(s[i]))
  }

  /** The stream of reversed bytes. */
  function Mirror(s: Source): Source {
    Source(InvertedBytes(s.bytes), Inverted(s.pad))
  }

  /** It has the same bits, when its own are taken most significant first. */
  lemma MirrorBit(s: Source, i: nat)
    ensures MsbBits.BitAt(Mirror(s), i) == BitAt(s, i)
  {
    ReversedBit(s.At(i / 8), 8, i % 8);
  }

  /** So its fields are the reversed fields. */
  lemma {:induction false} MirrorField(s: Source, p: nat, n: nat, m: nat)
    requires m <= n
    ensures MsbBits.Field(Mirror(s), p, m) == Reversed(Field(s, p, n), m)
  {
    hide Field, BitAt, Shr;
    if m == 0 {
    } else {
      MirrorField(s, p, n, m - 1);
      MirrorBit(s, p + m - 1);
      FieldBit(s, p, n, m - 1);
    }
  }
}
