/** Byte streams read as bits, most significant bit of each byte first. */
module MsbBits {
  import opened Words
  import opened ByteStreams

  /** Bit i of the stream. */
  function BitAt(s: Source, i: nat): bit {
    Shr(s.At(i / 8), 7 - i % 8) % 2
  }

  /** The first n bits as one number. */
  ghost function Prefix(s: Source, n: nat): nat {
    if n == 0 then 0 else 2 * Prefix(s, n - 1) + BitAt(s, n - 1)
  }

  /** The n bits from bit p on, as one number. */
  ghost function Field(s: Source, p: nat, n: nat): nat {
    if n == 0 then 0 else 2 * Field(s, p, n - 1) + BitAt(s, p + n - 1)
  }

  lemma {:induction false} FieldRange(s: Source, p: nat, n: nat)
    ensures Field(s, p, n) < Pow2(n)
  {
    if n == 0 {
    } else {
      FieldRange(s, p, n - 1);
    }
  }

  lemma {:induction false} PrefixSplit(s: Source, p: nat, n: nat)
    ensures Prefix(s, p + n) == Shl(Prefix(s, p), n) + Field(s, p, n)
  {
    if n == 0 {
    } else {
      PrefixSplit(s, p, n - 1);
      assert p + n - 1 == p + (n - 1);
    }
  }

  /** Dropping the last k bits. */
  lemma {:induction false} FieldShr(s: Source, p: nat, n: nat, k: nat)
    ensures Shr(Field(s, p, n + k), k) == Field(s, p, n)
  {
    if k == 0 {
    } else {
      assert Field(s, p, n + k) / 2 == Field(s, p, n + k - 1);
      FieldShr(s, p, n, k - 1);
    }
  }

  lemma {:induction false} PrefixShr(s: Source, n: nat, k: nat)
    ensures Shr(Prefix(s, n + k), k) == Prefix(s, n)
  {
    if k == 0 {
    } else {
      assert Prefix(s, n + k) / 2 == Prefix(s, n + k - 1);
      PrefixShr(s, n, k - 1);
    }
  }

  /** One byte is eight bits. */
  lemma PrefixBytes(s: Source, n: nat)
    ensures Prefix(s, 8 * n) == s.Value(n)
    decreases n
  {
    if n > 0 {
      PrefixBytes(s, n - 1);
      ByteBits(s, n - 1, 8);
      ByteShl(s.Value(n - 1));
      PrefixSplit(s, 8 * (n - 1), 8);
      assert 8 * (n - 1) + 8 == 8 * n;
    }
  }

  lemma {:induction false} ByteBits(s: Source, i: nat, k: nat)
    requires k <= 8
    ensures Field(s, 8 * i, k) == Shr(s.At(i), 8 - k)
  {
    if k == 0 {
      ByteShr8(s.At(i));
    } else {
      ByteBits(s, i, k - 1);
      ShrNext(s.At(i), 8 - k);
      assert (8 * i + k - 1) / 8 == i && (8 * i + k - 1) % 8 == k - 1;
    }
  }

  lemma ByteShr8(b: byte)
    ensures Shr(b, 8) == 0
  {
    assert Pow2(8) == 256;
    ShrBelow(b, 0, 8);
  }

  // ---------- finite bit strings ----------

  /** value written with n bits, most significant first. */
  ghost function BitsOf(value: nat, n: nat): (b: seq<bit>)
    ensures |b| == n
  {
    if n == 0 then [] else BitsOf(value / 2, n - 1) + [value % 2]
  }

  /** Writing a + b bits is writing the high a bits, then the low b bits. */
  lemma {:induction false} BitsSplit(value: nat, a: nat, b: nat)
    ensures BitsOf(value, a + b) == BitsOf(Shr(value, b), a) + BitsOf(value, b)
  {
    if b == 0 {
      assert BitsOf(value, 0) == [];
    } else {
      BitsSplit(value / 2, a, b - 1);
    }
  }

  /** Only the low bits matter. */
  lemma {:induction false} BitsOfLow(value: nat, n: nat, m: nat)
    requires n <= m
    ensures BitsOf(Low(value, m), n) == BitsOf(value, n)
  {
    if n == 0 {
    } else {
      BitsOfLow(value / 2, n - 1, m - 1);
    }
  }

  /** A number put together from c and n low bits v. */
  lemma BitsJoined(c: nat, v: nat, n: nat, total: nat)
    requires v < Pow2(n) && n <= total
    ensures BitsOf(Shl(c, n) + v, total) == BitsOf(c, total - n) + BitsOf(v, n)
  {
    Joined(c, v, n);
    BitsSplit(Shl(c, n) + v, total - n, n);
    BitsOfLow(Shl(c, n) + v, n, n);
  }

  lemma BitsSame(x: nat, y: nat, n: nat)
    requires Low(x, n) == Low(y, n)
    ensures BitsOf(x, n) == BitsOf(y, n)
  {
    BitsOfLow(x, n, n);
    BitsOfLow(y, n, n);
  }

  /** The bits of b, last one least significant, or-ed with the low bits of a number. */
  ghost function Overlaid(b: seq<bit>, o: nat): (r: seq<bit>)
    ensures |r| == |b|
  {
    if b == [] then []
    else Overlaid(b[..|b| - 1], o / 2) + [if b[|b| - 1] == 1 || o % 2 == 1 then 1 else 0]
  }

  lemma {:induction false} OverlaidZero(b: seq<bit>)
    ensures Overlaid(b, 0) == b
  {
    if b == [] {
    } else {
      OverlaidZero(b[..|b| - 1]);
    }
  }

  lemma {:induction false} OverlaidBits(p: nat, o: nat, n: nat)
    ensures Overlaid(BitsOf(p, n), o) == BitsOf(Or(p, o), n)
  {
    if n == 0 {
    } else {
      var b := BitsOf(p, n);
      assert b[..n - 1] == BitsOf(p / 2, n - 1);
      OrBits(p / 2, o / 2, p % 2, o % 2);
      OverlaidBits(p / 2, o / 2, n - 1);
    }
  }

  /** n bits of a number joined below c by `|`: whatever it has above them meets c. */
  lemma BitsOverlaid(c: nat, v: nat, n: nat, m: nat)
    ensures BitsOf(Or(Shl(c, n), v), m + n) == Overlaid(BitsOf(c, m), Shr(v, n)) + BitsOf(v, n)
  {
    var y := Or(Shl(c, n), v);
    assert Pow2(n) > 0;
    hide BitsOf, Overlaid, Shl, Shr, Low, Or;
    Joined(c, 0, n);
    ShrOr(Shl(c, n), v, n);
    LowOr(Shl(c, n), v, n);
    OrZero(Low(v, n));
    BitsSplit(y, m, n);
    LowLow(v, n, n);
    BitsSame(y, v, n);
    OverlaidBits(c, Shr(v, n), m);
  }

  /** Taking n low bits off a number. */
  lemma BitsTakenApart(x: nat, n: nat, total: nat)
    requires n <= total
    ensures BitsOf(x, total) == BitsOf(Shr(x, n), total - n) + BitsOf(Low(x, n), n)
  {
    BitsSplit(x, total - n, n);
    BitsOfLow(x, n, n);
  }

  /** All bits of a byte string. */
  ghost function Unpacked(s: seq<byte>): (b: seq<bit>)
    ensures |b| == 8 * |s|
  {
    if s == [] then [] else Unpacked(s[..|s| - 1]) + BitsOf(s[|s| - 1], 8)
  }

  lemma UnpackedAppend(s: seq<byte>, b: byte)
    ensures Unpacked(s + [b]) == Unpacked(s) + BitsOf(b, 8)
  {
    assert (s + [b])[..|s|] == s;
  }

  lemma {:induction false} ZeroBits(n: nat)
    ensures BitsOf(0, n) == Zeros(n)
  {
    if n == 0 {
    } else {
      ZeroBits(n - 1);
    }
  }

  lemma {:induction false} BitsOfAt(value: nat, n: nat, k: nat)
    requires k < n
    ensures BitsOf(value, n)[k] == Shr(value, n - 1 - k) % 2
  {
    if k == n - 1 {
    } else {
      BitsOfAt(value / 2, n - 1, k);
    }
  }

  /** The bit string is the stream's bits, one by one. */
  lemma {:induction false} UnpackedAt(s: seq<byte>, pad: byte, i: nat)
    requires i < 8 * |s|
    ensures Unpacked(s)[i] == BitAt(Source(s, pad), i)
  {
    var t := s[..|s| - 1];
    if i < 8 * |t| {
      UnpackedAt(t, pad, i);
    } else {
      BitsOfAt(s[|s| - 1], 8, i - 8 * |t|);
    }
  }

  /** The stream's bits from p on begin with b. */
  ghost predicate Spells(s: Source, p: nat, b: seq<bit>) {
    forall k :: 0 <= k < |b| ==> b[k] == BitAt(s, p + k)
  }

  lemma {:induction false} FieldOfBits(s: Source, p: nat, value: nat, n: nat)
    requires value < Pow2(n) && Spells(s, p, BitsOf(value, n))
    ensures Field(s, p, n) == value
  {
    if n == 0 {
    } else {
      var b := BitsOf(value, n);
      assert b[..n - 1] == BitsOf(value / 2, n - 1) && b[n - 1] == value % 2;
      FieldOfBits(s, p, value / 2, n - 1);
    }
  }

  /** Byte strings with the same bits are the same. */
  lemma {:induction false} UnpackedInjective(s: seq<byte>, t: seq<byte>)
    requires Unpacked(s) == Unpacked(t)
    ensures s == t
  {
    if s == [] {
      assert |Unpacked(t)| == 0;
    } else {
      assert |s| == |t|;
      var s', t' := s[..|s| - 1], t[..|t| - 1];
      var a, b := BitsOf(s[|s| - 1], 8), BitsOf(t[|t| - 1], 8);
      assert Unpacked(s') == Unpacked(s)[..8 * |s'|] == Unpacked(t') by {
        assert Unpacked(s) == Unpacked(s') + a;
        assert Unpacked(t) == Unpacked(t') + b;
      }
      assert a == Unpacked(s)[8 * |s'|..] == Unpacked(t)[8 * |t'|..] == b;
      UnpackedInjective(s', t');
      BitsOfInjective(s[|s| - 1], t[|t| - 1], 8);
      assert s == s' + [s[|s| - 1]] && t == t' + [t[|t| - 1]];
    }
  }

  lemma {:induction false} BitsOfInjective(x: nat, y: nat, n: nat)
    requires x < Pow2(n) && y < Pow2(n) && BitsOf(x, n) == BitsOf(y, n)
    ensures x == y
  {
    if n == 0 {
    } else {
      assert BitsOf(x, n)[..n - 1] == BitsOf(x / 2, n - 1);
      assert BitsOf(y, n)[..n - 1] == BitsOf(y / 2, n - 1);
      assert BitsOf(x, n)[n - 1] == x % 2 && BitsOf(y, n)[n - 1] == y % 2;
      BitsOfInjective(x / 2, y / 2, n - 1);
    }
  }
}
