/** Bit streams with the least significant bit first: the writer and the two readers. */
module BitlCoders {
  import opened Words
  import opened ByteStreams
  import opened LsbBits
  import BitmCoders
  import MsbBits

  // ---------- the writer ----------

  /** CBitlEncoder: the pending bits sit at the bottom of m_CurByte. */
  class Encoder {
    var out: seq<byte>
    var bitPos: nat
    var curByte: byte

    ghost predicate Valid()
      reads this
    {
      1 <= bitPos <= 8 && curByte < Pow2(8 - bitPos)
    }

    /** All bits written so far. */
    ghost function Contents(): seq<bit>
      requires Valid()
      reads this
    {
      Unpacked(out) + BitsOf(curByte, 8 - bitPos)
    }

    constructor Init()
      ensures Valid() && Contents() == []
    {
      out, bitPos, curByte := [], 8, 0;
    }

    function GetProcessedSize(): nat
      requires 1 <= bitPos <= 8
      reads this
    {
      |out| + (8 - bitPos + 7) / 8
    }

    /** Only the low numBits bits of value are written, whatever the others are. */
    method WriteBits(value: uint32, numBits: nat)
      requires Valid()
      modifies this
      ensures Valid() && Contents() == old(Contents()) + BitsOf(value, numBits)
    {
      hide BitsOf, Unpacked, Shr, Pow2;
      var v: uint32, n: nat := value, numBits;
      ghost var done := Contents();
      while n > 0
        invariant Valid() && Contents() + BitsOf(v, n) == done + BitsOf(value, numBits)
      {
        if n < bitPos {
          AddPending(v, n);
          return;
        }
        n := n - bitPos;
        BitsSplit(v, bitPos, n);
        BitmCoders.Regroup(Contents(), BitsOf(v, bitPos), BitsOf(Shr(v, bitPos), n));
        var room := bitPos;
        WriteFull(v);
        v := Shr(v, room);
      }
      assert Contents() + BitsOf(v, 0) == Contents();
    }

    /** Fewer bits than the byte has room for. */
    method AddPending(v: uint32, n: nat)
      requires Valid() && 1 <= n < bitPos
      modifies this
      ensures Valid() && Contents() == old(Contents()) + BitsOf(v, n)
    {
      hide BitsOf, Unpacked, Shl, And, Or, Pow2;
      Partial(curByte, 8 - bitPos, v, n);
      BitmCoders.Regroup(Unpacked(out), BitsOf(curByte, 8 - bitPos), BitsOf(v, n));
      curByte := Or(curByte, Shl(And(v, Pow2(n) - 1), 8 - bitPos)) % 0x100;
      bitPos := bitPos - n;
    }

    /** The byte is completed and written. */
    method WriteFull(v: uint32)
      requires Valid()
      modifies this
      ensures Valid() && bitPos == 8 && Contents() == old(Contents()) + BitsOf(v, old(bitPos))
    {
      hide BitsOf, Unpacked, Shl, Or, Pow2;
      ghost var b := Or(curByte, Shl(v, 8 - bitPos) % TWO32) % 0x100;
      Filled(curByte, 8 - bitPos, v);
      BitmCoders.Regroup(Unpacked(out), BitsOf(curByte, 8 - bitPos), BitsOf(v, bitPos));
      UnpackedAppend(out, b);
      out := out + [Or(curByte, Shl(v, 8 - bitPos) % TWO32) % 0x100];
      bitPos := 8;
      curByte := 0;
      assert Pow2(0) >= 1;
      assert Contents() == Unpacked(out);
    }

    static lemma Partial(cur: byte, k: nat, v: nat, n: nat)
      requires cur < Pow2(k) && k + n < 8
      ensures var cur' := Or(cur, Shl(And(v, Pow2(n) - 1), k)) % 0x100;
        cur' < Pow2(k + n) && BitsOf(cur', k + n) == BitsOf(cur, k) + BitsOf(v, n)
    {
      var x := Low(v, n);
      hide BitsOf, Shl, Low, And, Or;
      AndMask(v, n);
      OrShl(x, cur, k);
      ShlBelow(x, n, k);
      InByte(Shl(x, k) + cur, k + n);
      BitsJoined(cur, x, k, n);
      BitsOfLow(v, n, n);
    }

    static lemma InByte(x: nat, k: nat)
      requires k <= 8 && x < Pow2(k)
      ensures x % 0x100 == x
    {
      assert Pow2(8) == 0x100;
      hide Pow2;
      Pow2Le(k, 8);
    }

    static lemma Filled(cur: byte, k: nat, v: nat)
      requires k <= 7 && cur < Pow2(k)
      ensures BitsOf(Or(cur, Shl(v, k) % TWO32) % 0x100, 8) == BitsOf(cur, k) + BitsOf(v, 8 - k)
    {
      var x := Low(v, 32 - k);
      hide BitsOf, Shl, Low, Or, Pow2;
      ShiftedWord(v, k);
      OrShl(x, cur, k);
      assert Or(cur, Shl(v, k) % TWO32) == Shl(x, k) + cur;
      ByteBits(Shl(x, k) + cur);
      assert k + (8 - k) == 8;
      BitsJoined(cur, x, k, 8 - k);
      BitsOfLow(v, 8 - k, 32 - k);
    }

    /** A 32-bit left shift. */
    static lemma ShiftedWord(v: nat, k: nat)
      requires k <= 32
      ensures Shl(v, k) % TWO32 == Shl(Low(v, 32 - k), k)
    {
      Pow2Values();
      LowMod(Shl(v, k), 32);
      LowOfShl(v, k, 32);
    }

    static lemma ByteBits(x: nat)
      ensures BitsOf(x % 0x100, 8) == BitsOf(x, 8)
    {
      Pow2Values();
      LowMod(x, 8);
      BitsOfLow(x, 8, 8);
    }

    /** A byte straight to the stream: it comes before any bits still pending. */
    method WriteByte(b: byte)
      requires Valid()
      modifies this`out
      ensures Valid() && Contents() == Unpacked(old(out)) + BitsOf(b, 8) + BitsOf(curByte, 8 - bitPos)
      ensures bitPos == 8 ==> Contents() == old(Contents()) + BitsOf(b, 8)
    {
      UnpackedAppend(out, b);
      out := out + [b];
    }

    /** Zero bits complete the last byte. */
    method FlushByte()
      requires Valid()
      modifies this
      ensures Valid() && bitPos == 8 && Contents() == Padded(old(Contents())) == Unpacked(out)
      ensures |out| == old(GetProcessedSize())
    {
      hide BitsOf, Unpacked, Pow2;
      ghost var b := Contents();
      assert |b| == 8 * |out| + (8 - bitPos);
      if bitPos < 8 {
        Completed(curByte, 8 - bitPos);
        BitmCoders.Regroup(Unpacked(out), BitsOf(curByte, 8 - bitPos), Zeros(bitPos));
        UnpackedAppend(out, curByte);
        assert (8 - |b| % 8) % 8 == bitPos;
        out := out + [curByte];
      }
      bitPos := 8;
      curByte := 0;
      assert Pow2(0) >= 1;
      assert Contents() == Unpacked(out);
    }

    static lemma Completed(cur: byte, k: nat)
      requires k <= 8 && cur < Pow2(k)
      ensures BitsOf(cur, 8) == BitsOf(cur, k) + Zeros(8 - k)
    {
      ShrZero(k);
      BitsJoined(cur, 0, k, 8 - k);
      ZeroBits(8 - k);
    }
  }

  // ---------- the readers ----------

  /** What both readers take from CBaseDecoder: the stream, the bytes invented past its end,
      and m_BitPos, which is 32 less the number of bits waiting. */
  class Cursor {
    const bytes: seq<byte>
    var pos: nat
    var numExtraBytes: nat
    var bitPos: nat

    constructor Init(bytes: seq<byte>)
      ensures Valid() && this.bytes == bytes && bitPos == 32 && Delivered() == 0 && Position() == 0
    {
      this.bytes := bytes;
      pos, numExtraBytes, bitPos := 0, 0, 32;
    }

    /** The bytes delivered are those of the stream, then 0xFF for ever. */
    ghost function Stream(): Source {
      Source(bytes, 0xFF)
    }

    ghost function Delivered(): nat
      reads this
    {
      pos + numExtraBytes
    }

    ghost predicate Valid()
      reads this
    {
      && pos <= |bytes| && (numExtraBytes > 0 ==> pos == |bytes|)
      && bitPos <= 32 && 32 - bitPos <= 8 * Delivered()
    }

    /** Bits consumed so far. */
    ghost function Position(): nat
      requires Valid()
      reads this
    {
      8 * Delivered() - (32 - bitPos)
    }

    /** ReadByte on the stream, or an invented byte past its end. */
    method NextByte() returns (b: byte)
      requires Valid()
      modifies this`pos, this`numExtraBytes
      ensures Valid() && Delivered() == old(Delivered()) + 1
      ensures b == Stream().At(old(Delivered()))
      ensures b == if old(pos + numExtraBytes) < |bytes| then bytes[old(pos + numExtraBytes)] else 0xFF
    {
      if pos < |bytes| {
        b := bytes[pos];
        pos := pos + 1;
      } else {
        b := 0xFF;
        numExtraBytes := numExtraBytes + 1;
      }
    }

    /** Bytes consumed: the consumed bits, rounded up. */
    function GetProcessedSize(): (size: int)
      requires Valid()
      reads this
      ensures size == (Position() + 7) / 8
    {
      pos + numExtraBytes - (32 - bitPos) / 8
    }

    /** More bits were consumed than the stream holds. */
    predicate ExtraBitsWereRead()
      requires Valid()
      reads this
      ensures ExtraBitsWereRead() <==> Position() > 8 * |bytes|
    {
      if numExtraBytes == 0 then false else 32 - bitPos < numExtraBytes * 8
    }
  }

  /** The n bits from bit p on of some bytes, least significant first, and ones past their end. */
  ghost predicate ReadAt(bytes: seq<byte>, p: nat, n: nat, res: nat) {
    && res < Pow2(n)
    && forall k: nat :: k < n ==> Shr(res, k) % 2 == BitOrOne(bytes, p + k)
  }

  ghost function BitOrOne(bytes: seq<byte>, i: nat): bit {
    if i < 8 * |bytes| then Shr(bytes[i / 8], i % 8) % 2 else 1
  }

  lemma FieldRead(bytes: seq<byte>, p: nat, n: nat)
    ensures ReadAt(bytes, p, n, Field(Source(bytes, 0xFF), p, n))
    ensures p >= 8 * |bytes| ==> Field(Source(bytes, 0xFF), p, n) == Pow2(n) - 1
  {
    var s := Source(bytes, 0xFF);
    FieldRange(s, p, n);
    forall k: nat | k < n ensures Shr(Field(s, p, n), k) % 2 == BitOrOne(bytes, p + k) {
      FieldBit(s, p, n, k);
      PaddedBit(bytes, p + k);
    }
    if p >= 8 * |bytes| {
      OnesPastEnd(bytes, p, n);
    }
  }

  lemma ByteRead(bytes: seq<byte>, p: nat)
    ensures ReadAt(bytes, p, 8, Field(Source(bytes, 0xFF), p, 8))
    ensures p >= 8 * |bytes| ==> Field(Source(bytes, 0xFF), p, 8) == 0xFF
  {
    FieldRead(bytes, p, 8);
    assert Pow2(8) == 0x100;
  }

  /** The same bits, the first one most significant. */
  ghost predicate ReversedAt(bytes: seq<byte>, p: nat, n: nat, res: nat) {
    && res < Pow2(n)
    && forall k: nat :: k < n ==> Shr(res, k) % 2 == BitOrOne(bytes, p + (n - 1 - k))
  }

  lemma ReversedRead(bytes: seq<byte>, p: nat, n: nat)
    ensures ReversedAt(bytes, p, n, Reversed(Field(Source(bytes, 0xFF), p, n), n))
  {
    var x := Field(Source(bytes, 0xFF), p, n);
    FieldRead(bytes, p, n);
    ReversedRange(x, n);
    hide Field, Reversed, Shr;
    forall k: nat | k < n ensures Shr(Reversed(x, n), k) % 2 == BitOrOne(bytes, p + (n - 1 - k)) {
      ReversedBit(x, n, n - 1 - k);
    }
  }

  lemma PaddedBit(bytes: seq<byte>, i: nat)
    ensures BitAt(Source(bytes, 0xFF), i) == BitOrOne(bytes, i)
  {
    if i >= 8 * |bytes| {
      var k := i % 8;
      assert Source(bytes, 0xFF).At(i / 8) == 0xFF;
      OnesInByte(k);
    }
  }

  lemma OnesInByte(k: nat)
    requires k < 8
    ensures Shr(0xFF, k) % 2 == 1
  {
    assert Shr(0xFF, 0) == 0xFF && Shr(0xFF, 1) == 0x7F && Shr(0xFF, 2) == 0x3F && Shr(0xFF, 3) == 0x1F;
    assert Shr(0xFF, 4) == 0xF && Shr(0xFF, 5) == 7 && Shr(0xFF, 6) == 3 && Shr(0xFF, 7) == 1;
  }

  lemma {:induction false} OnesPastEnd(bytes: seq<byte>, p: nat, n: nat)
    requires p >= 8 * |bytes|
    ensures Field(Source(bytes, 0xFF), p, n) == Pow2(n) - 1
    decreases n
  {
    if n == 0 {
    } else {
      PaddedBit(bytes, p);
      OnesPastEnd(bytes, p + 1, n - 1);
    }
  }

  /** n bits of the stream wait in a register, and the next byte goes above them. */
  lemma ByteAbove(s: Source, i: nat, n: nat, p: nat, value: nat)
    requires n <= 24 && p + n == 8 * i && value == Field(s, p, n)
    ensures Or(Shl(s.At(i), n) % TWO32, value) == Field(s, p, n + 8) < TWO32
  {
    hide Field, Shl, Or, Pow2;
    FieldByte(s, i);
    FieldJoined(s, p, n, 8);
    FieldRange(s, p, n);
    OrShl(s.At(i), value, n);
    ByteFits(s.At(i), n);
  }

  lemma ByteFits(b: byte, n: nat)
    requires n <= 24
    ensures Shl(b, n) + Pow2(n) <= TWO32
    ensures Shl(b, n) % TWO32 == Shl(b, n)
  {
    assert Pow2(8) == 0x100 && Pow2(32) == TWO32 by { Pow2Values(); }
    hide Shl, Pow2;
    ShlBelow(b, 8, n);
    Pow2Le(8 + n, 32);
  }

  /** CBaseDecoder: at most 32 bits wait in m_Value. */
  class BaseDecoder {
    const cursor: Cursor
    var value: uint32

    ghost predicate Valid()
      reads this, cursor
    {
      cursor.Valid() && value == Field(cursor.Stream(), cursor.Position(), 32 - cursor.bitPos)
    }

    constructor Init(bytes: seq<byte>)
      ensures Valid() && cursor.bytes == bytes && cursor.Position() == 0 && fresh(cursor)
    {
      cursor := new Cursor.Init(bytes);
      value := 0;
    }

    method Normalize()
      requires Valid()
      modifies this, cursor
      ensures Valid() && cursor.bitPos < 8 && cursor.Position() == old(cursor.Position())
    {
      hide Field, Or, Shl;
      while cursor.bitPos >= 8
        invariant Valid() && cursor.Position() == old(cursor.Position())
        decreases cursor.bitPos
      {
        ByteAbove(cursor.Stream(), cursor.Delivered(), 32 - cursor.bitPos, cursor.Position(), value);
        var b := cursor.NextByte();
        value := Or(Shl(b, 32 - cursor.bitPos) % TWO32, value);
        cursor.bitPos := cursor.bitPos - 8;
      }
    }

    /** The next numBits bits, on every stream. */
    method ReadBits(numBits: nat) returns (res: nat)
      requires Valid() && numBits <= 25
      modifies this, cursor
      ensures Valid() && cursor.Position() == old(cursor.Position()) + numBits
      ensures res == Field(cursor.Stream(), old(cursor.Position()), numBits)
      ensures ReadAt(cursor.bytes, old(cursor.Position()), numBits, res)
      ensures old(cursor.Position()) >= 8 * |cursor.bytes| ==> res == Pow2(numBits) - 1
    {
      hide Field, And, Shr, Low, Pow2, ReadAt;
      FieldRead(cursor.bytes, cursor.Position(), numBits);
      Normalize();
      FieldSplit(cursor.Stream(), cursor.Position(), 32 - cursor.bitPos, numBits);
      AndMask(value, numBits);
      res := And(value, Pow2(numBits) - 1);
      cursor.bitPos := cursor.bitPos + numBits;
      value := Shr(value, numBits);
    }
  }

  /** CDecoder: the waiting bits a second time, each byte reversed, as an MSB-first register. */
  class Decoder {
    const cursor: Cursor
    var value: uint32
    var normalValue: uint32

    /** The register ends with the last h of i bytes, reversed. */
    static ghost predicate Mirrors(value: nat, s: Source, i: nat, h: nat) {
      Low(value, 8 * h) == Low(Mirror(s).Value(i), 8 * h)
    }

    /** It ends with the reversed bytes that still have a bit waiting. */
    ghost predicate MirrorHeld()
      reads this, cursor
    {
      cursor.bitPos <= 32 && Mirrors(value, cursor.Stream(), cursor.Delivered(), (39 - cursor.bitPos) / 8)
    }

    ghost predicate Valid()
      reads this, cursor
    {
      && cursor.Valid() && MirrorHeld()
      && normalValue == Field(cursor.Stream(), cursor.Position(), 32 - cursor.bitPos)
    }

    constructor Init(bytes: seq<byte>)
      ensures Valid() && cursor.bytes == bytes && cursor.Position() == 0 && fresh(cursor)
    {
      cursor := new Cursor.Init(bytes);
      value, normalValue := 0, 0;
    }

    method Normalize()
      requires Valid()
      modifies this, cursor
      ensures Valid() && cursor.bitPos < 8 && cursor.Position() == old(cursor.Position())
    {
      while cursor.bitPos >= 8
        invariant Valid() && cursor.Position() == old(cursor.Position())
        decreases cursor.bitPos
      {
        LoadByte();
      }
    }

    /** One pass of the loop: a byte goes above the one register and, reversed, below the other. */
    method LoadByte()
      requires Valid() && cursor.bitPos >= 8
      modifies this, cursor
      ensures Valid() && cursor.bitPos == old(cursor.bitPos) - 8 && cursor.Position() == old(cursor.Position())
    {
      hide Field, Or, Shl, Mirrors, Inverted;
      ghost var held := (39 - cursor.bitPos) / 8;
      ByteAbove(cursor.Stream(), cursor.Delivered(), 32 - cursor.bitPos, cursor.Position(), normalValue);
      MirrorsMore(value, cursor.Stream(), cursor.Delivered(), held);
      var b := cursor.NextByte();
      normalValue := Or(Shl(b, 32 - cursor.bitPos) % TWO32, normalValue);
      value := Or(value * 0x100 % TWO32, Inverted(b));
      cursor.bitPos := cursor.bitPos - 8;
      assert (39 - cursor.bitPos) / 8 == held + 1;
    }

    static lemma MirrorsMore(value: uint32, s: Source, i: nat, h: nat)
      requires h <= 3 && Mirrors(value, s, i, h)
      ensures var value' := Or(value * 0x100 % TWO32, Inverted(s.At(i)));
        value' < TWO32 && Mirrors(value', s, i + 1, h + 1)
    {
      assert Mirror(s).At(i) == Inverted(s.At(i));
      hide Mirror, Low, Or, Inverted;
      ByteBelow(Mirror(s), i, value, h);
    }

    static lemma MirrorsFewer(value: nat, s: Source, i: nat, h: nat, h': nat)
      requires h' <= h && Mirrors(value, s, i, h)
      ensures Mirrors(value, s, i, h')
    {
      hide Low, Mirror;
      LowLow(value, 8 * h', 8 * h);
      LowLow(Mirror(s).Value(i), 8 * h', 8 * h);
    }

    /** The register's h low bytes are right: one more byte makes one more right. */
    static lemma ByteBelow(s: Source, i: nat, value: uint32, h: nat)
      requires h <= 3 && Low(value, 8 * h) == Low(s.Value(i), 8 * h)
      ensures var value' := Or(value * 0x100 % TWO32, s.At(i));
        value' < TWO32 && Low(value', 8 * h + 8) == Low(s.Value(i + 1), 8 * h + 8)
    {
      hide Low, Or, Shl;
      var v := s.Value(i);
      assert Or(value * 0x100 % TWO32, s.At(i)) == (value * 0x100 + s.At(i)) % TWO32 by {
        QuotientUnique(value, TWO32, 0, value);
        ShiftInByte(value, s.At(i));
      }
      var x: nat := value * 0x100 + s.At(i);
      assert x % TWO32 == Low(x, 32) by {
        Pow2Values();
        LowMod(x, 32);
      }
      LowLow(x, 8 * h + 8, 32);
      LowWithByte(value, s.At(i), 8 * h);
      LowWithByte(v, s.At(i), 8 * h);
    }

    static lemma LowWithByte(x: nat, b: byte, k: nat)
      ensures Low(x * 0x100 + b, k + 8) == Shl(Low(x, k), 8) + b
    {
      assert Pow2(8) == 0x100;
      ByteShl(x);
      LowJoined(x, b, k, 8);
    }

    static lemma {:induction false} LowJoined(c: nat, v: nat, k: nat, n: nat)
      requires v < Pow2(n)
      ensures Low(Shl(c, n) + v, k + n) == Shl(Low(c, k), n) + v
    {
      if n == 0 {
      } else {
        var x := Shl(c, n) + v;
        assert x / 2 == Shl(c, n - 1) + v / 2 && x % 2 == v % 2;
        LowJoined(c, v / 2, k, n - 1);
      }
    }

    /** The reversed view: the n bits that ReadBits would deliver, first bit most significant. */
    method GetValue(numBits: nat) returns (res: nat)
      requires Valid() && numBits <= 24
      modifies this, cursor
      ensures Valid() && cursor.bitPos < 8 && cursor.Position() == old(cursor.Position())
      ensures res == Reversed(Field(cursor.Stream(), cursor.Position(), numBits), numBits)
      ensures res == Reversed(Low(normalValue, numBits), numBits)
      ensures ReversedAt(cursor.bytes, cursor.Position(), numBits, res)
    {
      hide Field, And, Shr, Low, Mirror, Reversed, ReversedAt, MsbBits.Field;
      Normalize();
      FieldSplit(cursor.Stream(), cursor.Position(), 32 - cursor.bitPos, numBits);
      MirrorIsWhole();
      BitmCoders.Decoder.WaitingBits(Mirror(cursor.Stream()), cursor.Delivered(), cursor.bitPos, numBits, value);
      MirrorField(cursor.Stream(), cursor.Position(), numBits, numBits);
      res := BitmCoders.Decoder.CutOut(value, cursor.bitPos, numBits);
      ReversedRead(cursor.bytes, cursor.Position(), numBits);
    }

    /** With four bytes it is all of the register. */
    lemma MirrorIsWhole()
      requires Valid() && cursor.bitPos < 8
      ensures cursor.Delivered() >= 4 && value == Mirror(cursor.Stream()).Value(cursor.Delivered()) % TWO32
    {
      hide Mirror, Low, Field;
      assert Pow2(32) == TWO32 by { Pow2Values(); }
      LowSmall(value, 32);
      LowMod(Mirror(cursor.Stream()).Value(cursor.Delivered()), 32);
    }

    /** Moves past bits that are waiting; past more than that, the reader is lost. */
    method MovePos(numBits: nat)
      requires Valid()
      modifies this, cursor
      ensures Valid() <==> old(cursor.bitPos) + numBits <= 32
      ensures Valid() ==> cursor.Position() == old(cursor.Position()) + numBits
      ensures cursor.Delivered() == old(cursor.Delivered()) && cursor.bitPos == old(cursor.bitPos) + numBits
    {
      hide Field, Shr, Low, Mirrors;
      if cursor.bitPos + numBits <= 32 {
        FieldSplit(cursor.Stream(), cursor.Position(), 32 - cursor.bitPos, numBits);
        ghost var held, left := (39 - cursor.bitPos) / 8, (39 - cursor.bitPos - numBits) / 8;
        MirrorsFewer(value, cursor.Stream(), cursor.Delivered(), held, left);
      }
      cursor.bitPos := cursor.bitPos + numBits;
      normalValue := Shr(normalValue, numBits);
    }

    method ReadBits(numBits: nat) returns (res: nat)
      requires Valid() && numBits <= 25
      modifies this, cursor
      ensures Valid() && cursor.Position() == old(cursor.Position()) + numBits
      ensures res == Field(cursor.Stream(), old(cursor.Position()), numBits)
      ensures ReadAt(cursor.bytes, old(cursor.Position()), numBits, res)
      ensures old(cursor.Position()) >= 8 * |cursor.bytes| ==> res == Pow2(numBits) - 1
    {
      hide Field, And, Low, Pow2, MirrorHeld, ReadAt;
      FieldRead(cursor.bytes, cursor.Position(), numBits);
      Normalize();
      FieldSplit(cursor.Stream(), cursor.Position(), 32 - cursor.bitPos, numBits);
      AndMask(normalValue, numBits);
      res := And(normalValue, Pow2(numBits) - 1);
      MovePos(numBits);
    }

    /** On to the next byte boundary: whole bytes, or nothing, wait behind it. */
    method AlignToByte()
      requires Valid()
      modifies this, cursor
      ensures Valid() && cursor.Position() == (old(cursor.Position()) + 7) / 8 * 8
      ensures CanReadByte()
    {
      hide Field, MirrorHeld;
      Aligned(cursor.Delivered(), cursor.bitPos);
      MovePos((32 - cursor.bitPos) % 8);
    }

    static lemma Aligned(delivered: nat, bitPos: nat)
      requires bitPos <= 32
      ensures var p, r := 8 * delivered - (32 - bitPos), (32 - bitPos) % 8;
        p + r == (p + 7) / 8 * 8 && (bitPos + r == 32 || bitPos + r <= 24)
    {
      assert 8 * ((32 - bitPos) / 8) + (32 - bitPos) % 8 == 32 - bitPos;
    }

    /** No bit waits, or at least a byte. */
    ghost predicate CanReadByte()
      reads this, cursor
    {
      cursor.bitPos == 32 || cursor.bitPos <= 24
    }

    /** Eight bits, from the register or, when it is empty, past it. With one to seven bits waiting the
        missing ones come out as zeros, and m_BitPos passes 32: the reader is lost. */
    method ReadByte() returns (b: byte)
      requires Valid()
      modifies this, cursor
      ensures Valid() <==> old(CanReadByte())
      ensures Valid() ==> cursor.Position() == old(cursor.Position()) + 8
      ensures Valid() ==> b == Field(cursor.Stream(), old(cursor.Position()), 8)
      ensures Valid() ==> ReadAt(cursor.bytes, old(cursor.Position()), 8, b)
      ensures Valid() && old(cursor.Position()) >= 8 * |cursor.bytes| ==> b == 0xFF
      ensures Valid() && old(cursor.Position()) % 8 == 0 ==> CanReadByte()
      ensures !old(CanReadByte()) ==> b == Field(cursor.Stream(), old(cursor.Position()), 32 - old(cursor.bitPos))
    {
      hide Field, Mirrors, ReadAt, Pow2;
      ByteRead(cursor.bytes, cursor.Position());
      if cursor.bitPos == 32 {
        FieldByte(cursor.Stream(), cursor.Delivered());
        NothingHeld(cursor.Stream());
        b := cursor.NextByte();
      } else {
        WaitingByte(cursor.Stream(), cursor.Position(), 32 - cursor.bitPos);
        b := normalValue % 0x100;
        MovePos(8);
      }
    }

    /** The low byte of the n bits waiting: the next eight bits, or all of them if they are fewer. */
    static lemma WaitingByte(s: Source, p: nat, n: nat)
      ensures Field(s, p, n) % 0x100 == Field(s, p, if n >= 8 then 8 else n)
    {
      if n >= 8 {
        assert Pow2(8) == 0x100;
        hide Field, Low, Pow2;
        LowMod(Field(s, p, n), 8);
        FieldSplit(s, p, n, 8);
      } else {
        FewBits(s, p, n);
      }
    }

    static lemma FewBits(s: Source, p: nat, n: nat)
      requires n <= 8
      ensures Field(s, p, n) % 0x100 == Field(s, p, n)
    {
      assert Pow2(8) == 0x100;
      hide Field, Pow2;
      FieldRange(s, p, n);
      Pow2Le(n, 8);
    }

    static lemma NothingHeld(s: Source)
      ensures forall p :: Field(s, p, 0) == 0
      ensures forall value, i :: Mirrors(value, s, i, 0)
    {
    }
  }
}
