/** Bit streams with the most significant bit first: the stream writer, the in-memory writer
    of BZip2, and the reader. */
module BitmCoders {
  import opened Words
  import opened ByteStreams
  import opened MsbBits

  lemma Regroup(a: seq<bit>, b: seq<bit>, c: seq<bit>)
    ensures a + (b + c) == (a + b) + c
  {
  }

  const VALUE_MASK := 0xFF_FFFF

  lemma MaskedLow(x: nat)
    ensures And(x, VALUE_MASK) == Low(x, 24)
  {
    AndMask(x, 24);
    Pow2Values();
  }

  /** A byte register keeps the low eight bits. */
  lemma ByteIs(x: nat)
    ensures x % 0x100 == Low(x, 8)
  {
    assert Pow2(8) == 0x100;
    LowMod(x, 8);
  }

  // ---------- what writing means, for values of any size ----------

  /** The n low bits of value come behind the others; what value has above them is or-ed with the bits
      of the byte that is still pending. */
  ghost function Written(b: seq<bit>, value: nat, n: nat): (r: seq<bit>)
    ensures |r| == |b| + n
  {
    if n == 0 then b else Head(b, Shr(value, n)) + BitsOf(value, n)
  }

  /** The bits already there, after the overflow of a value. */
  ghost function Head(b: seq<bit>, overflow: nat): (r: seq<bit>)
    ensures |r| == |b|
  {
    var whole := |b| - |b| % 8;
    b[..whole] + Overlaid(b[whole..], overflow)
  }

  lemma WrittenIs(b: seq<bit>, value: nat, n: nat)
    requires n > 0
    ensures Written(b, value, n) == Head(b, Shr(value, n)) + BitsOf(value, n)
  {
  }

  lemma NothingAbove(value: nat, n: nat)
    requires value < Pow2(n)
    ensures Shr(value, n) == 0
  {
    assert Pow2(0) == 1;
    hide Shr, Pow2;
    ShrBelow(value, 0, n);
  }

  lemma HeadZero(b: seq<bit>)
    ensures Head(b, 0) == b
  {
    OverlaidZero(b[|b| - |b| % 8..]);
  }

  lemma WrittenNone(b: seq<bit>)
    ensures forall v :: Written(b, v, 0) == b
  {
  }

  /** A value that fits is written as it is. */
  lemma WrittenFits(b: seq<bit>, value: nat, n: nat)
    requires value < Pow2(n)
    ensures Written(b, value, n) == b + BitsOf(value, n)
  {
    NothingAbove(value, n);
    HeadZero(b);
    WrittenNone(b);
    hide BitsOf, Shr, Written, Head, Pow2;
    if n == 0 {
      assert b + BitsOf(value, n) == b;
    } else {
      WrittenIs(b, value, n);
    }
  }

  /** Bits of whole bytes, then k pending ones. */
  lemma WrittenBehind(whole: seq<bit>, pending: seq<bit>, value: nat, n: nat)
    requires |whole| % 8 == 0 && |pending| < 8 && n > 0
    ensures Written(whole + pending, value, n) == whole + (Overlaid(pending, Shr(value, n)) + BitsOf(value, n))
  {
    hide BitsOf, Overlaid, Shr;
    var b := whole + pending;
    assert |b| % 8 == |pending|;
    assert b[..|whole|] == whole && b[|whole|..] == pending;
  }

  lemma WrittenWhole(b: seq<bit>, value: nat, n: nat)
    requires |b| % 8 == 0
    ensures Written(b, value, n) == b + BitsOf(value, n)
  {
    assert n == 0 ==> BitsOf(value, n) == [];
    hide BitsOf, Shr;
    assert b[..|b|] == b && b[|b|..] == [];
  }

  /** The high bits first, up to the end of a byte, and then the rest. */
  lemma WrittenTwice(b: seq<bit>, v: nat, r: nat, n: nat)
    requires r > 0 && (n == 0 || (|b| + r) % 8 == 0)
    ensures Written(Written(b, Shr(v, n), r), Low(v, n), n) == Written(b, v, n + r)
  {
    hide Written, Shr, Low;
    if n == 0 {
      WrittenAll(b, v, r);
    } else {
      WrittenToEnd(b, Written(b, Shr(v, n), r), v, r, n);
    }
  }

  lemma WrittenAll(b: seq<bit>, v: nat, r: nat)
    ensures Written(Written(b, Shr(v, 0), r), Low(v, 0), 0) == Written(b, v, 0 + r)
  {
    hide Head, BitsOf;
  }

  lemma WrittenToEnd(b: seq<bit>, first: seq<bit>, v: nat, r: nat, n: nat)
    requires r > 0 && n > 0 && |first| % 8 == 0 && first == Written(b, Shr(v, n), r)
    ensures Written(first, Low(v, n), n) == Written(b, v, n + r)
  {
    hide Written, Head, Shr, Low, BitsOf;
    WrittenWhole(first, Low(v, n), n);
    ShrShr(v, n, r);
    WrittenIs(b, Shr(v, n), r);
    BitsTakenApart(v, n, n + r);
    WrittenIs(b, v, n + r);
    Regroup(Head(b, Shr(v, n + r)), BitsOf(Shr(v, n), r), BitsOf(Low(v, n), n));
  }

  lemma PaddingWritten(b: seq<bit>)
    ensures Padded(b) == Written(b, 0, (8 - |b| % 8) % 8)
  {
    var n := (8 - |b| % 8) % 8;
    assert Pow2(n) > 0;
    WrittenFits(b, 0, n);
    ZeroBits(n);
  }

  lemma Padding(b: seq<bit>, bytes: nat, bitPos: nat)
    requires 1 <= bitPos <= 8 && |b| == 8 * bytes + (8 - bitPos)
    ensures Padded(b) == if bitPos == 8 then b else Written(b, 0, bitPos)
  {
    hide Written, Padded;
    PaddingWritten(b);
    assert |b| % 8 == (8 - bitPos) % 8;
    if bitPos == 8 {
      assert Written(b, 0, 0) == b by { WrittenNone(b); }
    }
  }

  // ---------- the stream writer ----------

  /** CBitmEncoder: the pending bits sit at the top of m_CurByte. */
  class Encoder {
    var out: seq<byte>
    var bitPos: nat
    var curByte: byte

    ghost predicate Valid()
      reads this
    {
      1 <= bitPos <= 8 && Low(curByte, bitPos) == 0
    }

    /** All bits written so far. */
    ghost function Contents(): seq<bit>
      requires Valid()
      reads this
    {
      Unpacked(out) + BitsOf(Shr(curByte, bitPos), 8 - bitPos)
    }

    constructor Init()
      ensures Valid() && Contents() == []
    {
      out, bitPos, curByte := [], 8, 0;
      new;
      ShrZero(8);
    }

    function GetProcessedSize(): nat
      requires 1 <= bitPos <= 8
      reads this
    {
      |out| + (8 - bitPos + 7) / 8
    }

    method WriteBits(value: uint32, numBits: nat)
      requires Valid()
      modifies this
      ensures Valid() && Contents() == Written(old(Contents()), value, numBits)
    {
      hide BitsOf, Unpacked, Shr, Shl, Low, Pow2, Written;
      var v: nat, n: nat := value, numBits;
      while n > 0
        invariant Valid() && Written(Contents(), v, n) == Written(old(Contents()), value, numBits)
      {
        if n < bitPos {
          AddPending(v, n);
          return;
        }
        WrittenTwice(Contents(), v, bitPos, n - bitPos);
        Parts(v, n - bitPos);
        n := n - bitPos;
        var newBits := Shr(v, n);
        v := v - Shl(newBits, n);
        WriteFull(newBits);
      }
      WrittenNone(Contents());
    }

    /** Fewer bits than the byte has room for. */
    method AddPending(v: nat, n: nat)
      requires Valid() && 1 <= n < bitPos
      modifies this
      ensures Valid() && Contents() == Written(old(Contents()), v, n)
    {
      hide BitsOf, Shr, Shl, Low, Written, Overlaid, Or;
      WrittenBehind(Unpacked(out), BitsOf(Shr(curByte, bitPos), 8 - bitPos), v, n);
      Partial(curByte, bitPos, v, n);
      bitPos := bitPos - n;
      curByte := Or(curByte, Shl(v % 0x100, bitPos) % 0x100) % 0x100;
    }

    /** As many bits as the byte has room for, or more. */
    method WriteFull(newBits: nat)
      requires Valid()
      modifies this
      ensures Valid() && bitPos == 8 && Contents() == Written(old(Contents()), newBits, old(bitPos))
    {
      hide BitsOf, Shr, Low, Written, Overlaid, Or, Unpacked;
      WrittenBehind(Unpacked(out), BitsOf(Shr(curByte, bitPos), 8 - bitPos), newBits, bitPos);
      Filled(curByte, bitPos, newBits);
      UnpackedAppend(out, Or(curByte, newBits) % 0x100);
      out := out + [Or(curByte, newBits) % 0x100];
      bitPos := 8;
      curByte := 0;
      ShrZero(8);
      assert Contents() == Unpacked(out);
    }

    /** The pending byte is its high bits, shifted up. */
    static lemma ByteOf(cur: byte, room: nat)
      requires Low(cur, room) == 0
      ensures cur == Shl(Shr(cur, room), room)
    {
      Parts(cur, room);
    }

    static lemma Partial(cur: byte, room: nat, v: nat, n: nat)
      requires 1 <= n < room <= 8 && Low(cur, room) == 0
      ensures var cur' := Or(cur, Shl(v % 0x100, room - n) % 0x100) % 0x100;
        && Low(cur', room - n) == 0
        && BitsOf(Shr(cur', room - n), 8 - (room - n))
        == Overlaid(BitsOf(Shr(cur, room), 8 - room), Shr(v, n)) + BitsOf(v, n)
    {
      hide BitsOf, Overlaid, Shl, Shr, Low, Or, Pow2;
      var s, kept := room - n, 8 - room;
      PartialByte(cur, room, v, n);
      LowBits(Or(Shl(Shr(cur, room), n), v), kept + n, s);
      assert kept + n == 8 - s;
      BitsOverlaid(Shr(cur, room), v, n, kept);
    }

    /** The k low bits of y, shifted up by s. */
    static lemma LowBits(y: nat, k: nat, s: nat)
      ensures Low(Shl(Low(y, k), s), s) == 0
      ensures BitsOf(Shr(Shl(Low(y, k), s), s), k) == BitsOf(y, k)
    {
      assert Pow2(s) > 0;
      hide BitsOf, Shl, Shr, Low, Pow2;
      Joined(Low(y, k), 0, s);
      LowLow(y, k, k);
      BitsSame(Low(y, k), y, k);
    }

    /** The byte casts only drop bits that leave the byte. */
    static lemma PartialByte(cur: byte, room: nat, v: nat, n: nat)
      requires 1 <= n < room <= 8 && Low(cur, room) == 0
      ensures Or(cur, Shl(v % 0x100, room - n) % 0x100) % 0x100
           == Shl(Low(Or(Shl(Shr(cur, room), n), v), 8 - (room - n)), room - n)
    {
      hide Shl, Shr, Low, Or, Pow2;
      var s := room - n;
      var y := Or(Shl(Shr(cur, room), n), v);
      assert Shl(y, s) == Or(cur, Shl(v, s)) by {
        ByteOf(cur, room);
        ShlShl(Shr(cur, room), n, s);
        assert n + s == room;
        ShlOr(Shl(Shr(cur, room), n), v, s);
      }
      CastShifted(v, s);
      CastJoined(cur, Shl(v, s));
      LowOfShl(y, s, 8);
    }

    static lemma CastJoined(cur: byte, x: nat)
      ensures Or(cur, Low(x, 8)) % 0x100 == Low(Or(cur, x), 8)
    {
      assert cur < Pow2(8) by { assert Pow2(8) == 0x100; }
      hide Low, Or, Pow2;
      LowOr(cur, x, 8);
      LowSmall(cur, 8);
      ByteIs(Or(cur, Low(x, 8)));
      LowOr(cur, Low(x, 8), 8);
      LowLow(x, 8, 8);
    }

    /** `(Byte)value << s`, cast to a byte. */
    static lemma CastShifted(v: nat, s: nat)
      requires s <= 8
      ensures Shl(v % 0x100, s) % 0x100 == Low(Shl(v, s), 8)
    {
      hide Shl, Low;
      ByteIs(v);
      ByteIs(Shl(Low(v, 8), s));
      LowOfShl(Low(v, 8), s, 8);
      LowOfShl(v, s, 8);
      LowLow(v, 8 - s, 8);
    }

    static lemma Filled(cur: byte, room: nat, newBits: nat)
      requires 1 <= room <= 8 && Low(cur, room) == 0
      ensures BitsOf(Or(cur, newBits) % 0x100, 8)
           == Overlaid(BitsOf(Shr(cur, room), 8 - room), Shr(newBits, room)) + BitsOf(newBits, room)
    {
      hide BitsOf, Overlaid, Shl, Shr, Low, Or;
      ByteOf(cur, room);
      CastBits(Or(cur, newBits), 8);
      BitsOverlaid(Shr(cur, room), newBits, room, 8 - room);
    }

    /** Zero bits complete the last byte. */
    method Flush()
      requires Valid()
      modifies this
      ensures Valid() && bitPos == 8
      ensures Unpacked(out) == Padded(old(Contents()))
      ensures |out| == old(GetProcessedSize())
    {
      hide BitsOf, Unpacked, Shr, Padded, Written;
      Padding(Contents(), |out|, bitPos);
      if bitPos < 8 {
        WriteBits(0, bitPos);
      }
      assert |Contents()| == 8 * |out| + (8 - bitPos);
      assert Contents() == Unpacked(out);
    }
  }

  lemma CastBits(x: nat, n: nat)
    requires n <= 8
    ensures BitsOf(x % 0x100, n) == BitsOf(x, n)
  {
    ByteIs(x);
    BitsOfLow(x, n, 8);
  }

  // ---------- the in-memory writer ----------

  /** CMsbfEncoderTemp: the pending bits sit at the bottom of m_CurByte, below leftovers of the
      byte written last. */
  class TempEncoder {
    const buffer: array<byte>
    var pos: nat
    var bitPos: nat
    var curByte: byte

    ghost predicate Valid()
      reads this
    {
      1 <= bitPos <= 8 && pos <= buffer.Length
    }

    ghost function Contents(): seq<bit>
      requires Valid()
      reads this, buffer
    {
      Unpacked(buffer[..pos]) + BitsOf(curByte, 8 - bitPos)
    }

    constructor Init(buffer: array<byte>)
      ensures Valid() && this.buffer == buffer && Contents() == []
    {
      this.buffer := buffer;
      pos, bitPos, curByte := 0, 8, 0;
    }

    function GetPos(): nat
      requires Valid()
      reads this
    {
      pos * 8 + (8 - bitPos)
    }

    function GetCurByte(): byte
      reads this
    {
      curByte
    }

    /** The bytes already stored stay. */
    method WriteBits(value: uint32, numBits: nat)
      requires Valid()
      requires GetPos() + numBits < 8 * buffer.Length + 8
      modifies this, buffer
      ensures Valid() && Contents() == Written(old(Contents()), value, numBits)
      ensures GetPos() == old(GetPos()) + numBits
      ensures pos >= old(pos) && buffer[..old(pos)] == old(buffer[..pos])
    {
      hide BitsOf, Unpacked, Shr, Shl, Low, Pow2, Written;
      var v: nat, n: nat := value, numBits;
      while n > 0
        invariant 0 <= n && Valid() && GetPos() + n == old(GetPos()) + numBits
        invariant pos >= old(pos) && buffer[..old(pos)] == old(buffer[..pos])
        invariant Written(Contents(), v, n) == Written(old(Contents()), value, numBits)
      {
        var k := if n < bitPos then n else bitPos;
        WrittenTwice(Contents(), v, k, n - k);
        Parts(v, n - k);
        n := n - k;
        var newBits := Shr(v, n);
        v := v - Shl(newBits, n);
        Push(newBits, k);
      }
      WrittenNone(Contents());
    }

    /** One pass of the loop: k bits are shifted in, and a complete byte is stored. */
    method Push(newBits: nat, k: nat)
      requires Valid() && 1 <= k <= bitPos && GetPos() + k < 8 * buffer.Length + 8
      modifies this, buffer
      ensures Valid() && GetPos() == old(GetPos()) + k
      ensures Contents() == Written(old(Contents()), newBits, k)
      ensures pos >= old(pos) && buffer[..old(pos)] == old(buffer[..pos])
    {
      hide BitsOf, Unpacked, Shr, Shl, Or, Written, Overlaid;
      WrittenBehind(Unpacked(buffer[..pos]), BitsOf(curByte, 8 - bitPos), newBits, k);
      ShiftedIn(curByte, newBits, k, 8 - bitPos);
      curByte := Shl(curByte, k) % 0x100;
      curByte := Or(curByte, newBits % 0x100) % 0x100;
      bitPos := bitPos - k;
      if bitPos == 0 {
        StoreByte();
      }
    }

    method StoreByte()
      requires bitPos == 0 && pos < buffer.Length
      modifies this, buffer
      ensures Valid() && bitPos == 8 && pos == old(pos) + 1
      ensures Contents() == old(Unpacked(buffer[..pos]) + BitsOf(curByte, 8))
      ensures buffer[..old(pos)] == old(buffer[..pos])
    {
      UnpackedAppend(buffer[..pos], curByte);
      buffer[pos] := curByte;
      pos := pos + 1;
      bitPos := 8;
      assert buffer[..pos] == old(buffer[..pos]) + [curByte];
      assert Contents() == Unpacked(buffer[..pos]);
    }

    static lemma ShiftedIn(cur: byte, newBits: nat, k: nat, kept: nat)
      requires k + kept <= 8
      ensures BitsOf(Or(Shl(cur, k) % 0x100, newBits % 0x100) % 0x100, kept + k)
           == Overlaid(BitsOf(cur, kept), Shr(newBits, k)) + BitsOf(newBits, k)
    {
      var y := Or(Shl(cur, k), newBits);
      hide BitsOf, Overlaid, Shl, Shr, Low, Or;
      ByteIs(Shl(cur, k));
      ByteIs(newBits);
      LowOr(Shl(cur, k), newBits, 8);
      ByteIs(Low(y, 8));
      LowLow(y, 8, 8);
      BitsOfLow(y, kept + k, 8);
      BitsOverlaid(cur, newBits, k, kept);
    }

    /** Returns to a position and the byte register that went with it. */
    method SetPos(bitPosition: nat)
      requires bitPosition <= 8 * buffer.Length
      modifies this
      ensures Valid() && GetPos() == bitPosition && pos == bitPosition / 8 && curByte == old(curByte)
    {
      pos := bitPosition / 8;
      bitPos := 8 - bitPosition % 8;
    }

    method SetCurState(bitPosition: nat, curByte: byte)
      requires bitPosition < 8 && pos <= buffer.Length
      modifies this
      ensures Valid() && pos == old(pos) && GetPos() == 8 * pos + bitPosition && this.curByte == curByte
    {
      bitPos := 8 - bitPosition;
      this.curByte := curByte;
    }

    method Flush()
      requires Valid() && GetPos() <= 8 * buffer.Length
      modifies this, buffer
      ensures Valid() && bitPos == 8
      ensures Unpacked(buffer[..pos]) == Padded(old(Contents()))
    {
      hide BitsOf, Unpacked, Shr, Padded, Written;
      Padding(Contents(), pos, bitPos);
      if bitPos < 8 {
        WriteBits(0, bitPos);
      }
      assert |Contents()| == 8 * pos + (8 - bitPos);
      assert Contents() == Unpacked(buffer[..pos]);
    }
  }

  // ---------- the reader ----------

  /** NBitm::CDecoder: 25 to 32 bits wait in m_Value. */
  class Decoder {
    const source: Source
    var pos: nat
    var value: uint32
    var bitPos: nat

    ghost predicate Valid()
      reads this
    {
      bitPos < 8 && pos >= 4 && value == source.Value(pos) % TWO32
    }

    /** Bits consumed so far. */
    function Position(): int
      reads this
    {
      8 * pos - 32 + bitPos
    }

    /** Everything that has gone through the register, from what it held at first. */
    ghost function All(first: uint32, n: nat): nat {
      if n == 0 then first else All(first, n - 1) * 0x100 + source.At(n - 1)
    }

    /** Four bytes push the uninitialised value out. */
    lemma {:induction false} FirstGone(first: uint32, n: nat)
      requires n >= 4
      ensures All(first, n) % TWO32 == source.Value(n) % TWO32
    {
      if n == 4 {
        FourBytes(first);
      } else {
        FirstGone(first, n - 1);
        SameShifted(All(first, n - 1), source.Value(n - 1), source.At(n - 1));
      }
    }

    static lemma SameShifted(x: nat, y: nat, b: byte)
      requires x % TWO32 == y % TWO32
      ensures (x * 0x100 + b) % TWO32 == (y * 0x100 + b) % TWO32
    {
      hide Or;
      ShiftInByte(x, b);
      ShiftInByte(y, b);
    }

    lemma FourBytes(first: uint32)
      ensures All(first, 4) % TWO32 == source.Value(4) % TWO32
    {
      assert All(first, 1) == first * 0x100 + source.Value(1);
      assert All(first, 2) == first * 0x1_0000 + source.Value(2);
      assert All(first, 3) == first * 0x100_0000 + source.Value(3);
      var v := source.Value(4);
      assert All(first, 4) == first * TWO32 + v;
      QuotientUnique(first * TWO32 + v, TWO32, first + v / TWO32, v % TWO32);
    }

    lemma {:induction false} AllFromZero(n: nat)
      ensures All(0, n) == source.Value(n)
    {
      if n == 0 {
      } else {
        AllFromZero(n - 1);
      }
    }

    /** m_Value starts uninitialised. */
    constructor Init(source: Source, uninitialised: uint32)
      ensures Valid() && this.source == source && Position() == 0
    {
      this.source := source;
      pos, bitPos, value := 0, 32, uninitialised;
      new;
      Normalize(uninitialised);
    }

    method Normalize(ghost first: uint32)
      requires pos < 4 ==> bitPos >= 8 * (4 - pos)
      requires value == All(first, pos) % TWO32
      modifies this
      ensures Valid() && Position() == old(Position())
    {
      hide Or;
      while bitPos >= 8
        invariant pos < 4 ==> bitPos >= 8 * (4 - pos)
        invariant value == All(first, pos) % TWO32
        invariant Position() == old(Position())
        decreases bitPos
      {
        ShiftInByte(All(first, pos), source.At(pos));
        assert All(first, pos + 1) == All(first, pos) * 0x100 + source.At(pos);
        value := Or(value * 0x100 % TWO32, source.At(pos));
        pos := pos + 1;
        bitPos := bitPos - 8;
      }
      FirstGone(first, pos);
    }

    /** The next numBits bits. */
    function GetValue(numBits: nat): (v: nat)
      requires Valid() && numBits <= 24
      reads this
      ensures v == Field(source, Position(), numBits)
    {
      WaitingBits(source, pos, bitPos, numBits, value);
      CutOut(value, bitPos, numBits)
    }

    /** The register's shifts and mask. */
    static function CutOut(value: nat, bitPos: nat, numBits: nat): nat
      requires bitPos < 8 && numBits <= 24
    {
      Shr(And(Shr(value, 8 - bitPos), VALUE_MASK), 24 - numBits)
    }

    static lemma WaitingBits(s: Source, pos: nat, bitPos: nat, numBits: nat, value: nat)
      requires pos >= 4 && bitPos < 8 && numBits <= 24 && value == s.Value(pos) % TWO32
      ensures CutOut(value, bitPos, numBits) == Field(s, 8 * pos - 32 + bitPos, numBits)
    {
      hide Shr, And, Field, Low;
      var p: nat := 8 * pos - 32 + bitPos;
      MaskedLow(Shr(value, 8 - bitPos));
      Waiting24(s, pos, bitPos, value);
      assert numBits + (24 - numBits) == 24;
      FieldShr(s, p, numBits, 24 - numBits);
    }

    static lemma Waiting24(s: Source, pos: nat, bitPos: nat, value: nat)
      requires pos >= 4 && bitPos < 8 && value == s.Value(pos) % TWO32
      ensures Low(Shr(value, 8 - bitPos), 24) == Field(s, 8 * pos - 32 + bitPos, 24)
    {
      hide Prefix, Field, Shr, Low;
      var p: nat := 8 * pos - 32 + bitPos;
      WaitingPrefix(s, pos);
      ShrOfLow(Prefix(s, 8 * pos), 8 - bitPos, 24, 32);
      assert p + 24 + (8 - bitPos) == 8 * pos;
      PrefixShr(s, p + 24, 8 - bitPos);
      PrefixEnd(s, p, 24);
    }

    /** The register holds the last 32 bits. */
    static lemma WaitingPrefix(s: Source, pos: nat)
      ensures s.Value(pos) % TWO32 == Low(Prefix(s, 8 * pos), 32)
    {
      assert Pow2(32) == TWO32 by { Pow2Values(); }
      hide Prefix, Low, Pow2;
      PrefixBytes(s, pos);
      LowMod(s.Value(pos), 32);
    }

    static lemma PrefixEnd(s: Source, p: nat, n: nat)
      ensures Low(Prefix(s, p + n), n) == Field(s, p, n)
    {
      PrefixSplit(s, p, n);
      FieldRange(s, p, n);
      Joined(Prefix(s, p), Field(s, p, n), n);
    }

    method MovePos(numBits: nat)
      requires Valid()
      modifies this
      ensures Valid() && Position() == old(Position()) + numBits
    {
      bitPos := bitPos + numBits;
      AllFromZero(pos);
      Normalize(0);
    }

    method ReadBits(numBits: nat) returns (res: nat)
      requires Valid() && numBits <= 24
      modifies this
      ensures Valid() && Position() == old(Position()) + numBits
      ensures res == Field(source, old(Position()), numBits)
    {
      res := GetValue(numBits);
      MovePos(numBits);
    }

    method AlignToByte()
      requires Valid()
      modifies this
      ensures Valid() && Position() == (old(Position()) + 7) / 8 * 8
    {
      MovePos((32 - bitPos) % 8);
    }

    /** Bytes consumed: the consumed bits, rounded up. */
    function GetProcessedSize(): (size: int)
      requires Valid()
      reads this
      ensures size == (Position() + 7) / 8
    {
      pos - (32 - bitPos) / 8
    }
  }
}
