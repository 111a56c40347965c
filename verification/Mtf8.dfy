/** Move to front: a byte table on the encoder's side, and one packed into machine words on the decoder's. */
module Mtf8 {
  import opened Words

  const TABLE_SIZE := 256

  /** The element at pos goes to the front; those before it move back by one. */
  function MoveToFront(s: seq<byte>, pos: nat): (r: seq<byte>)
    requires pos < |s|
    ensures |r| == |s| && r[0] == s[pos]
  {
    [s[pos]] + s[..pos] + s[pos + 1..]
  }

  /** Where v first occurs. */
  function FirstIndex(s: seq<byte>, v: byte): (k: nat)
    requires v in s
    ensures k < |s| && s[k] == v && v !in s[..k]
  {
    if s[0] == v then 0
    else
      assert s == [s[0]] + s[1..];
      var k := FirstIndex(s[1..], v);
      assert s[..k + 1] == [s[0]] + s[1..][..k];
      k + 1
  }

  lemma {:induction false} FirstIndexUnique(s: seq<byte>, v: byte, k: nat)
    requires k < |s| && s[k] == v && v !in s[..k]
    ensures FirstIndex(s, v) == k
  {
    if k == 0 {
    } else {
      assert s[..k][0] == s[0];
      assert s[..k][1..] == s[1..][..k - 1];
      FirstIndexUnique(s[1..], v, k - 1);
    }
  }

  /** The table after every byte of data has been found and moved: always a permutation of the first one. */
  ghost function TableAfter(table: seq<byte>, data: seq<byte>): (t: seq<byte>)
    requires forall b :: b in data ==> b in table
    ensures |t| == |table| && multiset(t) == multiset(table)
    ensures forall b :: b in table ==> b in t
    decreases |data|
  {
    if data == [] then table
    else
      var before := TableAfter(table, data[..|data| - 1]);
      var pos := FirstIndex(before, data[|data| - 1]);
      var after := MoveToFront(before, pos);
      MoveToFrontPermutes(before, pos);
      assert forall b :: b in table ==> b in multiset(after);
      after
  }

  /** The positions that the encoder finds. */
  ghost predicate PositionsOf(table: seq<byte>, data: seq<byte>, positions: seq<nat>)
    requires forall b :: b in data ==> b in table
  {
    && |positions| == |data|
    && forall k :: 0 <= k < |data| ==> positions[k] == PositionAt(table, data, k)
  }

  ghost function PositionAt(table: seq<byte>, data: seq<byte>, k: nat): (pos: nat)
    requires k < |data| && forall b :: b in data ==> b in table
    ensures pos < |table|
  {
    FirstIndex(TableAfter(table, data[..k]), data[k])
  }

  lemma TableNext(table: seq<byte>, data: seq<byte>, k: nat)
    requires k < |data| && forall b :: b in data ==> b in table
    ensures TableAfter(table, data[..k + 1]) == MoveToFront(TableAfter(table, data[..k]), PositionAt(table, data, k))
  {
    assert data[..k + 1][..k] == data[..k];
  }

  lemma MoveToFrontPermutes(s: seq<byte>, pos: nat)
    requires pos < |s|
    ensures multiset(MoveToFront(s, pos)) == multiset(s)
  {
    assert s == s[..pos] + [s[pos]] + s[pos + 1..];
  }

  // ---------- the encoder's table ----------

  class Encoder {
    const buf: array<byte>

    constructor (table: seq<byte>)
      requires |table| == TABLE_SIZE
      ensures buf[..] == table && fresh(buf)
    {
      buf := new byte[TABLE_SIZE](i requires 0 <= i < TABLE_SIZE => table[i]);
      new;
      assert buf[..] == table;
    }

    /** The first position of v; v moves to the front. */
    method FindAndMove(v: byte) returns (resPos: nat)
      requires buf.Length == TABLE_SIZE && v in buf[..]
      modifies buf
      ensures resPos == FirstIndex(old(buf[..]), v)
      ensures buf[..] == MoveToFront(old(buf[..]), resPos)
    {
      var pos: nat := 0;
      while buf[pos] != v
        invariant pos < TABLE_SIZE && v !in buf[..pos] && v in buf[pos..]
        decreases TABLE_SIZE - pos
      {
        pos := pos + 1;
      }
      resPos := pos;
      ghost var s := buf[..];
      FirstIndexUnique(s, v, pos);
      while pos >= 8
        invariant 0 <= pos <= resPos && Shifted(s, pos, resPos)
      {
        ShiftEight(pos, s, resPos);
        pos := pos - 8;
      }
      while pos > 0
        invariant 0 <= pos <= resPos && Shifted(s, pos, resPos)
      {
        buf[pos] := buf[pos - 1];
        pos := pos - 1;
      }
      buf[0] := v;
      assert buf[..] == MoveToFront(s, resPos);
    }

    /** Entries behind pos, up to resPos, have moved back by one. */
    ghost predicate Shifted(was: seq<byte>, pos: nat, resPos: nat)
      reads buf
    {
      && buf.Length == |was| && pos <= resPos < |was|
      && (forall j :: 0 <= j < |was| && (j <= pos || resPos < j) ==> buf[j] == was[j])
      && (forall j :: pos < j <= resPos ==> buf[j] == was[j - 1])
    }

    /** One pass of the unrolled loop. */
    method ShiftEight(pos: nat, ghost was: seq<byte>, ghost resPos: nat)
      requires 8 <= pos < buf.Length && Shifted(was, pos, resPos)
      modifies buf
      ensures Shifted(was, pos - 8, resPos)
    {
      buf[pos] := buf[pos - 1];
      buf[pos - 1] := buf[pos - 2];
      buf[pos - 2] := buf[pos - 3];
      buf[pos - 3] := buf[pos - 4];
      buf[pos - 4] := buf[pos - 5];
      buf[pos - 5] := buf[pos - 6];
      buf[pos - 6] := buf[pos - 7];
      buf[pos - 7] := buf[pos - 8];
    }
  }

  // ---------- words as bytes ----------

  /** Byte k of a word, least significant first. */
  function ByteOf(w: nat, k: nat): byte {
    assert Pow2(8) == 0x100;
    Low(Shr(w, 8 * k), 8)
  }

  /** `(w << 8) | p` in a word of n bytes. */
  function Pushed(w: nat, p: byte, n: nat): nat {
    Or(Low(Shl(w, 8), 8 * n), p)
  }

  lemma PushedValue(w: nat, p: byte, n: nat)
    requires 1 <= n
    ensures Pushed(w, p, n) == Shl(Low(w, 8 * n - 8), 8) + p < Pow2(8 * n)
  {
    assert 8 + (8 * n - 8) == 8 * n;
    PushedBits(w, p, 8 * n - 8);
  }

  lemma PushedBits(w: nat, p: byte, m: nat)
    ensures Or(Low(Shl(w, 8), 8 + m), p) == Shl(Low(w, m), 8) + p < Pow2(8 + m)
  {
    assert p < Pow2(8) by { assert Pow2(8) == 0x100; }
    hide Low, Shl, Or, Pow2;
    LowOfShl(w, 8, 8 + m);
    OrShl(Low(w, m), p, 8);
    ShlBelow(Low(w, m), m, 8);
  }

  lemma PushedParts(w: nat, p: byte, n: nat)
    requires 1 <= n
    ensures Low(Pushed(w, p, n), 8) == p && Shr(Pushed(w, p, n), 8) == Low(w, 8 * n - 8)
  {
    PushedValue(w, p, n);
    assert Pow2(8) == 0x100;
    hide Low, Shl, Shr, Pushed;
    Joined(Low(w, 8 * n - 8), p, 8);
  }

  /** Every byte moves up by one and p comes in below. */
  lemma PushedBytes(w: nat, p: byte, n: nat, k: nat)
    requires 1 <= n && k < n
    ensures ByteOf(Pushed(w, p, n), k) == if k == 0 then p else ByteOf(w, k - 1)
  {
    var x, i := Pushed(w, p, n), 8 * (k - 1);
    PushedParts(w, p, n);
    assert k == 0 ==> Shr(x, 0) == x;
    hide Low, Shr, Pushed, Pow2;
    if k > 0 {
      ShrShr(x, 8, i);
      assert 8 + i == 8 * k;
      ShrOfLow(w, i, 8, 8 * n - 8);
    }
  }

  /** The top byte of a word. */
  lemma TopByte(w: nat, n: nat)
    requires 1 <= n && w < Pow2(8 * n)
    ensures Shr(w, 8 * (n - 1)) == ByteOf(w, n - 1)
  {
    ShrBelow(w, 8, 8 * (n - 1));
    LowSmall(Shr(w, 8 * (n - 1)), 8);
  }

  /** `(w & ~mask) | (x & mask)` in a word of n bytes, for a mask of m low bytes. */
  function Blended(w: nat, x: nat, m: nat, n: nat): nat
    requires m <= n
  {
    Pow2Le(8 * m, 8 * n);
    Or(And(w, Pow2(8 * n) - Pow2(8 * m)), And(x, Pow2(8 * m) - 1))
  }

  lemma BlendedValue(w: nat, x: nat, m: nat, n: nat)
    requires w < Pow2(8 * n) && m <= n
    ensures Blended(w, x, m, n) == Shl(Shr(w, 8 * m), 8 * m) + Low(x, 8 * m) < Pow2(8 * n)
  {
    hide Low, Shl, Shr, Or, And, Pow2;
    var b := 8 * m;
    assert Shl(Shr(w, b), b) + Low(x, b) < Pow2(8 * n) by {
      ShrBelow(w, 8 * n - b, b);
      ShlBelow(Shr(w, b), 8 * n - b, b);
    }
    AndHigh(w, b, 8 * n);
    AndMask(x, b);
    OrShl(Shr(w, b), Low(x, b), b);
  }

  /** The low m bytes come from x, the others from w. */
  lemma BlendedBytes(w: nat, x: nat, m: nat, n: nat, k: nat)
    requires w < Pow2(8 * n) && m <= n && k < n
    ensures ByteOf(Blended(w, x, m, n), k) == if k < m then ByteOf(x, k) else ByteOf(w, k)
  {
    var b, y := 8 * m, Blended(w, x, m, n);
    BlendedValue(w, x, m, n);
    Joined(Shr(w, b), Low(x, b), b);
    if k < m {
      ShrOfLow(y, 8 * k, 8, b);
      ShrOfLow(x, 8 * k, 8, b);
    } else {
      ShrShr(y, b, 8 * k - b);
      ShrShr(w, b, 8 * k - b);
    }
  }

  // ---------- the decoder's table ----------

  class Decoder {
    const movs: nat          // MTF_MOVS: 3 with 64-bit words, 2 with 32-bit words
    const width: nat         // bytes per word
    const buf: array<nat>

    ghost predicate Shape()
    {
      (movs == 2 || movs == 3) && width == Pow2(movs) && buf.Length == Shr(TABLE_SIZE, movs)
    }

    ghost predicate Valid()
      reads this, buf
    {
      Shape() && forall i :: 0 <= i < buf.Length ==> buf[i] < Pow2(8 * width)
    }

    /** Entry number of byte k of word i. */
    function At(i: nat, k: nat): nat {
      Shl(i, movs) + k
    }

    /** Word i holds its part of t. */
    ghost predicate IsWord(t: seq<byte>, i: nat, w: nat)
      requires Shape() && |t| == TABLE_SIZE && i < buf.Length
    {
      w < Pow2(8 * width) && forall k :: 0 <= k < width ==> At(i, k) < TABLE_SIZE && ByteOf(w, k) == t[At(i, k)]
    }

    /** The words together hold the table t. */
    ghost predicate Holds(t: seq<byte>)
      reads this, buf
    {
      Shape() && |t| == TABLE_SIZE && forall i :: 0 <= i < buf.Length ==> IsWord(t, i, buf[i])
    }

    /** The table that any words hold. */
    ghost function Table(): (t: seq<byte>)
      requires Valid()
      reads this, buf
      ensures |t| == TABLE_SIZE
    {
      var words := buf[..];
      seq(TABLE_SIZE, g requires 0 <= g < TABLE_SIZE => Entry(words, g))
    }

    ghost function Entry(words: seq<nat>, g: nat): byte
      requires Shape() && |words| == buf.Length && g < TABLE_SIZE
    {
      EntryIndex(g);
      ByteOf(words[Shr(g, movs)], Low(g, movs))
    }

    lemma EntryIndex(g: nat)
      requires Shape() && g < TABLE_SIZE
      ensures Shr(g, movs) < buf.Length && Low(g, movs) < width && g == At(Shr(g, movs), Low(g, movs))
    {
      WordCount();
      Parts(g, movs);
    }

    /** Every buffer holds a table, and only one. */
    lemma HoldsExact(t: seq<byte>)
      ensures Holds(t) <==> Valid() && t == Table()
    {
      if Holds(t) {
        forall g | 0 <= g < TABLE_SIZE ensures t[g] == Entry(buf[..], g) {
          EntryIndex(g);
          assert IsWord(t, Shr(g, movs), buf[Shr(g, movs)]);
        }
      }
      if Valid() && t == Table() {
        forall i: nat | i < buf.Length ensures IsWord(t, i, buf[i]) {
          WordOfTable(t, i);
        }
      }
    }

    lemma WordOfTable(t: seq<byte>, i: nat)
      requires Valid() && t == Table() && i < buf.Length
      ensures IsWord(t, i, buf[i])
    {
      WordCount();
      forall k: nat | k < width ensures At(i, k) < TABLE_SIZE && ByteOf(buf[i], k) == t[At(i, k)] {
        Joined(i, k, movs);
        assert t[At(i, k)] == Entry(buf[..], At(i, k));
      }
    }

    lemma WordCount()
      requires Shape()
      ensures width == (if movs == 2 then 4 else 8)
      ensures buf.Length == (if movs == 2 then 64 else 32)
      ensures forall i: nat :: Shl(i, movs) == (if movs == 2 then 4 * i else 8 * i)
    {
      ShrDiv(TABLE_SIZE, movs);
      assert Pow2(2) == 4 && Pow2(3) == 8;
      forall i: nat ensures Shl(i, movs) == (if movs == 2 then 4 * i else 8 * i) {
        ShlMul(i, movs);
      }
    }

    constructor (movs: nat)
      requires movs == 2 || movs == 3
      ensures Shape() && this.movs == movs && fresh(buf)
    {
      this.movs, width := movs, Pow2(movs);
      buf := new nat[Shr(TABLE_SIZE, movs)];
    }

    method StartInit()
      requires Shape()
      modifies buf
      ensures Valid() && Table() == seq(TABLE_SIZE, _ => 0)
    {
      var t := seq(TABLE_SIZE, _ => 0);
      WordCount();
      for i := 0 to buf.Length
        invariant forall j :: 0 <= j < i ==> IsWord(t, j, buf[j])
      {
        buf[i] := 0;
        forall k | 0 <= k < width ensures ByteOf(0, k) == 0 {
          ShrZero(8 * k);
          ShrZero(8);
        }
      }
      HoldsExact(t);
    }

    /** `|=`: on one entry, and no other. */
    method Add(pos: nat, val: byte)
      requires Valid() && pos < TABLE_SIZE
      modifies buf
      ensures Valid() && Table() == old(Table())[pos := OrByte(old(Table())[pos], val)]
    {
      hide Shr, Low, Shl, Or, Pow2, ByteOf, Valid;
      ghost var t := Table();
      HoldsExact(t);
      EntryIndex(pos);
      var i, k := Shr(pos, movs), Low(pos, movs);
      SlotWord(t, pos, val, i, k, buf[i]);
      OtherWords(t, pos, OrByte(t[pos], val));
      buf[i] := Or(buf[i], Low(Shl(val, 8 * k), 8 * width));
      HoldsExact(t[pos := OrByte(t[pos], val)]);
    }

    lemma SlotWord(t: seq<byte>, pos: nat, val: byte, i: nat, k: nat, w: nat)
      requires Shape() && |t| == TABLE_SIZE && pos < TABLE_SIZE && i < buf.Length && k < width && pos == At(i, k)
      requires IsWord(t, i, w)
      ensures IsWord(t[pos := OrByte(t[pos], val)], i, Or(w, Low(Shl(val, 8 * k), 8 * width)))
    {
      hide Or, Shl, Low, Pow2, ByteOf;
      var y := Or(w, Low(Shl(val, 8 * k), 8 * width));
      SlotBelow(w, val, k, width);
      forall j | 0 <= j < width ensures ByteOf(y, j) == t[pos := OrByte(t[pos], val)][At(i, j)] {
        SlotByte(w, val, k, width, j);
      }
    }

    lemma OtherWords(t: seq<byte>, pos: nat, val: byte)
      requires Holds(t) && pos < TABLE_SIZE
      ensures forall i :: 0 <= i < buf.Length && i != Shr(pos, movs) ==> IsWord(t[pos := val], i, buf[i])
    {
      forall i: nat, k | i < buf.Length && i != Shr(pos, movs) && 0 <= k < width ensures At(i, k) != pos {
        Joined(i, k, movs);
      }
    }

    /** A byte shifted to place k stays in the word. */
    static lemma SlotShifted(v: byte, k: nat, n: nat)
      requires k < n
      ensures Low(Shl(v, 8 * k), 8 * n) == Shl(v, 8 * k) < Pow2(8 * n)
    {
      assert Pow2(8) == 0x100;
      hide Low, Shl, Pow2;
      ShlBelow(v, 8, 8 * k);
      Pow2Le(8 + 8 * k, 8 * n);
      LowSmall(Shl(v, 8 * k), 8 * n);
    }

    static lemma SlotBelow(w: nat, v: byte, k: nat, n: nat)
      requires w < Pow2(8 * n) && k < n
      ensures Or(w, Low(Shl(v, 8 * k), 8 * n)) < Pow2(8 * n)
    {
      SlotShifted(v, k, n);
      OrBelow(w, Shl(v, 8 * k), 8 * n);
    }

    /** Joined to a word by `|`, it meets byte k only. */
    static lemma SlotByte(w: nat, v: byte, k: nat, n: nat, j: nat)
      requires k < n && j < n
      ensures ByteOf(Or(w, Low(Shl(v, 8 * k), 8 * n)), j) == if j == k then OrByte(ByteOf(w, k), v) else ByteOf(w, j)
    {
      var x := Shl(v, 8 * k);
      SlotShifted(v, k, n);
      ShrOr(w, x, 8 * j);
      LowOr(Shr(w, 8 * j), Shr(x, 8 * j), 8);
      ShiftedByteAt(v, k, j);
      OrZero(ByteOf(w, j));
    }

    static lemma ShiftedByteAt(v: byte, k: nat, j: nat)
      ensures ByteOf(Shl(v, 8 * k), j) == if j == k then v else 0
    {
      assert v < Pow2(8) by { assert Pow2(8) == 0x100; }
      if j < k {
        ByteBelow(v, k, j);
      } else {
        ByteFrom(v, k, j);
      }
    }

    static lemma ByteBelow(v: byte, k: nat, j: nat)
      requires j < k
      ensures ByteOf(Shl(v, 8 * k), j) == 0
    {
      var y := Shl(v, 8 * k - 8 * j - 8);
      assert Pow2(8 * j) > 0 && Pow2(8) > 0;
      hide Shl, Shr, Low, Pow2;
      ShlShl(v, 8 * k - 8 * j - 8, 8);
      ShlShl(v, 8 * k - 8 * j, 8 * j);
      Joined(Shl(y, 8), 0, 8 * j);
      Joined(y, 0, 8);
    }

    static lemma ByteFrom(v: byte, k: nat, j: nat)
      requires k <= j && v < Pow2(8)
      ensures ByteOf(Shl(v, 8 * k), j) == if j == k then v else 0
    {
      var d := 8 * j - 8 * k;
      assert Pow2(8 * k) > 0 && Pow2(0) == 1;
      assert Shr(v, 0) == v;
      hide Shl, Shr, Low, Pow2;
      Joined(v, 0, 8 * k);
      ShrShr(Shl(v, 8 * k), 8 * k, d);
      if j == k {
        LowSmall(v, 8);
      } else {
        Pow2Le(8, d);
        ShrBelow(v, 0, d);
        ShrZero(8);
      }
    }

    /** The front of the table. */
    function GetHead(): (b: byte)
      requires Valid()
      reads this, buf
      ensures b == Table()[0]
    {
      HoldsExact(Table());
      HeadByte(Table());
      ByteOf(buf[0], 0)
    }

    // ---------- moving to the front ----------

    /** What moves into entry g while the entries before the found one move back. */
    ghost function Incoming(t: seq<byte>, head: byte, g: nat): byte
      requires g <= |t|
    {
      if g == 0 then head else t[g - 1]
    }

    /** Every byte of word i has moved up. */
    ghost predicate IsMoved(t: seq<byte>, head: byte, i: nat, w: nat)
      requires Shape() && |t| == TABLE_SIZE && i < buf.Length
    {
      && w < Pow2(8 * width)
      && forall k :: 0 <= k < width ==> At(i, k) < TABLE_SIZE && ByteOf(w, k) == Incoming(t, head, At(i, k))
    }

    /** The words below i have moved, the others not yet. */
    ghost predicate MovedBelow(t: seq<byte>, head: byte, i: nat)
      requires Shape() && |t| == TABLE_SIZE && i <= buf.Length
      reads buf
    {
      && (forall j :: 0 <= j < i ==> IsMoved(t, head, j, buf[j]))
      && (forall j :: i <= j < buf.Length ==> IsWord(t, j, buf[j]))
    }

    lemma WordMoves(t: seq<byte>, head: byte, i: nat, w: nat, p: byte)
      requires Shape() && |t| == TABLE_SIZE && i < buf.Length
      requires IsWord(t, i, w) && At(i, 0) < TABLE_SIZE && p == Incoming(t, head, At(i, 0))
      ensures IsMoved(t, head, i, Pushed(w, p, width))
      ensures At(i + 1, 0) <= TABLE_SIZE && Shr(w, 8 * (width - 1)) == Incoming(t, head, At(i + 1, 0))
    {
      WordCount();
      PushedValue(w, p, width);
      forall k | 0 <= k < width ensures ByteOf(Pushed(w, p, width), k) == Incoming(t, head, At(i, k)) {
        PushedBytes(w, p, width, k);
      }
      TopByte(w, width);
      assert ByteOf(w, width - 1) == t[At(i, width - 1)];
    }

    /** On every buffer, the byte at pos moves to the front of the whole table. */
    method GetAndMove(pos0: nat) returns (res: byte)
      requires Valid() && pos0 < TABLE_SIZE
      modifies buf
      ensures Valid() && Table() == MoveToFront(old(Table()), pos0) && res == old(Table())[pos0]
    {
      hide Shr, Low, ByteOf, MoveToFront, Valid;
      ghost var t := Table();
      HoldsExact(t);
      EntryIndex(pos0);
      assert t[pos0] == Entry(buf[..], pos0);
      var lim := Shr(pos0, movs);
      var prev: byte := ByteOf(buf[lim], Low(pos0, movs));
      FirstOfWord(lim, pos0);
      var i: nat, carry := MoveWords(lim, prev, t);
      res := MoveLast(i, 8 * Low(pos0, movs), carry, t, pos0);
      HoldsExact(MoveToFront(t, pos0));
    }

    lemma FirstOfWord(lim: nat, pos0: nat)
      requires Shape() && pos0 < TABLE_SIZE && lim == Shr(pos0, movs)
      ensures At(lim, 0) <= pos0 && lim < buf.Length
    {
      WordCount();
      Parts(pos0, movs);
    }

    lemma FirstsAscend(i: nat, lim: nat)
      requires Shape() && i < lim < buf.Length
      ensures At(i, 0) < At(i + 1, 0) <= At(lim, 0) < TABLE_SIZE && At(0, 0) == 0
    {
      WordCount();
    }

    lemma NothingMovedYet(t: seq<byte>, head: byte)
      requires Holds(t)
      ensures MovedBelow(t, head, 0) && At(0, 0) == 0 && Incoming(t, head, 0) == head
    {
      ShrZero(movs);
    }

    lemma NextPair(i: nat, lim: nat)
      requires Shape() && i + 1 < lim < buf.Length && At(lim, 0) < TABLE_SIZE
      ensures At(i, 0) < At(i + 1, 0) < TABLE_SIZE && At(i + 2, 0) < TABLE_SIZE
    {
      FirstsAscend(i, lim);
      FirstsAscend(i + 1, lim);
      if i + 2 < lim {
        FirstsAscend(i + 2, lim);
      }
    }

    /** All words before word lim0, two by two after an odd first one. */
    method MoveWords(lim0: nat, prev: byte, ghost t: seq<byte>) returns (i: nat, carry: byte)
      requires Holds(t) && lim0 < buf.Length && At(lim0, 0) < TABLE_SIZE
      modifies buf
      ensures i == lim0 && MovedBelow(t, prev, i) && carry == Incoming(t, prev, At(i, 0))
    {
      NothingMovedYet(t, prev);
      hide Shr, Low, Pow2, Pushed, ByteOf, At, IsWord, IsMoved, MovedBelow, Incoming;
      var lim := lim0;
      carry := prev;
      i := 0;
      if lim % 2 != 0 {
        carry := MoveWord(0, carry, t, prev);
        i := 1;
        lim := lim - 1;
      }
      if i < lim0 {
        assert At(i, 0) < TABLE_SIZE by {
          if i == 1 {
            FirstsAscend(0, lim0);
            FirstsAscend(1, lim0);
          }
        }
      }
      i, carry := MovePairs(i, lim, carry, t, prev, lim0);
    }

    /** The unrolled loop. */
    method MovePairs(i0: nat, lim: nat, prev: byte, ghost t: seq<byte>, ghost head: byte, ghost lim0: nat)
      returns (i: nat, carry: byte)
      requires Shape() && |t| == TABLE_SIZE && lim0 < buf.Length && At(lim0, 0) < TABLE_SIZE
      requires i0 <= lim0 && (lim0 - i0) % 2 == 0 && lim0 - 1 <= lim <= lim0 && (lim == lim0 || i0 % 2 == 1)
      requires lim % 2 == 0
      requires MovedBelow(t, head, i0) && At(i0, 0) < TABLE_SIZE && prev == Incoming(t, head, At(i0, 0))
      modifies buf
      ensures i == lim0 && MovedBelow(t, head, i) && carry == Incoming(t, head, At(i, 0))
    {
      hide Shr, Low, Pow2, Pushed, ByteOf, At, IsWord, IsMoved, MovedBelow, Incoming;
      i, carry := i0, prev;
      while i < lim
        invariant i <= lim0 && (lim0 - i) % 2 == 0
        invariant MovedBelow(t, head, i) && At(i, 0) < TABLE_SIZE && carry == Incoming(t, head, At(i, 0))
      {
        assert i + 1 < lim0;
        NextPair(i, lim0);
        carry := MovePair(i, carry, t, head);
        i := i + 2;
      }
    }

    /** The odd word in front of the unrolled loop. */
    method MoveWord(i: nat, prev: byte, ghost t: seq<byte>, ghost head: byte) returns (carry: byte)
      requires Shape() && |t| == TABLE_SIZE && i < buf.Length
      requires MovedBelow(t, head, i) && At(i, 0) < TABLE_SIZE && prev == Incoming(t, head, At(i, 0))
      modifies buf
      ensures MovedBelow(t, head, i + 1)
      ensures At(i + 1, 0) <= TABLE_SIZE && carry == Incoming(t, head, At(i + 1, 0))
    {
      var next := buf[i];
      WordMoves(t, head, i, next, prev);
      buf[i] := Pushed(next, prev, width);
      carry := Shr(next, 8 * (width - 1));
    }

    /** One pass of the unrolled loop: two words. */
    method MovePair(i: nat, prev: byte, ghost t: seq<byte>, ghost head: byte) returns (carry: byte)
      requires Shape() && |t| == TABLE_SIZE && i + 1 < buf.Length
      requires MovedBelow(t, head, i) && At(i, 0) < At(i + 1, 0) < TABLE_SIZE && prev == Incoming(t, head, At(i, 0))
      modifies buf
      ensures MovedBelow(t, head, i + 2)
      ensures At(i + 2, 0) <= TABLE_SIZE && carry == Incoming(t, head, At(i + 2, 0))
    {
      hide Pushed, ByteOf, Incoming, Shr, Pow2;
      var n0, n1 := buf[i], buf[i + 1];
      WordCount();
      WordMoves(t, head, i, n0, prev);
      WordMoves(t, head, i + 1, n1, Shr(n0, 8 * (width - 1)));
      buf[i] := Pushed(n0, prev, width);
      buf[i + 1] := Pushed(n1, Shr(n0, 8 * (width - 1)), width);
      assert IsMoved(t, head, i, buf[i]) && IsMoved(t, head, i + 1, buf[i + 1]);
      carry := Shr(n1, 8 * (width - 1));
    }

    /** The word that held the byte: only the bytes up to its place move. */
    method MoveLast(i: nat, pos: nat, prev: byte, ghost t: seq<byte>, ghost pos0: nat) returns (res: byte)
      requires Shape() && |t| == TABLE_SIZE && pos0 < TABLE_SIZE && i < buf.Length
      requires i == Shr(pos0, movs) && pos == 8 * Low(pos0, movs)
      requires At(i, 0) < TABLE_SIZE
      requires MovedBelow(t, t[pos0], i) && prev == Incoming(t, t[pos0], At(i, 0))
      modifies buf
      ensures Holds(MoveToFront(t, pos0)) && res == t[pos0]
    {
      hide Low, Shl, Shr, Or, And, Pow2, Pushed, Blended, MoveToFront, Incoming;
      var next := buf[i];
      var limit := Pow2(8 * width) - 1;
      var mask := Low(Low(Shl(0x100, pos), 8 * width) + limit, 8 * width);
      LastWord(t, pos0, i, next, prev);
      MaskedBlend(next, Pushed(next, prev, width), Low(pos0, movs), width);
      FirstWords(t, pos0, i);
      buf[i] := Or(And(next, limit - mask), And(Pushed(next, prev, width), mask));
      HeadByte(MoveToFront(t, pos0));
      return ByteOf(buf[0], 0);
    }

    lemma HeadByte(t: seq<byte>)
      requires Holds(t)
      ensures buf.Length > 0 && ByteOf(buf[0], 0) == t[0]
    {
      WordCount();
      assert IsWord(t, 0, buf[0]) && At(0, 0) == 0;
    }

    /** The source's mask arithmetic is the blend of the low k + 1 bytes. */
    static lemma MaskedBlend(w: nat, x: nat, k: nat, n: nat)
      requires k < n
      ensures var limit := Pow2(8 * n) - 1;
        var mask := Low(Low(Shl(0x100, 8 * k), 8 * n) + limit, 8 * n);
        mask <= limit && Or(And(w, limit - mask), And(x, mask)) == Blended(w, x, k + 1, n)
    {
      MaskIs(k, n);
      Pow2Le(8 * (k + 1), 8 * n);
    }

    /** `((CMtfVar)0x100 << pos) - 1`, which wraps to all ones for the last byte of the word. */
    static lemma MaskIs(k: nat, n: nat)
      requires k < n
      ensures Low(Low(Shl(0x100, 8 * k), 8 * n) + (Pow2(8 * n) - 1), 8 * n) == Pow2(8 * (k + 1)) - 1
    {
      var b := 8 * (k + 1);
      assert Shl(0x100, 8 * k) == Pow2(b) by {
        assert Shl(1, 8) == 0x100;
        ShlShl(1, 8, 8 * k);
        ShlOne(b);
      }
      ShlOne(8 * n);
      if k + 1 == n {
        Joined(1, 0, 8 * n);
        LowSmall(Pow2(8 * n) - 1, 8 * n);
      } else {
        Pow2Le(b + 1, 8 * n);
        LowSmall(Pow2(b), 8 * n);
        Joined(1, Pow2(b) - 1, 8 * n);
      }
    }

    /** MoveToFront, entry by entry. */
    lemma MovedAt(t: seq<byte>, pos0: nat, g: nat)
      requires pos0 < |t| && g < |t|
      ensures MoveToFront(t, pos0)[g] == if g <= pos0 then Incoming(t, t[pos0], g) else t[g]
    {
    }

    lemma LastWord(t: seq<byte>, pos0: nat, i: nat, w: nat, p: byte)
      requires Shape() && |t| == TABLE_SIZE && pos0 < TABLE_SIZE && i == Shr(pos0, movs) < buf.Length
      requires IsWord(t, i, w) && At(i, 0) < TABLE_SIZE && p == Incoming(t, t[pos0], At(i, 0))
      ensures Low(pos0, movs) + 1 <= width
      ensures IsWord(MoveToFront(t, pos0), i, Blended(w, Pushed(w, p, width), Low(pos0, movs) + 1, width))
    {
      var m := Low(pos0, movs) + 1;
      Parts(pos0, movs);
      WordMoves(t, t[pos0], i, w, p);
      BlendedValue(w, Pushed(w, p, width), m, width);
      forall k | 0 <= k < width
        ensures ByteOf(Blended(w, Pushed(w, p, width), m, width), k) == MoveToFront(t, pos0)[At(i, k)]
      {
        BlendedBytes(w, Pushed(w, p, width), m, width, k);
        MovedAt(t, pos0, At(i, k));
      }
    }

    /** The words before and behind it are as they must be. */
    lemma FirstWords(t: seq<byte>, pos0: nat, i: nat)
      requires Shape() && |t| == TABLE_SIZE && pos0 < TABLE_SIZE && i == Shr(pos0, movs) < buf.Length
      requires forall j :: 0 <= j < i ==> IsMoved(t, t[pos0], j, buf[j])
      requires forall j :: i < j < buf.Length ==> IsWord(t, j, buf[j])
      ensures forall j :: 0 <= j < buf.Length && j != i ==> IsWord(MoveToFront(t, pos0), j, buf[j])
    {
      WordCount();
      Parts(pos0, movs);
      forall j, k | 0 <= j < buf.Length && j != i && 0 <= k < width
        ensures ByteOf(buf[j], k) == MoveToFront(t, pos0)[At(j, k)]
      {
        MovedAt(t, pos0, At(j, k));
      }
    }
  }

  // ---------- both sides together ----------

  /** Fills a decoder's table by StartInit and one Add per entry. */
  method Load(movs: nat, table: seq<byte>) returns (d: Decoder)
    requires movs == 2 || movs == 3
    requires |table| == TABLE_SIZE
    ensures fresh(d) && fresh(d.buf) && d.Valid() && d.Table() == table
  {
    hide Decoder.Valid, Decoder.Table;
    d := new Decoder(movs);
    d.StartInit();
    for i := 0 to TABLE_SIZE
      invariant fresh(d) && fresh(d.buf) && d.Valid()
      invariant forall j :: 0 <= j < TABLE_SIZE ==> d.Table()[j] == if j < i then table[j] else 0
    {
      OrZero(table[i]);
      d.Add(i, table[i]);
    }
    assert d.Table() == table;
  }

  /** From equal tables, the encoder's positions lead the packed decoder back to the bytes, and both
      tables end as the first one with all the bytes moved. */
  method RoundTrip(movs: nat, table: seq<byte>, data: seq<byte>)
    returns (positions: seq<nat>, decoded: seq<byte>, e: Encoder, d: Decoder)
    requires movs == 2 || movs == 3
    requires |table| == 256 && forall b :: b in data ==> b in table
    ensures PositionsOf(table, data, positions) && decoded == data
    ensures e.buf[..] == TableAfter(table, data)
    ensures d.Valid() && d.Table() == TableAfter(table, data)
  {
    hide Decoder.Valid, Decoder.Table, TableAfter, MoveToFront, FirstIndex;
    e := new Encoder(table);
    d := Load(movs, table);
    positions, decoded := [], [];
    NothingMoved(table, data);
    for k := 0 to |data|
      invariant fresh(e.buf) && fresh(d.buf) && e.buf != d.buf as object
      invariant e.buf[..] == TableAfter(table, data[..k])
      invariant d.Valid() && d.Table() == TableAfter(table, data[..k])
      invariant decoded == data[..k] && |positions| == k
      invariant forall j :: 0 <= j < k ==> positions[j] == PositionAt(table, data, j)
    {
      TableNext(table, data, k);
      assert data[k] in data;
      var pos := e.FindAndMove(data[k]);
      var b := d.GetAndMove(pos);
      positions := positions + [pos];
      decoded := decoded + [b];
    }
    assert data[..|data|] == data;
  }

  lemma NothingMoved(table: seq<byte>, data: seq<byte>)
    ensures TableAfter(table, data[..0]) == table
  {
  }
}
