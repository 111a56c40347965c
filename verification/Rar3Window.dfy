/** The RAR 3 ring window: a power-of-two buffer with masked positions. */
module Rar3Window {
  import opened Words
  import opened Lz77

  const WINDOW_SIZE := 0x40_0000

  /** Where history byte j is kept: `j & kWindowMask`. */
  function Slot(j: int): (i: nat)
    ensures i < WINDOW_SIZE
  {
    j % WINDOW_SIZE
  }

  lemma NextSlot(j: int)
    ensures Slot(j + 1) == if Slot(j) + 1 == WINDOW_SIZE then 0 else Slot(j) + 1
    ensures Slot(j + 1) == (Slot(j) + 1) % WINDOW_SIZE
  {
  }

  lemma NoWrap(x: nat)
    requires x < WINDOW_SIZE
    ensures x % WINDOW_SIZE == x
  {
  }

  lemma SmallDistance(distance: nat)
    ensures distance < 0x40_0000 ==> Slot(distance) == distance
  {
  }

  lemma OtherSlot(j: int, k: int)
    requires j < k < j + WINDOW_SIZE
    ensures Slot(j) != Slot(k)
  {
  }

  /** The masked 32-bit difference is the slot of the byte distance + 1 back. */
  lemma SourceSlot(size: nat, distance: uint32)
    ensures (Slot(size) - distance - 1) % TWO32 % WINDOW_SIZE == Slot(size - (Slot(distance) + 1))
  {
    var d := Slot(size) - distance - 1;
    SlotShift(d % TWO32, d / TWO32 * 0x400);
    SlotShift(size - (Slot(distance) + 1), -(size / WINDOW_SIZE) - distance / WINDOW_SIZE);
  }

  lemma SlotShift(j: int, k: int)
    ensures Slot(j + k * WINDOW_SIZE) == Slot(j)
  {
  }

  /** The last WINDOW_SIZE bytes of h are in w, each in its slot. */
  ghost predicate Stores(w: seq<byte>, h: seq<byte>) {
    && |w| == WINDOW_SIZE <= |h|
    && forall j :: |h| - WINDOW_SIZE <= j < |h| ==> w[Slot(j)] == h[j]
  }

  /** Storing one more byte over the oldest one. */
  lemma Rotated(w: seq<byte>, h: seq<byte>, b: byte)
    requires Stores(w, h)
    ensures Stores(w[Slot(|h|) := b], h + [b])
  {
    var r := h + [b];
    forall j | |r| - WINDOW_SIZE <= j < |r| ensures w[Slot(|h|) := b][Slot(j)] == r[j] {
      if j < |h| {
        OtherSlot(j, |h|);
      }
    }
  }

  class Window {
    const window: array<byte>
    var winPos: nat
    var lzSize: nat
    ghost var history: seq<byte>   // what the window held at first, then every byte put

    ghost predicate Valid()
      reads this, window
    {
      Stores(window[..], history) && winPos == Slot(|history|)
    }

    constructor (window: array<byte>)
      requires window.Length == 0x40_0000
      ensures Valid() && this.window == window && history == window[..] && lzSize == 0
    {
      this.window := window;
      winPos, lzSize := 0, 0;
      history := window[..];
    }

    method PutByte(b: byte)
      requires Valid()
      modifies this, window
      ensures Valid() && history == old(history) + [b] && lzSize == old(lzSize) + 1
    {
      Rotated(window[..], history, b);
      NextSlot(|history|);
      window[winPos] := b;
      history := history + [b];
      winPos := (winPos + 1) % WINDOW_SIZE;
      lzSize := lzSize + 1;
    }

    lemma Enough()
      requires Valid()
      ensures |window[..]| == WINDOW_SIZE <= |history| && winPos < WINDOW_SIZE
    {
    }

    /** Both paths append len times the byte distance + 1 back; distances are taken modulo the size. */
    method CopyBlock(distance: uint32, len: uint32)
      requires Valid() && len >= 1
      modifies this, window
      ensures Valid() && lzSize == old(lzSize) + len
      ensures history == Copied(old(history), Slot(distance) + 1, len)
      ensures distance < 0x40_0000 ==> |old(history)| > distance && history == Copied(old(history), distance + 1, len)
    {
      SmallDistance(distance);
      Enough();
      hide Copied, Stores, Slot;
      lzSize := lzSize + len;
      var pos := (winPos - distance - 1) % TWO32 % WINDOW_SIZE;
      SourceSlot(|history|, distance);
      if WINDOW_SIZE - winPos > len && WINDOW_SIZE - pos > len {
        var dest := winPos;
        winPos := winPos + len;
        CopyStraight(dest, pos, len, Slot(distance) + 1);
      } else {
        winPos := CopyWrapping(winPos, pos, len, Slot(distance) + 1);
      }
    }

    /** The fast loop: neither end of the copy wraps. */
    method CopyStraight(dest0: nat, src0: nat, len0: nat, ghost back: nat)
      requires len0 >= 1 && 1 <= back <= WINDOW_SIZE <= |history| && Stores(window[..], history)
      requires dest0 == Slot(|history|) && src0 == Slot(|history| - back)
      requires dest0 + len0 < WINDOW_SIZE && src0 + len0 < WINDOW_SIZE
      modifies this`history, window
      ensures Stores(window[..], history) && history == Copied(old(history), back, len0)
      ensures Slot(|history|) == dest0 + len0
    {
      hide Stores, Slot, Copied;
      var dest, src, len := dest0, src0, len0;
      ghost var h0 := history;
      CopiedNext(h0, back, 0);
      while true
        invariant 1 <= len <= len0 && back <= WINDOW_SIZE <= |history| && Stores(window[..], history)
        invariant history == Copied(h0, back, len0 - len)
        invariant dest == dest0 + (len0 - len) == Slot(|history|)
        invariant src == src0 + (len0 - len) == Slot(|history| - back)
        decreases len
      {
        CopiedNext(h0, back, len0 - len);
        NoWrap(dest + 1);
        NoWrap(src + 1);
        CopyByte(dest, src, back);
        dest, src := dest + 1, src + 1;
        len := len - 1;
        if len == 0 {
          break;
        }
      }
    }

    /** The masked loop. */
    method CopyWrapping(winPos0: nat, pos0: nat, len0: nat, ghost back: nat) returns (winPos: nat)
      requires len0 >= 1 && 1 <= back <= WINDOW_SIZE <= |history| && Stores(window[..], history)
      requires winPos0 == Slot(|history|) && pos0 == Slot(|history| - back)
      modifies this`history, window
      ensures Stores(window[..], history) && history == Copied(old(history), back, len0)
      ensures winPos == Slot(|history|)
    {
      hide Stores, Slot, Copied;
      winPos := winPos0;
      var pos, len := pos0, len0;
      ghost var h0 := history;
      CopiedNext(h0, back, 0);
      while true
        invariant 1 <= len <= len0 && back <= WINDOW_SIZE <= |history| && Stores(window[..], history)
        invariant history == Copied(h0, back, len0 - len)
        invariant winPos == Slot(|history|) && pos == Slot(|history| - back)
        decreases len
      {
        CopiedNext(h0, back, len0 - len);
        CopyByte(winPos, pos, back);
        winPos := (winPos + 1) % WINDOW_SIZE;
        pos := (pos + 1) % WINDOW_SIZE;
        len := len - 1;
        if len == 0 {
          break;
        }
      }
    }

    /** `window[dest] = window[src]` */
    method CopyByte(dest: nat, src: nat, ghost back: nat)
      requires Stores(window[..], history) && 1 <= back <= WINDOW_SIZE <= |history|
      requires dest == Slot(|history|) && src == Slot(|history| - back)
      modifies this`history, window
      ensures Stores(window[..], history)
      ensures history == old(history) + [old(history[|history| - back])]
      ensures Slot(|history|) == (dest + 1) % WINDOW_SIZE && Slot(|history| - back) == (src + 1) % WINDOW_SIZE
    {
      NextSlot(|history|);
      NextSlot(|history| - back);
      ghost var b := history[|history| - back];
      assert window[..][src] == b;
      Rotated(window[..], history, b);
      window[dest] := window[src];
      history := history + [b];
    }
  }
}
