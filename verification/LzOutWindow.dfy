/** The flushing output window: a buffer that is drained to a stream whenever a limit is reached. */
module LzOutWindow {
  import opened Words
  import opened Lz77

  class OutWindow {
    const buffer: array<byte>
    var pos: nat
    var limitPos: nat
    var streamPos: nat
    var overDict: bool
    var out: seq<byte>             // what the stream has received
    ghost var history: seq<byte>   // every byte put
    ghost var base: nat            // how many of them were put before the buffer last started over

    /** The buffer holds the latest bytes: those since the start below pos, older ones above it. */
    static ghost predicate Stores(w: seq<byte>, h: seq<byte>, pos: nat, base: nat, overDict: bool) {
      && pos < |w| && |h| == base + pos
      && (forall j :: 0 <= j < pos ==> w[j] == h[base + j])
      && (if overDict then base >= |w| && forall j :: pos <= j < |w| ==> w[j] == h[base - |w| + j] else base == 0)
    }

    ghost predicate Valid()
      reads this, buffer
    {
      && buffer.Length < TWO32 && Stores(buffer[..], history, pos, base, overDict)
      && streamPos <= pos < limitPos <= buffer.Length
      && out + buffer[streamPos..pos] == history
    }

    constructor (buffer: array<byte>)
      requires 1 <= buffer.Length < TWO32
      ensures Valid() && this.buffer == buffer && history == [] && out == []
    {
      this.buffer := buffer;
      pos, limitPos, streamPos, overDict := 0, buffer.Length, 0, false;
      out, history, base := [], [], 0;
    }

    /** Assumed behaviour of FlushWithCheck: drain, start over at the buffer's end, and set a new limit
        somewhere above the position. */
    method FlushWithCheck()
      requires streamPos <= pos <= buffer.Length && buffer.Length >= 1
      modifies this`out, this`pos, this`streamPos, this`overDict, this`limitPos, this`base
      ensures out == old(out) + buffer[old(streamPos)..old(pos)]
      ensures if old(pos) == buffer.Length then pos == 0 && overDict && base == old(base) + buffer.Length
              else pos == old(pos) && overDict == old(overDict) && base == old(base)
      ensures streamPos == pos < limitPos <= buffer.Length
    {
      out := out + buffer[streamPos..pos];
      if pos == buffer.Length {
        pos := 0;
        overDict := true;
        base := base + buffer.Length;
      }
      streamPos := pos;
      var limit :| pos < limit <= buffer.Length;
      limitPos := limit;
    }

    /** One byte at the write position. */
    method PutByte(b: byte)
      requires Valid()
      modifies this, buffer
      ensures Valid() && history == old(history) + [b]
      ensures old(out) <= out
      ensures pos == (if old(pos) + 1 == buffer.Length then 0 else old(pos) + 1)
      ensures old(pos) + 1 < old(limitPos) ==> limitPos == old(limitPos)
    {
      ghost var w, h, s := buffer[..], history, buffer[streamPos..pos];
      buffer[pos] := b;
      history := history + [b];
      pos := pos + 1;
      assert buffer[..] == w[pos - 1 := b];
      assert buffer[streamPos..pos] == s + [b];
      assert out + (s + [b]) == h + [b];
      if pos == limitPos {
        FlushWithCheck();
      }
      Advanced(w, h, old(pos), old(base), old(overDict), b);
    }

    /** Storing a byte at pos keeps the rest; at the buffer's end the buffer starts over. */
    static lemma Advanced(w: seq<byte>, h: seq<byte>, pos: nat, base: nat, overDict: bool, b: byte)
      requires Stores(w, h, pos, base, overDict)
      ensures pos + 1 < |w| ==> Stores(w[pos := b], h + [b], pos + 1, base, overDict)
      ensures pos + 1 == |w| ==> Stores(w[pos := b], h + [b], 0, base + |w|, true)
    {
    }

    /** The buffer index of the byte distance + 1 back. */
    static ghost predicate IsSource(p: int, pos: nat, distance: nat, size: nat) {
      p == if distance < pos then pos - distance - 1 else pos - distance - 1 + size
    }

    static lemma SourceByte(w: seq<byte>, h: seq<byte>, pos: nat, base: nat, overDict: bool, distance: nat, p: int)
      requires Stores(w, h, pos, base, overDict) && distance < |h| && distance < |w|
      requires IsSource(p, pos, distance, |w|)
      ensures 0 <= p < |w| && w[p] == h[|h| - 1 - distance]
    {
    }

    lemma ValidSource(distance: nat, p: int)
      requires Valid() && distance < |history| && distance < buffer.Length
      requires IsSource(p, pos, distance, buffer.Length)
      ensures pos < limitPos <= buffer.Length
      ensures 0 <= p < buffer.Length && buffer[p] == history[|history| - 1 - distance]
    {
      SourceByte(buffer[..], history, pos, base, overDict, distance, p);
    }

    /** Fails exactly when the distance reaches before the first byte or beyond the buffer;
        otherwise appends len times the byte distance + 1 back, on the fast path and on the flushing one. */
    method CopyBlock(distance: uint32, len: uint32) returns (ok: bool)
      requires Valid() && len >= 1
      modifies this, buffer
      ensures Valid() && old(out) <= out
      ensures ok <==> distance < |old(history)| && distance < buffer.Length
      ensures history == if ok then Copied(old(history), distance + 1, len) else old(history)
    {
      var p := (pos - distance - 1) % TWO32;
      if distance >= pos {
        if !overDict || distance >= buffer.Length {
          return false;
        }
        p := (p + buffer.Length) % TWO32;
      }
      assert IsSource(p, pos, distance, buffer.Length);
      if limitPos - pos > len && buffer.Length - p > len {
        CopyStraight(p, len, distance);
      } else {
        CopyFlushing(p, len, distance);
      }
      return true;
    }

    /** The flushing loop. */
    method CopyFlushing(p0: nat, len0: nat, ghost distance: nat)
      requires Valid() && len0 >= 1 && distance < |history| && distance < buffer.Length
      requires IsSource(p0, pos, distance, buffer.Length)
      modifies this, buffer
      ensures Valid() && old(out) <= out
      ensures history == Copied(old(history), distance + 1, len0)
    {
      hide Valid, Copied;
      var p, len := p0, len0;
      ValidSource(distance, p);
      ghost var h0 := history;
      CopiedNext(h0, distance + 1, 0);
      while true
        invariant 1 <= len <= len0 && Valid() && distance < |history| && old(out) <= out
        invariant IsSource(if p == buffer.Length then 0 else p, pos, distance, buffer.Length)
        invariant history == Copied(h0, distance + 1, len0 - len)
        decreases len
      {
        if p == buffer.Length {
          p := 0;
        }
        CopiedNext(h0, distance + 1, len0 - len);
        ValidSource(distance, p);
        PutByte(buffer[p]);
        p := p + 1;
        len := len - 1;
        if len == 0 {
          break;
        }
      }
    }

    /** The fast loop: no limit is reached and the source does not wrap. */
    method CopyStraight(p0: nat, len0: nat, ghost distance: nat)
      requires Valid() && len0 >= 1 && distance < |history| && distance < buffer.Length
      requires IsSource(p0, pos, distance, buffer.Length)
      requires limitPos - pos > len0 && buffer.Length - p0 > len0
      modifies this, buffer
      ensures Valid() && out == old(out)
      ensures history == Copied(old(history), distance + 1, len0)
    {
      hide Valid, Copied;
      var src, dest, len := p0, pos, len0;
      ghost var h0 := history;
      CopiedNext(h0, distance + 1, 0);
      while true
        invariant 1 <= len <= len0 && Valid() && distance < |history| && out == old(out)
        invariant dest == pos == old(pos) + (len0 - len) && limitPos == old(limitPos)
        invariant src == p0 + (len0 - len) && IsSource(src, pos, distance, buffer.Length)
        invariant history == Copied(h0, distance + 1, len0 - len)
        decreases len
      {
        CopiedNext(h0, distance + 1, len0 - len);
        ValidSource(distance, src);
        CopyByte(dest, src, distance);
        dest, src := dest + 1, src + 1;
        len := len - 1;
        if len == 0 {
          break;
        }
      }
    }

    /** `*dest++ = *src++`, the write position counted along. */
    method CopyByte(dest: nat, src: nat, ghost distance: nat)
      requires Valid() && dest == pos && pos + 1 < limitPos && distance < |history| && distance < buffer.Length
      requires IsSource(src, pos, distance, buffer.Length)
      modifies this, buffer
      ensures Valid() && history == old(history) + [old(history[|history| - 1 - distance])]
      ensures pos == old(pos) + 1 && limitPos == old(limitPos) && out == old(out)
    {
      SourceByte(buffer[..], history, pos, base, overDict, distance, src);
      ghost var w, h, s, b := buffer[..], history, buffer[streamPos..pos], buffer[src];
      buffer[dest] := buffer[src];
      history := history + [b];
      pos := pos + 1;
      assert buffer[..] == w[pos - 1 := b];
      assert buffer[streamPos..pos] == s + [b];
      assert out + (s + [b]) == h + [b];
      Advanced(w, h, old(pos), base, overDict, b);
    }

    /** The byte distance + 1 back, or, as the index is computed in 32 bits, one of a smaller distance;
        see GetByteExact. */
    method GetByte(distance: uint32) returns (b: byte)
      requires Valid() && distance < |history| && distance < buffer.Length
      ensures 0 <= ReachedDistance(pos, distance, buffer.Length) <= distance
      ensures b == history[|history| - 1 - ReachedDistance(pos, distance, buffer.Length)]
    {
      GetByteExact(pos, distance, buffer.Length);
      var p := GetByteIndex(pos, distance, buffer.Length);
      SourceByte(buffer[..], history, pos, base, overDict, ReachedDistance(pos, distance, buffer.Length), p);
      b := buffer[p];
    }
  }

  function GetByteIndex(pos: nat, distance: nat, size: nat): nat {
    var p := (pos - distance - 1) % TWO32;
    if p >= size then (p + size) % TWO32 else p
  }

  /** The distance that the index stands for. */
  function ReachedDistance(pos: nat, distance: nat, size: nat): int {
    if distance < pos || TWO32 + pos - distance - 1 >= size then distance else distance - (TWO32 - size)
  }

  /** It is the one asked for exactly when the source lies below pos or the wrapped difference is not
      itself a buffer index. Buffers of at most 2^31 bytes always meet the condition. */
  lemma GetByteExact(pos: nat, distance: nat, size: nat)
    requires pos < size < TWO32 && distance < size
    ensures var d := ReachedDistance(pos, distance, size);
      0 <= d <= distance && OutWindow.IsSource(GetByteIndex(pos, distance, size), pos, d, size)
    ensures ReachedDistance(pos, distance, size) == distance <==> distance < pos || TWO32 + pos - distance - 1 >= size
    ensures size <= 0x8000_0000 ==> distance < pos || TWO32 + pos - distance - 1 >= size
  {
    if distance >= pos {
      assert (pos - distance - 1) % TWO32 == TWO32 + pos - distance - 1;
    }
  }

  /** A window of 3 * 2^30 bytes filled once: asked for the byte 2^31 + 1 back, GetByte gives that
      2^30 + 1 back. */
  method GetByteFails(buffer: array<byte>) returns (w: OutWindow, b: byte)
    requires buffer.Length == 0xC000_0000
    modifies buffer
    ensures |w.history| == 0xC000_0000 && w.history[|w.history| - 1 - 0x8000_0000] == 0
    ensures b == w.history[|w.history| - 1 - 0x4000_0000] == 1
  {
    w := new OutWindow(buffer);
    for k := 0 to 0xC000_0000
      invariant fresh(w) && w.Valid() && w.buffer == buffer
      invariant |w.history| == k && w.pos == (if k == 0xC000_0000 then 0 else k)
      invariant forall j :: 0 <= j < k ==> w.history[j] == if j == 0x7FFF_FFFF then 1 else 0
    {
      w.PutByte(if k == 0x7FFF_FFFF then 1 else 0);
    }
    b := w.GetByte(0x8000_0000);
  }
}
