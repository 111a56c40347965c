/** The table-driven canonical Huffman decoder: limits per length, and a 9-bit table for short codes. */
module HuffmanDecoder {
  import opened Words
  import opened MsbBits
  import opened HuffmanCodes
  import BitmCoders
  import BitlCoders
  import LsbBits

  const TABLE_BITS := 9
  const NO_SYMBOL := 0xFFFF_FFFF

  class Decoder {
    const maxBits: nat       // kNumBitsMax
    const numSymbols: nat    // m_NumSymbols
    const limits: array<nat>
    const positions: array<nat>
    const symbols: array<nat>
    const lengths: array<byte>

    /** The template parameters: codes no longer than the bit readers deliver, and no 32-bit overflow. */
    static predicate ParametersOk(maxBits: nat, numSymbols: nat) {
      TABLE_BITS <= maxBits <= 24 && Shl(numSymbols, maxBits - 1) < 0x8000_0000
    }

    ghost predicate Shape()
      reads this
    {
      && ParametersOk(maxBits, numSymbols)
      && limits.Length == positions.Length == maxBits + 1
      && symbols.Length == numSymbols && lengths.Length == Pow2(TABLE_BITS)
      && limits != positions && limits != symbols && positions != symbols
    }

    constructor (maxBits: nat, numSymbols: nat)
      requires ParametersOk(maxBits, numSymbols)
      ensures Shape() && this.maxBits == maxBits && this.numSymbols == numSymbols
      ensures fresh(limits) && fresh(positions) && fresh(symbols) && fresh(lengths)
    {
      this.maxBits, this.numSymbols := maxBits, numSymbols;
      limits := new nat[maxBits + 1];
      positions := new nat[maxBits + 1];
      symbols := new nat[numSymbols];
      lengths := new byte[Pow2(TABLE_BITS)];
    }

    // ---------- what the tables mean ----------

    /** The value below which codes have length i or less; the last one covers the whole code space. */
    ghost function Limit(lens: seq<byte>, i: nat): nat
      requires i <= maxBits
    {
      if i == maxBits then Pow2(maxBits) else Taken(lens, maxBits, i)
    }

    /** The same in units of the fast table. */
    ghost function FastLimit(lens: seq<byte>, i: nat): nat
      requires TABLE_BITS <= maxBits && i <= TABLE_BITS
    {
      Shr(Limit(lens, i), maxBits - TABLE_BITS)
    }

    ghost predicate LimitsOk(lens: seq<byte>, n: nat)
      requires Shape() && n <= maxBits + 1
      reads this, limits, positions
    {
      forall i :: 0 <= i < n ==> limits[i] == Limit(lens, i) && positions[i] == Shorter(lens, i)
    }

    /** v is the length of the codes that start with the 9 bits j. */
    ghost predicate FastEntry(lens: seq<byte>, j: nat, v: nat)
      requires TABLE_BITS <= maxBits
    {
      1 <= v <= TABLE_BITS && FastLimit(lens, v - 1) <= j < FastLimit(lens, v)
    }

    ghost predicate FastOk(lens: seq<byte>, n: nat)
      requires Shape()
      reads this, lengths
    {
      forall j :: 0 <= j < n && j < lengths.Length ==> FastEntry(lens, j, lengths[j])
    }

    /** Where the code of symbol s sits. */
    ghost function Slot(lens: seq<byte>, s: nat): nat
      requires s < |lens|
    {
      Shorter(lens, lens[s]) + Count(lens, s, lens[s])
    }

    ghost predicate SymbolsOk(lens: seq<byte>, n: nat)
      requires Shape() && n <= |lens|
      reads this, symbols
    {
      && (forall s :: 0 <= s < n && lens[s] != 0 ==> Slot(lens, s) < numSymbols && symbols[Slot(lens, s)] == s)
      && (forall j :: Shorter(lens, maxBits + 1) <= j < numSymbols ==> symbols[j] == NO_SYMBOL)
    }

    /** The tables describe the canonical code of these lengths. */
    ghost predicate Describes(lens: seq<byte>)
      reads this, limits, positions, symbols, lengths
    {
      && Shape() && |lens| == numSymbols && Feasible(lens, maxBits)
      && LimitsOk(lens, maxBits + 1)
      && FastOk(lens, FastLimit(lens, TABLE_BITS))
      && SymbolsOk(lens, |lens|)
    }

    // ---------- building them ----------

    /** Accepts exactly the feasible lengths, and then describes their canonical code. */
    method SetCodeLengths(codeLengths: seq<byte>) returns (ok: bool)
      requires Shape() && |codeLengths| == numSymbols
      modifies limits, positions, symbols, lengths
      ensures ok <==> Feasible(codeLengths, maxBits)
      ensures ok <==>
        && (forall s :: 0 <= s < |codeLengths| ==> codeLengths[s] <= maxBits)
        && (forall s :: 0 <= s < |codeLengths| && codeLengths[s] >= 1 ==>
          Codeword(codeLengths, s) < Pow2(codeLengths[s]))
      ensures ok ==> Describes(codeLengths)
    {
      FeasibleExact(codeLengths, maxBits);
      var lenCounts := new nat[maxBits + 1];
      ok := CountLengths(codeLengths, lenCounts);
      if !ok {
        return;
      }
      TakenIsKraft(codeLengths, maxBits);
      var tmpPositions := new nat[maxBits + 1];
      ok := BuildLimits(codeLengths, lenCounts, tmpPositions);
      if ok {
        PlaceSymbols(codeLengths, tmpPositions);
      }
    }

    /** The first loop: counts per length; all symbols start out unassigned. */
    method CountLengths(codeLengths: seq<byte>, lenCounts: array<nat>) returns (ok: bool)
      requires Shape() && |codeLengths| == numSymbols
      requires lenCounts.Length == maxBits + 1 && lenCounts != symbols
      modifies lenCounts, symbols
      ensures ok <==> forall s :: 0 <= s < |codeLengths| ==> codeLengths[s] <= maxBits
      ensures ok ==> lenCounts[0] == 0 && forall l :: 1 <= l <= maxBits ==> lenCounts[l] == Total(codeLengths, l)
      ensures ok ==> forall j :: 0 <= j < numSymbols ==> symbols[j] == NO_SYMBOL
    {
      var i := 1;
      while i <= maxBits
        invariant 1 <= i <= maxBits + 1 && forall l :: 1 <= l < i ==> lenCounts[l] == 0
      {
        lenCounts[i] := 0;
        i := i + 1;
      }
      var symbol := 0;
      while symbol < numSymbols
        invariant symbol <= numSymbols
        invariant forall s :: 0 <= s < symbol ==> codeLengths[s] <= maxBits
        invariant forall l :: 1 <= l <= maxBits ==> lenCounts[l] == Count(codeLengths, symbol, l)
        invariant forall j :: 0 <= j < symbol ==> symbols[j] == NO_SYMBOL
      {
        var len := codeLengths[symbol];
        if len > maxBits {
          return false;
        }
        lenCounts[len] := lenCounts[len] + 1;
        symbols[symbol] := NO_SYMBOL;
        symbol := symbol + 1;
      }
      lenCounts[0] := 0;
      return true;
    }

    /** The second loop: running limits and positions, and the fast table. */
    method BuildLimits(codeLengths: seq<byte>, lenCounts: array<nat>, tmpPositions: array<nat>) returns (ok: bool)
      requires Shape() && |codeLengths| == numSymbols
      requires lenCounts.Length == tmpPositions.Length == maxBits + 1
      requires {lenCounts, tmpPositions} !! {limits, positions, symbols} && lenCounts != tmpPositions
      requires lenCounts[0] == 0 && forall l :: 1 <= l <= maxBits ==> lenCounts[l] == Total(codeLengths, l)
      modifies limits, positions, lengths, tmpPositions
      ensures ok <==> Taken(codeLengths, maxBits, maxBits) <= Pow2(maxBits)
      ensures ok ==> LimitsOk(codeLengths, maxBits + 1) && FastOk(codeLengths, FastLimit(codeLengths, TABLE_BITS))
      ensures ok ==> forall l :: 1 <= l <= maxBits ==> tmpPositions[l] == Shorter(codeLengths, l)
    {
      hide Total, Shl, Shorter, Taken, Limit, LimitsOk, FastLimit, FastOk, Pow2, Count;
      positions[0] := 0;
      limits[0] := 0;
      NothingTaken(codeLengths);
      var startPos: uint32 := 0;
      var index: nat := 0;
      var i: nat := 1;
      while i <= maxBits
        invariant 1 <= i <= maxBits + 1
        invariant startPos == Taken(codeLengths, maxBits, i - 1) <= Pow2(maxBits)
        invariant LimitsOk(codeLengths, i)
        invariant forall l :: 1 <= l < i ==> tmpPositions[l] == Shorter(codeLengths, l)
        invariant FastOk(codeLengths, index) && index <= lengths.Length
        invariant index == FastLimit(codeLengths, if i <= TABLE_BITS then i - 1 else TABLE_BITS)
      {
        StaysInWord(codeLengths, i);
        TakenNext(codeLengths, i);
        startPos := startPos + Shl(lenCounts[i], maxBits - i);
        if startPos > Pow2(maxBits) {
          TakenMonotone(codeLengths, maxBits, i, maxBits);
          return false;
        }
        SetLimit(codeLengths, lenCounts, tmpPositions, i, startPos);
        if i <= TABLE_BITS {
          index := FillFast(codeLengths, i, index);
        }
        i := i + 1;
      }
      return true;
    }

    lemma NothingTaken(lens: seq<byte>)
      requires Shape() && limits[0] == 0 && positions[0] == 0
      ensures Taken(lens, maxBits, 0) == 0 && FastLimit(lens, 0) == 0
      ensures LimitsOk(lens, 1) && FastOk(lens, 0)
    {
      ShrZero(maxBits - TABLE_BITS);
    }

    lemma TakenNext(lens: seq<byte>, i: nat)
      requires 1 <= i <= maxBits
      ensures Taken(lens, maxBits, i) == Taken(lens, maxBits, i - 1) + Shl(Total(lens, i), maxBits - i)
    {
    }

    method SetLimit(ghost lens: seq<byte>, lenCounts: array<nat>, tmpPositions: array<nat>, i: nat, startPos: nat)
      requires Shape() && 1 <= i <= maxBits && startPos == Taken(lens, maxBits, i)
      requires lenCounts.Length == tmpPositions.Length == maxBits + 1
      requires {lenCounts, tmpPositions} !! {limits, positions, symbols} && lenCounts != tmpPositions
      requires lenCounts[0] == 0 && forall l :: 1 <= l <= maxBits ==> lenCounts[l] == Total(lens, l)
      requires LimitsOk(lens, i)
      requires forall l :: 1 <= l < i ==> tmpPositions[l] == Shorter(lens, l)
      modifies limits, positions, tmpPositions
      ensures LimitsOk(lens, i + 1) && limits[i] == Limit(lens, i)
      ensures forall l :: 1 <= l < i + 1 ==> tmpPositions[l] == Shorter(lens, l)
    {
      limits[i] := if i == maxBits then Pow2(maxBits) else startPos;
      positions[i] := positions[i - 1] + lenCounts[i - 1];
      tmpPositions[i] := positions[i];
      assert positions[i] == Shorter(lens, i);
    }

    /** Writes i for all table entries up to the limit of length i. */
    method FillFast(ghost lens: seq<byte>, i: nat, index0: nat) returns (index: nat)
      requires Shape() && 1 <= i <= TABLE_BITS && index0 == FastLimit(lens, i - 1)
      requires limits[i] == Limit(lens, i) && Taken(lens, maxBits, i) <= Pow2(maxBits)
      requires FastOk(lens, index0)
      modifies lengths
      ensures FastOk(lens, index) && index == FastLimit(lens, i) <= lengths.Length
    {
      hide Taken, Limit, Shr;
      index := index0;
      var limit := Shr(limits[i], maxBits - TABLE_BITS);
      FastLimitGrows(lens, i);
      while index < limit
        invariant index0 <= index <= limit
        invariant FastOk(lens, index)
      {
        lengths[index] := i;
        index := index + 1;
      }
    }

    lemma FastLimitGrows(lens: seq<byte>, i: nat)
      requires TABLE_BITS <= maxBits && 1 <= i <= TABLE_BITS && Taken(lens, maxBits, i) <= Pow2(maxBits)
      ensures FastLimit(lens, i - 1) <= FastLimit(lens, i) <= Pow2(TABLE_BITS)
    {
      ShrPow2(TABLE_BITS, maxBits - TABLE_BITS);
      hide Shr, Taken;
      TakenMonotone(lens, maxBits, i - 1, i);
      ShrMonotone(Limit(lens, i - 1), Limit(lens, i), maxBits - TABLE_BITS);
      ShrMonotone(Limit(lens, i), Pow2(maxBits), maxBits - TABLE_BITS);
    }

    static lemma {:induction false} ShrMonotone(x: nat, y: nat, n: nat)
      requires x <= y
      ensures Shr(x, n) <= Shr(y, n)
    {
      if n == 0 {
      } else {
        ShrMonotone(x / 2, y / 2, n - 1);
      }
    }

    static lemma {:induction false} ShrPow2(m: nat, n: nat)
      ensures Shr(Pow2(m + n), n) == Pow2(m)
    {
      if n == 0 {
      } else {
        ShrPow2(m, n - 1);
      }
    }

    /** startPos cannot wrap. */
    lemma StaysInWord(lens: seq<byte>, i: nat)
      requires Shape() && |lens| == numSymbols && 1 <= i <= maxBits
      ensures Pow2(maxBits) + Shl(Total(lens, i), maxBits - i) < TWO32
    {
      Pow2Le(maxBits, 24);
      Pow2Values();
      ShlLe(Total(lens, i), numSymbols, maxBits - i);
      ShlGrows(numSymbols, maxBits - i, maxBits - 1);
    }

    static lemma {:induction false} ShlGrows(x: nat, m: nat, n: nat)
      requires m <= n
      ensures Shl(x, m) <= Shl(x, n)
    {
      if m == n {
      } else {
        ShlGrows(x, m, n - 1);
      }
    }

    /** The third loop: symbols sorted by length, then by number. */
    method PlaceSymbols(codeLengths: seq<byte>, tmpPositions: array<nat>)
      requires Shape() && |codeLengths| == numSymbols && Feasible(codeLengths, maxBits)
      requires tmpPositions.Length == maxBits + 1 && tmpPositions != symbols
      requires forall l :: 1 <= l <= maxBits ==> tmpPositions[l] == Shorter(codeLengths, l)
      requires forall j :: 0 <= j < numSymbols ==> symbols[j] == NO_SYMBOL
      modifies symbols, tmpPositions
      ensures SymbolsOk(codeLengths, |codeLengths|)
    {
      hide Kraft, Total, Shorter;
      var symbol: nat := 0;
      while symbol < numSymbols
        invariant symbol <= numSymbols && NextSlots(codeLengths, tmpPositions, symbol)
        invariant SymbolsOk(codeLengths, symbol)
      {
        var len := codeLengths[symbol];
        if len != 0 {
          PlaceSymbol(codeLengths, tmpPositions, symbol);
          AdvanceSlot(codeLengths, tmpPositions, symbol);
        }
        symbol := symbol + 1;
      }
    }

    /** Where the next symbol of each length goes. */
    ghost predicate NextSlots(lens: seq<byte>, tmpPositions: array<nat>, n: nat)
      requires n <= |lens|
      reads tmpPositions
    {
      && tmpPositions.Length == maxBits + 1
      && forall l: nat :: 1 <= l <= maxBits ==> tmpPositions[l] == Shorter(lens, l) + Count(lens, n, l)
    }

    method PlaceSymbol(lens: seq<byte>, tmpPositions: array<nat>, s: nat)
      requires Shape() && s < |lens| == numSymbols && Feasible(lens, maxBits) && lens[s] != 0
      requires NextSlots(lens, tmpPositions, s) && tmpPositions != symbols && SymbolsOk(lens, s)
      modifies symbols
      ensures SymbolsOk(lens, s + 1)
    {
      SlotFree(lens, s);
      assert tmpPositions[lens[s]] == Slot(lens, s);
      symbols[tmpPositions[lens[s]]] := s;
    }

    method AdvanceSlot(lens: seq<byte>, tmpPositions: array<nat>, s: nat)
      requires s < |lens| && 1 <= lens[s] <= maxBits && NextSlots(lens, tmpPositions, s)
      modifies tmpPositions
      ensures NextSlots(lens, tmpPositions, s + 1)
    {
      tmpPositions[lens[s]] := tmpPositions[lens[s]] + 1;
    }

    /** Every symbol has its own slot, below the number of symbols with a code. */
    lemma SlotFree(lens: seq<byte>, s: nat)
      requires s < |lens| == numSymbols && Feasible(lens, maxBits) && lens[s] != 0
      ensures Slot(lens, s) < Shorter(lens, maxBits + 1) <= numSymbols
      ensures forall t :: 0 <= t < s && lens[t] != 0 ==> Slot(lens, t) != Slot(lens, s)
    {
      RankBelowTotal(lens, s);
      ShorterBound(lens, maxBits + 1);
      ShorterMonotone(lens, lens[s], maxBits + 1);
      forall t | 0 <= t < s && lens[t] != 0 ensures Slot(lens, t) != Slot(lens, s) {
        RankBelowTotal(lens, t);
        if lens[t] == lens[s] {
          RankInjective(lens, t, s);
        } else if lens[t] < lens[s] {
          ShorterMonotone(lens, lens[t], lens[s]);
        } else {
          ShorterMonotone(lens, lens[s], lens[t]);
        }
      }
    }

    // ---------- decoding ----------

    /** The length that the search finds: the least one whose limit lies above value. */
    ghost predicate FoundLength(lens: seq<byte>, value: nat, l: nat)
    {
      1 <= l <= maxBits && Limit(lens, l - 1) <= value < Limit(lens, l)
    }

    /** The fast table and the linear search find the same, unique length. */
    method FindLength(ghost lens: seq<byte>, value: nat) returns (numBits: nat)
      requires Describes(lens) && value < Pow2(maxBits)
      ensures FoundLength(lens, value, numBits) && 1 <= numBits <= maxBits <= 24
    {
      if value < limits[TABLE_BITS] {
        FastLookup(lens, value);
        numBits := lengths[Shr(value, maxBits - TABLE_BITS)];
      } else {
        numBits := TABLE_BITS + 1;
        assert maxBits > TABLE_BITS;
        while value >= limits[numBits]
          invariant TABLE_BITS < numBits <= maxBits && Limit(lens, numBits - 1) <= value
          decreases maxBits - numBits
        {
          numBits := numBits + 1;
        }
      }
    }

    /** The limits up to 9 are multiples of the fast unit, so comparing the top 9 bits is exact. */
    lemma FastExact(lens: seq<byte>, value: nat, i: nat)
      requires TABLE_BITS <= maxBits && i <= TABLE_BITS
      ensures value < Limit(lens, i) <==> Shr(value, maxBits - TABLE_BITS) < FastLimit(lens, i)
    {
      var k := maxBits - TABLE_BITS;
      var c: nat;
      if i == maxBits {
        c := Pow2(maxBits);
      } else {
        c := TakenMultiple(lens, maxBits, i, k);
      }
      Joined(c, 0, k);
      Parts(value, k);
      if Shr(value, k) < c {
        ShlBelowNext(Shr(value, k), c, Low(value, k), k);
      } else {
        ShlLe(c, Shr(value, k), k);
      }
    }

    lemma FastLookup(lens: seq<byte>, value: nat)
      requires Describes(lens) && value < limits[TABLE_BITS] && value < Pow2(maxBits)
      ensures Shr(value, maxBits - TABLE_BITS) < lengths.Length
      ensures FoundLength(lens, value, lengths[Shr(value, maxBits - TABLE_BITS)])
    {
      hide Shr, Taken, Kraft, Total, SymbolsOk;
      var j := Shr(value, maxBits - TABLE_BITS);
      ShrBelow(value, TABLE_BITS, maxBits - TABLE_BITS);
      FastExact(lens, value, TABLE_BITS);
      assert FastEntry(lens, j, lengths[j]);
      FastExact(lens, value, lengths[j] - 1);
      FastExact(lens, value, lengths[j]);
    }

    /** The least limit above value is unique. */
    lemma FoundUnique(lens: seq<byte>, value: nat, l: nat, m: nat)
      requires Feasible(lens, maxBits) && FoundLength(lens, value, l) && FoundLength(lens, value, m)
      ensures l == m
    {
      if l < m {
        LimitMonotone(lens, l, m - 1);
      } else if m < l {
        LimitMonotone(lens, m, l - 1);
      }
    }

    lemma LimitMonotone(lens: seq<byte>, i: nat, j: nat)
      requires Feasible(lens, maxBits) && i <= j <= maxBits
      ensures Limit(lens, i) <= Limit(lens, j)
    {
      TakenIsKraft(lens, maxBits);
      TakenMonotone(lens, maxBits, i, j);
      TakenMonotone(lens, maxBits, i, maxBits);
    }

    /** A value starting with the codeword of s is found at the length of s, with its rank. */
    lemma CodewordFound(lens: seq<byte>, value: nat, s: nat, l: nat)
      requires Feasible(lens, maxBits) && FoundLength(lens, value, l) && StartsWith(lens, maxBits, value, s)
      ensures l == lens[s] && Limit(lens, l - 1) == Taken(lens, maxBits, l - 1)
      ensures Shr(value - Limit(lens, l - 1), maxBits - l) == Count(lens, s, lens[s])
    {
      TakenIsKraft(lens, maxBits);
      StartsWithExact(lens, maxBits, value, s);
      SliceBounds(lens, maxBits, value, lens[s]);
      TakenMonotone(lens, maxBits, lens[s], maxBits);
      FoundUnique(lens, value, l, lens[s]);
    }

    /** A found rank below the number of codes of that length is some symbol's codeword. */
    lemma FoundIsCodeword(lens: seq<byte>, value: nat, l: nat) returns (s: nat)
      requires Feasible(lens, maxBits) && FoundLength(lens, value, l)
      requires Shr(value - Limit(lens, l - 1), maxBits - l) < Total(lens, l)
      ensures StartsWith(lens, maxBits, value, s)
    {
      s := SymbolOfRank(lens, |lens|, l, Shr(value - Limit(lens, l - 1), maxBits - l));
      StartsWithExact(lens, maxBits, value, s);
    }

    /** Below the last length every found value has a codeword. */
    lemma NoCodewordMeansLongest(lens: seq<byte>, value: nat, l: nat)
      requires Feasible(lens, maxBits) && FoundLength(lens, value, l)
      requires forall s :: !StartsWith(lens, maxBits, value, s)
      ensures l == maxBits && value - Limit(lens, l - 1) >= Total(lens, l)
    {
      if Shr(value - Limit(lens, l - 1), maxBits - l) < Total(lens, l) {
        var s := FoundIsCodeword(lens, value, l);
      }
      SliceBounds(lens, maxBits, value, l);
    }

    /** What decoding a value must yield: the symbol whose codeword it starts with, and that codeword's
        length; or, when it starts with no codeword, 0xFFFFFFFF and the longest length. */
    ghost predicate Decoded(lens: seq<byte>, value: nat, symbol: nat, numBits: nat) {
      && (forall s: nat :: StartsWith(lens, maxBits, value, s) ==> symbol == s && numBits == lens[s])
      && ((forall s: nat :: !StartsWith(lens, maxBits, value, s)) ==> symbol == NO_SYMBOL && numBits == maxBits)
    }

    /** The error value is returned exactly when no codeword comes next. */
    lemma NoSymbolExact(lens: seq<byte>, value: nat, symbol: nat, numBits: nat)
      requires Shape() && |lens| == numSymbols && Decoded(lens, value, symbol, numBits)
      ensures symbol == 0xFFFF_FFFF <==> forall s: nat :: !StartsWith(lens, maxBits, value, s)
      ensures symbol != NO_SYMBOL ==> StartsWith(lens, maxBits, value, symbol) && numBits == lens[symbol]
    {
      ShlGrows(numSymbols, 0, maxBits - 1);
    }

    method DecodeSymbol(bitStream: BitmCoders.Decoder, ghost lens: seq<byte>) returns (symbol: nat)
      requires Describes(lens) && bitStream.Valid()
      modifies bitStream
      ensures bitStream.Valid() && bitStream.Position() >= old(bitStream.Position())
      ensures Decoded(lens, Field(bitStream.source, old(bitStream.Position()), maxBits), symbol,
        bitStream.Position() - old(bitStream.Position()))
    {
      var value := bitStream.GetValue(maxBits);
      FieldRange(bitStream.source, bitStream.Position(), maxBits);
      var numBits := FindLength(lens, value);
      bitStream.MovePos(numBits);
      symbol := LookUp(value, numBits, lens);
    }

    lemma BitsDelivered(lens: seq<byte>)
      requires Describes(lens)
      ensures maxBits <= 24
    {
    }

    /** The same template on the LSB-first reader, whose window is the reversed view of the next bits. */
    method DecodeSymbolLsb(bitStream: BitlCoders.Decoder, ghost lens: seq<byte>) returns (symbol: nat)
      requires Describes(lens) && bitStream.Valid()
      modifies bitStream, bitStream.cursor
      ensures bitStream.Valid() && bitStream.cursor.Position() >= old(bitStream.cursor.Position())
      ensures Decoded(lens,
        LsbBits.Reversed(LsbBits.Field(bitStream.cursor.Stream(), old(bitStream.cursor.Position()), maxBits), maxBits),
        symbol, bitStream.cursor.Position() - old(bitStream.cursor.Position()))
    {
      hide Decoded, Describes, FoundLength, Pow2, LsbBits.Reversed, LsbBits.Field, BitlCoders.Decoder.MirrorHeld;
      assert maxBits <= 24 by { BitsDelivered(lens); }
      LsbBits.ReversedRange(LsbBits.Field(bitStream.cursor.Stream(), bitStream.cursor.Position(), maxBits), maxBits);
      var value := bitStream.GetValue(maxBits);
      var numBits := FindLength(lens, value);
      bitStream.MovePos(numBits);
      symbol := LookUp(value, numBits, lens);
    }

    /** The symbol at the value's rank among the codes of its length. */
    method LookUp(value: nat, numBits: nat, ghost lens: seq<byte>) returns (symbol: nat)
      requires Describes(lens) && FoundLength(lens, value, numBits)
      ensures Decoded(lens, value, symbol, numBits)
    {
      hide Shr, Decoded, Count, Kraft;
      IndexMeans(lens, value, numBits);
      assert limits[numBits - 1] == Limit(lens, numBits - 1);
      symbol := SymbolAt(positions[numBits] + Shr(value - limits[numBits - 1], maxBits - numBits));
    }

    function SymbolAt(index: nat): nat
      requires symbols.Length == numSymbols
      reads symbols
    {
      if index >= numSymbols then NO_SYMBOL else symbols[index]
    }

    /** What the computed index leads to. */
    lemma IndexMeans(lens: seq<byte>, value: nat, l: nat)
      requires Describes(lens) && FoundLength(lens, value, l)
      ensures Decoded(lens, value, SymbolAt(Shorter(lens, l) + Shr(value - Limit(lens, l - 1), maxBits - l)), l)
    {
      hide Shr, Count, Kraft;
      forall s: nat | StartsWith(lens, maxBits, value, s)
        ensures l == lens[s] && Shr(value - Limit(lens, l - 1), maxBits - l) == Count(lens, s, lens[s])
      {
        CodewordFound(lens, value, s, l);
      }
      if forall s: nat :: !StartsWith(lens, maxBits, value, s) {
        BeyondAll(lens, value, l);
      }
    }

    lemma BeyondAll(lens: seq<byte>, value: nat, l: nat)
      requires Describes(lens) && FoundLength(lens, value, l)
      requires forall s: nat :: !StartsWith(lens, maxBits, value, s)
      ensures l == maxBits && SymbolAt(Shorter(lens, l) + Shr(value - Limit(lens, l - 1), maxBits - l)) == NO_SYMBOL
    {
      NoCodewordMeansLongest(lens, value, l);
      hide Shr, Count, Kraft, StartsWith;
      assert Shorter(lens, maxBits + 1) == Shorter(lens, maxBits) + Total(lens, maxBits);
    }
  }
}
