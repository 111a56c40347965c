/** Canonical Huffman codes, as section 3.2.2 of RFC 1951 defines them from the code lengths. */
module HuffmanCodes {
  import opened Words

  /** How many of the first n symbols have length l. */
  function Count(lens: seq<byte>, n: nat, l: nat): (c: nat)
    requires n <= |lens|
    ensures c <= n
  {
    if n == 0 then 0 else Count(lens, n - 1, l) + (if lens[n - 1] == l then 1 else 0)
  }

  function Total(lens: seq<byte>, l: nat): nat {
    Count(lens, |lens|, l)
  }

  /** The smallest code of length l: step 2 of the algorithm. */
  function FirstCode(lens: seq<byte>, l: nat): nat {
    if l <= 1 then 0 else 2 * (FirstCode(lens, l - 1) + Total(lens, l - 1))
  }

  /** Step 3: codes of one length are handed out in symbol order. */
  function Codeword(lens: seq<byte>, s: nat): nat
    requires s < |lens|
  {
    FirstCode(lens, lens[s]) + Count(lens, s, lens[s])
  }

  /** The share of the code space, in units of 2^-max, taken by the codes of length 1 to i. */
  ghost function Taken(lens: seq<byte>, max: nat, i: nat): nat
    requires i <= max
  {
    if i == 0 then 0 else Taken(lens, max, i - 1) + Shl(Total(lens, i), max - i)
  }

  /** The Kraft sum of the first n symbols, in units of 2^-max. */
  ghost function Kraft(lens: seq<byte>, max: nat, n: nat): nat
    requires n <= |lens|
  {
    if n == 0 then 0
    else Kraft(lens, max, n - 1) + (if 1 <= lens[n - 1] <= max then Pow2(max - lens[n - 1]) else 0)
  }

  /** Every length fits and the Kraft sum is at most one. */
  ghost predicate Feasible(lens: seq<byte>, max: nat) {
    (forall s :: 0 <= s < |lens| ==> lens[s] <= max) && Kraft(lens, max, |lens|) <= Pow2(max)
  }

  /** The sum taken length by length is the sum taken symbol by symbol. */
  lemma TakenIsKraft(lens: seq<byte>, max: nat)
    ensures Taken(lens, max, max) == Kraft(lens, max, |lens|)
  {
    TakenAmongAll(lens, max, max);
    AmongIsKraft(lens, max, |lens|);
  }

  ghost function TakenAmong(lens: seq<byte>, max: nat, n: nat, i: nat): nat
    requires i <= max && n <= |lens|
  {
    if i == 0 then 0 else TakenAmong(lens, max, n, i - 1) + Shl(Count(lens, n, i), max - i)
  }

  lemma {:induction false} TakenAmongAll(lens: seq<byte>, max: nat, i: nat)
    requires i <= max
    ensures TakenAmong(lens, max, |lens|, i) == Taken(lens, max, i)
  {
    if i == 0 {
    } else {
      TakenAmongAll(lens, max, i - 1);
    }
  }

  lemma {:induction false} AmongIsKraft(lens: seq<byte>, max: nat, n: nat)
    requires n <= |lens|
    ensures TakenAmong(lens, max, n, max) == Kraft(lens, max, n)
  {
    if n == 0 {
      TakenAmongNone(lens, max, max);
    } else {
      AmongIsKraft(lens, max, n - 1);
      TakenAmongNext(lens, max, n, max);
    }
  }

  lemma {:induction false} TakenAmongNone(lens: seq<byte>, max: nat, i: nat)
    requires i <= max
    ensures TakenAmong(lens, max, 0, i) == 0
  {
    if i == 0 {
    } else {
      TakenAmongNone(lens, max, i - 1);
      ShrZero(max - i);
    }
  }

  lemma {:induction false} TakenAmongNext(lens: seq<byte>, max: nat, n: nat, i: nat)
    requires i <= max && 1 <= n <= |lens|
    ensures TakenAmong(lens, max, n, i)
         == TakenAmong(lens, max, n - 1, i) + (if 1 <= lens[n - 1] <= i then Pow2(max - lens[n - 1]) else 0)
  {
    if i == 0 {
    } else {
      TakenAmongNext(lens, max, n, i - 1);
      if lens[n - 1] == i {
        ShlSum(Count(lens, n - 1, i), 1, max - i);
        ShlOne(max - i);
      }
    }
  }

  /** How many symbols have a length from 1 to l - 1. */
  ghost function Shorter(lens: seq<byte>, l: nat): nat {
    if l <= 1 then 0 else Shorter(lens, l - 1) + Total(lens, l - 1)
  }

  /** `value` of max bits starts with the codeword of s. */
  ghost predicate StartsWith(lens: seq<byte>, max: nat, value: nat, s: nat) {
    s < |lens| && 1 <= lens[s] <= max && Shr(value, max - lens[s]) == Codeword(lens, s)
  }

  // ---------- codes and code space ----------

  /** The first code of length l starts where the shorter codes end. */
  lemma {:induction false} FirstCodeTaken(lens: seq<byte>, max: nat, l: nat)
    requires 1 <= l <= max
    ensures Shl(FirstCode(lens, l), max - l) == Taken(lens, max, l - 1)
  {
    if l == 1 {
      ShrZero(max - 1);
    } else {
      FirstCodeTaken(lens, max, l - 1);
      var f, t := FirstCode(lens, l - 1), Total(lens, l - 1);
      ShlSum(f, t, max - l + 1);
      ShlDouble(f + t, max - l);
    }
  }

  lemma {:induction false} ShlDouble(x: nat, n: nat)
    ensures Shl(2 * x, n) == Shl(x, n + 1)
  {
    if n == 0 {
    } else {
      ShlDouble(x, n - 1);
    }
  }

  lemma {:induction false} TakenMonotone(lens: seq<byte>, max: nat, i: nat, j: nat)
    requires i <= j <= max
    ensures Taken(lens, max, i) <= Taken(lens, max, j)
  {
    if i == j {
    } else {
      TakenMonotone(lens, max, i, j - 1);
    }
  }

  /** The share of the codes up to i is a whole number of units of i bits. */
  lemma {:induction false} TakenMultiple(lens: seq<byte>, max: nat, i: nat, k: nat) returns (c: nat)
    requires i <= max && k <= max - i
    ensures Taken(lens, max, i) == Shl(c, k)
  {
    if i == 0 {
      c := 0;
      ShrZero(k);
    } else {
      var d := TakenMultiple(lens, max, i - 1, k);
      var t := Shl(Total(lens, i), max - i - k);
      ShlShl(Total(lens, i), max - i - k, k);
      ShlSum(d, t, k);
      c := d + t;
    }
  }

  lemma {:induction false} CountMonotone(lens: seq<byte>, m: nat, n: nat, l: nat)
    requires m <= n <= |lens|
    ensures Count(lens, m, l) <= Count(lens, n, l)
  {
    if m == n {
    } else {
      CountMonotone(lens, m, n - 1, l);
    }
  }

  /** Two symbols of one length have different ranks. */
  lemma RankInjective(lens: seq<byte>, s: nat, t: nat)
    requires s < t < |lens| && lens[s] == lens[t]
    ensures Count(lens, s, lens[s]) < Count(lens, t, lens[t])
  {
    assert Count(lens, s + 1, lens[s]) == Count(lens, s, lens[s]) + 1;
    CountMonotone(lens, s + 1, t, lens[s]);
  }

  lemma RankBelowTotal(lens: seq<byte>, s: nat)
    requires s < |lens|
    ensures Count(lens, s, lens[s]) < Total(lens, lens[s])
  {
    CountMonotone(lens, s + 1, |lens|, lens[s]);
  }

  /** Every rank below the total is some symbol's. */
  lemma {:induction false} SymbolOfRank(lens: seq<byte>, n: nat, l: nat, r: nat) returns (s: nat)
    requires n <= |lens| && r < Count(lens, n, l)
    ensures s < n && lens[s] == l && Count(lens, s, l) == r
  {
    if lens[n - 1] == l && Count(lens, n - 1, l) == r {
      s := n - 1;
    } else {
      s := SymbolOfRank(lens, n - 1, l, r);
    }
  }

  lemma {:induction false} ShorterMonotone(lens: seq<byte>, i: nat, j: nat)
    requires 1 <= i < j
    ensures Shorter(lens, i) + Total(lens, i) <= Shorter(lens, j)
  {
    if i + 1 == j {
    } else {
      ShorterMonotone(lens, i, j - 1);
    }
  }

  /** All symbols with a length, in table order, fit the table. */
  lemma {:induction false} ShorterBound(lens: seq<byte>, l: nat)
    ensures Shorter(lens, l) <= |lens|
  {
    CountedOnce(lens, |lens|, l);
  }

  ghost function ShorterAmong(lens: seq<byte>, n: nat, l: nat): nat
    requires n <= |lens|
  {
    if l <= 1 then 0 else ShorterAmong(lens, n, l - 1) + Count(lens, n, l - 1)
  }

  lemma {:induction false} CountedOnce(lens: seq<byte>, n: nat, l: nat)
    requires n <= |lens|
    ensures ShorterAmong(lens, n, l) <= n
    ensures n == |lens| ==> ShorterAmong(lens, n, l) == Shorter(lens, l)
  {
    if n == 0 {
      NoneCounted(lens, l);
    } else {
      CountedOnce(lens, n - 1, l);
      OneMore(lens, n, l);
    }
    AmongAll(lens, l);
  }

  lemma {:induction false} NoneCounted(lens: seq<byte>, l: nat)
    ensures ShorterAmong(lens, 0, l) == 0
  {
    if l <= 1 {
    } else {
      NoneCounted(lens, l - 1);
    }
  }

  lemma {:induction false} AmongAll(lens: seq<byte>, l: nat)
    ensures ShorterAmong(lens, |lens|, l) == Shorter(lens, l)
  {
    if l <= 1 {
    } else {
      AmongAll(lens, l - 1);
    }
  }

  lemma {:induction false} OneMore(lens: seq<byte>, n: nat, l: nat)
    requires 1 <= n <= |lens|
    ensures ShorterAmong(lens, n, l) == ShorterAmong(lens, n - 1, l) + (if 1 <= lens[n - 1] < l then 1 else 0)
  {
    if l <= 1 {
    } else {
      OneMore(lens, n, l - 1);
    }
  }

  // ---------- reading a codeword off a value ----------

  /** The length whose slice of the code space holds value, and the rank inside that slice. */
  ghost predicate InSlice(lens: seq<byte>, max: nat, value: nat, l: nat, rank: nat) {
    && 1 <= l <= max && rank < Total(lens, l)
    && Taken(lens, max, l - 1) <= value
    && Shr(value - Taken(lens, max, l - 1), max - l) == rank
  }

  /** Starting with the codeword of s is being in the slice of its length, at its rank. */
  lemma StartsWithExact(lens: seq<byte>, max: nat, value: nat, s: nat)
    requires s < |lens| && 1 <= lens[s] <= max
    ensures StartsWith(lens, max, value, s) <==> InSlice(lens, max, value, lens[s], Count(lens, s, lens[s]))
  {
    var l := lens[s];
    var f, k := FirstCode(lens, l), max - l;
    FirstCodeTaken(lens, max, l);
    RankBelowTotal(lens, s);
    Parts(value, k);
    if StartsWith(lens, max, value, s) {
      ShlLe(f, Shr(value, k), k);
    }
    if value >= Shl(f, k) {
      ShrMinus(value, f, k);
    }
  }

  lemma {:induction false} ShrMinus(x: nat, f: nat, k: nat)
    requires Shl(f, k) <= x
    ensures Shr(x, k) == f + Shr(x - Shl(f, k), k)
  {
    if k == 0 {
    } else {
      assert (x - Shl(f, k)) / 2 == x / 2 - Shl(f, k - 1);
      ShrMinus(x / 2, f, k - 1);
    }
  }

  /** A slice holds exactly the values from the end of the shorter ones to its own end. */
  lemma SliceBounds(lens: seq<byte>, max: nat, value: nat, l: nat)
    requires 1 <= l <= max && Taken(lens, max, l - 1) <= value
    ensures value < Taken(lens, max, l)
       <==> Shr(value - Taken(lens, max, l - 1), max - l) < Total(lens, l)
  {
    var d, k, t := value - Taken(lens, max, l - 1), max - l, Total(lens, l);
    Parts(d, k);
    if Shr(d, k) < t {
      ShlBelowNext(Shr(d, k), t, Low(d, k), k);
    } else {
      ShlLe(t, Shr(d, k), k);
    }
  }

  lemma ShlBelowNext(a: nat, b: nat, low: nat, k: nat)
    requires a < b && low < Pow2(k)
    ensures Shl(a, k) + low < Shl(b, k)
  {
    ShlSum(a, 1, k);
    ShlOne(k);
    ShlLe(a + 1, b, k);
  }

  /** A feasible code's words fit their lengths. */
  lemma CodewordFits(lens: seq<byte>, max: nat, s: nat)
    requires Feasible(lens, max) && s < |lens| && 1 <= lens[s]
    ensures Codeword(lens, s) < Pow2(lens[s])
  {
    TakenIsKraft(lens, max);
    var l := lens[s];
    var t := Total(lens, l);
    RankBelowTotal(lens, s);
    FirstCodeTaken(lens, max, l);
    TakenMonotone(lens, max, l, max);
    ShlSum(FirstCode(lens, l), t, max - l);
    if Pow2(l) < FirstCode(lens, l) + t {
      ShlBelowNext(Pow2(l), FirstCode(lens, l) + t, 0, max - l);
      ShlPow2(l, max - l);
    }
  }

  // ---------- the two in terms of single symbols ----------

  /** Every length fits and every codeword fits its length. */
  ghost predicate CodewordsFit(lens: seq<byte>, max: nat) {
    && (forall s :: 0 <= s < |lens| ==> lens[s] <= max)
    && (forall s :: 0 <= s < |lens| && lens[s] >= 1 ==> Codeword(lens, s) < Pow2(lens[s]))
  }

  /** That is all that the Kraft sum demands. */
  lemma FeasibleExact(lens: seq<byte>, max: nat)
    ensures Feasible(lens, max) <==> CodewordsFit(lens, max)
  {
    if Feasible(lens, max) {
      forall s | 0 <= s < |lens| && lens[s] >= 1 ensures Codeword(lens, s) < Pow2(lens[s]) {
        CodewordFits(lens, max, s);
      }
    }
    if CodewordsFit(lens, max) {
      TakenFits(lens, max, max);
      TakenIsKraft(lens, max);
    }
  }

  /** The last codeword of each length leaves room for all of that length and the shorter ones. */
  lemma {:induction false} TakenFits(lens: seq<byte>, max: nat, i: nat)
    requires i <= max && CodewordsFit(lens, max)
    ensures Taken(lens, max, i) <= Pow2(max)
  {
    if i == 0 {
    } else if Total(lens, i) == 0 {
      TakenFits(lens, max, i - 1);
      ShrZero(max - i);
    } else {
      var s := SymbolOfRank(lens, |lens|, i, Total(lens, i) - 1);
      FirstCodeTaken(lens, max, i);
      ShlSum(FirstCode(lens, i), Total(lens, i), max - i);
      ShlLe(FirstCode(lens, i) + Total(lens, i), Pow2(i), max - i);
      ShlPow2(i, max - i);
    }
  }

  /** The code space of the symbols, among the first n, that come before t: the shorter ones, and those
      of its length with a lower number. */
  ghost function SpaceBefore(lens: seq<byte>, max: nat, t: nat, n: nat): nat
    requires t < |lens| && n <= |lens| && lens[t] <= max
  {
    if n == 0 then 0
    else
      var s := n - 1;
      var before := lens[s] >= 1 && (lens[s] < lens[t] || (lens[s] == lens[t] && s < t));
      SpaceBefore(lens, max, t, n - 1) + if before then Pow2(max - lens[s]) else 0
  }

  /** A codeword begins where the space of the symbols before it ends. */
  lemma CodewordExact(lens: seq<byte>, max: nat, t: nat)
    requires t < |lens| && 1 <= lens[t] <= max
    ensures Shl(Codeword(lens, t), max - lens[t]) == SpaceBefore(lens, max, t, |lens|)
  {
    var l := lens[t];
    SpaceAmong(lens, max, t, |lens|);
    TakenAmongAll(lens, max, l - 1);
    FirstCodeTaken(lens, max, l);
    ShlSum(FirstCode(lens, l), Count(lens, t, l), max - l);
  }

  lemma SpaceOfLength(lens: seq<byte>, units: nat, t: nat, n: nat)
    requires t < |lens| && 1 <= n <= |lens|
    ensures var l := lens[t];
      Shl(Count(lens, if n < t then n else t, l), units)
      == Shl(Count(lens, if n - 1 < t then n - 1 else t, l), units)
         + if lens[n - 1] == l && n <= t then Pow2(units) else 0
  {
    if n <= t && lens[n - 1] == lens[t] {
      ShlSum(Count(lens, n - 1, lens[t]), 1, units);
      ShlOne(units);
    }
  }

  lemma {:induction false} SpaceAmong(lens: seq<byte>, max: nat, t: nat, n: nat)
    requires t < |lens| && n <= |lens| && 1 <= lens[t] <= max
    ensures var l := lens[t];
      SpaceBefore(lens, max, t, n)
      == TakenAmong(lens, max, n, l - 1) + Shl(Count(lens, if n < t then n else t, l), max - l)
  {
    var l := lens[t];
    if n == 0 {
      TakenAmongNone(lens, max, l - 1);
      ShrZero(max - l);
    } else {
      assert SpaceBefore(lens, max, t, n) >= SpaceBefore(lens, max, t, n - 1);
      hide TakenAmong, Pow2, Shl, Count;
      SpaceAmong(lens, max, t, n - 1);
      TakenAmongNext(lens, max, n, l - 1);
      SpaceOfLength(lens, max - l, t, n);
    }
  }
}
