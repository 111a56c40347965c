/** Copying from an unbounded history, byte by byte, as LZ77 means it. */
module Lz77 {
  import opened Words

  /** n times the byte that lies `back` before the end. */
  ghost function Copied(h: seq<byte>, back: nat, n: nat): (r: seq<byte>)
    requires 1 <= back <= |h|
    ensures |r| == |h| + n && h <= r
  {
    if n == 0 then h
    else
      var p := Copied(h, back, n - 1);
      p + [p[|p| - back]]
  }

  lemma CopiedNext(h: seq<byte>, back: nat, n: nat)
    requires 1 <= back <= |h|
    ensures Copied(h, back, 0) == h
    ensures var p := Copied(h, back, n); Copied(h, back, n + 1) == p + [p[|p| - back]]
  {
  }

  /** Where a copy of period `back` is after k bytes. */
  function Phase(k: nat, back: nat): (r: nat)
    requires back >= 1
    ensures r < back
  {
    if k < back then k else Phase(k - back, back)
  }

  lemma {:induction false} PhaseIsMod(k: nat, back: nat)
    requires back >= 1
    ensures Phase(k, back) == k % back
  {
    if k < back {
      QuotientUnique(k, back, 0, k);
    } else {
      PhaseIsMod(k - back, back);
      DivMod(k - back, back);
      QuotientUnique(k, back, (k - back) / back + 1, (k - back) % back);
    }
  }

  lemma {:induction false} CopiedInPhase(h: seq<byte>, back: nat, n: nat, k: nat)
    requires 1 <= back <= |h| && k < n
    ensures Copied(h, back, n)[|h| + k] == h[|h| - back + Phase(k, back)]
    decreases n
  {
    if k < n - 1 {
      CopiedInPhase(h, back, n - 1, k);
    } else if k < back {
      assert Copied(h, back, n - 1)[..|h|] == h;
    } else {
      CopiedInPhase(h, back, n - 1, k - back);
    }
  }

  /** Even when source and destination overlap, the copy repeats the last `back` bytes periodically. */
  lemma CopiedIsPeriodic(h: seq<byte>, back: nat, n: nat, k: nat)
    requires 1 <= back <= |h| && k < n
    ensures 0 <= k % back < back
    ensures Copied(h, back, n)[|h| + k] == h[|h| - back + k % back]
  {
    hide Copied;
    PhaseIsMod(k, back);
    CopiedInPhase(h, back, n, k);
  }
}
