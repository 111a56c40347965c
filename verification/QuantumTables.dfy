/** The frequency tables of Quantum as values: cumulative frequencies that are bumped, halved, and now
    and then sorted, and that stay strictly decreasing through all of it. */
module QuantumTables {
  import opened Words

  const UPDATE_STEP := 8
  const FREQ_SUM_MAX := 3800
  const REORDER_COUNT_START := 4
  const REORDER_COUNT := 50
  const NUM_SYMBOLS_MAX := 64

  // ---------- cumulative frequency tables ----------

  /** n + 1 cumulative frequencies, strictly decreasing to zero: every symbol has a nonempty share. */
  ghost predicate IsTable(f: seq<int>) {
    |f| >= 1 && f[|f| - 1] == 0 && forall i, j :: 0 <= i < j < |f| ==> f[i] > f[j]
  }

  /** Halving from the right: half the entry, but at least one more than the new right neighbour. */
  ghost function HalvedAt(f: seq<int>, i: nat): int
    requires i < |f|
    decreases |f| - i
  {
    if i == |f| - 1 then f[i]
    else if f[i] / 2 <= HalvedAt(f, i + 1) then HalvedAt(f, i + 1) + 1
    else f[i] / 2
  }

  ghost function Halved(f: seq<int>): (h: seq<int>)
    ensures |h| == |f| && forall i :: 0 <= i < |f| ==> h[i] == HalvedAt(f, i)
  {
    seq(|f|, i requires 0 <= i < |f| => HalvedAt(f, i))
  }

  ghost predicate AboveHalf(g: seq<int>, f: seq<int>) {
    IsTable(g) && |g| == |f| && forall j :: 0 <= j < |f| ==> g[j] >= f[j] / 2
  }

  lemma {:induction false} HalvedBounds(f: seq<int>, i: nat)
    requires IsTable(f) && i < |f|
    ensures f[i] / 2 <= HalvedAt(f, i) <= f[i] / 2 + (|f| - 1 - i)
    ensures i + 1 < |f| ==> HalvedAt(f, i) > HalvedAt(f, i + 1)
    decreases |f| - i
  {
    if i + 1 == |f| {
    } else {
      HalvedBounds(f, i + 1);
      assert f[i] > f[i + 1];
    }
  }

  lemma {:induction false} HalvedDecreases(f: seq<int>, i: nat, j: nat)
    requires IsTable(f) && i < j < |f|
    ensures HalvedAt(f, i) > HalvedAt(f, j)
    decreases j - i
  {
    HalvedBounds(f, i);
    if i + 1 == j {
    } else {
      HalvedDecreases(f, i + 1, j);
    }
  }

  lemma HalvedIsTable(f: seq<int>)
    requires IsTable(f)
    ensures IsTable(Halved(f))
    ensures Halved(f)[0] <= f[0] / 2 + (|f| - 1)
  {
    forall i, j | 0 <= i < j < |f| ensures Halved(f)[i] > Halved(f)[j] {
      HalvedDecreases(f, i, j);
    }
    HalvedBounds(f, 0);
  }

  /** The halving pass gives the least table that lies above half the old one. */
  lemma HalvedIsLeastTable(f: seq<int>)
    requires IsTable(f)
    ensures AboveHalf(Halved(f), f)
    ensures forall g, i :: AboveHalf(g, f) && 0 <= i < |f| ==> Halved(f)[i] <= g[i]
  {
    HalvedIsTable(f);
    forall i: nat | i < |f| ensures HalvedAt(f, i) >= f[i] / 2 {
      HalvedBounds(f, i);
    }
    forall g, i | AboveHalf(g, f) && 0 <= i < |f| ensures Halved(f)[i] <= g[i] {
      HalvedBelow(f, g, i);
    }
  }

  lemma {:induction false} HalvedBelow(f: seq<int>, g: seq<int>, i: nat)
    requires IsTable(f) && AboveHalf(g, f) && i < |f|
    ensures HalvedAt(f, i) <= g[i]
    decreases |f| - i
  {
    if i + 1 == |f| {
    } else {
      HalvedBelow(f, g, i + 1);
      assert g[i] > g[i + 1];
    }
  }

  /** Adding the step to the first k + 1 entries. */
  ghost function Bumped(f: seq<int>, k: nat): (b: seq<int>)
    ensures |b| == |f|
    ensures forall i :: 0 <= i < |f| ==> b[i] == f[i] + (if i <= k then UPDATE_STEP else 0)
  {
    seq(|f|, i requires 0 <= i < |f| => f[i] + (if i <= k then UPDATE_STEP else 0))
  }

  lemma BumpedIsTable(f: seq<int>, k: nat)
    requires IsTable(f) && k < |f| - 1
    ensures IsTable(Bumped(f, k))
  {
  }

  // ---------- shares ----------

  /** A symbol and its own frequency. */
  datatype Share = Share(value: byte, weight: int)

  ghost function HalfWeight(f: seq<int>, i: nat): int
    requires i + 1 < |f|
  {
    (f[i] - f[i + 1] + 1) / 2
  }

  /** The shares of a reordered table: halved, rounding up. */
  ghost function HalfShares(f: seq<int>, v: seq<byte>): (s: seq<Share>)
    requires |f| == |v| + 1
    ensures |s| == |v| && forall i :: 0 <= i < |v| ==> s[i] == Share(v[i], HalfWeight(f, i))
  {
    seq(|v|, i requires 0 <= i < |v| => Share(v[i], HalfWeight(f, i)))
  }

  ghost function Paired(w: seq<int>, v: seq<byte>): (s: seq<Share>)
    requires |w| == |v|
    ensures |s| == |v| && forall i :: 0 <= i < |v| ==> s[i] == Share(v[i], w[i])
  {
    seq(|v|, i requires 0 <= i < |v| => Share(v[i], w[i]))
  }

  ghost predicate NonIncreasing(s: seq<Share>) {
    forall i, j :: 0 <= i < j < |s| ==> s[i].weight >= s[j].weight
  }

  ghost function Total(s: seq<Share>): int {
    if s == [] then 0 else s[0].weight + Total(s[1..])
  }

  lemma {:induction false} TotalWithout(s: seq<Share>, k: nat)
    requires k < |s|
    ensures Total(s) == s[k].weight + Total(s[..k] + s[k + 1..])
  {
    var rest := s[..k] + s[k + 1..];
    if k == 0 {
      assert rest == s[1..];
    } else {
      TotalWithout(s[1..], k - 1);
      assert s[1..][..k - 1] + s[1..][k..] == rest[1..];
    }
  }

  lemma RemoveOne(s: seq<Share>, k: nat)
    requires k < |s|
    ensures multiset(s[..k] + s[k + 1..]) == multiset(s) - multiset{s[k]}
  {
    assert s == s[..k] + [s[k]] + s[k + 1..];
  }

  lemma IndexOf(s: seq<Share>, x: Share) returns (k: nat)
    requires x in multiset(s)
    ensures k < |s| && s[k] == x
  {
    k :| 0 <= k < |s| && s[k] == x;
  }

  lemma Matched(s: seq<Share>, t: seq<Share>) returns (k: nat)
    requires |s| == |t| && multiset(s) == multiset(t) && s != []
    ensures k < |t| && t[k] == s[0] && multiset(s[1..]) == multiset(t[..k] + t[k + 1..])
  {
    assert s[0] in multiset(s);
    k := IndexOf(t, s[0]);
    assert multiset(s[1..]) == multiset(s) - multiset{s[0]} by {
      RemoveOne(s, 0);
      assert s[..0] + s[1..] == s[1..];
    }
    RemoveOne(t, k);
  }

  lemma {:induction false} TotalOfPermutation(s: seq<Share>, t: seq<Share>)
    requires |s| == |t| && multiset(s) == multiset(t)
    ensures Total(s) == Total(t)
  {
    if s == [] {
    } else {
      assert Total(s) == s[0].weight + Total(s[1..]);
      hide Total;
      var k := Matched(s, t);
      TotalOfPermutation(s[1..], t[..k] + t[k + 1..]);
      TotalWithout(t, k);
    }
  }

  lemma {:induction false} TotalOfHalfShares(f: seq<int>, v: seq<byte>)
    requires |f| == |v| + 1
    ensures 2 * Total(HalfShares(f, v)) <= f[0] - f[|v|] + |v|
    decreases |v|
  {
    if v == [] {
    } else {
      TotalOfHalfShares(f[1..], v[1..]);
      assert HalfShares(f, v)[1..] == HalfShares(f[1..], v[1..]);
      assert HalfShares(f, v)[0].weight == HalfWeight(f, 0);
    }
  }

  lemma {:induction false} StepsMakeTable(f: seq<int>, i: nat, j: nat)
    requires i < j < |f| && forall k :: 0 <= k < |f| - 1 ==> f[k] > f[k + 1]
    ensures f[i] > f[j]
    decreases j - i
  {
    if i + 1 == j {
    } else {
      StepsMakeTable(f, i + 1, j);
    }
  }

  ghost function Identity(n: nat): (v: seq<byte>)
    requires n <= NUM_SYMBOLS_MAX
    ensures |v| == n && forall i :: 0 <= i < n ==> v[i] == i
  {
    seq(n, i requires 0 <= i < n => i)
  }

  // ---------- the exchange sort ----------

  ghost function Exchanged(s: seq<Share>, i: nat, j: nat): (r: seq<Share>)
    requires i < j < |s|
    ensures |r| == |s|
  {
    if s[i].weight < s[j].weight then s[i := s[j]][j := s[i]] else s
  }

  /** The inner loop: entry i meets all entries from j on. */
  ghost function Pass(s: seq<Share>, i: nat, j: nat): (r: seq<Share>)
    requires i < j
    ensures |r| == |s|
    decreases |s| - j
  {
    if j < |s| then Pass(Exchanged(s, i, j), i, j + 1) else s
  }

  ghost function Sorted(s: seq<Share>, i: nat): (r: seq<Share>)
    ensures |r| == |s|
    decreases |s| - i
  {
    if i + 1 < |s| then Sorted(Pass(s, i, i + 1), i + 1) else s
  }

  ghost function Letters(s: seq<Share>): (v: seq<byte>)
    ensures |v| == |s| && forall i :: 0 <= i < |s| ==> v[i] == s[i].value
  {
    seq(|s|, i requires 0 <= i < |s| => s[i].value)
  }

  ghost predicate Permutes(s: seq<Share>, t: seq<Share>) {
    |s| == |t| && multiset(s) == multiset(t) && multiset(Letters(s)) == multiset(Letters(t))
  }

  /** The first i entries are in order, and none of the others is larger. */
  ghost predicate SortedUpTo(s: seq<Share>, i: nat) {
    forall a, b :: 0 <= a < i && a < b < |s| ==> s[a].weight >= s[b].weight
  }

  lemma ExchangePermutes(s: seq<Share>, i: nat, j: nat)
    requires i < j < |s|
    ensures Permutes(s, Exchanged(s, i, j))
  {
    assert Letters(s[i := s[j]][j := s[i]]) == Letters(s)[i := Letters(s)[j]][j := Letters(s)[i]];
  }

  /** Entry i is no smaller than those between i and j. */
  ghost predicate LargestUpTo(s: seq<Share>, i: nat, j: nat)
    requires i < |s|
  {
    forall b :: i < b < j && b < |s| ==> s[i].weight >= s[b].weight
  }

  lemma ExchangeSelects(s: seq<Share>, i: nat, j: nat)
    requires i < j < |s| && SortedUpTo(s, i) && LargestUpTo(s, i, j)
    ensures SortedUpTo(Exchanged(s, i, j), i) && LargestUpTo(Exchanged(s, i, j), i, j + 1)
  {
  }

  lemma {:induction false} PassSelects(s: seq<Share>, i: nat, j: nat)
    requires i < j && i < |s| && SortedUpTo(s, i) && LargestUpTo(s, i, j)
    ensures Permutes(s, Pass(s, i, j)) && SortedUpTo(Pass(s, i, j), i + 1)
    decreases |s| - j
  {
    hide Exchanged, Letters;
    if j >= |s| {
    } else {
      ExchangePermutes(s, i, j);
      ExchangeSelects(s, i, j);
      PassSelects(Exchanged(s, i, j), i, j + 1);
    }
  }

  /** The sort sorts. */
  lemma {:induction false} SortedIsSorted(s: seq<Share>, i: nat)
    requires SortedUpTo(s, i)
    ensures Permutes(s, Sorted(s, i)) && NonIncreasing(Sorted(s, i))
    decreases |s| - i
  {
    hide Pass, Letters;
    if i + 1 >= |s| {
    } else {
      PassSelects(s, i, i + 1);
      SortedIsSorted(Pass(s, i, i + 1), i + 1);
    }
  }

  // ---------- which of several equal ones ----------

  /** The first of the largest among entries i to j. */
  ghost function FirstLargest(s: seq<Share>, i: nat, j: nat): (m: nat)
    requires i < j <= |s|
    ensures i <= m < j
    ensures forall b :: i <= b < m ==> s[b].weight < s[m].weight
    ensures forall b :: m <= b < j ==> s[b].weight <= s[m].weight
  {
    if j == i + 1 then i
    else
      var m := FirstLargest(s, i, j - 1);
      if s[j - 1].weight > s[m].weight then j - 1 else m
  }

  /** What a pass leaves at entry b: a larger one than all before it takes the lead, and the former
      leader its place. */
  ghost function Left(s: seq<Share>, i: nat, b: nat): Share
    requires i < b < |s|
  {
    var m := FirstLargest(s, i, b);
    if s[b].weight > s[m].weight then s[m] else s[b]
  }

  /** A pass that has come to entry j. */
  ghost predicate Passed(s: seq<Share>, t: seq<Share>, i: nat, j: nat)
    requires i < j <= |s|
  {
    && |t| == |s| && t[i] == s[FirstLargest(s, i, j)]
    && (forall b :: 0 <= b < i || j <= b < |s| ==> t[b] == s[b])
    && (forall b :: i < b < j ==> t[b] == Left(s, i, b))
  }

  lemma PassedNext(s: seq<Share>, t: seq<Share>, i: nat, j: nat)
    requires i < j < |s| && Passed(s, t, i, j)
    ensures Passed(s, Exchanged(t, i, j), i, j + 1)
  {
    var r := Exchanged(t, i, j);
    assert r[i] == s[FirstLargest(s, i, j + 1)] && r[j] == Left(s, i, j);
    hide FirstLargest, Left;
    assert forall b :: 0 <= b < |s| && b != i && b != j ==> r[b] == t[b];
  }

  lemma {:induction false} PassFrom(s: seq<Share>, t: seq<Share>, i: nat, j: nat)
    requires i < j <= |s| && Passed(s, t, i, j)
    ensures Passed(s, Pass(t, i, j), i, |s|)
    decreases |s| - j
  {
    if j == |s| {
    } else {
      hide Passed, Exchanged;
      PassedNext(s, t, i, j);
      PassFrom(s, Exchanged(t, i, j), i, j + 1);
    }
  }

  /** The inner loop moves the first of the largest to entry i, and every earlier leader to where it
      was overtaken. */
  lemma PassExact(s: seq<Share>, i: nat)
    requires i < |s|
    ensures Pass(s, i, i + 1)[..i] == s[..i]
    ensures Pass(s, i, i + 1)[i] == s[FirstLargest(s, i, |s|)]
    ensures forall b :: i < b < |s| ==> Pass(s, i, i + 1)[b] == Left(s, i, b)
  {
    PassFrom(s, s, i, i + 1);
  }

  /** Own frequencies become cumulative again. */
  ghost function Cumulated(s: seq<Share>): (f: seq<int>)
    ensures |f| == |s| + 1 && forall i :: 0 <= i <= |s| ==> f[i] == Total(s[i..])
  {
    seq(|s| + 1, i requires 0 <= i <= |s| => Total(s[i..]))
  }

  lemma CumulatedStep(s: seq<Share>, i: nat)
    requires i < |s|
    ensures Cumulated(s)[i] == s[i].weight + Cumulated(s)[i + 1]
    ensures Cumulated(s)[|s|] == 0
  {
    assert s[i..][1..] == s[i + 1..];
  }

  lemma CumulatedIsTable(s: seq<Share>)
    requires forall i :: 0 <= i < |s| ==> s[i].weight >= 1
    ensures IsTable(Cumulated(s)) && Cumulated(s)[0] == Total(s)
  {
    var f := Cumulated(s);
    assert s[0..] == s;
    forall a, b | 0 <= a < b < |f| ensures f[a] > f[b] {
      forall k | 0 <= k < |f| - 1 ensures f[k] > f[k + 1] {
        CumulatedStep(s, k);
      }
      StepsMakeTable(f, a, b);
    }
  }

  // ---------- the whole model as a value ----------

  datatype Model = Model(table: seq<int>, alphabet: seq<byte>, count: nat) {
    ghost predicate Shape() {
      1 <= |alphabet| <= NUM_SYMBOLS_MAX && |table| == |alphabet| + 1 && IsTable(table)
    }

    /** What holds before every decoded symbol. */
    ghost predicate Ok() {
      && Shape() && table[0] <= FREQ_SUM_MAX && count >= 1
      && multiset(alphabet) == multiset(Identity(|alphabet|))
    }
  }

  ghost function Start(numItems: nat): Model
    requires numItems <= NUM_SYMBOLS_MAX
  {
    Model(seq(numItems + 1, i requires 0 <= i <= numItems => numItems - i), Identity(numItems), REORDER_COUNT_START)
  }

  ghost function Reordered(f: seq<int>, v: seq<byte>): (s: seq<Share>)
    requires |f| == |v| + 1
    ensures |s| == |v|
  {
    Sorted(HalfShares(f, v), 0)
  }

  /** A table whose sum has grown too large is halved, or, every fiftieth time, sorted. */
  ghost function Rescaled(m: Model): Model
    requires |m.table| == |m.alphabet| + 1 && m.count >= 1
  {
    if m.count != 1 then Model(Halved(m.table), m.alphabet, m.count - 1)
    else
      var s := Reordered(m.table, m.alphabet);
      Model(Cumulated(s), Letters(s), REORDER_COUNT)
  }

  /** What decoding the symbol at place k does to the model. */
  ghost function Next(m: Model, k: nat): Model
    requires |m.table| == |m.alphabet| + 1 && m.count >= 1
  {
    var bumped := m.(table := Bumped(m.table, k));
    if bumped.table[0] > FREQ_SUM_MAX then Rescaled(bumped) else bumped
  }

  lemma StartOk(numItems: nat)
    requires 1 <= numItems <= NUM_SYMBOLS_MAX
    ensures Start(numItems).Ok()
  {
  }

  /** Sorting keeps half of every share, rounded up, and hence about half the sum. */
  lemma ReorderedIsTable(f: seq<int>, v: seq<byte>)
    requires |f| == |v| + 1 && IsTable(f)
    ensures var s := Reordered(f, v);
      && IsTable(Cumulated(s)) && 2 * Cumulated(s)[0] <= f[0] + |v|
      && NonIncreasing(s) && multiset(s) == multiset(HalfShares(f, v)) && multiset(Letters(s)) == multiset(v)
  {
    var h, s := HalfShares(f, v), Reordered(f, v);
    SortedIsSorted(h, 0);
    assert Letters(h) == v;
    forall i | 0 <= i < |s| ensures s[i].weight >= 1 {
      assert s[i] in multiset(h);
      var j := IndexOf(h, s[i]);
      assert f[j] > f[j + 1];
    }
    CumulatedIsTable(s);
    TotalOfPermutation(s, h);
    TotalOfHalfShares(f, v);
  }

  /** The invariant over all runs: every symbol keeps a nonempty share of a sum that fits, and the
      alphabet stays a permutation. */
  lemma NextOk(m: Model, k: nat)
    requires m.Ok() && k < |m.alphabet|
    ensures Next(m, k).Ok() && |Next(m, k).alphabet| == |m.alphabet|
  {
    var f := Bumped(m.table, k);
    BumpedIsTable(m.table, k);
    if f[0] > FREQ_SUM_MAX {
      if m.count != 1 {
        HalvedIsTable(f);
      } else {
        ReorderedIsTable(f, m.alphabet);
      }
    }
  }

  // ---------- what one decoded symbol does, in plain numbers ----------

  /** The symbol at place k has 8 more, every other one what it had. */
  ghost predicate OneGrew(f: seq<int>, f': seq<int>, k: nat) {
    && |f'| == |f| && f' != [] && f'[|f| - 1] == 0
    && forall i :: 0 <= i < |f| - 1 ==> f'[i] - f'[i + 1] == f[i] - f[i + 1] + if i == k then 8 else 0
  }

  /** Strictly decreasing to 0, and at least half of f after the 8 more for place k. */
  ghost predicate FitsHalf(g: seq<int>, f: seq<int>, k: nat) {
    && |g| == |f| && g != [] && g[|g| - 1] == 0
    && (forall i, j :: 0 <= i < j < |g| ==> g[i] > g[j])
    && forall j :: 0 <= j < |f| ==> g[j] >= (f[j] + if j <= k then 8 else 0) / 2
  }

  ghost predicate LeastFittingHalf(f: seq<int>, f': seq<int>, k: nat) {
    FitsHalf(f', f, k) && forall g, j :: FitsHalf(g, f, k) && 0 <= j < |f| ==> f'[j] <= g[j]
  }

  /** Own frequencies are in order, and every symbol has half of its own, rounded up, after the 8 more
      for place k. */
  ghost predicate SortedHalf(f: seq<int>, v: seq<byte>, f': seq<int>, v': seq<byte>, k: nat) {
    && |f'| == |f| == |v| + 1 && |v'| == |v| && f'[|v|] == 0
    && multiset(v') == multiset(v)
    && (forall i :: 0 <= i < |v| - 1 ==> f'[i] - f'[i + 1] >= f'[i + 1] - f'[i + 2])
    && forall i :: 0 <= i < |v| ==> HasHalf(f, v, f', v', k, i)
  }

  ghost predicate HasHalf(f: seq<int>, v: seq<byte>, f': seq<int>, v': seq<byte>, k: nat, i: nat)
    requires |f'| == |f| == |v| + 1 && |v'| == |v| && i < |v|
  {
    exists j :: 0 <= j < |v'| && v'[j] == v[i]
      && f'[j] - f'[j + 1] == (f[i] - f[i + 1] + (if i == k then 8 else 0) + 1) / 2
  }

  /** What the table, the letters and the count become. */
  ghost predicate Adapted(f: seq<int>, v: seq<byte>, count: nat, k: nat, f': seq<int>, v': seq<byte>, count': nat)
    requires f != []
  {
    if f[0] + 8 <= 3800 then OneGrew(f, f', k) && v' == v && count' == count
    else if count != 1 then LeastFittingHalf(f, f', k) && v' == v && count' == count - 1
    else SortedHalf(f, v, f', v', k) && count' == 50
  }

  lemma NextIs(m: Model, k: nat)
    requires m.Ok() && k < |m.alphabet|
    ensures var n := Next(m, k); Adapted(m.table, m.alphabet, m.count, k, n.table, n.alphabet, n.count)
  {
    var f := Bumped(m.table, k);
    BumpedIsTable(m.table, k);
    if f[0] > FREQ_SUM_MAX {
      if m.count != 1 {
        HalvedFits(m.table, k);
      } else {
        ReorderedFits(m.table, m.alphabet, k);
      }
    }
  }

  lemma HalvedFits(f: seq<int>, k: nat)
    requires IsTable(f) && k < |f| - 1
    ensures LeastFittingHalf(f, Halved(Bumped(f, k)), k)
  {
    var b := Bumped(f, k);
    BumpedIsTable(f, k);
    HalvedIsLeastTable(b);
    hide Halved;
    assert FitsHalf(Halved(b), f, k);
    forall g, j | FitsHalf(g, f, k) && 0 <= j < |f| ensures Halved(b)[j] <= g[j] {
      assert AboveHalf(g, b);
    }
  }

  lemma ReorderedFits(f: seq<int>, v: seq<byte>, k: nat)
    requires IsTable(f) && |f| == |v| + 1 && k < |v|
    ensures var s := Reordered(Bumped(f, k), v);
      SortedHalf(f, v, Cumulated(s), Letters(s), k)
  {
    var b := Bumped(f, k);
    BumpedIsTable(f, k);
    ReorderedIsTable(b, v);
    hide Reordered, IsTable, Total, HasHalf, Cumulated, Letters, NonIncreasing, HalfShares, Bumped;
    var s := Reordered(b, v);
    OwnInOrder(s);
    forall i: nat | i < |v| ensures HasHalf(f, v, Cumulated(s), Letters(s), k, i) {
      HalfKept(f, v, k, s, i);
    }
  }

  lemma OwnFrequencies(s: seq<Share>)
    ensures Cumulated(s)[|s|] == 0
    ensures forall i :: 0 <= i < |s| ==> Cumulated(s)[i] - Cumulated(s)[i + 1] == s[i].weight
  {
    forall i: nat | i < |s| ensures Cumulated(s)[i] - Cumulated(s)[i + 1] == s[i].weight {
      CumulatedStep(s, i);
    }
  }

  lemma OwnInOrder(s: seq<Share>)
    requires NonIncreasing(s)
    ensures var f := Cumulated(s);
      f[|s|] == 0 && forall i :: 0 <= i < |s| - 1 ==> f[i] - f[i + 1] >= f[i + 1] - f[i + 2]
  {
    OwnFrequencies(s);
    forall i | 0 <= i < |s| - 1
      ensures Cumulated(s)[i] - Cumulated(s)[i + 1] >= Cumulated(s)[i + 1] - Cumulated(s)[i + 2]
    {
      assert s[i].weight >= s[i + 1].weight;
    }
  }

  lemma HalfOf(f: seq<int>, v: seq<byte>, k: nat, i: nat)
    requires |f| == |v| + 1 && k < |v| && i < |v|
    ensures HalfShares(Bumped(f, k), v)[i] == Share(v[i], (f[i] - f[i + 1] + (if i == k then 8 else 0) + 1) / 2)
  {
  }

  lemma HalfAt(f: seq<int>, v: seq<byte>, k: nat, s: seq<Share>, i: nat, j: nat)
    requires |f| == |v| + 1 == |s| + 1 && i < |v| && j < |s|
    requires s[j] == Share(v[i], (f[i] - f[i + 1] + (if i == k then 8 else 0) + 1) / 2)
    ensures HasHalf(f, v, Cumulated(s), Letters(s), k, i)
  {
    CumulatedStep(s, j);
    hide Total;
    assert Letters(s)[j] == v[i];
  }

  lemma HalfKept(f: seq<int>, v: seq<byte>, k: nat, s: seq<Share>, i: nat)
    requires |f| == |v| + 1 && k < |v| && i < |v|
    requires |s| == |v| && multiset(s) == multiset(HalfShares(Bumped(f, k), v))
    ensures HasHalf(f, v, Cumulated(s), Letters(s), k, i)
  {
    var h := HalfShares(Bumped(f, k), v);
    HalfOf(f, v, k, i);
    hide HalfShares, Bumped, HasHalf, Cumulated, Letters;
    assert h[i] in multiset(s);
    var j := IndexOf(s, h[i]);
    HalfAt(f, v, k, s, i, j);
  }
}
