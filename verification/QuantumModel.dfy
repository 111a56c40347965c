/** The self-adjusting frequency model of Quantum: the table in place, and the symbol it decodes. */
module QuantumModel {
  import opened Words
  import opened ByteStreams
  import opened MsbBits
  import opened QuantumRange
  import opened QuantumTables

  class ModelDecoder {
    var numItems: nat
    var reorderCount: nat
    const freqs: array<int>
    const values: array<byte>

    ghost predicate Shape()
      reads this
    {
      freqs.Length == NUM_SYMBOLS_MAX + 1 && values.Length == NUM_SYMBOLS_MAX && 1 <= numItems <= NUM_SYMBOLS_MAX
    }

    ghost function Table(): seq<int>
      requires Shape()
      reads this, freqs
    {
      freqs[..numItems + 1]
    }

    ghost function Alphabet(): seq<byte>
      requires Shape()
      reads this, values
    {
      values[..numItems]
    }

    ghost function State(): Model
      requires Shape()
      reads this, freqs, values
    {
      Model(Table(), Alphabet(), reorderCount)
    }

    ghost predicate Valid()
      reads this, freqs, values
    {
      Shape() && State().Ok()
    }

    constructor ()
      ensures fresh(freqs) && fresh(values)
      ensures freqs.Length == NUM_SYMBOLS_MAX + 1 && values.Length == NUM_SYMBOLS_MAX
    {
      freqs := new int[NUM_SYMBOLS_MAX + 1];
      values := new byte[NUM_SYMBOLS_MAX];
      numItems, reorderCount := 0, 0;
    }

    method Init(numItems: nat)
      requires freqs.Length == NUM_SYMBOLS_MAX + 1 && values.Length == NUM_SYMBOLS_MAX
      requires 1 <= numItems <= NUM_SYMBOLS_MAX
      modifies this, freqs, values
      ensures Valid() && State() == Start(numItems)
      ensures forall i :: 0 <= i < numItems ==> freqs[i] == numItems - i && values[i] == i
      ensures this.numItems == numItems && freqs[numItems] == 0 && reorderCount == 4
    {
      this.numItems := numItems;
      reorderCount := REORDER_COUNT_START;
      for i := 0 to numItems
        invariant this.numItems == numItems && reorderCount == REORDER_COUNT_START
        invariant forall j :: 0 <= j < i ==> freqs[j] == numItems - j && values[j] == j
      {
        freqs[i] := numItems - i;
        values[i] := i;
      }
      freqs[numItems] := 0;
      assert State() == Start(numItems);
      StartOk(numItems);
    }

    /** The first entry at or below the threshold. */
    method Find(threshold: nat) returns (i: nat)
      requires Shape() && IsTable(Table()) && threshold < freqs[0]
      ensures 1 <= i <= numItems && freqs[i] <= threshold < freqs[i - 1]
    {
      i := 1;
      assert freqs[numItems] == 0;
      while freqs[i] > threshold
        invariant 1 <= i <= numItems && threshold < freqs[i - 1]
        decreases numItems - i
      {
        i := i + 1;
      }
    }

    method Bump(k: nat)
      requires Shape() && k < numItems
      modifies freqs
      ensures Table() == Bumped(old(Table()), k)
    {
      var i: nat := k;
      while true
        invariant i <= k
        invariant forall j :: 0 <= j <= numItems ==> freqs[j] == old(freqs[j]) + (if i < j <= k then UPDATE_STEP else 0)
        decreases i
      {
        freqs[i] := freqs[i] + UPDATE_STEP;
        if i == 0 {
          break;
        }
        i := i - 1;
      }
    }

    method Halve()
      requires Shape() && IsTable(Table())
      modifies freqs
      ensures Table() == Halved(old(Table()))
    {
      var i: nat := numItems - 1;
      ghost var f := Table();
      ghost var h := Halved(f);
      while true
        invariant i < numItems
        invariant forall j :: 0 <= j <= i ==> freqs[j] == f[j]
        invariant forall j :: i < j <= numItems ==> freqs[j] == h[j]
        decreases i
      {
        assert h[i] == HalvedAt(f, i) && h[i + 1] == HalvedAt(f, i + 1);
        freqs[i] := freqs[i] / 2;
        if freqs[i] <= freqs[i + 1] {
          freqs[i] := freqs[i + 1] + 1;
        }
        if i == 0 {
          break;
        }
        i := i - 1;
      }
    }

    /** The symbols' own frequencies, with their symbols. */
    ghost function Own(): seq<Share>
      requires Shape()
      reads this, freqs, values
    {
      Paired(freqs[..numItems], Alphabet())
    }

    /** Cumulative frequencies become the symbols' own, halved. */
    method Deaccumulate()
      requires Shape() && IsTable(Table())
      modifies freqs
      ensures Own() == HalfShares(old(Table()), Alphabet()) && freqs[numItems] == 0
    {
      ghost var f := Table();
      for i := 0 to numItems
        invariant forall j :: i <= j <= numItems ==> freqs[j] == f[j]
        invariant forall j :: 0 <= j < i ==> freqs[j] == HalfWeight(f, j)
      {
        freqs[i] := (freqs[i] - freqs[i + 1] + 1) / 2;
      }
    }

    /** The exchange sort, largest frequency first, values moving along. */
    method Sort()
      requires Shape()
      modifies freqs, values
      ensures Own() == Sorted(old(Own()), 0) && freqs[numItems] == old(freqs[numItems])
    {
      ghost var own := Own();
      for i := 0 to numItems - 1
        invariant Sorted(Own(), i) == Sorted(own, 0) && freqs[numItems] == old(freqs[numItems])
      {
        SelectLargest(i);
      }
    }

    /** The inner loop of the sort. */
    method SelectLargest(i: nat)
      requires Shape() && i + 1 < numItems
      modifies freqs, values
      ensures Own() == Pass(old(Own()), i, i + 1) && freqs[numItems] == old(freqs[numItems])
    {
      ghost var own := Own();
      for j := i + 1 to numItems
        invariant Pass(Own(), i, j) == Pass(own, i, i + 1) && freqs[numItems] == old(freqs[numItems])
      {
        if freqs[i] < freqs[j] {
          Exchange(i, j);
        }
      }
    }

    method Exchange(i: nat, j: nat)
      requires Shape() && i < j < numItems
      modifies freqs, values
      ensures Own() == old(Own())[i := old(Own())[j]][j := old(Own())[i]]
      ensures freqs[numItems] == old(freqs[numItems])
    {
      var tmpFreq := freqs[i];
      var tmpVal := values[i];
      freqs[i] := freqs[j];
      values[i] := values[j];
      freqs[j] := tmpFreq;
      values[j] := tmpVal;
    }

    /** The symbols' own frequencies become cumulative again. */
    method Accumulate()
      requires Shape() && freqs[numItems] == 0
      modifies freqs
      ensures Table() == Cumulated(old(Own())) && Alphabet() == Letters(old(Own()))
    {
      hide Total;
      ghost var own := Own();
      ghost var f := Cumulated(own);
      var i: nat := numItems - 1;
      CumulatedStep(own, i);
      while true
        invariant i < numItems
        invariant forall j :: 0 <= j <= i ==> freqs[j] == own[j].weight
        invariant forall j :: i < j <= numItems ==> freqs[j] == f[j]
        decreases i
      {
        CumulatedStep(own, i);
        freqs[i] := freqs[i] + freqs[i + 1];
        if i == 0 {
          break;
        }
        i := i - 1;
      }
      assert Table() == f;
      assert Alphabet() == Letters(own);
    }

    /** Sorting by own frequency: every symbol keeps half its share, rounded up. */
    method Reorder()
      requires Shape() && IsTable(Table())
      modifies freqs, values
      ensures Table() == Cumulated(Reordered(old(Table()), old(Alphabet())))
      ensures Alphabet() == Letters(Reordered(old(Table()), old(Alphabet())))
    {
      Deaccumulate();
      Sort();
      Accumulate();
    }

    method Rescale()
      requires Shape() && IsTable(Table()) && reorderCount >= 1
      modifies this`reorderCount, freqs, values
      ensures State() == Rescaled(old(State()))
    {
      hide Halved, Reordered, Letters, Cumulated, IsTable;
      reorderCount := reorderCount - 1;
      if reorderCount == 0 {
        reorderCount := REORDER_COUNT;
        Reorder();
      } else {
        Halve();
      }
    }

    method Adapt(k: nat)
      requires Valid() && k < numItems
      modifies this`reorderCount, freqs, values
      ensures Valid() && State() == Next(old(State()), k)
      ensures Adapted(old(freqs[..numItems + 1]), old(values[..numItems]), old(reorderCount), k,
        freqs[..numItems + 1], values[..numItems], reorderCount)
    {
      NextIs(State(), k);
      hide Halved, Reordered, Letters, Cumulated, IsTable, Rescaled, Adapted;
      NextOk(State(), k);
      BumpedIsTable(Table(), k);
      Bump(k);
      if freqs[0] > FREQ_SUM_MAX {
        Rescale();
      }
    }

    /** The search for the threshold, and the interval narrowed to the share found. */
    method DecodeIndex(rangeDecoder: Decoder) returns (i: nat)
      requires Valid() && rangeDecoder.Valid()
      modifies rangeDecoder, rangeDecoder.stream
      ensures rangeDecoder.Valid() && 1 <= i <= numItems
      ensures old(InShare(rangeDecoder.State(), Table(), i - 1))
      ensures rangeDecoder.State() == old(NarrowTo(rangeDecoder.State(), Table(), i - 1))
      ensures var lower, upper :=
          old(freqs[i] * rangeDecoder.range / freqs[0]), old(freqs[i - 1] * rangeDecoder.range / freqs[0]);
        SettledOn(old(rangeDecoder.State()), lower, upper - lower, rangeDecoder.State())
      ensures OnlyShare(old(rangeDecoder.State()), Table(), i - 1, rangeDecoder.stream.source)
    {
      hide OnlyShare, Narrow, SettledOn;
      ghost var w, f := rangeDecoder.State(), Table();
      TableLimits(f);
      ThresholdBelowTotal(rangeDecoder.code, rangeDecoder.range, freqs[0]);
      var threshold := rangeDecoder.GetThreshold(freqs[0]);
      i := Find(threshold);
      ThresholdFindsShare(w, f, i - 1, rangeDecoder.stream.source);
      assert f[i] == freqs[i] && f[i - 1] == freqs[i - 1] && f[0] == freqs[0];
      rangeDecoder.Decode(freqs[i], freqs[i - 1], freqs[0]);
    }

    /** On every stream: the symbol is the one whose share holds the stream, the interval narrows to
        that share, and the model moves as that symbol demands. */
    method Decode(rangeDecoder: Decoder) returns (res: byte, ghost k: nat)
      requires Valid() && rangeDecoder.Valid()
      modifies this`reorderCount, freqs, values, rangeDecoder, rangeDecoder.stream
      ensures Valid() && rangeDecoder.Valid()
      ensures k < numItems && res == old(values[k])
      ensures old(InShare(rangeDecoder.State(), Table(), k))
      ensures rangeDecoder.State() == old(NarrowTo(rangeDecoder.State(), Table(), k))
      ensures var lower, upper :=
          old(freqs[k + 1] * rangeDecoder.range / freqs[0]), old(freqs[k] * rangeDecoder.range / freqs[0]);
        SettledOn(old(rangeDecoder.State()), lower, upper - lower, rangeDecoder.State())
      ensures State() == Next(old(State()), k)
      ensures Adapted(old(freqs[..numItems + 1]), old(values[..numItems]), old(reorderCount), k,
        freqs[..numItems + 1], values[..numItems], reorderCount)
      ensures OnlyShare(old(rangeDecoder.State()), old(Table()), k, rangeDecoder.stream.source)
    {
      hide OnlyShare, InShare, NarrowTo, Next, IsTable, Adapted, SettledOn;
      var i := DecodeIndex(rangeDecoder);
      k := i - 1;
      res := values[i - 1];
      Adapt(i - 1);
    }

    static lemma TableLimits(f: seq<int>)
      requires IsTable(f) && |f| >= 2
      ensures f[0] > 0 && forall i :: 0 <= i < |f| ==> 0 <= f[i] <= f[0]
    {
      assert f[|f| - 1] == 0;
    }
  }

  /** Symbol k's share of the interval is not empty. */
  ghost predicate InShare(w: Span, f: seq<int>, k: nat)
  {
    && IsTable(f) && k < |f| - 1 && w.Ok()
    && f[k + 1] >= 0 && f[k] <= f[0]
    && Part(w.range, f[k + 1], f[0]) < Part(w.range, f[k], f[0])
  }

  ghost function NarrowTo(w: Span, f: seq<int>, k: nat): Span
    requires InShare(w, f, k)
  {
    Narrow(w, f[k + 1], f[k], f[0])
  }

  /** A stream that was narrowed to some share was narrowed to share k. */
  ghost predicate OnlyShare(w: Span, f: seq<int>, k: nat, s: Source) {
    forall j: nat :: InShare(w, f, j) && NarrowTo(w, f, j).Holds(s) ==> j == k
  }

  lemma ThresholdFindsShare(w: Span, f: seq<int>, k: nat, s: Source)
    requires IsTable(f) && w.Ok() && w.Holds(s) && k < |f| - 1
    requires f[k + 1] <= Threshold(Prefix(s, w.bits) - w.base, w.range, f[0]) < f[k]
    ensures InShare(w, f, k)
    ensures OnlyShare(w, f, k, s)
  {
    assert f[|f| - 1] == 0;
    ThresholdPicks(w, s, f[k + 1], f[k], f[0]);
    forall j: nat | InShare(w, f, j) && NarrowTo(w, f, j).Holds(s) ensures j == k {
      NarrowHolds(w, s, f[j + 1], f[j], f[0]);
    }
  }

  /** In a settled interval every symbol of every model has a share. */
  lemma EveryShare(w: Span, m: Model, k: nat)
    requires w.Ok() && w.range >= 0x4002 && m.Ok() && k < |m.alphabet|
    ensures InShare(w, m.table, k)
  {
    var f := m.table;
    assert f[|f| - 1] == 0 && f[k] > f[k + 1];
    PartStrict(w.range, f[k + 1], f[k], f[0]);
  }

  lemma PartStrict(range: nat, a: nat, b: nat, total: nat)
    requires a < b && 1 <= total <= range
    ensures Part(range, a, total) < Part(range, b, total)
  {
    PartNonNegative(range, a, total);
    MulLe(a + 1, b, range);
    var q := a * range / total;
    DivMod(a * range, total);
    assert (q + 1) * total <= b * range;
    DivLt(b * range, q + 1, total);
  }
}
