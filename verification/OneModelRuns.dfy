/** Runs of the adaptive coder with one model: whether its single conditional shift keeps Range wide. */
module OneModelRuns {
  import opened Words
  import opened RangeIntervals
  import opened RangeCoderBit

  /** The coder's Range and the model's Prob. */
  datatype Reached = Reached(range: nat, prob: nat)

  const START := Reached(0xFFFF_FFFF, MODEL_TOTAL / 2)

  function Next(r: Reached, moveBits: nat, symbol: nat): Reached
    requires r.prob <= MODEL_TOTAL
  {
    var part := PartRange(r.range, r.prob, symbol);
    Reached(if part < TOP then part * 256 else part, Updated(r.prob, moveBits, symbol))
  }

  /** Where a history leads, both sides shifting at most once for each symbol. */
  function After(moveBits: nat, history: seq<uint32>): (r: Reached)
    ensures InBand(r.prob, moveBits) && r.prob <= MODEL_TOTAL
  {
    if history == [] then
      InitInBand(moveBits);
      START
    else
      var before := After(moveBits, history[..|history| - 1]);
      BandKept(before.prob, moveBits, history[|history| - 1]);
      BandLimits(Updated(before.prob, moveBits, history[|history| - 1]), moveBits);
      Next(before, moveBits, history[|history| - 1])
  }

  lemma AfterNext(moveBits: nat, history: seq<uint32>, symbol: uint32)
    ensures After(moveBits, history + [symbol]) == Next(After(moveBits, history), moveBits, symbol)
  {
    assert (history + [symbol])[..|history|] == history;
  }

  predicate OneShiftSuffices(r: Reached, symbol: nat)
    requires r.prob <= MODEL_TOTAL
  {
    TOP <= PartRange(r.range, r.prob, symbol) * 256
  }

  /** The `if` in place of the `while` is right at every step of every run exactly when moveBits is
      at least 4. */
  lemma IfReplacesWhileExact(moveBits: nat)
    ensures (forall history, symbol: uint32 :: OneShiftSuffices(After(moveBits, history), symbol)) <==> moveBits >= 4
  {
    if moveBits >= 4 {
      forall history, symbol: uint32 ensures OneShiftSuffices(After(moveBits, history), symbol) {
        RangeStaysWide(moveBits, history);
        BandLimits(After(moveBits, history).prob, moveBits);
        OneShiftWide(After(moveBits, history).range, After(moveBits, history).prob);
      }
    } else {
      var history, symbol := RunThatNeedsTwoShifts(moveBits);
      assert !OneShiftSuffices(After(moveBits, history), symbol);
    }
  }

  lemma {:induction false} RangeStaysWide(moveBits: nat, history: seq<uint32>)
    requires moveBits >= 4
    ensures TOP <= After(moveBits, history).range < TWO32
  {
    if history == [] {
    } else {
      var before := After(moveBits, history[..|history| - 1]);
      RangeStaysWide(moveBits, history[..|history| - 1]);
      BandLimits(before.prob, moveBits);
      OneShiftWide(before.range, before.prob);
    }
  }

  // ---------- where equal symbols lead ----------

  /** history, then only that symbol. */
  ghost predicate OnlyMore(history: seq<uint32>, longer: seq<uint32>, symbol: uint32) {
    history <= longer && forall k :: |history| <= k < |longer| ==> longer[k] == symbol
  }

  /** After any history, enough equal symbols bring the probability to the edge of its band exactly, and
      more of them leave it there. */
  lemma {:induction false} EqualSymbols(moveBits: nat, history: seq<uint32>, symbol: uint32)
    returns (longer: seq<uint32>)
    requires moveBits <= 10
    ensures OnlyMore(history, longer, symbol)
    ensures After(moveBits, longer).prob == if symbol == 0 then 2048 - (Pow2(moveBits) - 1) else Pow2(moveBits) - 1
    ensures After(moveBits, longer + [symbol]).prob == After(moveBits, longer).prob
    decreases if symbol == 0 then MODEL_TOTAL - After(moveBits, history).prob else After(moveBits, history).prob
  {
    var p := After(moveBits, history).prob;
    var x := if symbol == 0 then MODEL_TOTAL - p else p;
    AfterNext(moveBits, history, symbol);
    ShrDiv(x, moveBits);
    if x < Pow2(moveBits) {
      longer := history;
      MovesNot(x, moveBits);
    } else {
      DivLt(x, 1, Pow2(moveBits));
      longer := EqualSymbols(moveBits, history + [symbol], symbol);
    }
  }

  lemma MovesNot(x: nat, n: nat)
    requires x < Pow2(n)
    ensures Shr(x, n) == 0
  {
    assert Pow2(0) == 1;
    ShrBelow(x, 0, n);
  }

  /** With moveBits 5, as in Bcj2Coder: 2017 after enough 0s, 31 after enough 1s. */
  lemma FiveMoveBits(history: seq<uint32>) returns (zeros: seq<uint32>, ones: seq<uint32>)
    ensures OnlyMore(history, zeros, 0) && After(5, zeros).prob == 2017
    ensures OnlyMore(history, ones, 1) && After(5, ones).prob == 31
  {
    Pow2Values();
    zeros := EqualSymbols(5, history, 0);
    ones := EqualSymbols(5, history, 1);
  }

  // ---------- runs that go wrong ----------

  /** One symbol more, with the numbers that it leads to. */
  lemma Go(moveBits: nat, history: seq<uint32>, symbol: uint32, range: nat, prob: nat) returns (longer: seq<uint32>)
    requires moveBits < 4
    requires var r := After(moveBits, history); Calculated(r.range, r.prob, Divisor(moveBits), symbol, range, prob)
    ensures After(moveBits, longer) == Reached(range, prob)
  {
    hide After, Shr;
    longer := history + [symbol];
    AfterNext(moveBits, history, symbol);
    var r := After(moveBits, history);
    BoundIs(r.range, r.prob);
    ShrDiv(r.prob, moveBits);
    ShrDiv(MODEL_TOTAL - r.prob, moveBits);
    assert Pow2(0) == 1 && Pow2(1) == 2 && Pow2(2) == 4 && Pow2(3) == 8;
  }

  function Divisor(moveBits: nat): (d: nat)
    ensures d >= 1
  {
    if moveBits == 0 then 1 else if moveBits == 1 then 2 else if moveBits == 2 then 4 else 8
  }

  predicate Calculated(range: nat, prob: nat, d: nat, symbol: nat, range': nat, prob': nat)
    requires d >= 1 && prob <= MODEL_TOTAL
  {
    var bound := range / MODEL_TOTAL * prob;
    var part := if symbol == 0 then bound else range - bound;
    && range' == (if part < TOP then part * 256 else part)
    && prob' == if symbol == 0 then prob + (MODEL_TOTAL - prob) / d else prob - prob / d
  }

  lemma Begin(moveBits: nat) returns (history: seq<uint32>)
    ensures After(moveBits, history) == START
  {
    history := [];
  }

  lemma Run0() returns (h: seq<uint32>)
    ensures After(0, h) == Reached(2147482624, 2048)
  {
    hide After, Next, OneShiftSuffices;
    h := Begin(0);
    h := Go(0, h, 0, 2147482624, 2048);
  }

  lemma Run1a() returns (h: seq<uint32>)
    ensures After(1, h) == Reached(28270097, 8)
  {
    hide After, Next, OneShiftSuffices;
    h := Begin(1);
    h := Go(1, h, 0, 2147482624, 1536);
    h := Go(1, h, 0, 1610611200, 1792);
    h := Go(1, h, 0, 1409284352, 1920);
    h := Go(1, h, 1, 88080512, 960);
    h := Go(1, h, 1, 46792832, 480);
    h := Go(1, h, 1, 35825792, 240);
    h := Go(1, h, 1, 31627472, 120);
    h := Go(1, h, 1, 29774312, 60);
    h := Go(1, h, 1, 28902032, 30);
    h := Go(1, h, 1, 28478672, 15);
    h := Go(1, h, 1, 28270097, 8);
  }

  lemma Run1b() returns (h: seq<uint32>)
    ensures After(1, h) == Reached(28159673, 4)
  {
    hide After, Next, OneShiftSuffices;
    h := Run1a();
    h := Go(1, h, 1, 28159673, 4);
  }

  lemma Run2a() returns (h: seq<uint32>)
    ensures After(2, h) == Reached(23200104, 124)
  {
    hide After, Next, OneShiftSuffices;
    h := Begin(2);
    h := Go(2, h, 0, 2147482624, 1280);
    h := Go(2, h, 1, 805306624, 960);
    h := Go(2, h, 0, 377487360, 1232);
    h := Go(2, h, 1, 150405120, 924);
    h := Go(2, h, 1, 82546560, 693);
    h := Go(2, h, 1, 54615195, 520);
    h := Go(2, h, 1, 40748355, 390);
    h := Go(2, h, 1, 32988915, 293);
    h := Go(2, h, 1, 28269564, 220);
    h := Go(2, h, 1, 25232904, 165);
    h := Go(2, h, 1, 23200104, 124);
  }

  lemma Run2b() returns (h: seq<uint32>)
    ensures After(2, h) == Reached(18228485, 7)
  {
    hide After, Next, OneShiftSuffices;
    h := Run2a();
    h := Go(2, h, 1, 21795432, 93);
    h := Go(2, h, 1, 20805726, 70);
    h := Go(2, h, 1, 20094596, 53);
    h := Go(2, h, 1, 19574613, 40);
    h := Go(2, h, 1, 19192333, 30);
    h := Go(2, h, 1, 18911203, 23);
    h := Go(2, h, 1, 18698844, 18);
    h := Go(2, h, 1, 18534504, 14);
    h := Go(2, h, 1, 18407804, 11);
    h := Go(2, h, 1, 18308936, 9);
    h := Go(2, h, 1, 18228485, 7);
  }

  lemma Run3a() returns (h: seq<uint32>)
    ensures After(3, h) == Reached(416682326, 1339)
  {
    hide After, Next, OneShiftSuffices;
    h := Begin(3);
    h := Go(3, h, 0, 2147482624, 1152);
    h := Go(3, h, 1, 939524224, 1008);
    h := Go(3, h, 0, 462422016, 1138);
    h := Go(3, h, 0, 256951296, 1251);
    h := Go(3, h, 1, 99995832, 1095);
    h := Go(3, h, 1, 46531362, 959);
    h := Go(3, h, 1, 24742882, 840);
    h := Go(3, h, 0, 2597898240, 991);
    h := Go(3, h, 0, 1257088455, 1123);
    h := Go(3, h, 0, 689310876, 1238);
    h := Go(3, h, 0, 416682326, 1339);
  }

  lemma Run3b() returns (h: seq<uint32>)
    ensures After(3, h) == Reached(36475439, 1882)
  {
    hide After, Next, OneShiftSuffices;
    h := Run3a();
    h := Go(3, h, 0, 272430262, 1427);
    h := Go(3, h, 0, 189822394, 1504);
    h := Go(3, h, 0, 139399744, 1572);
    h := Go(3, h, 0, 106999752, 1631);
    h := Go(3, h, 0, 85211595, 1683);
    h := Go(3, h, 0, 70024581, 1728);
    h := Go(3, h, 0, 59082048, 1768);
    h := Go(3, h, 0, 51003264, 1803);
    h := Go(3, h, 0, 44900109, 1833);
    h := Go(3, h, 0, 40184859, 1859);
    h := Go(3, h, 0, 36475439, 1882);
  }

  lemma Run3c() returns (h: seq<uint32>)
    ensures After(3, h) == Reached(21679658, 2007)
  {
    hide After, Next, OneShiftSuffices;
    h := Run3b();
    h := Go(3, h, 0, 33518420, 1902);
    h := Go(3, h, 0, 31128132, 1920);
    h := Go(3, h, 0, 29182080, 1936);
    h := Go(3, h, 0, 27586064, 1950);
    h := Go(3, h, 0, 26264550, 1962);
    h := Go(3, h, 0, 25160688, 1972);
    h := Go(3, h, 0, 24226020, 1981);
    h := Go(3, h, 0, 23433249, 1989);
    h := Go(3, h, 0, 22758138, 1996);
    h := Go(3, h, 0, 22179552, 2002);
    h := Go(3, h, 0, 21679658, 2007);
  }

  lemma Run3d() returns (h: seq<uint32>)
    ensures After(3, h) == Reached(19019110, 2036)
  {
    hide After, Next, OneShiftSuffices;
    h := Run3c();
    h := Go(3, h, 0, 21244095, 2012);
    h := Go(3, h, 0, 20870476, 2016);
    h := Go(3, h, 0, 20543040, 2020);
    h := Go(3, h, 0, 20260600, 2023);
    h := Go(3, h, 0, 20011516, 2026);
    h := Go(3, h, 0, 19796046, 2028);
    h := Go(3, h, 0, 19602648, 2030);
    h := Go(3, h, 0, 19429130, 2032);
    h := Go(3, h, 0, 19275552, 2034);
    h := Go(3, h, 0, 19141974, 2035);
    h := Go(3, h, 0, 19019110, 2036);
  }

  lemma Run3e() returns (h: seq<uint32>)
    ensures After(3, h) == Reached(18553800, 2041)
  {
    hide After, Next, OneShiftSuffices;
    h := Run3d();
    h := Go(3, h, 0, 18906296, 2037);
    h := Go(3, h, 0, 18803547, 2038);
    h := Go(3, h, 0, 18710878, 2039);
    h := Go(3, h, 0, 18628304, 2040);
    h := Go(3, h, 0, 18553800, 2041);
  }

  /** In each case the next symbol needs two shifts. */
  lemma RunThatNeedsTwoShifts(moveBits: nat) returns (history: seq<uint32>, symbol: uint32)
    requires moveBits < 4
    ensures !OneShiftSuffices(After(moveBits, history), symbol)
  {
    if moveBits == 0 {
      history := Run0();
      symbol := 1;
    } else if moveBits == 1 {
      history := Run1b();
      symbol := 0;
    } else if moveBits == 2 {
      history := Run2b();
      symbol := 0;
    } else {
      history := Run3e();
      symbol := 1;
    }
    BoundIs(After(moveBits, history).range, After(moveBits, history).prob);
  }
}
