/** Whole runs of the Quantum decoder: what it returns is the one message that narrows the interval
    to the stream, and every message has such a stream. */
module QuantumRuns {
  import opened Words
  import opened ByteStreams
  import opened MsbBits
  import opened QuantumRange
  import opened QuantumTables
  import opened QuantumModel

  /** The models at the start and the rule that picks one from the symbols so far. */
  datatype Scheme = Scheme(starts: seq<Model>, choose: seq<byte> -> nat) {
    ghost predicate Ok() {
      && (forall j :: 0 <= j < |starts| ==> starts[j].Ok())
      && (forall h :: choose(h) < |starts|)
    }

    /** Every symbol is in the alphabet of the model that codes it. */
    ghost predicate Legal(message: seq<byte>)
      requires Ok()
    {
      forall k :: 0 <= k < |message| ==> message[k] < |starts[choose(message[..k])].alphabet|
    }

    lemma LegalEarlier(message: seq<byte>, k: nat)
      requires Ok() && Legal(message) && k <= |message|
      ensures Legal(message[..k])
    {
      forall j | 0 <= j < k ensures message[..k][j] < |starts[choose(message[..k][..j])].alphabet| {
        assert message[..k][..j] == message[..j];
      }
    }

    /** All models after a message. */
    ghost function Models(message: seq<byte>): (models: seq<Model>)
      requires Ok() && Legal(message)
      ensures |models| == |starts|
      ensures forall j :: 0 <= j < |models| ==> models[j].Ok() && |models[j].alphabet| == |starts[j].alphabet|
    {
      if message == [] then starts
      else
        var n := |message| - 1;
        LegalEarlier(message, n);
        var before := Models(message[..n]);
        var j := choose(message[..n]);
        var k := Place(before[j], message[n]);
        NextOk(before[j], k);
        before[j := Next(before[j], k)]
    }

    /** The interval after a message. */
    ghost function Interval(message: seq<byte>): (w: Span)
      requires Ok() && Legal(message)
      ensures w.Ok() && w.range >= 0x4002
    {
      if message == [] then INITIAL
      else
        var n := |message| - 1;
        LegalEarlier(message, n);
        var m := Models(message[..n])[choose(message[..n])];
        var k := Place(m, message[n]);
        EveryShare(Interval(message[..n]), m, k);
        NarrowTo(Interval(message[..n]), m.table, k)
    }

    /** The stream lies in the interval that the message narrows to. */
    ghost predicate Spells(message: seq<byte>, s: Source)
      requires Ok()
    {
      Legal(message) && Interval(message).Holds(s)
    }

    /** One more symbol. */
    lemma Step(message: seq<byte>, b: byte)
      requires Ok() && Legal(message) && b < |starts[choose(message)].alphabet|
      ensures Legal(message + [b])
      ensures var m := Models(message)[choose(message)]; var k := Place(m, b);
        && Models(message + [b]) == Models(message)[choose(message) := Next(m, k)]
        && InShare(Interval(message), m.table, k)
        && Interval(message + [b]) == NarrowTo(Interval(message), m.table, k)
    {
      var longer := message + [b];
      assert longer[..|message|] == message;
      forall j | 0 <= j < |longer| ensures longer[j] < |starts[choose(longer[..j])].alphabet| {
        assert j < |message| ==> longer[..j] == message[..j];
      }
      var m := Models(message)[choose(message)];
      EveryShare(Interval(message), m, Place(m, b));
    }

    /** The same for the symbol at place k. */
    lemma StepTo(message: seq<byte>, b: byte, k: nat)
      requires Ok() && Legal(message)
      requires var m := Models(message)[choose(message)]; k < |m.alphabet| && b == m.alphabet[k]
      ensures Legal(message + [b])
      ensures var m := Models(message)[choose(message)];
        && m.Ok() && InShare(Interval(message), m.table, k)
        && Models(message + [b]) == Models(message)[choose(message) := Next(m, k)]
        && Interval(message + [b]) == NarrowTo(Interval(message), m.table, k)
    {
      hide Next, NarrowTo, InShare, Place, Legal, Models, Interval;
      PlaceUnique(Models(message)[choose(message)], k);
      LegalNext(message, b);
      Step(message, b);
    }

    lemma LegalNext(message: seq<byte>, b: byte)
      requires Ok() && Legal(message) && b < |Models(message)[choose(message)].alphabet|
      ensures b < |starts[choose(message)].alphabet|
    {
    }

    lemma LegalLast(message: seq<byte>)
      requires Ok() && Legal(message) && message != []
      ensures message[|message| - 1] < |starts[choose(message[..|message| - 1])].alphabet|
    {
    }

    /** One stream has one message. */
    lemma {:induction false} OneMessage(a: seq<byte>, b: seq<byte>, s: Source)
      requires Ok() && Legal(a) && Legal(b) && |a| == |b|
      requires Interval(a).Holds(s) && Interval(b).Holds(s)
      ensures a == b
      decreases |a|
    {
      hide Models, Interval, Legal, NarrowTo, InShare;
      if a == [] {
      } else {
        var a', x, m := LastStep(a);
        var b', y, m' := LastStep(b);
        NarrowToHolds(Interval(a'), m.table, Place(m, x), s);
        NarrowToHolds(Interval(b'), m'.table, Place(m', y), s);
        OneMessage(a', b', s);
        SharesApart(Interval(a'), m.table, Place(m, x), Place(m, y), s);
      }
    }

    lemma LastStep(message: seq<byte>) returns (earlier: seq<byte>, b: byte, m: Model)
      requires Ok() && Legal(message) && message != []
      ensures message == earlier + [b] && Legal(earlier)
      ensures m == Models(earlier)[choose(earlier)] && b < |m.alphabet|
      ensures InShare(Interval(earlier), m.table, Place(m, b))
      ensures Interval(message) == NarrowTo(Interval(earlier), m.table, Place(m, b))
    {
      earlier, b := message[..|message| - 1], message[|message| - 1];
      LegalEarlier(message, |message| - 1);
      m := Models(earlier)[choose(earlier)];
      LegalLast(message);
      hide Models, Interval, Place, NarrowTo, InShare, Next, Model.Ok, Legal;
      Step(earlier, b);
      assert message == earlier + [b];
    }
  }

  /** Where the alphabet has the symbol. */
  ghost function Place(m: Model, b: byte): (k: nat)
    requires m.Ok() && b < |m.alphabet|
    ensures k < |m.alphabet| && m.alphabet[k] == b
  {
    InAlphabet(m, b);
    var k :| 0 <= k < |m.alphabet| && m.alphabet[k] == b;
    k
  }

  lemma InAlphabet(m: Model, b: byte)
    requires m.Ok() && b < |m.alphabet|
    ensures b in m.alphabet
  {
    var n := |m.alphabet|;
    assert Identity(n)[b] == b;
    assert b in multiset(Identity(n));
  }

  /** No symbol is in the alphabet twice, and none is beyond it. */
  lemma PlaceUnique(m: Model, k: nat)
    requires m.Ok() && k < |m.alphabet|
    ensures m.alphabet[k] < |m.alphabet| && Place(m, m.alphabet[k]) == k
  {
    var v, n := m.alphabet, |m.alphabet|;
    assert v[k] in multiset(Identity(n));
    var j := Place(m, v[k]);
    if j != k {
      TwiceCounted(v, j, k);
      IdentityOnce(n, v[k]);
    }
  }

  lemma TwiceCounted(v: seq<byte>, j: nat, k: nat)
    requires j < |v| && k < |v| && j != k && v[j] == v[k]
    ensures multiset(v)[v[k]] >= 2
  {
    var a, b := if j < k then j else k, if j < k then k else j;
    assert v == v[..a] + [v[a]] + v[a + 1..b] + [v[b]] + v[b + 1..];
  }

  lemma {:induction false} IdentityOnce(n: nat, b: byte)
    requires n <= NUM_SYMBOLS_MAX
    ensures multiset(Identity(n))[b] <= 1
    ensures b >= n ==> multiset(Identity(n))[b] == 0
  {
    if n == 0 {
    } else {
      IdentityOnce(n - 1, b);
      assert Identity(n) == Identity(n - 1) + [n - 1];
    }
  }

  lemma NarrowToHolds(w: Span, f: seq<int>, k: nat, s: Source)
    requires InShare(w, f, k) && NarrowTo(w, f, k).Holds(s)
    ensures w.Holds(s)
  {
    assert f[k] > f[k + 1];
    NarrowHolds(w, s, f[k + 1], f[k], f[0]);
  }

  lemma SharesApart(w: Span, f: seq<int>, j: nat, k: nat, s: Source)
    requires InShare(w, f, j) && NarrowTo(w, f, j).Holds(s)
    requires InShare(w, f, k) && NarrowTo(w, f, k).Holds(s)
    ensures j == k
  {
    assert f[j] > f[j + 1] && f[k] > f[k + 1];
    NarrowHolds(w, s, f[j + 1], f[j], f[0]);
    NarrowHolds(w, s, f[k + 1], f[k], f[0]);
  }

  // ---------- every message has a stream ----------

  /** Intervals never leave the numbers that their bits can denote. */
  ghost predicate InUnit(w: Span) {
    w.base + w.range <= Pow2(w.bits)
  }

  lemma {:induction false} SettleInUnit(w: Span)
    requires w.Ok() && InUnit(w)
    ensures InUnit(Settle(w))
    decreases 0x10000 - w.range
  {
    if w.Settled() {
    } else {
      SettleInUnit(Doubled(w));
    }
  }

  lemma NarrowToInUnit(w: Span, f: seq<int>, k: nat)
    requires InShare(w, f, k) && InUnit(w)
    ensures InUnit(NarrowTo(w, f, k))
  {
    assert f[k] > f[k + 1];
    var offset := Part(w.range, f[k + 1], f[0]);
    PartBelow(w.range, f[k], f[0]);
    SettleInUnit(Span(w.low + offset, Part(w.range, f[k], f[0]) - offset, w.base + offset, w.bits));
  }

  lemma {:induction false} MessageInUnit(scheme: Scheme, message: seq<byte>)
    requires scheme.Ok() && scheme.Legal(message)
    ensures InUnit(scheme.Interval(message))
    decreases |message|
  {
    if message == [] {
      Pow2Values();
    } else {
      var earlier, b, m := scheme.LastStep(message);
      MessageInUnit(scheme, earlier);
      NarrowToInUnit(scheme.Interval(earlier), m.table, Place(m, b));
    }
  }

  /** n bytes that denote x, most significant first. */
  ghost function BytesOf(x: nat, n: nat): (s: seq<byte>)
    ensures |s| == n
  {
    if n == 0 then [] else BytesOf(x / 0x100, n - 1) + [x % 0x100]
  }

  lemma {:induction false} NumOfBytes(x: nat, n: nat)
    requires x < Pow2(8 * n)
    ensures Num(BytesOf(x, n)) == x
  {
    if n == 0 {
    } else {
      Pow2Add(8, 8 * (n - 1));
      assert Pow2(8) == 0x100;
      NumOfBytes(x / 0x100, n - 1);
      NumAppend(BytesOf(x / 0x100, n - 1), x % 0x100);
    }
  }

  /** Some stream starts with any given number. */
  lemma StreamOf(x: nat, n: nat, pad: byte) returns (s: Source)
    requires x < Pow2(n)
    ensures s.pad == pad && Prefix(s, n) == x
  {
    hide Shl, Shr, Prefix, Num, BytesOf, Pow2;
    var bytes := (n + 7) / 8;
    var extra := 8 * bytes - n;
    var y := Shl(x, extra);
    s := Source(BytesOf(y, bytes), pad);
    ShlBelow(x, n, extra);
    assert n + extra == 8 * bytes;
    NumOfBytes(y, bytes);
    NumIsValue(s, bytes);
    assert s.bytes[..bytes] == s.bytes;
    PrefixBytes(s, bytes);
    PrefixShr(s, n, extra);
    assert Pow2(extra) > 0;
    Joined(x, 0, extra);
  }

  /** Every message is decoded from some stream. */
  lemma MessageHasStream(scheme: Scheme, message: seq<byte>, pad: byte) returns (s: Source)
    requires scheme.Ok() && scheme.Legal(message)
    ensures s.pad == pad && scheme.Spells(message, s)
  {
    var w := scheme.Interval(message);
    MessageInUnit(scheme, message);
    s := StreamOf(w.base, w.bits, pad);
  }

  // ---------- the decoder ----------

  ghost predicate Represents(decoders: seq<ModelDecoder>, models: seq<Model>)
    reads decoders, set d | d in decoders :: d.freqs, set d | d in decoders :: d.values
  {
    && |decoders| == |models|
    && (forall i, j :: 0 <= i < j < |decoders| ==> Separate(decoders[i], decoders[j]))
    && (forall j :: 0 <= j < |decoders| ==> decoders[j].Valid() && decoders[j].State() == models[j])
  }

  predicate Separate(a: ModelDecoder, b: ModelDecoder) {
    a != b && a.freqs != b.freqs && a.values != b.values
  }

  /** One symbol: on every stream, the symbols so far narrow the interval to where the decoder stands. */
  method DecodeNext(choose: seq<byte> -> nat, rangeDecoder: Decoder, decoders: seq<ModelDecoder>, symbols: seq<byte>,
                    ghost scheme: Scheme) returns (symbol: byte)
    requires scheme.Ok() && scheme.choose == choose && scheme.Legal(symbols)
    requires rangeDecoder.Valid() && rangeDecoder.State() == scheme.Interval(symbols)
    requires Represents(decoders, scheme.Models(symbols))
    modifies rangeDecoder, rangeDecoder.stream, decoders
    modifies set d | d in decoders :: d.freqs, set d | d in decoders :: d.values
    ensures scheme.Legal(symbols + [symbol])
    ensures rangeDecoder.Valid() && rangeDecoder.State() == scheme.Interval(symbols + [symbol])
    ensures Represents(decoders, scheme.Models(symbols + [symbol]))
  {
    hide Next, NarrowTo, InShare, OnlyShare, Model.Ok, Scheme.Legal, Scheme.Models, Scheme.Interval;
    var j := choose(symbols);
    ghost var m := decoders[j].State();
    ghost var k;
    symbol, k := decoders[j].Decode(rangeDecoder);
    scheme.StepTo(symbols, symbol, k);
  }

  /** A run on an arbitrary stream returns the one message of its length whose interval holds the stream. */
  method DecodeRun(choose: seq<byte> -> nat, source: Source, decoders: seq<ModelDecoder>, count: nat,
                   ghost scheme: Scheme) returns (symbols: seq<byte>)
    requires scheme.Ok() && scheme.choose == choose && Represents(decoders, scheme.starts)
    modifies decoders, set d | d in decoders :: d.freqs, set d | d in decoders :: d.values
    ensures |symbols| == count && scheme.Spells(symbols, source)
    ensures forall message :: |message| == count && scheme.Spells(message, source) ==> message == symbols
    ensures Represents(decoders, scheme.Models(symbols))
  {
    var rangeDecoder := new Decoder.Init(source);
    symbols := [];
    for n := 0 to count
      invariant fresh(rangeDecoder) && fresh(rangeDecoder.stream) && rangeDecoder.stream.source == source
      invariant |symbols| == n && scheme.Legal(symbols)
      invariant rangeDecoder.Valid() && rangeDecoder.State() == scheme.Interval(symbols)
      invariant Represents(decoders, scheme.Models(symbols))
    {
      var symbol := DecodeNext(choose, rangeDecoder, decoders, symbols, scheme);
      symbols := symbols + [symbol];
    }
    forall message | |message| == count && scheme.Spells(message, source) ensures message == symbols
    {
      scheme.OneMessage(message, symbols, source);
    }
  }

  /** Freshly initialised models of the given sizes. */
  method NewModels(sizes: seq<nat>) returns (decoders: seq<ModelDecoder>)
    requires forall j :: 0 <= j < |sizes| ==> 1 <= sizes[j] <= NUM_SYMBOLS_MAX
    ensures fresh(decoders) && fresh(set d | d in decoders :: d.freqs) && fresh(set d | d in decoders :: d.values)
    ensures Represents(decoders, Starts(sizes))
  {
    decoders := [];
    for n := 0 to |sizes|
      invariant |decoders| == n && fresh(decoders)
      invariant fresh(set d | d in decoders :: d.freqs) && fresh(set d | d in decoders :: d.values)
      invariant Represents(decoders, Starts(sizes[..n]))
    {
      hide Represents, Starts;
      var d := NewModel(sizes[n]);
      assert forall j :: 0 <= j < n ==> decoders[j] in decoders;
      OneMore(decoders, d, Starts(sizes[..n]), Start(sizes[n]));
      StartsNext(sizes, n);
      decoders := decoders + [d];
    }
    assert sizes[..|sizes|] == sizes;
  }

  lemma OneMore(decoders: seq<ModelDecoder>, d: ModelDecoder, models: seq<Model>, m: Model)
    requires Represents(decoders, models) && d.Valid() && d.State() == m
    requires forall j :: 0 <= j < |decoders| ==> Separate(decoders[j], d)
    ensures Represents(decoders + [d], models + [m])
  {
  }

  lemma StartsNext(sizes: seq<nat>, n: nat)
    requires forall j :: 0 <= j < |sizes| ==> 1 <= sizes[j] <= NUM_SYMBOLS_MAX
    requires n < |sizes|
    ensures Starts(sizes[..n + 1]) == Starts(sizes[..n]) + [Start(sizes[n])]
  {
    hide Start;
  }

  method NewModel(numItems: nat) returns (d: ModelDecoder)
    requires 1 <= numItems <= NUM_SYMBOLS_MAX
    ensures fresh(d) && fresh(d.freqs) && fresh(d.values) && d.Valid() && d.State() == Start(numItems)
  {
    d := new ModelDecoder();
    d.Init(numItems);
  }

  ghost function Starts(sizes: seq<nat>): (models: seq<Model>)
    requires forall j :: 0 <= j < |sizes| ==> 1 <= sizes[j] <= NUM_SYMBOLS_MAX
    ensures |models| == |sizes| && forall j :: 0 <= j < |sizes| ==> models[j] == Start(sizes[j]) && models[j].Ok()
  {
    forall j | 0 <= j < |sizes| ensures Start(sizes[j]).Ok() {
      StartOk(sizes[j]);
    }
    seq(|sizes|, j requires 0 <= j < |sizes| => Start(sizes[j]))
  }

  /** The whole way: from new models, a stream of a message (MessageHasStream) gives the message. */
  method Decompress(sizes: seq<nat>, choose: seq<byte> -> nat, source: Source, count: nat, ghost message: seq<byte>)
    returns (symbols: seq<byte>)
    requires forall j :: 0 <= j < |sizes| ==> 1 <= sizes[j] <= NUM_SYMBOLS_MAX
    requires forall h :: choose(h) < |sizes|
    requires |message| == count && Scheme(Starts(sizes), choose).Spells(message, source)
    ensures symbols == message
  {
    var decoders := NewModels(sizes);
    symbols := DecodeRun(choose, source, decoders, count, Scheme(Starts(sizes), choose));
  }
}
