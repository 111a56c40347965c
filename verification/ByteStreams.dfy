/** The two stream buffers of p7zip, reduced to the bytes they carry. */
module ByteStreams {
  import opened Words

  /** A CInBuffer: some bytes, then `pad` for ever. The byte delivered past the end
      comes from code that is not part of this model, so it is a parameter. */
  datatype Source = Source(bytes: seq<byte>, pad: byte) {
    function At(i: nat): byte {
      if i < |bytes| then bytes[i] else pad
    }

    /** The number whose base-256 digits, most significant first, are the first n bytes. */
    ghost function Value(n: nat): nat {
      if n == 0 then 0 else Value(n - 1) * 256 + At(n - 1)
    }
  }

  /** The number whose base-256 digits, most significant first, are `s`. */
  ghost function Num(s: seq<byte>): nat {
    if s == [] then 0 else Num(s[..|s| - 1]) * 256 + s[|s| - 1]
  }

  lemma NumAppend(s: seq<byte>, b: byte)
    ensures Num(s + [b]) == Num(s) * 256 + b
  {
    assert (s + [b])[..|s|] == s;
  }

  lemma {:induction false} NumIsValue(s: Source, n: nat)
    requires n <= |s.bytes|
    ensures s.Value(n) == Num(s.bytes[..n])
  {
    if n == 0 {
    } else {
      NumIsValue(s, n - 1);
      assert s.bytes[..n] == s.bytes[..n - 1] + [s.bytes[n - 1]];
      NumAppend(s.bytes[..n - 1], s.bytes[n - 1]);
    }
  }

  function Fill(b: byte, n: nat): (s: seq<byte>)
    ensures |s| == n
  {
    if n == 0 then [] else Fill(b, n - 1) + [b]
  }

  // ---------- bit strings ----------

  ghost function Zeros(n: nat): (b: seq<bit>)
    ensures |b| == n
  {
    if n == 0 then [] else Zeros(n - 1) + [0]
  }

  /** The bits with zeros up to the next byte boundary. */
  ghost function Padded(b: seq<bit>): (p: seq<bit>)
    ensures |p| == (|b| + 7) / 8 * 8
  {
    b + Zeros((8 - |b| % 8) % 8)
  }

  // ---------- carries ----------

  /** Adding one to c FF FF .. FF carries through the whole run. */
  lemma {:induction false} NumCarry(s: seq<byte>, c: byte, n: nat)
    requires c < 255
    ensures Num(s + [c] + Fill(255, n)) + 1 == Num(s + [c + 1] + Fill(0, n))
  {
    if n == 0 {
      NumAppend(s, c);
      NumAppend(s, c + 1);
      assert s + [c] + Fill(255, 0) == s + [c];
      assert s + [c + 1] + Fill(0, 0) == s + [c + 1];
    } else {
      NumCarry(s, c, n - 1);
      assert s + [c] + Fill(255, n) == (s + [c] + Fill(255, n - 1)) + [255];
      assert s + [c + 1] + Fill(0, n) == (s + [c + 1] + Fill(0, n - 1)) + [0];
      NumAppend(s + [c] + Fill(255, n - 1), 255);
      NumAppend(s + [c + 1] + Fill(0, n - 1), 0);
    }
  }

  /** The leading byte is at most what the whole number allows. */
  lemma {:induction false} NumLeadingByte(s: seq<byte>)
    requires s != []
    ensures s[0] * Pow2(8 * (|s| - 1)) <= Num(s)
  {
    if |s| == 1 {
      assert s[..0] == [];
    } else {
      var t := s[..|s| - 1];
      NumLeadingByte(t);
      Pow2Add(8, 8 * (|t| - 1));
      assert Pow2(8) == 256;
      assert Pow2(8 * (|s| - 1)) == 256 * Pow2(8 * (|t| - 1));
      assert s[0] * Pow2(8 * (|s| - 1)) == 256 * (t[0] * Pow2(8 * (|t| - 1)));
    }
  }
}
