/** What `ActiveSupport::Base32` promises: the shape of each encoded group,
    the group-by-group structure of both operations, the length laws, the
    alphabet of the output, the round trip, the handling of symbols outside
    the alphabet, and the default alphabet. */
module Base32Laws {
  import opened Seqs
  import opened Arith
  import opened Base32

  // ---------------------------------------------------------------------
  // One group

  /** The eight 5-bit values `encode_chunk` reads off the 40-bit
      accumulator of a group. */
  function ChunkDigits(chunk: seq<Byte>): seq<nat>
    requires 1 <= |chunk| <= 5
  {
    Fields(Accumulate(Padded(chunk, 5), 8), 8, 5)
  }

  lemma PaddedFitsBytes(chunk: seq<Byte>)
    requires |chunk| <= 5
    ensures FitIn(Padded(chunk, 5), 8)
  {
    Pow2Values();
  }

  /** The eight values of a group are its zero-padded 40 bits, cut into
      5-bit fields from the most significant end: each is below 32, read
      together in base 32 they give back the group's base-256 value, and
      those past `ceil(8k / 5)` for a group of `k` bytes hold only padding. */
  lemma ChunkDigitsAreFields(chunk: seq<Byte>)
    requires 1 <= |chunk| <= 5
    ensures |ChunkDigits(chunk)| == 8
    ensures forall j :: 0 <= j < 8 ==> ChunkDigits(chunk)[j] < 32
    ensures Accumulate(ChunkDigits(chunk), 5) == Accumulate(Padded(chunk, 5), 8)
    ensures forall j :: CeilDiv(|chunk| * 8, 5) <= j < 8 ==> ChunkDigits(chunk)[j] == 0
  {
    var p := Padded(chunk, 5);
    var x := Accumulate(p, 8);
    Pow2Values();
    PaddedFitsBytes(chunk);
    AccumulateBound(p, 8);
    ShrWIsShr(x, 5, 8);
    ShrWIsShr(x, 8, 5);
    AccumulateOfFields(x, 8, 5);
    forall j | CeilDiv(|chunk| * 8, 5) <= j < 8
      ensures ChunkDigits(chunk)[j] == 0
    {
      PaddingDigitZero(chunk, j);
    }
  }

  lemma PaddingDigitZero(chunk: seq<Byte>, j: nat)
    requires 1 <= |chunk| <= 5
    requires CeilDiv(|chunk| * 8, 5) <= j < 8
    ensures ChunkDigits(chunk)[j] == 0
  {
    var k := |chunk|;
    var y := Accumulate(chunk, 8);
    var x := Accumulate(Padded(chunk, 5), 8);
    AccumulateZeros(chunk, 5 - k, 8);
    ShlWIsShl(y, 5 - k, 8);
    assert x == Shl(y, (5 - k) * 8);
    FieldsAt(x, 8, 5, j);
    ShrWIsShr(x, 7 - j, 5);
    var e := (7 - j) * 5;
    var rest := (5 - k) * 8 - e - 5;
    assert e + 5 + rest == (5 - k) * 8;
    LowFieldZero(y, e, 5, rest);
  }

  /** The symbols of one group: as many as `ceil(8k / 5)` for `k` bytes,
      each the alphabet entry of the corresponding 5-bit value. */
  lemma EncodeChunkSymbols(alphabet: seq<Byte>, chunk: seq<Byte>)
    requires |alphabet| >= 32 && 1 <= |chunk| <= 5
    ensures |Flatten(EncodeChunk(alphabet, chunk))| == CeilDiv(|chunk| * 8, 5)
    ensures forall j :: 0 <= j < CeilDiv(|chunk| * 8, 5) ==>
      Flatten(EncodeChunk(alphabet, chunk))[j] == alphabet[ChunkDigits(chunk)[j]]
  {
    ChunkDigitsAreFields(chunk);
    FlattenSingletons(EncodeChunk(alphabet, chunk));
  }

  /** Every symbol `encode_chunk` emits is an alphabet entry, whatever the
      alphabet. */
  lemma EncodeChunkInAlphabet(alphabet: seq<Byte>, chunk: seq<Byte>)
    requires 1 <= |chunk| <= 5
    ensures AllIn(Flatten(EncodeChunk(alphabet, chunk)), alphabet)
  {
    FlattenAllIn(EncodeChunk(alphabet, chunk), alphabet);
  }

  /** A symbol's value is the first position holding it, and a byte missing
      from the alphabet is worth 0. */
  lemma SymbolValueIsIndex(alphabet: seq<Byte>, b: Byte)
    ensures b !in alphabet ==> SymbolValue(alphabet, b) == 0
    ensures b in alphabet ==> SymbolValue(alphabet, b) < |alphabet| && alphabet[SymbolValue(alphabet, b)] == b
    ensures b in alphabet ==> forall k :: 0 <= k < SymbolValue(alphabet, b) ==> alphabet[k] != b
  {
  }

  /** A short group is filled up to `n` with zeros, which is how the folds
      read the `nil` fill of `in_groups_of`. */
  lemma PaddedShape(chunk: seq<nat>, n: nat)
    requires |chunk| <= n
    ensures |Padded(chunk, n)| == n && Padded(chunk, n)[..|chunk|] == chunk
    ensures forall i :: |chunk| <= i < n ==> Padded(chunk, n)[i] == 0
  {
  }

  /** `decode_chunk` of `m` symbols keeps `floor(5m / 8)` values, each a
      byte. */
  lemma DecodeChunkBytes(alphabet: seq<Byte>, chunk: seq<Byte>)
    requires 1 <= |chunk| <= 8
    ensures |DecodeChunk(alphabet, chunk)| == |chunk| * 5 / 8
    ensures forall i :: 0 <= i < |chunk| * 5 / 8 ==> DecodeChunk(alphabet, chunk)[i] < 256
  {
    Pow2Values();
  }

  /** When the first 32 symbols are distinct, looking up the symbol for
      `v < 32` gives `v`. */
  lemma SymbolValueOfSymbol(alphabet: seq<Byte>, v: nat)
    requires ValidAlphabet(alphabet) && v < 32
    ensures SymbolValue(alphabet, alphabet[v]) == v
  {
  }

  /** `decode_chunk` undoes `encode_chunk`. */
  lemma ChunkRoundTrip(alphabet: seq<Byte>, chunk: seq<Byte>)
    requires ValidAlphabet(alphabet) && 1 <= |chunk| <= 5
    ensures |Flatten(EncodeChunk(alphabet, chunk))| == CeilDiv(|chunk| * 8, 5)
    ensures PackBytes(DecodeChunk(alphabet, Flatten(EncodeChunk(alphabet, chunk)))) == chunk
  {
    var k := |chunk|;
    var c := CeilDiv(k * 8, 5);
    var f := ChunkDigits(chunk);
    var e := Flatten(EncodeChunk(alphabet, chunk));
    EncodeChunkSymbols(alphabet, chunk);
    ChunkDigitsAreFields(chunk);
    var vals := SymbolValues(alphabet, e);
    forall j | 0 <= j < c
      ensures vals[j] == f[j]
    {
      SymbolValueOfSymbol(alphabet, f[j]);
    }
    assert Padded(vals, 8) == f;
    var p := Padded(chunk, 5);
    PaddedFitsBytes(chunk);
    FieldsOfAccumulate(p, 8);
    assert c * 5 / 8 == k;
    var d := DecodeChunk(alphabet, e);
    assert d == p[..k];
    assert p[..k] == chunk;
    Pow2Values();
  }

  /** The bytes `decode_chunk` keeps from a group of `m` symbols, each worth
      less than 32, are the top `floor(5m / 8)` bytes of the group's 40-bit
      value: read back as a number they are that value with its low
      `40 - 8 * floor(5m / 8)` bits dropped. */
  lemma DecodeChunkValue(alphabet: seq<Byte>, chunk: seq<Byte>)
    requires 1 <= |chunk| <= 8
    requires forall i :: 0 <= i < |chunk| ==> SymbolValue(alphabet, chunk[i]) < 32
    ensures |DecodeChunk(alphabet, chunk)| == |chunk| * 5 / 8
    ensures Accumulate(DecodeChunk(alphabet, chunk), 8) ==
      Shr(Accumulate(Padded(SymbolValues(alphabet, chunk), 8), 5), 40 - 8 * |DecodeChunk(alphabet, chunk)|)
  {
    var k := |chunk| * 5 / 8;
    var p := Padded(SymbolValues(alphabet, chunk), 8);
    var x := Accumulate(p, 5);
    assert ShrW(x, 5, 8) == 0 by {
      PaddedValuesFit(alphabet, chunk);
      AccumulateBound(p, 5);
      ShrWIsShr(x, 8, 5);
      ShrWIsShr(x, 5, 8);
    }
    assert Accumulate(Fields(x, 5, 8)[..k], 8) == Shr(x, 40 - 8 * k) by {
      FieldsPrefix(x, 5, 8, k);
      ShrWIsShr(x, 5 - k, 8);
      assert (5 - k) * 8 == 40 - 8 * k;
    }
    assert DecodeChunk(alphabet, chunk) == Fields(x, 5, 8)[..k];
  }

  lemma PaddedValuesFit(alphabet: seq<Byte>, chunk: seq<Byte>)
    requires |chunk| <= 8
    requires forall i :: 0 <= i < |chunk| ==> SymbolValue(alphabet, chunk[i]) < 32
    ensures FitIn(Padded(SymbolValues(alphabet, chunk), 8), 5)
  {
    Pow2Values();
  }

  // ---------------------------------------------------------------------
  // Group by group

  /** `encode` handles its first group, then the rest of the input. */
  lemma EncodeFirstGroup(codec: Codec, s: seq<Byte>)
    requires |s| > 0
    ensures |s| <= 5 ==> Encode(codec, s) == Flatten(EncodeChunk(codec.alphabet, s))
    ensures |s| > 5 ==> Encode(codec, s) == Flatten(EncodeChunk(codec.alphabet, s[..5])) + Encode(codec, s[5..])
  {
    var a := codec.alphabet;
    if |s| > 5 {
      var rest := EncodeChunks(a, Groups(s[5..], 5));
      assert Groups(s, 5) == [s[..5]] + Groups(s[5..], 5);
      assert EncodeChunks(a, Groups(s, 5)) == [EncodeChunk(a, s[..5])] + rest;
      var c0 := EncodeChunk(a, s[..5]);
      FlattenConcat([c0], rest);
      assert Flatten([c0]) == c0 + Flatten<seq<Byte>>([]);
      assert Flatten(EncodeChunks(a, Groups(s, 5))) == c0 + Flatten(rest);
      FlattenConcat(c0, Flatten(rest));
    } else {
      var c0 := EncodeChunk(a, s);
      assert Groups(s, 5) == [s];
      assert EncodeChunks(a, Groups(s, 5)) == [c0];
      assert Flatten([c0]) == c0 + Flatten<seq<Byte>>([]);
      assert c0 + Flatten<seq<Byte>>([]) == c0;
    }
  }

  /** `decode` handles its first group, then the rest of the input. */
  lemma DecodeFirstGroup(codec: Codec, t: seq<Byte>)
    requires |t| > 0
    ensures |t| <= 8 ==> Decode(codec, t) == PackBytes(DecodeChunk(codec.alphabet, t))
    ensures |t| > 8 ==> Decode(codec, t) == PackBytes(DecodeChunk(codec.alphabet, t[..8])) + Decode(codec, t[8..])
  {
    var a := codec.alphabet;
    if |t| > 8 {
      var rest := DecodeChunks(a, Groups(t[8..], 8));
      assert Groups(t, 8) == [t[..8]] + Groups(t[8..], 8);
      assert DecodeChunks(a, Groups(t, 8)) == [DecodeChunk(a, t[..8])] + rest;
      PackBytesConcat(DecodeChunk(a, t[..8]), Flatten(rest));
    } else {
      assert Groups(t, 8) == [t];
      assert DecodeChunks(a, Groups(t, 8)) == [DecodeChunk(a, t)];
      assert Flatten([DecodeChunk(a, t)]) == DecodeChunk(a, t) + Flatten<nat>([]);
    }
  }

  lemma PackBytesConcat(x: seq<nat>, y: seq<nat>)
    ensures PackBytes(x + y) == PackBytes(x) + PackBytes(y)
  {
  }

  lemma {:induction false} EncodeChunksConcat(alphabet: seq<Byte>, g: seq<seq<Byte>>, h: seq<seq<Byte>>)
    requires forall i :: 0 <= i < |g| ==> 1 <= |g[i]| <= 5
    requires forall i :: 0 <= i < |h| ==> 1 <= |h[i]| <= 5
    ensures EncodeChunks(alphabet, g + h) == EncodeChunks(alphabet, g) + EncodeChunks(alphabet, h)
  {
    if g == [] {
      assert g + h == h;
    } else {
      assert (g + h)[0] == g[0] && (g + h)[1..] == g[1..] + h;
      EncodeChunksConcat(alphabet, g[1..], h);
      ConcatAssoc([EncodeChunk(alphabet, g[0])], EncodeChunks(alphabet, g[1..]), EncodeChunks(alphabet, h));
    }
  }

  lemma {:induction false} DecodeChunksConcat(alphabet: seq<Byte>, g: seq<seq<Byte>>, h: seq<seq<Byte>>)
    requires forall i :: 0 <= i < |g| ==> 1 <= |g[i]| <= 8
    requires forall i :: 0 <= i < |h| ==> 1 <= |h[i]| <= 8
    ensures DecodeChunks(alphabet, g + h) == DecodeChunks(alphabet, g) + DecodeChunks(alphabet, h)
  {
    if g == [] {
      assert g + h == h;
    } else {
      assert (g + h)[0] == g[0] && (g + h)[1..] == g[1..] + h;
      DecodeChunksConcat(alphabet, g[1..], h);
      ConcatAssoc([DecodeChunk(alphabet, g[0])], DecodeChunks(alphabet, g[1..]), DecodeChunks(alphabet, h));
    }
  }

  /** Groups are encoded independently and joined in input order, so input
      split at a multiple of five bytes encodes piece by piece. */
  lemma EncodeConcat(codec: Codec, x: seq<Byte>, y: seq<Byte>)
    requires |x| % 5 == 0
    ensures Encode(codec, x + y) == Encode(codec, x) + Encode(codec, y)
  {
    var a := codec.alphabet;
    GroupsConcat(x, y, 5, |x| / 5);
    EncodeChunksConcat(a, Groups(x, 5), Groups(y, 5));
    var ex := EncodeChunks(a, Groups(x, 5));
    var ey := EncodeChunks(a, Groups(y, 5));
    FlattenConcat(ex, ey);
    FlattenConcat(Flatten(ex), Flatten(ey));
  }

  /** Text split at a multiple of eight symbols decodes piece by piece. */
  lemma DecodeConcat(codec: Codec, x: seq<Byte>, y: seq<Byte>)
    requires |x| % 8 == 0
    ensures Decode(codec, x + y) == Decode(codec, x) + Decode(codec, y)
  {
    var a := codec.alphabet;
    GroupsConcat(x, y, 8, |x| / 8);
    DecodeChunksConcat(a, Groups(x, 8), Groups(y, 8));
    var dx := DecodeChunks(a, Groups(x, 8));
    var dy := DecodeChunks(a, Groups(y, 8));
    FlattenConcat(dx, dy);
    PackBytesConcat(Flatten(dx), Flatten(dy));
  }

  // ---------------------------------------------------------------------
  // Lengths and alphabet

  /** `ceil(8n / 5)` symbols for `n` bytes: a full group gives 8, a last
      group of `k` bytes `ceil(8k / 5)`. */
  lemma {:induction false} EncodeLength(codec: Codec, s: seq<Byte>)
    requires |codec.alphabet| >= 32
    ensures |Encode(codec, s)| == CeilDiv(8 * |s|, 5)
    decreases |s|
  {
    if s != [] {
      EncodeFirstGroup(codec, s);
      if |s| <= 5 {
        EncodeChunkSymbols(codec.alphabet, s);
      } else {
        EncodeChunkSymbols(codec.alphabet, s[..5]);
        EncodeLength(codec, s[5..]);
      }
    }
  }

  /** `floor(5m / 8)` bytes for `m` symbols, for any alphabet and any text. */
  lemma {:induction false} DecodeLength(codec: Codec, t: seq<Byte>)
    ensures |Decode(codec, t)| == 5 * |t| / 8
    decreases |t|
  {
    if t != [] {
      DecodeFirstGroup(codec, t);
      if |t| > 8 {
        DecodeLength(codec, t[8..]);
      }
    }
  }

  /** Every byte `encode` emits is a symbol of the codec's alphabet. */
  lemma {:induction false} EncodeInAlphabet(codec: Codec, s: seq<Byte>)
    ensures AllIn(Encode(codec, s), codec.alphabet)
    decreases |s|
  {
    if s != [] {
      EncodeFirstGroup(codec, s);
      if |s| <= 5 {
        EncodeChunkInAlphabet(codec.alphabet, s);
      } else {
        var g := Flatten(EncodeChunk(codec.alphabet, s[..5]));
        EncodeChunkInAlphabet(codec.alphabet, s[..5]);
        EncodeInAlphabet(codec, s[5..]);
        assert Encode(codec, s) == g + Encode(codec, s[5..]);
      }
    }
  }

  // ---------------------------------------------------------------------
  // Round trip

  /** With a valid alphabet, decoding an encoding gives back exactly the
      bytes that were encoded. */
  lemma {:induction false} RoundTrip(codec: Codec, s: seq<Byte>)
    requires ValidAlphabet(codec.alphabet)
    ensures Decode(codec, Encode(codec, s)) == s
    decreases |s|
  {
    var a := codec.alphabet;
    if s != [] {
      EncodeFirstGroup(codec, s);
      if |s| <= 5 {
        var e := Flatten(EncodeChunk(a, s));
        EncodeChunkSymbols(a, s);
        DecodeFirstGroup(codec, e);
        ChunkRoundTrip(a, s);
      } else {
        var e := Flatten(EncodeChunk(a, s[..5]));
        EncodeChunkSymbols(a, s[..5]);
        DecodeConcat(codec, e, Encode(codec, s[5..]));
        DecodeFirstGroup(codec, e);
        ChunkRoundTrip(a, s[..5]);
        RoundTrip(codec, s[5..]);
        assert s == s[..5] + s[5..];
      }
    }
  }

  /** With a valid alphabet, different inputs never share an encoding. */
  lemma EncodeInjective(codec: Codec, s: seq<Byte>, s': seq<Byte>)
    requires ValidAlphabet(codec.alphabet)
    requires Encode(codec, s) == Encode(codec, s')
    ensures s == s'
  {
    RoundTrip(codec, s);
    RoundTrip(codec, s');
  }

  // ---------------------------------------------------------------------
  // Symbols outside the alphabet

  /** Decoding looks at each symbol only through its alphabet value, so two
      texts whose symbols agree in value decode alike. */
  lemma {:induction false} DecodeBySymbolValue(codec: Codec, t: seq<Byte>, u: seq<Byte>)
    requires |t| == |u|
    requires forall i :: 0 <= i < |t| ==> SymbolValue(codec.alphabet, t[i]) == SymbolValue(codec.alphabet, u[i])
    ensures Decode(codec, t) == Decode(codec, u)
    decreases |t|
  {
    var a := codec.alphabet;
    if t != [] {
      DecodeFirstGroup(codec, t);
      DecodeFirstGroup(codec, u);
      if |t| <= 8 {
        assert SymbolValues(a, t) == SymbolValues(a, u);
      } else {
        assert SymbolValues(a, t[..8]) == SymbolValues(a, u[..8]);
        DecodeBySymbolValue(codec, t[8..], u[8..]);
      }
    }
  }

  /** No validation: a byte that is not in the alphabet decodes as if it
      were the alphabet's first symbol. */
  lemma UnknownSymbolReadsAsFirst(codec: Codec, t: seq<Byte>, i: nat)
    requires |codec.alphabet| > 0 && i < |t| && t[i] !in codec.alphabet
    ensures Decode(codec, t[i := codec.alphabet[0]]) == Decode(codec, t)
  {
    var u := t[i := codec.alphabet[0]];
    forall k | 0 <= k < |t|
      ensures SymbolValue(codec.alphabet, u[k]) == SymbolValue(codec.alphabet, t[k])
    {
    }
    DecodeBySymbolValue(codec, u, t);
  }

  // ---------------------------------------------------------------------
  // The default alphabet and the literal vectors

  /** `Base32.new` with no argument uses `RFC3548`, whose 32 symbols are
      distinct, so the round trip holds for the default codec. */
  lemma DefaultAlphabetValid()
    ensures New().alphabet == RFC3548
    ensures ValidAlphabet(New().alphabet)
  {
    DefaultAlphabetCodes();
  }

  /** The byte codes of `RFC3548`: `A` (65) to `Z` (90), then `2` (50) to
      `7` (55). */
  lemma DefaultAlphabetCodes()
    ensures |RFC3548| == 32
    ensures forall i :: 0 <= i < 26 ==> RFC3548[i] == 65 + i
    ensures forall i :: 26 <= i < 32 ==> RFC3548[i] == 24 + i
  {
  }

  /** The default codec decodes its own output to the encoded bytes, for
      every input: the property the round-trip tests check on sample
      strings. */
  lemma DefaultRoundTrip(s: seq<Byte>)
    ensures Decode(New(), Encode(New(), s)) == s
  {
    DefaultAlphabetValid();
    RoundTrip(New(), s);
  }
}
