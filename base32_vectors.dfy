/** The worked examples of `ActiveSupport::Base32` with the default
    alphabet, proved by reducing each group to ordinary arithmetic on its
    40-bit value. */
module Base32Vectors {
  import opened Seqs
  import opened Arith
  import opened Base32
  import opened Base32Laws

  // ---------------------------------------------------------------------
  // Closed forms of the two folds and the two field splits

  lemma AccumulateSnoc(s: seq<nat>, w: nat, d: nat)
    ensures Accumulate(s + [d], w) == Shl(Accumulate(s, w), w) + d
  {
    assert (s + [d])[..|s|] == s;
  }

  lemma AccumulateStep(s: seq<nat>, w: nat, k: nat)
    requires 0 < k <= |s|
    ensures Accumulate(s[..k], w) == Shl(Accumulate(s[..k - 1], w), w) + s[k - 1]
  {
    assert s[..k] == s[..k - 1] + [s[k - 1]];
    AccumulateSnoc(s[..k - 1], w, s[k - 1]);
  }

  /** Five bytes read as one big-endian number. */
  lemma AccumulateFiveBytes(p: seq<nat>)
    requires |p| == 5
    ensures Accumulate(p, 8) == (((p[0] * 256 + p[1]) * 256 + p[2]) * 256 + p[3]) * 256 + p[4]
  {
    Pow2Values();
    assert p[..0] == [];
    assert p[..5] == p;
    forall k | 0 < k <= 5
      ensures Accumulate(p[..k], 8) == Accumulate(p[..k - 1], 8) * 256 + p[k - 1]
    {
      AccumulateStep(p, 8, k);
      ShlIsMul(Accumulate(p[..k - 1], 8), 8);
    }
  }

  /** Eight 5-bit values read as one base-32 number. */
  lemma AccumulateEightDigits(v: seq<nat>)
    requires |v| == 8
    ensures Accumulate(v, 5) ==
      ((((((v[0] * 32 + v[1]) * 32 + v[2]) * 32 + v[3]) * 32 + v[4]) * 32 + v[5]) * 32 + v[6]) * 32 + v[7]
  {
    Pow2Values();
    assert v[..0] == [];
    assert v[..8] == v;
    forall k | 0 < k <= 8
      ensures Accumulate(v[..k], 5) == Accumulate(v[..k - 1], 5) * 32 + v[k - 1]
    {
      AccumulateStep(v, 5, k);
      ShlIsMul(Accumulate(v[..k - 1], 5), 5);
    }
  }

  lemma ShrWStepFive(x: nat, i: nat)
    ensures ShrW(x, i + 1, 5) == ShrW(x / 32, i, 5)
  {
    assert ShrW(x, i + 1, 5) == ShrW(Shr(x, 5), i, 5);
    ShrIsDiv(x, 5);
    Pow2Values();
  }

  lemma ShrWStepEight(x: nat, i: nat)
    ensures ShrW(x, i + 1, 8) == ShrW(x / 256, i, 8)
  {
    assert ShrW(x, i + 1, 8) == ShrW(Shr(x, 8), i, 8);
    ShrIsDiv(x, 8);
    Pow2Values();
  }

  /** The eight 5-bit fields of `x`, most significant first, given the
      successive quotients of `x` by 32. */
  lemma FieldsEightOfFive(x: nat, q1: nat, q2: nat, q3: nat, q4: nat, q5: nat, q6: nat, q7: nat)
    requires q1 == x / 32 && q2 == q1 / 32 && q3 == q2 / 32 && q4 == q3 / 32
    requires q5 == q4 / 32 && q6 == q5 / 32 && q7 == q6 / 32
    ensures Fields(x, 8, 5) == [q7 % 32, q6 % 32, q5 % 32, q4 % 32, q3 % 32, q2 % 32, q1 % 32, x % 32]
  {
    Pow2Values();
    ShrWStepFive(x, 0); ShrWStepFive(q1, 0); ShrWStepFive(q2, 0); ShrWStepFive(q3, 0);
    ShrWStepFive(q4, 0); ShrWStepFive(q5, 0); ShrWStepFive(q6, 0);
    ShrWStepFive(x, 1); ShrWStepFive(x, 2); ShrWStepFive(x, 3); ShrWStepFive(x, 4);
    ShrWStepFive(x, 5); ShrWStepFive(x, 6);
    ShrWStepFive(q1, 1); ShrWStepFive(q1, 2); ShrWStepFive(q1, 3); ShrWStepFive(q1, 4); ShrWStepFive(q1, 5);
    ShrWStepFive(q2, 1); ShrWStepFive(q2, 2); ShrWStepFive(q2, 3); ShrWStepFive(q2, 4);
    ShrWStepFive(q3, 1); ShrWStepFive(q3, 2); ShrWStepFive(q3, 3);
    ShrWStepFive(q4, 1); ShrWStepFive(q4, 2);
    ShrWStepFive(q5, 1);
    forall j | 0 <= j < 8
      ensures Fields(x, 8, 5)[j] == ShrW(x, 7 - j, 5) % 32
    {
      FieldsAt(x, 8, 5, j);
    }
  }

  /** The five 8-bit fields of `x`, most significant first, given the
      successive quotients of `x` by 256. */
  lemma FieldsFiveOfEight(x: nat, q1: nat, q2: nat, q3: nat, q4: nat)
    requires q1 == x / 256 && q2 == q1 / 256 && q3 == q2 / 256 && q4 == q3 / 256
    ensures Fields(x, 5, 8) == [q4 % 256, q3 % 256, q2 % 256, q1 % 256, x % 256]
  {
    Pow2Values();
    ShrWStepEight(x, 0); ShrWStepEight(q1, 0); ShrWStepEight(q2, 0); ShrWStepEight(q3, 0);
    ShrWStepEight(x, 1); ShrWStepEight(x, 2); ShrWStepEight(x, 3);
    ShrWStepEight(q1, 1); ShrWStepEight(q1, 2);
    ShrWStepEight(q2, 1);
    forall j | 0 <= j < 5
      ensures Fields(x, 5, 8)[j] == ShrW(x, 4 - j, 8) % 256
    {
      FieldsAt(x, 5, 8, j);
    }
  }

  // ---------------------------------------------------------------------
  // The examples

  /** Input of two groups, the first full, encodes group by group. */
  lemma EncodeTwoGroups(codec: Codec, g0: seq<Byte>, g1: seq<Byte>)
    requires |g0| == 5 && 1 <= |g1| <= 5
    ensures Encode(codec, g0 + g1) == Flatten(EncodeChunk(codec.alphabet, g0)) + Flatten(EncodeChunk(codec.alphabet, g1))
  {
    EncodeConcat(codec, g0, g1);
    EncodeFirstGroup(codec, g0);
    EncodeFirstGroup(codec, g1);
  }

  /** A group of bytes whose 40-bit value is `x` encodes, with the default
      alphabet, to the symbols `e` of the 5-bit fields `d` of `x` (given the
      successive quotients of `x` by 32): `A` to `Z` for 0 to 25, `2` to `7`
      for 26 to 31. */
  lemma EncodeChunkOf(chunk: seq<Byte>, x: nat, q1: nat, q2: nat, q3: nat, q4: nat, q5: nat, q6: nat, q7: nat,
                      d: seq<nat>, e: seq<Byte>)
    requires 1 <= |chunk| <= 5
    requires Accumulate(Padded(chunk, 5), 8) == x
    requires q1 == x / 32 && q2 == q1 / 32 && q3 == q2 / 32 && q4 == q3 / 32
    requires q5 == q4 / 32 && q6 == q5 / 32 && q7 == q6 / 32
    requires d == [q7 % 32, q6 % 32, q5 % 32, q4 % 32, q3 % 32, q2 % 32, q1 % 32, x % 32]
    requires |e| == CeilDiv(|chunk| * 8, 5)
    requires forall j :: 0 <= j < |e| ==> e[j] == if d[j] < 26 then 65 + d[j] else 24 + d[j]
    ensures Flatten(EncodeChunk(RFC3548, chunk)) == e
  {
    FieldsEightOfFive(x, q1, q2, q3, q4, q5, q6, q7);
    DefaultAlphabetCodes();
    EncodeChunkSymbols(RFC3548, chunk);
  }

  lemma EncodeExampleAGroup0()
    ensures Flatten(EncodeChunk(RFC3548, [97])) == [77, 69]
  {
    PaddedLiteral([97], 5, [97, 0, 0, 0, 0]);
    AccumulateFiveBytes([97, 0, 0, 0, 0]);
    EncodeChunkOf([97], 416611827712, 13019119616, 406847488, 12713984, 397312, 12416, 388, 12, [12, 4, 0, 0, 0, 0, 0, 0], [77, 69]);
  }

  lemma EncodeExampleAText()
    ensures Bytes("a") == [97]
    ensures Bytes("ME") == [77, 69]
  {
  }

  lemma EncodeExampleA()
    ensures Encode(New(), Bytes("a")) == Bytes("ME")
  {
    EncodeExampleAText();
    EncodeExampleAGroup0();
    EncodeFirstGroup(New(), [97]);
  }

  lemma EncodeExampleAardvarkGroup0()
    ensures Flatten(EncodeChunk(RFC3548, [65, 97, 114, 100, 118])) == [73, 70, 81, 88, 69, 90, 68, 87]
  {
    PaddedLiteral([65, 97, 114, 100, 118], 5, [65, 97, 114, 100, 118]);
    AccumulateFiveBytes([65, 97, 114, 100, 118]);
    EncodeChunkOf([65, 97, 114, 100, 118], 280807761014, 8775242531, 274226329, 8569572, 267799, 8368, 261, 8, [8, 5, 16, 23, 4, 25, 3, 22], [73, 70, 81, 88, 69, 90, 68, 87]);
  }

  lemma EncodeExampleAardvarkGroup1()
    ensures Flatten(EncodeChunk(RFC3548, [97, 114, 107])) == [77, 70, 90, 71, 87]
  {
    PaddedLiteral([97, 114, 107], 5, [97, 114, 107, 0, 0]);
    AccumulateFiveBytes([97, 114, 107, 0, 0]);
    EncodeChunkOf([97, 114, 107], 418531442688, 13079107584, 408722112, 12772566, 399142, 12473, 389, 12, [12, 5, 25, 6, 22, 0, 0, 0], [77, 70, 90, 71, 87]);
  }

  lemma EncodeExampleAardvarkText()
    ensures Bytes("Aardvark") == [65, 97, 114, 100, 118] + [97, 114, 107]
    ensures Bytes("IFQXEZDWMFZGW") == [73, 70, 81, 88, 69, 90, 68, 87] + [77, 70, 90, 71, 87]
  {
  }

  lemma EncodeExampleAardvark()
    ensures Encode(New(), Bytes("Aardvark")) == Bytes("IFQXEZDWMFZGW")
  {
    EncodeExampleAardvarkText();
    EncodeExampleAardvarkGroup0();
    EncodeExampleAardvarkGroup1();
    EncodeTwoGroups(New(), [65, 97, 114, 100, 118], [97, 114, 107]);
  }

  lemma EncodeExampleGloucesterGroup0()
    ensures Flatten(EncodeChunk(RFC3548, [71, 108, 111, 117, 99])) == [73, 53, 87, 71, 54, 53, 76, 68]
  {
    PaddedLiteral([71, 108, 111, 117, 99], 5, [71, 108, 111, 117, 99]);
    AccumulateFiveBytes([71, 108, 111, 117, 99]);
    EncodeChunkOf([71, 108, 111, 117, 99], 306761921891, 9586310059, 299572189, 9361630, 292550, 9142, 285, 8, [8, 29, 22, 6, 30, 29, 11, 3], [73, 53, 87, 71, 54, 53, 76, 68]);
  }

  lemma EncodeExampleGloucesterGroup1()
    ensures Flatten(EncodeChunk(RFC3548, [101, 115, 116, 101, 114])) == [77, 86, 90, 88, 73, 90, 76, 83]
  {
    PaddedLiteral([101, 115, 116, 101, 114], 5, [101, 115, 116, 101, 114]);
    AccumulateFiveBytes([101, 115, 116, 101, 114]);
    EncodeChunkOf([101, 115, 116, 101, 114], 435728704882, 13616522027, 425516313, 13297384, 415543, 12985, 405, 12, [12, 21, 25, 23, 8, 25, 11, 18], [77, 86, 90, 88, 73, 90, 76, 83]);
  }

  lemma EncodeExampleGloucesterText()
    ensures Bytes("Gloucester") == [71, 108, 111, 117, 99] + [101, 115, 116, 101, 114]
    ensures Bytes("I5WG65LDMVZXIZLS") == [73, 53, 87, 71, 54, 53, 76, 68] + [77, 86, 90, 88, 73, 90, 76, 83]
  {
  }

  lemma EncodeExampleGloucester()
    ensures Encode(New(), Bytes("Gloucester")) == Bytes("I5WG65LDMVZXIZLS")
  {
    EncodeExampleGloucesterText();
    EncodeExampleGloucesterGroup0();
    EncodeExampleGloucesterGroup1();
    EncodeTwoGroups(New(), [71, 108, 111, 117, 99], [101, 115, 116, 101, 114]);
  }

  /** The encoded Aardvark example decodes back to its input. */
  lemma DecodeExampleAardvark()
    ensures Decode(New(), Bytes("IFQXEZDWMFZGW")) == Bytes("Aardvark")
  {
    var s, t := Bytes("Aardvark"), Bytes("IFQXEZDWMFZGW");
    EncodeExampleAardvark();
    DecodeOfEncoding(s, t);
  }

  /** With the default codec, a text known to be the encoding of `s`
      decodes to `s`. */
  lemma DecodeOfEncoding(s: seq<Byte>, t: seq<Byte>)
    requires Encode(New(), s) == t
    ensures Decode(New(), t) == s
  {
    DefaultRoundTrip(s);
  }

  /** A group of symbols decodes to the leading bytes `b` of the 40-bit
      value `x` its symbol values `v` make. */
  lemma DecodeChunkOf(alphabet: seq<Byte>, chunk: seq<Byte>, v: seq<nat>, x: nat, b: seq<nat>)
    requires 1 <= |chunk| <= 8
    requires SymbolValues(alphabet, chunk) == v
    requires Accumulate(Padded(v, 8), 5) == x
    requires |b| == |chunk| * 5 / 8 && |b| <= 5 && Fields(x, 5, 8)[..|b|] == b
    ensures DecodeChunk(alphabet, chunk) == b
  {
  }

  lemma DecodeExampleMEValues()
    ensures SymbolValues(RFC3548, [77, 69]) == [12, 4]
  {
    DefaultAlphabetCodes();
    assert RFC3548[12] == 77 && RFC3548[4] == 69;
  }

  /** The group "ME": its symbols are worth 12 and 4, the 40-bit value is
      12 * 2^35 + 4 * 2^30, and the one byte it carries is the top one, 97. */
  lemma DecodeExampleMEGroup()
    ensures PackBytes(DecodeChunk(RFC3548, [77, 69])) == [97]
  {
    DecodeExampleMEValues();
    DecodeExampleMEValue();
    DecodeExampleMEBytes();
    DecodeChunkOf(RFC3548, [77, 69], [12, 4], 416611827712, [97]);
  }

  lemma DecodeExampleMEValue()
    ensures Accumulate(Padded([12, 4], 8), 5) == 416611827712
  {
    PaddedLiteral([12, 4], 8, [12, 4, 0, 0, 0, 0, 0, 0]);
    AccumulateEightDigits([12, 4, 0, 0, 0, 0, 0, 0]);
  }

  lemma DecodeExampleMEBytes()
    ensures Fields(416611827712, 5, 8)[..1] == [97]
  {
    FieldsFiveOfEight(416611827712, 1627389952, 6356992, 24832, 97);
  }

  lemma PaddedLiteral(v: seq<nat>, n: nat, p: seq<nat>)
    requires |v| <= n && |p| == n && p[..|v|] == v
    requires forall i :: |v| <= i < n ==> p[i] == 0
    ensures Padded(v, n) == p
  {
  }

  lemma DecodeExampleME()
    ensures Decode(New(), Bytes("ME")) == Bytes("a")
  {
    EncodeExampleAText();
    DecodeExampleMEGroup();
    DecodeFirstGroup(New(), [77, 69]);
  }

  lemma DecodeExampleMFValues()
    ensures SymbolValues(RFC3548, [77, 70]) == [12, 5]
  {
    DefaultAlphabetCodes();
    assert RFC3548[12] == 77 && RFC3548[5] == 70;
  }

  /** The group "MF": worth 12 * 2^35 + 5 * 2^30, it differs from "ME" only
      in bits below the one byte two symbols carry, so it too gives 97. */
  lemma DecodeExampleMFGroup()
    ensures PackBytes(DecodeChunk(RFC3548, [77, 70])) == [97]
  {
    DecodeExampleMFValues();
    DecodeExampleMFValue();
    DecodeExampleMFBytes();
    DecodeChunkOf(RFC3548, [77, 70], [12, 5], 417685569536, [97]);
  }

  lemma DecodeExampleMFValue()
    ensures Accumulate(Padded([12, 5], 8), 5) == 417685569536
  {
    PaddedLiteral([12, 5], 8, [12, 5, 0, 0, 0, 0, 0, 0]);
    AccumulateEightDigits([12, 5, 0, 0, 0, 0, 0, 0]);
  }

  lemma DecodeExampleMFBytes()
    ensures Fields(417685569536, 5, 8)[..1] == [97]
  {
    FieldsFiveOfEight(417685569536, 1631584256, 6373376, 24896, 97);
  }

  lemma DecodeExampleMFText()
    ensures Bytes("MF") == [77, 70]
  {
  }

  /** Decoding drops the bits past the last whole byte without looking at
      them: "MF", which no encoding produces, decodes like "ME". */
  lemma DecodeExampleMF()
    ensures Decode(New(), Bytes("MF")) == Decode(New(), Bytes("ME"))
    ensures Decode(New(), Bytes("MF")) == Bytes("a")
  {
    DecodeExampleME();
    DecodeExampleMFText();
    DecodeExampleMFGroup();
    DecodeFirstGroup(New(), [77, 70]);
  }

  lemma DecodeExampleLowerCaseText()
    ensures Bytes("me") == [109, 101]
  {
  }

  lemma DecodeExampleLowerCaseValues()
    ensures SymbolValues(RFC3548, [109, 101]) == [0, 0]
  {
    DefaultAlphabetCodes();
    assert 109 !in RFC3548 && 101 !in RFC3548;
  }

  lemma DecodeExampleLowerCaseGroup()
    ensures PackBytes(DecodeChunk(RFC3548, [109, 101])) == [0]
  {
    DecodeExampleLowerCaseValues();
    DecodeExampleLowerCaseValue();
    DecodeExampleLowerCaseBytes();
    DecodeChunkOf(RFC3548, [109, 101], [0, 0], 0, [0]);
  }

  lemma DecodeExampleLowerCaseValue()
    ensures Accumulate(Padded([0, 0], 8), 5) == 0
  {
    PaddedLiteral([0, 0], 8, [0, 0, 0, 0, 0, 0, 0, 0]);
    AccumulateEightDigits([0, 0, 0, 0, 0, 0, 0, 0]);
  }

  lemma DecodeExampleLowerCaseBytes()
    ensures Fields(0, 5, 8)[..1] == [0]
  {
    FieldsFiveOfEight(0, 0, 0, 0, 0);
  }

  /** Decoding is case-sensitive and checks nothing: lower-case "me" gives a
      single zero byte rather than "a" or an error. */
  lemma DecodeExampleLowerCase()
    ensures Decode(New(), Bytes("me")) == [0]
  {
    DecodeExampleLowerCaseText();
    DecodeExampleLowerCaseGroup();
    DecodeFirstGroup(New(), [109, 101]);
  }
}
