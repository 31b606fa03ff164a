# ActiveSupport::Base32 in Dafny

This project models `ActiveSupport::Base32` from Rails' Active Support. It is
a Base32 codec over a configurable alphabet, and it proves properties of the
model.

- `encode` cuts the input bytes into groups of five (`in_groups_of(5)`). It
  reads each group, zero-padded, as one 40-bit big-endian number. It emits
  that number's eight 5-bit fields, most significant first, as alphabet
  symbols, and keeps only the `ceil(8k / 5)` symbols that a group of `k`
  real bytes needs.
- No `=` padding is written.
- `decode` cuts the text into groups of eight symbols. It reads each symbol
  as its position in the alphabet, packs the positions into 40 bits, and
  keeps the leading `floor(5m / 8)` bytes of a group of `m` symbols.

The model is pure, as the Ruby class is: the only state an instance has is
`@alphabet`, set once by the constructor.

- `Seqs` holds the collection helpers the Ruby code is written with:
  `in_groups_of`, `flatten`/`join` and `reverse`.
- `Arith` holds the integer side:
  - `<<` and `>>` as `Shl`/`Shr`;
  - the `inject` fold as `Accumulate`;
  - the `n.times.map { (x >> (i * w)) & mask }.reverse` split as `Fields`;
  - the lemmas showing that `Fields` and `Accumulate` undo each other.
- `Base32` holds the codec itself.
- `Base32Laws` holds its properties.
- `Base32Vectors` holds the worked examples of the test suite.

Two things the code does not do:

- **Decoding validates nothing.** A byte that is not in the alphabet counts
  as 0 (`index(byte) || 0`), so every text decodes. There is no
  `InvalidInput` error.
- **There is no case-sensitivity option.** Lower-case text decodes with the
  upper-case default alphabet like any other unknown symbols.
  `Base32Vectors.DecodeExampleLowerCase` shows that `"me"` decodes to a
  single zero byte.

Strings are byte sequences. An input string is its `bytes`, and the alphabet
is a sequence of single-byte symbols. `Base32.Bytes` is only a helper for
writing ASCII literals (the default alphabet and the examples): below 128 a
character's code is its one UTF-8 byte. The codec itself takes any byte
sequence.

## Model

| member | source | states |
|---|---|---|
| Base32.Lookup | activesupport/lib/active_support/base32.rb:25 | `@alphabet[v]`: at most one symbol, always an alphabet entry; exactly one when `v` is a position of the alphabet, none (`nil`) past its end |
| Base32Laws.SymbolValueIsIndex | activesupport/lib/active_support/base32.rb:30 | `index(byte)`, or 0 when that is `nil`: a byte missing from the alphabet is worth 0; otherwise its value is a position holding it, with no earlier position holding it |
| Base32Laws.PaddedShape | activesupport/lib/active_support/base32.rb:24 | the `nil` fill of `in_groups_of`, read as 0 by the folds: the padded group has `n` elements, starts with the group, and every added element is 0 |
| Base32.Index | activesupport/lib/active_support/base32.rb:30 | `@alphabet.bytes.index(byte)`: absent exactly when the byte is not in the alphabet; otherwise a position holding the byte, with no earlier position holding it |
| Base32.PackBytes | activesupport/lib/active_support/base32.rb:17 | `pack('C*')`: one byte per value, equal to the value whenever it is below 256 |
| Base32.Encode | activesupport/lib/active_support/base32.rb:8-12 | `encode("")` is empty |
| Base32.Decode | activesupport/lib/active_support/base32.rb:14-18 | `decode("")` is empty |
| Seqs.Groups | activesupport/lib/active_support/base32.rb:9 | `in_groups_of(n)` without the nil fill: pieces of 1 to `n` elements, all but the last exactly `n` |
| Seqs.FlattenGroups | activesupport/lib/active_support/base32.rb:9 | the pieces of `in_groups_of(n)`, without the fill, concatenate back to the input |
| Seqs.GroupsConcat | activesupport/lib/active_support/base32.rb:15 | grouping input whose first part is a whole number of groups yields that part's groups followed by the rest's |
| Seqs.FlattenConcat | activesupport/lib/active_support/base32.rb:11 | `flatten`/`join` of two lists of pieces is the join of each, concatenated |
| Seqs.Reverse | activesupport/lib/active_support/base32.rb:25 | `reverse`: same length, and element `i` is element `n-1-i` of the input |
| Arith.Fields | activesupport/lib/active_support/base32.rb:31 | the `n.times.map { (x >> (i * w)) & mask }.reverse` split: exactly `n` fields, each below `2^w` |
| Arith.AccumulateBound | activesupport/lib/active_support/base32.rb:30 | the `inject` fold of `k` values that fit in `w` bits leaves nothing above its low `k` fields |
| Arith.ShlIsMul | activesupport/lib/active_support/base32.rb:24 | `memo << n` is `memo * 2^n` |
| Arith.ShrIsDiv | activesupport/lib/active_support/base32.rb:25 | `x >> n` is `x / 2^n`, rounded down |
| Arith.FieldsOfAccumulate | activesupport/lib/active_support/base32.rb:24-25 | folding `w`-bit digits with `(memo << w) + d` and then splitting the result into `w`-bit fields, most significant first, gives back the digits |
| Arith.AccumulateOfFields | activesupport/lib/active_support/base32.rb:30-31 | splitting a number of `n` fields and folding the fields back gives the number again |
| Arith.FieldsPrefix | activesupport/lib/active_support/base32.rb:31-32 | folding back only the leading `m` of the `n` fields of `x` gives `x` with its low `n - m` fields shifted out |
| Arith.AccumulateZeros | activesupport/lib/active_support/base32.rb:24 | folding a group with `m` zero fill entries (a missing byte reads as 0) shifts the unpadded value left by `m` fields |
| Base32Laws.ChunkDigitsAreFields | activesupport/lib/active_support/base32.rb:24-25 | each of the eight values of a group is below 32; read in base 32 they give the group's 40-bit value; those past `ceil(8k / 5)` are 0, because they hold only padding |
| Base32Laws.PaddingDigitZero | activesupport/lib/active_support/base32.rb:23-25 | a 5-bit field past the `characters_needed` cut carries only zero fill bits |
| Base32Laws.EncodeChunkSymbols | activesupport/lib/active_support/base32.rb:22-26 | with at least 32 symbols, `encode_chunk` of `k` bytes yields `ceil(8k / 5)` symbols, and symbol `j` is the alphabet entry of the group's 5-bit field `j` |
| Base32Laws.EncodeChunkInAlphabet | activesupport/lib/active_support/base32.rb:25 | every symbol `encode_chunk` emits is an alphabet entry, for any alphabet |
| Base32Laws.SymbolValueOfSymbol | activesupport/lib/active_support/base32.rb:30 | when the first 32 symbols are distinct, the value looked up for `alphabet[v]`, `v < 32`, is `v` |
| Base32Laws.DecodeChunkBytes | activesupport/lib/active_support/base32.rb:28-32 | `decode_chunk` of `m` symbols yields `floor(5m / 8)` values, each below 256, for every alphabet and every text |
| Base32Laws.DecodeChunkValue | activesupport/lib/active_support/base32.rb:28-32 | when every symbol is worth less than 32, the bytes `decode_chunk` keeps, read as one number, are the group's 40-bit value with its low `40 - 8 * floor(5m / 8)` bits dropped |
| Base32Laws.ChunkRoundTrip | activesupport/lib/active_support/base32.rb:22-32 | when the first 32 symbols are distinct, `decode_chunk` of `encode_chunk` of a group of 1 to 5 bytes gives back the group |
| Base32Laws.EncodeFirstGroup | activesupport/lib/active_support/base32.rb:8-12 | `encode` emits the symbols of its first five-byte group, then the encoding of the rest |
| Base32Laws.DecodeFirstGroup | activesupport/lib/active_support/base32.rb:14-18 | `decode` emits the bytes of its first eight-symbol group, then the decoding of the rest |
| Base32Laws.EncodeConcat | activesupport/lib/active_support/base32.rb:8-12 | if the first part's length is a multiple of 5, `encode(a + b) == encode(a) + encode(b)` |
| Base32Laws.DecodeConcat | activesupport/lib/active_support/base32.rb:14-18 | if the first part's length is a multiple of 8, `decode(a + b) == decode(a) + decode(b)` |
| Base32Laws.EncodeLength | activesupport/lib/active_support/base32.rb:23 | with at least 32 symbols, `encode` of `n` bytes has `ceil(8n / 5)` symbols |
| Base32Laws.DecodeLength | activesupport/lib/active_support/base32.rb:29 | `decode` of `m` symbols has `floor(5m / 8)` bytes, for every alphabet and every text |
| Base32Laws.EncodeInAlphabet | activesupport/lib/active_support/base32.rb:25 | every byte of `encode`'s output is a symbol of the codec's alphabet |
| Base32Laws.RoundTrip | activesupport/lib/active_support/base32.rb:8-18 | for an alphabet of at least 32 symbols whose first 32 are distinct, `decode(encode(s)) == s` for every byte sequence `s` |
| Base32Laws.EncodeInjective | activesupport/lib/active_support/base32.rb:8-12 | for such an alphabet, equal encodings come from equal inputs |
| Base32Laws.DecodeBySymbolValue | activesupport/lib/active_support/base32.rb:30 | two texts of equal length whose symbols have the same looked-up values, position by position, decode alike |
| Base32Laws.UnknownSymbolReadsAsFirst | activesupport/lib/active_support/base32.rb:30 | a byte missing from the alphabet decodes exactly as the alphabet's first symbol would |
| Base32Laws.DefaultAlphabetCodes | activesupport/lib/active_support/base32.rb:2 | `RFC3548` is 32 symbols: codes 65 to 90 (`A` to `Z`), then 50 to 55 (`2` to `7`) |
| Base32Laws.DefaultAlphabetValid | activesupport/lib/active_support/base32.rb:4-6 | `Base32.new` with no argument uses `RFC3548`, whose 32 symbols are distinct |
| Base32Laws.DefaultRoundTrip | activesupport/test/base32_test.rb:35-37 | with the default codec, decoding the encoding of any byte sequence gives it back |
| Base32Vectors.EncodeExampleA | activesupport/test/base32_test.rb:12 | `encode("a") == "ME"` |
| Base32Vectors.EncodeExampleAardvark | activesupport/test/base32_test.rb:13 | `encode("Aardvark") == "IFQXEZDWMFZGW"` |
| Base32Vectors.EncodeExampleGloucester | activesupport/test/base32_test.rb:14 | `encode("Gloucester") == "I5WG65LDMVZXIZLS"` |
| Base32Vectors.DecodeExampleAardvark | activesupport/test/base32_test.rb:13 | `decode("IFQXEZDWMFZGW") == "Aardvark"` |
| Base32Vectors.DecodeExampleME | activesupport/lib/active_support/base32.rb:28-32 | `decode("ME") == "a"` |
| Base32Vectors.DecodeExampleMF | activesupport/lib/active_support/base32.rb:29-31 | `decode("MF") == decode("ME") == "a"`: the bits below the last whole byte are dropped unread |
| Base32Vectors.DecodeExampleLowerCase | activesupport/lib/active_support/base32.rb:30 | `decode("me")` is a single zero byte, because lower-case symbols are unknown to the default alphabet and count as 0 |

## Left out

- The float arithmetic `(n * 8.0 / 5.0).ceil` and `(n * 5.0 / 8.0).floor` is modelled as exact integer division (`CeilDiv` and `/`). The counts are at most 8, so the two agree.
- Ruby string encodings are not modelled. The model works on the bytes of a string, and `force_encoding` in the round-trip test does not change bytes. The test inputs in UTF-8 and UTF-32BE are therefore covered by `Base32Laws.DefaultRoundTrip` for every byte sequence, but are not written out as vectors.
- Multi-byte alphabet characters are not modelled. `@alphabet[v]` is a character and `@alphabet.bytes.index` is a byte position, so the two only agree for single-byte alphabets, and the model takes the alphabet as a sequence of bytes.
- Case-insensitive decoding and an `InvalidInput` error are not modelled, because `base32.rb` has neither: decode checks nothing (see above).
- The constructor `Base32.new` (`Base32.New`) has no contract of its own. `Base32Laws.DefaultAlphabetValid` states what it does with no argument.
- Base32Laws.EncodeLength: needs at least 32 symbols. With a shorter alphabet `@alphabet[v]` is `nil` for large `v` and vanishes in `join`, so the output can be shorter than `ceil(8n / 5)`. That happens when some emitted 5-bit field is at least the alphabet's size.
- Base32Laws.RoundTrip: needs at least 32 symbols with the first 32 distinct. With a repeated symbol among them `index` finds the first copy, and some inputs do not round-trip.
- `StrictBase64Encoder` (strict_base64_encoder.rb) and `MessageVerifier` are not part of this model. They use a codec but are not part of it.
