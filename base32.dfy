/** `ActiveSupport::Base32`: a Base32 codec over a configurable alphabet.
    Encoding cuts the input bytes into groups of five, reads each group
    (zero-padded) as one 40-bit big-endian number, and emits its eight 5-bit
    fields, most significant first, as alphabet symbols, keeping only as many
    as the group's real bytes need. No `=` padding is written. Decoding cuts
    the text into groups of eight symbols and runs the same steps backwards.

    Strings are byte sequences: the alphabet is a string of single-byte
    characters, encoding yields the bytes of the output string, and decoding
    reads `string.bytes`. */
module Base32 {
  import opened Seqs
  import opened Arith

  type Byte = b: nat | b < 256

  datatype Option<T> = None | Some(value: T)

  /** The bytes of an ASCII string literal, for writing the default
      alphabet and the worked examples. Below 128 a character's code is its
      one UTF-8 byte; the codec itself takes any byte sequence. */
  function Bytes(s: string): (r: seq<Byte>)
    requires forall i :: 0 <= i < |s| ==> s[i] as int < 128
    ensures |r| == |s|
    ensures forall i :: 0 <= i < |s| ==> r[i] == s[i] as int
  {
    seq(|s|, i requires 0 <= i < |s| => s[i] as int)
  }

  /** `RFC3548`, the default alphabet: the letters A to Z, then the digits
      2 to 7 (the "base32" alphabet of section 6 of RFC 4648). */
  const RFC3548: seq<Byte> := Bytes("ABCDEFGHIJKLMNOPQRSTUVWXYZ234567")

  /** A codec instance: the only state is `@alphabet`, set by the
      constructor and never changed. */
  datatype Codec = Codec(alphabet: seq<Byte>)

  /** `ActiveSupport::Base32.new(alphabet = RFC3548)` */
  function New(alphabet: seq<Byte> := RFC3548): Codec
  {
    Codec(alphabet)
  }

  /** What the round trip needs of an alphabet: at least 32 symbols, the
      first 32 all different. Encoding only ever emits those 32, so what
      follows them does not matter. */
  predicate ValidAlphabet(alphabet: seq<Byte>)
  {
    |alphabet| >= 32 && forall i, j :: 0 <= i < j < 32 ==> alphabet[i] != alphabet[j]
  }

  /** `(n * 1.0 / d).ceil` for the small counts the codec uses. */
  function CeilDiv(n: nat, d: nat): nat
    requires d > 0
  {
    (n + d - 1) / d
  }

  // ---------------------------------------------------------------------
  // Symbol lookup

  /** `@alphabet[v]`: the one-character string at position `v`, or `nil`
      past the end, which the final `join` turns into nothing. */
  function Lookup(alphabet: seq<Byte>, v: nat): (r: seq<Byte>)
    ensures |r| <= 1 && AllIn(r, alphabet)
    ensures |r| == 1 <==> v < |alphabet|
  {
    if v < |alphabet| then [alphabet[v]] else []
  }

  /** `@alphabet.bytes.index(b)`: the first position holding `b`, if any. */
  function Index(alphabet: seq<Byte>, b: Byte): (r: Option<nat>)
    ensures r.None? <==> b !in alphabet
    ensures r.Some? ==> r.value < |alphabet| && alphabet[r.value] == b
    ensures r.Some? ==> forall k :: 0 <= k < r.value ==> alphabet[k] != b
  {
    if alphabet == [] then None
    else if alphabet[0] == b then Some(0)
    else match Index(alphabet[1..], b)
      case None => None
      case Some(i) => Some(i + 1)
  }

  /** `@alphabet.bytes.index(b) || 0`: a byte missing from the alphabet
      counts as 0. */
  function SymbolValue(alphabet: seq<Byte>, b: Byte): nat
  {
    match Index(alphabet, b)
    case Some(i) => i
    case None => 0
  }

  /** The value of each symbol of a group. */
  function SymbolValues(alphabet: seq<Byte>, chunk: seq<Byte>): seq<nat>
  {
    seq(|chunk|, i requires 0 <= i < |chunk| => SymbolValue(alphabet, chunk[i]))
  }

  // ---------------------------------------------------------------------
  // Groups

  /** The group padded to `n` elements with zeros: `in_groups_of` fills a
      short last group with `nil`, and the folds read `nil` as 0. */
  function Padded(chunk: seq<nat>, n: nat): seq<nat>
    requires |chunk| <= n
  {
    chunk + Zeros(n - |chunk|)
  }

  /** `encode_chunk`: the symbol strings for one group of 1 to 5 bytes. */
  function EncodeChunk(alphabet: seq<Byte>, chunk: seq<Byte>): seq<seq<Byte>>
    requires 1 <= |chunk| <= 5
  {
    var charactersNeeded := CeilDiv(|chunk| * 8, 5);
    var fortyBits := Accumulate(Padded(chunk, 5), 8);
    var fields := Fields(fortyBits, 8, 5);
    seq(charactersNeeded, j requires 0 <= j < charactersNeeded => Lookup(alphabet, fields[j]))
  }

  /** `decode_chunk`: the byte values for one group of 1 to 8 symbols. */
  function DecodeChunk(alphabet: seq<Byte>, chunk: seq<Byte>): seq<nat>
    requires 1 <= |chunk| <= 8
  {
    var charactersEncoded := |chunk| * 5 / 8;
    var fortyBits := Accumulate(Padded(SymbolValues(alphabet, chunk), 8), 5);
    Fields(fortyBits, 5, 8)[..charactersEncoded]
  }

  /** `groups.map { |chunk| encode_chunk(chunk) }` */
  function EncodeChunks(alphabet: seq<Byte>, groups: seq<seq<Byte>>): seq<seq<seq<Byte>>>
    requires forall i :: 0 <= i < |groups| ==> 1 <= |groups[i]| <= 5
  {
    if groups == [] then [] else [EncodeChunk(alphabet, groups[0])] + EncodeChunks(alphabet, groups[1..])
  }

  /** `groups.map { |chunk| decode_chunk(chunk) }` */
  function DecodeChunks(alphabet: seq<Byte>, groups: seq<seq<Byte>>): seq<seq<nat>>
    requires forall i :: 0 <= i < |groups| ==> 1 <= |groups[i]| <= 8
  {
    if groups == [] then [] else [DecodeChunk(alphabet, groups[0])] + DecodeChunks(alphabet, groups[1..])
  }

  /** `pack('C*')`: each integer becomes the byte holding its low 8 bits. */
  function PackBytes(s: seq<nat>): (r: seq<Byte>)
    ensures |r| == |s|
    ensures forall i :: 0 <= i < |s| && s[i] < 256 ==> r[i] == s[i]
  {
    seq(|s|, i requires 0 <= i < |s| => s[i] % 256)
  }

  // ---------------------------------------------------------------------
  // The public operations

  /** `encode(string)`: `in_groups_of(5)`, `encode_chunk` on each group,
      then `flatten.join`. */
  function Encode(codec: Codec, s: seq<Byte>): (r: seq<Byte>)
    ensures s == [] ==> r == []
  {
    Flatten(Flatten(EncodeChunks(codec.alphabet, Groups(s, 5))))
  }

  /** `decode(string)`: `in_groups_of(8)`, `decode_chunk` on each group,
      then `flatten.pack('C*')`. Every input decodes: nothing is checked. */
  function Decode(codec: Codec, t: seq<Byte>): (r: seq<Byte>)
    ensures t == [] ==> r == []
  {
    PackBytes(Flatten(DecodeChunks(codec.alphabet, Groups(t, 8))))
  }
}
