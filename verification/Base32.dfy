/** Base32 without padding (section 6 of RFC 4648), as a regrouping of bits, eight to a byte and five to a character. */
module Base32 {
  import opened Wrappers
  import opened Bytes

  /** What a character stands for. */
  type Symbol = n: nat | n < 32

  const ALPHABET: string := "ABCDEFGHIJKLMNOPQRSTUVWXYZ234567"

  function CharOf(s: Symbol): char {
    ALPHABET[s]
  }

  function SymbolOf(c: char): Option<Symbol> {
    if 'A' <= c <= 'Z' then Some(c as int - 'A' as int)
    else if '2' <= c <= '7' then Some(26 + (c as int - '2' as int))
    else None
  }

  lemma SymbolOfCharOf(s: Symbol)
    ensures SymbolOf(CharOf(s)) == Some(s)
  {
  }

  /** Bit k of a string of bytes, the first bit of each byte first. */
  predicate BitOfBytes(b: bytes, k: nat)
    requires k < 8 * |b|
  {
    Bit(b[k / 8], 7 - k % 8)
  }

  /** Bit k of a string of symbols, the first bit of each symbol first. */
  predicate BitOfSymbols(v: seq<Symbol>, k: nat)
    requires k < 5 * |v|
  {
    match k % 5
    case 0 => v[k / 5] / 16 % 2 == 1
    case 1 => v[k / 5] / 8 % 2 == 1
    case 2 => v[k / 5] / 4 % 2 == 1
    case 3 => v[k / 5] / 2 % 2 == 1
    case _ => v[k / 5] % 2 == 1
  }

  function Weight(bit: bool, w: nat): nat {
    if bit then w else 0
  }

  function Mask(bit: bool, w: byte): byte {
    if bit then w else 0
  }

  /** Bit k, or a zero bit behind the end, which is what the last character is filled up with. */
  predicate BitOrZero(b: bytes, k: nat) {
    k < 8 * |b| && BitOfBytes(b, k)
  }

  function SymbolAt(b: bytes, i: nat): Symbol {
    Weight(BitOrZero(b, 5 * i), 16) + Weight(BitOrZero(b, 5 * i + 1), 8) + Weight(BitOrZero(b, 5 * i + 2), 4)
    + Weight(BitOrZero(b, 5 * i + 3), 2) + Weight(BitOrZero(b, 5 * i + 4), 1)
  }

  function ByteAt(v: seq<Symbol>, j: nat): byte
    requires 8 * j + 8 <= 5 * |v|
  {
    Mask(BitOfSymbols(v, 8 * j), 128) | Mask(BitOfSymbols(v, 8 * j + 1), 64) | Mask(BitOfSymbols(v, 8 * j + 2), 32)
    | Mask(BitOfSymbols(v, 8 * j + 3), 16) | Mask(BitOfSymbols(v, 8 * j + 4), 8) | Mask(BitOfSymbols(v, 8 * j + 5), 4)
    | Mask(BitOfSymbols(v, 8 * j + 6), 2) | Mask(BitOfSymbols(v, 8 * j + 7), 1)
  }

  /** EncodeToString, as symbols. */
  function Encode(b: bytes): (v: seq<Symbol>)
    ensures |v| == (8 * |b| + 4) / 5
  {
    seq((8 * |b| + 4) / 5, i requires 0 <= i => SymbolAt(b, i))
  }

  /**
   How many bytes n characters decode to: five for every eight, and for what is
   left over none, one, two or three; one, three or six characters left over
   are dropped.
   */
  function DecodedLength(n: nat): (m: nat)
    ensures 8 * m <= 5 * n
  {
    5 * (n / 8) + (match n % 8 case 2 => 1 case 4 => 2 case 5 => 3 case 7 => 4 case _ => 0)
  }

  /** DecodeString, of symbols. */
  function Decode(v: seq<Symbol>): (b: bytes)
    ensures |b| == DecodedLength(|v|)
  {
    seq(DecodedLength(|v|), j requires 0 <= j < DecodedLength(|v|) => ByteAt(v, j))
  }

  lemma GatheredBits(b7: bool, b6: bool, b5: bool, b4: bool, b3: bool, b2: bool, b1: bool, b0: bool)
    ensures var x := Mask(b7, 128) | Mask(b6, 64) | Mask(b5, 32) | Mask(b4, 16)
                     | Mask(b3, 8) | Mask(b2, 4) | Mask(b1, 2) | Mask(b0, 1);
            && Bit(x, 7) == b7 && Bit(x, 6) == b6 && Bit(x, 5) == b5 && Bit(x, 4) == b4
            && Bit(x, 3) == b3 && Bit(x, 2) == b2 && Bit(x, 1) == b1 && Bit(x, 0) == b0
  {
  }

  lemma BitOfByteAt(v: seq<Symbol>, j: nat, r: nat)
    requires 8 * j + 8 <= 5 * |v| && r < 8
    ensures Bit(ByteAt(v, j), 7 - r) == BitOfSymbols(v, 8 * j + r)
  {
    hide Bit, BitOfSymbols, Mask;
    GatheredBits(BitOfSymbols(v, 8 * j), BitOfSymbols(v, 8 * j + 1), BitOfSymbols(v, 8 * j + 2),
                 BitOfSymbols(v, 8 * j + 3), BitOfSymbols(v, 8 * j + 4), BitOfSymbols(v, 8 * j + 5),
                 BitOfSymbols(v, 8 * j + 6), BitOfSymbols(v, 8 * j + 7));
  }

  /** Decoding moves no bit. */
  lemma DecodedBit(v: seq<Symbol>, k: nat)
    requires k < 8 * DecodedLength(|v|)
    ensures BitOfBytes(Decode(v), k) == BitOfSymbols(v, k)
  {
    hide Bit, BitOfSymbols, ByteAt, DecodedLength;
    BitOfByteAt(v, k / 8, k % 8);
    assert Decode(v)[k / 8] == ByteAt(v, k / 8);
  }

  lemma GatheredWeights(b4: bool, b3: bool, b2: bool, b1: bool, b0: bool)
    ensures var x := Weight(b4, 16) + Weight(b3, 8) + Weight(b2, 4) + Weight(b1, 2) + Weight(b0, 1);
            && (x / 16 % 2 == 1) == b4 && (x / 8 % 2 == 1) == b3 && (x / 4 % 2 == 1) == b2
            && (x / 2 % 2 == 1) == b1 && (x % 2 == 1) == b0
  {
  }

  /** Encoding moves no bit. */
  lemma EncodedBit(b: bytes, k: nat)
    requires k < 8 * |b|
    ensures BitOfSymbols(Encode(b), k) == BitOfBytes(b, k)
  {
    hide BitOfBytes, Weight;
    var i := k / 5;
    assert Encode(b)[i] == SymbolAt(b, i);
    GatheredWeights(BitOrZero(b, 5 * i), BitOrZero(b, 5 * i + 1), BitOrZero(b, 5 * i + 2), BitOrZero(b, 5 * i + 3),
                    BitOrZero(b, 5 * i + 4));
    assert k == 5 * i + k % 5;
    hide Encode, SymbolAt;
  }

  /** Bytes with the same bits are the same bytes. */
  lemma SameBytes(a: bytes, b: bytes, j: nat)
    requires j < |a| && j < |b|
    requires forall k :: 8 * j <= k < 8 * j + 8 ==> BitOfBytes(a, k) == BitOfBytes(b, k)
    ensures a[j] == b[j]
  {
    hide Bit;
    forall i | 0 <= i < 8
      ensures Bit(a[j], i) == Bit(b[j], i)
    {
      assert BitOfBytes(a, 8 * j + (7 - i)) == BitOfBytes(b, 8 * j + (7 - i));
    }
    ByteOfBits(a[j], b[j]);
  }

  lemma DecodeOfEncode(b: bytes)
    ensures Decode(Encode(b)) == b
  {
    hide Decode, Encode, BitOfBytes, BitOfSymbols;
    var v := Encode(b);
    forall j | 0 <= j < |b|
      ensures Decode(v)[j] == b[j]
    {
      forall k | 8 * j <= k < 8 * j + 8
        ensures BitOfBytes(Decode(v), k) == BitOfBytes(b, k)
      {
        DecodedBit(v, k);
        EncodedBit(b, k);
      }
      SameBytes(Decode(v), b, j);
    }
  }

  /** A bit that is not in a changed symbol decodes as before. */
  lemma BitDecodedElsewhere(v: seq<Symbol>, q: nat, s: Symbol, k: nat)
    requires q < |v| && k < 8 * DecodedLength(|v|) && k / 5 != q
    ensures BitOfBytes(Decode(v[q := s]), k) == BitOfBytes(Decode(v), k)
  {
    hide Decode, BitOfBytes, DecodedLength;
    DecodedBit(v, k);
    DecodedBit(v[q := s], k);
  }

  /** A byte none of whose bits a changed symbol holds decodes as before. */
  lemma DecodedElsewhere(v: seq<Symbol>, q: nat, s: Symbol, j: nat)
    requires q < |v| && j < DecodedLength(|v|)
    requires j < 5 * q / 8 || j > (5 * q + 4) / 8
    ensures Decode(v[q := s])[j] == Decode(v)[j]
  {
    hide Decode, BitOfBytes;
    forall k | 8 * j <= k < 8 * j + 8
      ensures BitOfBytes(Decode(v[q := s]), k) == BitOfBytes(Decode(v), k)
    {
      BitDecodedElsewhere(v, q, s, k);
    }
    SameBytes(Decode(v[q := s]), Decode(v), j);
  }
}
