/**
 Answers worked out by hand: what the constructions of the vault make of short
 inputs under a cipher as simple as XOR with the key, and what published texts
 encode and sum to.
 */
module KnownAnswers {
  import opened Wrappers
  import opened Bytes
  import opened Numbers
  import Siv
  import KeyWrap
  import Base32
  import Crc32
  import Recovery

  /** A block of zeros but for its first and its last byte. */
  function Framed(first: byte, last: byte): (b: Block)
    ensures b[0] == first && b[15] == last && forall i :: 0 < i < 15 ==> b[i] == 0
  {
    [first] + Zeros(14) + [last]
  }

  lemma IsFramed(b: Block)
    requires forall i :: 0 < i < 15 ==> b[i] == 0
    ensures b == Framed(b[0], b[15])
  {
  }

  lemma XorEnds(a: byte, b: byte, c: byte, d: byte)
    ensures Xor(Framed(a, b), Framed(c, d))[0] == a ^ c && Xor(Framed(a, b), Framed(c, d))[15] == b ^ d
  {
    hide Framed, Xor;
  }

  lemma XorInside(a: byte, b: byte, c: byte, d: byte, i: nat)
    requires 0 < i < 15
    ensures Xor(Framed(a, b), Framed(c, d))[i] == 0
  {
    hide Framed, Xor;
  }

  lemma XorFramed(a: byte, b: byte, c: byte, d: byte)
    ensures Xor(Framed(a, b), Framed(c, d)) == Framed(a ^ c, b ^ d)
  {
    hide Framed, Xor;
    XorEnds(a, b, c, d);
    forall i | 0 < i < 15
      ensures Xor(Framed(a, b), Framed(c, d))[i] == 0
    {
      XorInside(a, b, c, d, i);
    }
    IsFramed(Xor(Framed(a, b), Framed(c, d)));
  }

  lemma DoubleFramed(a: byte, b: byte)
    requires b < 0x80
    ensures Siv.Double(Framed(a, b)) == Framed(a << 1, (b << 1) ^ ((a >> 7) * 0x87))
  {
    hide Framed;
    var d := Siv.Double(Framed(a, b));
    assert d[0] == Siv.ShiftIn(a, 0) && d[14] == Siv.ShiftIn(0, b) && d[15] == Siv.ShiftReduced(b, a);
    assert forall i :: 0 < i < 14 ==> d[i] == Siv.ShiftIn(0, 0);
    IsFramed(d);
  }

  /** XOR with the key. */
  lemma Enciphered(key: byte, a: byte, b: byte)
    ensures XorFamily().encrypt(Framed(0, key), Framed(a, b)) == Framed(a, b ^ key)
  {
    XorFramed(a, b, 0, key);
    assert Framed(0, key)[..16] == Framed(0, key);
  }

  // CMAC (section 2.4 of RFC 4493), under the key 0...01: the subkeys are 0...02 and 0...04

  const MAC_KEY: Block := Framed(0, 1)

  lemma Subkeys()
    ensures Siv.SubkeyOne(XorFamily(), MAC_KEY) == Framed(0, 2)
    ensures Siv.SubkeyTwo(XorFamily(), MAC_KEY) == Framed(0, 4)
  {
    IsFramed(Siv.ZERO_BLOCK);
    Enciphered(1, 0, 0);
    DoubleFramed(0, 1);
    DoubleFramed(0, 2);
  }

  lemma XorBits(a: byte, b: byte)
    ensures (b ^ 2) ^ 1 == b ^ 3 && (b ^ 4) ^ 1 == b ^ 5 && 0 ^ b == b && a ^ 0 == a
  {
  }

  lemma MacOfOne(aes: Aes, key: bytes, m: bytes)
    requires |m| <= 16
    ensures Siv.Mac(aes, key, m) == aes.encrypt(key, Siv.LastBlock(aes, key, m))
  {
    hide Siv.LastBlock;
    XorCancels(Siv.LastBlock(aes, key, m), Siv.ZERO_BLOCK);
    assert Xor(Siv.ZERO_BLOCK, Siv.LastBlock(aes, key, m)) == Siv.LastBlock(aes, key, m);
  }

  lemma LastWhole(a: byte, b: byte)
    ensures Siv.LastBlock(XorFamily(), MAC_KEY, Framed(a, b)) == Framed(a, b ^ 2)
  {
    hide Framed, Xor, XorFamily, Siv.SubkeyOne, Siv.SubkeyTwo;
    Subkeys();
    XorFramed(a, b, 0, 2);
    XorBits(a, b);
  }

  /** The MAC of one whole block, and of nothing. */
  lemma MacOfBlock(a: byte, b: byte)
    ensures Siv.Mac(XorFamily(), MAC_KEY, Framed(a, b)) == Framed(a, b ^ 3)
  {
    hide Framed, Xor, XorFamily, Siv.LastBlock, Siv.Mac;
    MacOfOne(XorFamily(), MAC_KEY, Framed(a, b));
    LastWhole(a, b);
    Enciphered(1, a, b ^ 2);
    XorBits(a, b);
  }

  lemma MacOfNothing()
    ensures Siv.Mac(XorFamily(), MAC_KEY, []) == Framed(0x80, 5)
  {
    hide Xor, XorFamily, Siv.Mac, Siv.SubkeyOne, Siv.SubkeyTwo;
    MacOfOne(XorFamily(), MAC_KEY, []);
    IsFramed(Siv.Pad([]));
    Subkeys();
    hide Framed;
    XorFramed(0x80, 0, 0, 4);
    Enciphered(1, 0x80, 4);
  }

  // S2V and SIV (sections 2.4 and 2.6 of RFC 5297)

  lemma S2vStart(strings: seq<bytes>)
    requires strings != []
    ensures Siv.S2v(XorFamily(), MAC_KEY, strings) == Siv.S2vFrom(XorFamily(), MAC_KEY, Framed(0, 3), strings)
  {
    IsFramed(Siv.ZERO_BLOCK);
    hide Framed, XorFamily, Siv.Mac, Siv.S2vFrom;
    MacOfBlock(0, 0);
    XorBits(0, 3);
  }

  lemma S2vOfLast(aes: Aes, key: bytes, d: Block)
    ensures Siv.S2vFrom(aes, key, d, [[]]) == Siv.Mac(aes, key, Xor(Siv.Double(d), Framed(0x80, 0)))
  {
    hide Siv.Double, Siv.Mac, Framed;
    IsFramed(Siv.Pad([]));
  }

  /** The last string, where it is shorter than a block. */
  lemma S2vEndsShort(a: byte, b: byte)
    requires b < 0x80
    ensures Siv.S2vFrom(XorFamily(), MAC_KEY, Framed(a, b), [[]])
         == Framed((a << 1) ^ 0x80, ((b << 1) ^ ((a >> 7) * 0x87)) ^ 3)
  {
    hide Framed, XorFamily, Siv.Mac, Xor, Siv.Double, Siv.S2vFrom;
    S2vOfLast(XorFamily(), MAC_KEY, Framed(a, b));
    DoubleFramed(a, b);
    SumWithPad(a << 1, (b << 1) ^ ((a >> 7) * 0x87));
    MacOfBlock((a << 1) ^ 0x80, (b << 1) ^ ((a >> 7) * 0x87));
  }

  lemma SumWithPad(a: byte, b: byte)
    ensures Xor(Framed(a, b), Framed(0x80, 0)) == Framed(a ^ 0x80, b)
  {
    hide Framed, Xor;
    XorFramed(a, b, 0x80, 0);
    XorBits(b, b);
  }

  lemma S2vOfNothing()
    ensures Siv.S2v(XorFamily(), MAC_KEY, [[]]) == Framed(0x80, 5)
  {
    S2vStart([[]]);
    S2vEndsShort(0, 3);
    hide Framed, XorFamily, Siv.S2vFrom, Siv.S2v;
  }

  /** With an empty string of associated data before it. */
  lemma S2vOfTwo()
    ensures Siv.S2v(XorFamily(), MAC_KEY, [[], []]) == Framed(0x80, 0x82)
  {
    S2vStart([[], []]);
    MacOfNothing();
    DoubleFramed(0, 3);
    XorFramed(0, 6, 0x80, 5);
    S2vEndsShort(0x80, 3);
    hide Framed, XorFamily, Siv.Mac, Xor, Siv.Double;
    var strings: seq<bytes> := [[], []];
    assert strings[1..] == [[]];
  }

  lemma XorCommutes(a: Block, b: Block)
    ensures Xor(a, b) == Xor(b, a)
  {
    hide Xor;
    forall i | 0 <= i < 16
      ensures Xor(a, b)[i] == Xor(b, a)[i]
    {
      assert a[i] ^ b[i] == b[i] ^ a[i];
    }
  }

  lemma XorAt(p: Block, d: byte, i: nat)
    requires i < 15
    ensures Xor(p, Framed(0, d))[i] == p[i]
  {
    hide Framed, Xor;
    assert Framed(0, d)[i] == 0;
    XorBits(p[i], p[i]);
  }

  /** Only the last byte changes. */
  lemma XorLast(p: Block, d: byte)
    ensures Xor(p, Framed(0, d)) == p[15 := p[15] ^ d]
  {
    hide Framed, Xor;
    forall i | 0 <= i < 16
      ensures Xor(p, Framed(0, d))[i] == p[15 := p[15] ^ d][i]
    {
      if i < 15 {
        XorAt(p, d, i);
      }
    }
  }

  lemma EncipheredLast(key: byte, p: Block)
    ensures XorFamily().encrypt(Framed(0, key), p) == p[15 := p[15] ^ key]
  {
    XorLast(p, key);
    assert Framed(0, key)[..16] == Framed(0, key);
  }

  lemma MacOfTwo(aes: Aes, key: bytes, first: Block, rest: bytes)
    requires 0 < |rest| <= 16
    ensures Siv.Mac(aes, key, first + rest)
         == aes.encrypt(key, Xor(aes.encrypt(key, Xor(Siv.ZERO_BLOCK, first)), Siv.LastBlock(aes, key, rest)))
  {
    hide Siv.LastBlock, Xor;
    var x := aes.encrypt(key, Xor(Siv.ZERO_BLOCK, first));
    assert (first + rest)[..16] == first && (first + rest)[16..] == rest;
    assert Siv.MacFrom(aes, key, x, rest) == aes.encrypt(key, Xor(x, Siv.LastBlock(aes, key, rest)));
  }

  /** A block of zeros, and then the last. */
  lemma MacAfterZeros(rest: bytes)
    requires 0 < |rest| <= 16
    ensures Siv.Mac(XorFamily(), MAC_KEY, Framed(0, 0) + rest) == Siv.LastBlock(XorFamily(), MAC_KEY, rest)
  {
    IsFramed(Siv.ZERO_BLOCK);
    hide XorFamily, Siv.LastBlock, Framed, Xor, Siv.Mac;
    var last := Siv.LastBlock(XorFamily(), MAC_KEY, rest);
    MacOfTwo(XorFamily(), MAC_KEY, Framed(0, 0), rest);
    XorFramed(0, 0, 0, 0);
    Enciphered(1, 0, 0);
    BothLast(last);
  }

  /** Under this key, mixing in the enciphered zeros and enciphering cancel. */
  lemma BothLast(p: Block)
    ensures XorFamily().encrypt(MAC_KEY, Xor(Framed(0, 1), p)) == p
  {
    hide XorFamily, Framed, Xor;
    XorCommutes(Framed(0, 1), p);
    XorLast(p, 1);
    var x := p[15 := p[15] ^ 1];
    EncipheredLast(1, x);
    TwiceIsNone(p[15]);
    assert x[15 := p[15]] == p;
  }

  lemma TwiceIsNone(b: byte)
    ensures (b ^ 1) ^ 1 == b
  {
  }

  /** The end of a longer string is what the value is mixed into: of 17 zeros the last byte, behind a whole block. */
  lemma S2vOfLonger()
    ensures Siv.S2v(XorFamily(), MAC_KEY, [Zeros(17)]) == [3, 0x80] + Zeros(13) + [4]
  {
    var text, mixed := Zeros(17), Framed(0, 0) + [3];
    S2vStart([text]);
    assert Siv.XorEnd(text, Framed(0, 3)) == mixed by {
      assert text[1..] == Framed(0, 0);
      XorFramed(0, 0, 0, 3);
    }
    var padded: Block := [3, 0x80] + Zeros(14);
    assert Siv.Pad([3]) == padded;
    hide Framed, XorFamily, Xor, Siv.Mac, Siv.XorEnd;
    MacAfterZeros([3]);
    assert Siv.LastBlock(XorFamily(), MAC_KEY, [3]) == padded[15 := 4] by {
      Subkeys();
      XorLast(padded, 4);
    }
  }

  /** The associated data comes before the text: a block of zeros beside nothing. */
  lemma S2vOfDataAndNothing()
    ensures Siv.S2v(XorFamily(), MAC_KEY, [Framed(0, 0), []]) == Framed(0x80, 9)
  {
    var strings: seq<bytes> := [Framed(0, 0), []];
    S2vStart(strings);
    MacOfBlock(0, 0);
    XorBits(0, 3);
    DoubleFramed(0, 3);
    XorFramed(0, 6, 0, 3);
    S2vEndsShort(0, 5);
    hide Framed, XorFamily, Siv.Mac, Xor, Siv.Double;
    assert strings[1..] == [[]];
  }

  /** What nothing is sealed to beside that. */
  lemma SealedNothing()
    ensures Siv.Sealed(Siv.Keys(XorFamily(), MAC_KEY, Framed(0, 0x10)), [], [Framed(0, 0)]) == Framed(0x80, 9)
  {
    S2vOfDataAndNothing();
    hide Framed, XorFamily, Siv.S2v, Siv.CtrXor;
    assert [Framed(0, 0)] + [[]] == [Framed(0, 0), []];
    assert Framed(0x80, 9) + [] == Framed(0x80, 9);
  }

  lemma {:induction false} NumberOfZeros(n: nat)
    ensures Number(Zeros(n)) == 0
  {
    if n > 0 {
      NumberOfZeros(n - 1);
      NumberOfLonger(Zeros(n - 1), 0);
      assert Zeros(n) == Zeros(n - 1) + [0];
    }
  }

  lemma NumberOfLast(b: byte)
    ensures Number(Framed(0, b)) == b as nat
  {
    hide Number, Zeros;
    NumberOfZeros(15);
    NumberOfLonger(Zeros(15), b);
    assert Framed(0, b) == Zeros(15) + [b];
  }

  /** The blocks that follow one another from 1 on. */
  lemma CounterFromOne()
    ensures Siv.CounterBlock(Framed(0, 1), 0) == Framed(0, 1)
    ensures Siv.CounterBlock(Framed(0, 1), 1) == Framed(0, 2)
  {
    NumberOfLast(1);
    NumberOfLast(2);
    NumberBound(Framed(0, 2));
    ToBytesOfNumber(Framed(0, 1));
    ToBytesOfNumber(Framed(0, 2));
    hide Number, ToBytes, Pow256, Framed;
    SmallRemainder(1, Pow256(16));
    SmallRemainder(2, Pow256(16));
  }

  lemma ClearedOfOne()
    ensures Siv.Cleared(Framed(0, 1)) == Framed(0, 1)
  {
    hide Framed;
    assert (0 as byte) & 0x7f == 0;
    assert Framed(0, 1)[8] == 0 && Framed(0, 1)[12] == 0;
    var v := Framed(0, 1);
    assert v[8 := 0][12 := 0] == v;
  }

  /** What 32 zeros are XORed with under the key 0...10, from the counter 0...01. */
  lemma StreamFromOne()
    ensures Siv.CtrXor(XorFamily(), Framed(0, 0x10), Framed(0, 1), Zeros(32)) == Framed(0, 0x11) + Framed(0, 0x12)
  {
    hide Framed, XorFamily, Siv.CounterBlock, Xor, Siv.CtrXor;
    CounterFromOne();
    ClearedOfOne();
    Enciphered(0x10, 0, 1);
    Enciphered(0x10, 0, 2);
    var out := Siv.CtrXor(XorFamily(), Framed(0, 0x10), Framed(0, 1), Zeros(32));
    forall k | 0 <= k < 32
      ensures out[k] == (Framed(0, 0x11) + Framed(0, 0x12))[k]
    {
      XoredWithStream(XorFamily(), Framed(0, 0x10), Framed(0, 1), k);
      assert k / 16 == 0 || k / 16 == 1;
    }
  }

  lemma XoredWithStream(aes: Aes, key: bytes, v: Block, k: nat)
    requires k < 32
    ensures Siv.CtrXor(aes, key, v, Zeros(32))[k] == aes.encrypt(key, Siv.CounterBlock(Siv.Cleared(v), k / 16))[k % 16]
  {
    hide Siv.CounterBlock, Siv.Cleared;
    var x := Siv.KeyStream(aes, key, Siv.Cleared(v), k);
    assert Siv.CtrXor(aes, key, v, Zeros(32))[k] == 0 ^ x;
    XorBits(x, x);
  }

  lemma S2vOfZeros()
    ensures Siv.S2v(XorFamily(), MAC_KEY, [Zeros(32)]) == Framed(0, 1)
  {
    var text, mixed := Zeros(32), Framed(0, 0) + Framed(0, 3);
    S2vStart([text]);
    assert Siv.XorEnd(text, Framed(0, 3)) == mixed by {
      assert text[16..] == Framed(0, 0);
      XorFramed(0, 0, 0, 3);
    }
    hide Framed, XorFamily, Xor, Siv.Mac, Siv.XorEnd;
    MacAfterZeros(Framed(0, 3));
    LastWhole(0, 3);
  }

  /** The key of the MAC makes the synthetic IV, and the other key the stream that starts from it. */
  lemma SealedZeros()
    ensures Siv.Sealed(Siv.Keys(XorFamily(), MAC_KEY, Framed(0, 0x10)), Zeros(32), [])
         == Framed(0, 1) + Framed(0, 0x11) + Framed(0, 0x12)
  {
    S2vOfZeros();
    StreamFromOne();
    hide Framed, XorFamily, Siv.CtrXor, Siv.S2v;
    assert [] + [Zeros(32)] == [Zeros(32)];
  }

  // Key wrap (section 2.2.1 of RFC 3394), under a key that changes nothing

  function Initial(last: byte): Word {
    [0xA6, 0xA6, 0xA6, 0xA6, 0xA6, 0xA6, 0xA6, last]
  }

  lemma CounterIsLast(t: nat, b: byte)
    requires t == b as nat
    ensures ToBytes(t, 8) == Zeros(7) + [b]
  {
    hide Number, ToBytes, Zeros;
    NumberOfZeros(7);
    NumberOfLonger(Zeros(7), b);
    ToBytesOfNumber(Zeros(7) + [b]);
  }

  lemma Mixed(last: byte, t: nat, b: byte)
    requires t == b as nat
    ensures KeyWrap.MixCounter(Initial(last), t) == Initial(last ^ b)
  {
    hide ToBytes;
    CounterIsLast(t, b);
    var w := KeyWrap.MixCounter(Initial(last), t);
    assert (0xA6 as byte) ^ 0 == 0xA6;
    assert forall k :: 0 <= k < 7 ==> w[k] == Initial(last)[k];
  }

  lemma ChangesNothing(p: Block)
    ensures XorFamily().encrypt(Zeros(16), p) == p
  {
    IsFramed(Zeros(16));
    EncipheredLast(0, p);
    XorBits(p[15], p[15]);
  }

  lemma PlainRegisters(t: nat, a: Word, u: Word, v: Word)
    ensures KeyWrap.Step(XorFamily(), Zeros(16), t, KeyWrap.State(a, [u, v]))
         == KeyWrap.State(KeyWrap.MixCounter(a, t), [v, u])
  {
    hide XorFamily, KeyWrap.MixCounter;
    ChangesNothing(a + u);
    assert (a + u)[..8] == a && (a + u)[8..] == u && [u, v][1..] == [v];
  }

  /** One more step, after k of them: the registers change places and its number is mixed in. */
  lemma PlainStep(s: KeyWrap.State, k: nat, last: byte, next: byte)
    requires next as nat == k + 1 && |s.r| == 2
    requires var r := if k % 2 == 0 then s.r else [s.r[1], s.r[0]];
             KeyWrap.Steps(XorFamily(), Zeros(16), s, k) == KeyWrap.State(Initial(last), r)
    ensures var r := if k % 2 == 1 then s.r else [s.r[1], s.r[0]];
            KeyWrap.Steps(XorFamily(), Zeros(16), s, k + 1) == KeyWrap.State(Initial(last ^ next), r)
  {
    hide XorFamily, KeyWrap.MixCounter, KeyWrap.Step, Initial, Zeros;
    var u, v := s.r[0], s.r[1];
    assert s.r == [u, v];
    Mixed(last, k + 1, next);
    hide KeyWrap.Words, ToBytes;
    if k % 2 == 0 {
      PlainRegisters(k + 1, Initial(last), u, v);
    } else {
      PlainRegisters(k + 1, Initial(last), v, u);
    }
  }

  /** A key of 16 bytes takes twelve steps, whose numbers are mixed into the initial value. */
  lemma WrappedPlainly(key: bytes)
    requires |key| == 16
    ensures KeyWrap.Wrapped(XorFamily(), Zeros(16), key) == Ok([0xA6, 0xA6, 0xA6, 0xA6, 0xA6, 0xA6, 0xA6, 0xAA] + key)
  {
    var s := KeyWrap.State(Initial(0xA6), KeyWrap.Words(key));
    PlainStep(s, 0, 0xa6, 1);
    PlainStep(s, 1, 0xa7, 2);
    PlainStep(s, 2, 0xa5, 3);
    PlainStep(s, 3, 0xa6, 4);
    PlainStep(s, 4, 0xa2, 5);
    PlainStep(s, 5, 0xa7, 6);
    PlainStep(s, 6, 0xa1, 7);
    PlainStep(s, 7, 0xa6, 8);
    PlainStep(s, 8, 0xae, 9);
    PlainStep(s, 9, 0xa7, 10);
    PlainStep(s, 10, 0xad, 11);
    PlainStep(s, 11, 0xa6, 12);
    KeyWrap.JoinOfWords(key);
  }

  // Texts

  lemma BitsOfFoo()
    ensures Bit(0x66, 6) && Bit(0x66, 5) && Bit(0x66, 2) && Bit(0x66, 1)
    ensures !Bit(0x66, 7) && !Bit(0x66, 4) && !Bit(0x66, 3) && !Bit(0x66, 0)
    ensures Bit(0x6f, 6) && Bit(0x6f, 5) && Bit(0x6f, 3) && Bit(0x6f, 2) && Bit(0x6f, 1) && Bit(0x6f, 0)
    ensures !Bit(0x6f, 7) && !Bit(0x6f, 4)
  {
  }

  lemma SymbolsOfF(b: bytes)
    requires b == [0x66]
    ensures Base32.SymbolAt(b, 0) == 12 && Base32.SymbolAt(b, 1) == 24
  {
    BitsOfFoo();
    hide Bit;
  }

  lemma SymbolsOfFoo(b: bytes)
    requires |b| == 3 && b[0] == 0x66 && b[1] == b[2] == 0x6f
    ensures Base32.SymbolAt(b, 0) == 12 && Base32.SymbolAt(b, 1) == 25 && Base32.SymbolAt(b, 2) == 23
    ensures Base32.SymbolAt(b, 3) == 22 && Base32.SymbolAt(b, 4) == 30
  {
    BitsOfFoo();
    hide Bit;
  }

  /** The letters in order, then the digits from 2. */
  lemma LetterOf(s: Base32.Symbol)
    ensures Base32.CharOf(s) as int == if s < 26 then 'A' as int + s else '2' as int + s - 26
  {
  }

  lemma WrittenAt(b: bytes, i: nat)
    requires i < (8 * |b| + 4) / 5
    ensures |Recovery.TextOf(Base32.Encode(b))| == (8 * |b| + 4) / 5
    ensures Recovery.TextOf(Base32.Encode(b))[i] == Base32.CharOf(Base32.SymbolAt(b, i))
  {
    hide Base32.SymbolAt, Base32.CharOf;
  }

  /** Section 10 of RFC 4648, without the padding. */
  lemma FooInBase32()
    ensures Recovery.TextOf(Base32.Encode([0x66])) == "MY"
    ensures Recovery.TextOf(Base32.Encode([0x66, 0x6f, 0x6f])) == "MZXW6"
  {
    hide Base32.SymbolAt, Base32.CharOf, Base32.Encode, Recovery.TextOf;
    var f, foo: bytes := [0x66], [0x66, 0x6f, 0x6f];
    SymbolsOfF(f);
    SymbolsOfFoo(foo);
    LetterOf(12);
    LetterOf(24);
    LetterOf(25);
    LetterOf(23);
    LetterOf(22);
    LetterOf(30);
    WrittenAt(f, 0);
    WrittenAt(f, 1);
    WrittenAt(foo, 0);
    WrittenAt(foo, 1);
    WrittenAt(foo, 2);
    WrittenAt(foo, 3);
    WrittenAt(foo, 4);
  }

  lemma Fed(s: bv32, msg: bytes, b: byte, next: bv32) returns (longer: bytes)
    requires Crc32.Run(0xFFFF_FFFF, msg) == s && Crc32.Feed(s, b) == next
    ensures longer == msg + [b] && Crc32.Run(0xFFFF_FFFF, longer) == next
  {
    hide Crc32.Feed;
    longer := msg + [b];
    assert longer[..|msg|] == msg;
  }

  lemma FeedsOfDigits()
    ensures Crc32.Feed(0xFFFF_FFFF, 0x31) == 0x7C23_1048
    ensures Crc32.Feed(0x7C23_1048, 0x32) == 0xB0AC_BB32
    ensures Crc32.Feed(0xB0AC_BB32, 0x33) == 0x77B7_9C2D
    ensures Crc32.Feed(0x77B7_9C2D, 0x34) == 0x641C_1F5C
    ensures Crc32.Feed(0x641C_1F5C, 0x35) == 0x340A_C5E3
    ensures Crc32.Feed(0x340A_C5E3, 0x36) == 0xF68D_2C9E
    ensures Crc32.Feed(0xF68D_2C9E, 0x37) == 0xAFFC_9660
    ensures Crc32.Feed(0xAFFC_9660, 0x38) == 0x651F_2550
    ensures Crc32.Feed(0x651F_2550, 0x39) == 0x340B_C6D9
  {
  }

  /** The sum of the digits 1 to 9. */
  lemma SumOfDigits()
    ensures Crc32.Checksum([0x31, 0x32, 0x33, 0x34, 0x35, 0x36, 0x37, 0x38, 0x39]) == 0xCBF4_3926
  {
    FeedsOfDigits();
    hide Crc32.Feed;
    var msg: bytes := [];
    msg := Fed(0xFFFF_FFFF, msg, 0x31, 0x7C23_1048);
    msg := Fed(0x7C23_1048, msg, 0x32, 0xB0AC_BB32);
    msg := Fed(0xB0AC_BB32, msg, 0x33, 0x77B7_9C2D);
    msg := Fed(0x77B7_9C2D, msg, 0x34, 0x641C_1F5C);
    msg := Fed(0x641C_1F5C, msg, 0x35, 0x340A_C5E3);
    msg := Fed(0x340A_C5E3, msg, 0x36, 0xF68D_2C9E);
    msg := Fed(0xF68D_2C9E, msg, 0x37, 0xAFFC_9660);
    msg := Fed(0xAFFC_9660, msg, 0x38, 0x651F_2550);
    msg := Fed(0x651F_2550, msg, 0x39, 0x340B_C6D9);
    assert msg == [0x31, 0x32, 0x33, 0x34, 0x35, 0x36, 0x37, 0x38, 0x39];
  }

  lemma GroupsOfSix()
    ensures Recovery.Grouped("MZXW6YTBOIABCDE") == "MZXW6Y-TBOIAB-CDE"
    ensures Recovery.Uint32([1, 2, 3, 4]) == 0x0102_0304 && Recovery.PutUint32(0x0102_0304) == [1, 2, 3, 4]
  {
    assert "MZXW6YTBOIABCDE"[6..] == "TBOIABCDE" && "TBOIABCDE"[6..] == "CDE";
    assert "MZXW6YTBOIABCDE"[..6] == "MZXW6Y" && "TBOIABCDE"[..6] == "TBOIAB";
    assert Recovery.Grouped("TBOIABCDE") == "TBOIAB-CDE";
  }
}
