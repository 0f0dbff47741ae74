/**
 AES-SIV of RFC 5297 over the CMAC of RFC 4493. Each loop of the vault is a
 method, proved to compute what the RFC defines; the properties the vault rests
 on are lemmas about the definitions.
 */
module Siv {
  import opened Wrappers
  import opened Bytes
  import opened Numbers

  const ZERO_BLOCK: Block := Zeros(16)

  // Doubling (section 2.3 of RFC 5297)

  /** A polynomial over GF(2) of degree below 128, the coefficient of x^k at k. */
  type Poly = p: seq<bool> | |p| == 128 witness seq(128, _ => false)

  /** Multiplication by x, reduced by x^128 + x^7 + x^2 + x + 1. */
  function TimesX(p: Poly): Poly {
    seq(128, k requires 0 <= k < 128 => (k > 0 && p[k - 1]) != (p[127] && (k == 0 || k == 1 || k == 2 || k == 7)))
  }

  /** A block as a polynomial: the first bit of the string is the coefficient of x^127. */
  function PolyOf(b: Block): Poly {
    seq(128, k requires 0 <= k < 128 => Bit(b[15 - k / 8], k % 8))
  }

  function ShiftIn(x: byte, next: byte): byte {
    (x << 1) | (next >> 7)
  }

  function ShiftReduced(x: byte, top: byte): byte {
    (x << 1) ^ ((top >> 7) * 0x87)
  }

  function Double(b: Block): Block {
    seq(16, i requires 0 <= i < 16 => if i < 15 then ShiftIn(b[i], b[i + 1]) else ShiftReduced(b[15], b[0]))
  }

  lemma PolyOfInjective(a: Block, b: Block)
    requires PolyOf(a) == PolyOf(b)
    ensures a == b
  {
    forall i | 0 <= i < 16
      ensures a[i] == b[i]
    {
      forall j | 0 <= j < 8
        ensures Bit(a[i], j) == Bit(b[i], j)
      {
        var k := 8 * (15 - i) + j;
        assert PolyOf(a)[k] == PolyOf(b)[k];
      }
      ByteOfBits(a[i], b[i]);
    }
  }

  /** One bit of the doubled block. */
  lemma DoubledBit(b: Block, i: nat, j: nat)
    requires i < 16 && j < 8
    ensures Bit(Double(b)[i], j)
         == ((if j > 0 then Bit(b[i], j - 1) else i < 15 && Bit(b[i + 1], 7))
             != (i == 15 && Bit(b[0], 7) && (j == 0 || j == 1 || j == 2 || j == 7)))
  {
  }

  /** The byte-wise doubling is multiplication by x in GF(2^128). */
  lemma DoubleIsTimesX(b: Block)
    ensures PolyOf(Double(b)) == TimesX(PolyOf(b))
  {
    hide Bit, Double;
    forall k | 0 <= k < 128
      ensures PolyOf(Double(b))[k] == TimesX(PolyOf(b))[k]
    {
      DoubledBit(b, 15 - k / 8, k % 8);
    }
  }

  /** Doubling loses nothing. */
  lemma DoubleInjective(a: Block, b: Block)
    requires Double(a) == Double(b)
    ensures a == b
  {
    hide Double;
    DoubleIsTimesX(a);
    DoubleIsTimesX(b);
    var p, q := PolyOf(a), PolyOf(b);
    assert TimesX(p)[0] == p[127] && TimesX(q)[0] == q[127];
    forall k | 0 <= k < 127
      ensures p[k] == q[k]
    {
      assert TimesX(p)[k + 1] == TimesX(q)[k + 1];
    }
    PolyOfInjective(a, b);
  }

  /** dbl. */
  method Dbl(b: Block) returns (res: Block)
    ensures res == Double(b)
  {
    var out := new byte[16];
    var carry := b[0] >> 7;
    for i := 0 to 15
      invariant forall k :: 0 <= k < i ==> out[k] == Double(b)[k]
    {
      out[i] := (b[i] << 1) | (b[i + 1] >> 7);
    }
    out[15] := (b[15] << 1) ^ (carry * 0x87);
    assert out[..] == Double(b);
    res := out[..];
  }

  // CMAC (section 2.4 of RFC 4493)

  /** The subkeys K1 and K2 of section 2.3. */
  function SubkeyOne(aes: Aes, key: bytes): Block {
    Double(aes.encrypt(key, ZERO_BLOCK))
  }

  function SubkeyTwo(aes: Aes, key: bytes): Block {
    Double(SubkeyOne(aes, key))
  }

  /** A message block that is not whole, padded with a one bit and zeros. */
  function Pad(m: bytes): Block
    requires |m| < 16
  {
    m + [0x80] + Zeros(15 - |m|)
  }

  /** M_last: the last block of a message under the subkey that says whether it was whole. */
  function LastBlock(aes: Aes, key: bytes, m: bytes): Block
    requires |m| <= 16
  {
    if |m| == 16 then Xor(m, SubkeyOne(aes, key)) else Xor(Pad(m), SubkeyTwo(aes, key))
  }

  /** The chain from x over what is left of the message, a block at a time. */
  function MacFrom(aes: Aes, key: bytes, x: Block, msg: bytes): Block
    decreases |msg|
  {
    if |msg| <= 16 then aes.encrypt(key, Xor(x, LastBlock(aes, key, msg)))
    else MacFrom(aes, key, aes.encrypt(key, Xor(x, msg[..16])), msg[16..])
  }

  function Mac(aes: Aes, key: bytes, msg: bytes): Block {
    MacFrom(aes, key, ZERO_BLOCK, msg)
  }

  /** cmac: a key with its two subkeys. */
  datatype Cmac = Cmac(aes: Aes, key: bytes, k1: Block, k2: Block) {
    ghost predicate Derived() {
      k1 == SubkeyOne(aes, key) && k2 == SubkeyTwo(aes, key)
    }
  }

  /** newCMAC. */
  method NewCmac(aes: Aes, key: bytes) returns (c: Cmac)
    ensures c.Derived() && c.aes == aes && c.key == key
  {
    var l := aes.encrypt(key, ZERO_BLOCK);
    var k1 := Dbl(l);
    var k2 := Dbl(k1);
    c := Cmac(aes, key, k1, k2);
  }

  /** cmac.sum. */
  method Sum(c: Cmac, msg: bytes) returns (tag: Block)
    requires c.Derived()
    ensures tag == Mac(c.aes, c.key, msg)
  {
    hide Double, SubkeyOne, SubkeyTwo, Xor, Pad;
    var n := (|msg| + 15) / 16;
    var complete := n > 0 && |msg| % 16 == 0;
    if n == 0 {
      n := 1;
    }
    var x: Block := ZERO_BLOCK;
    assert msg[0..] == msg;
    for i := 0 to n - 1
      invariant MacFrom(c.aes, c.key, x, msg[16 * i..]) == Mac(c.aes, c.key, msg)
    {
      var block := msg[16 * i..16 * (i + 1)];
      assert msg[16 * i..][..16] == block && msg[16 * i..][16..] == msg[16 * (i + 1)..];
      x := c.aes.encrypt(c.key, Xor(x, block));
    }
    var rest := msg[16 * (n - 1)..];
    var last: Block;
    if complete {
      last := Xor(rest, c.k1);
    } else {
      last := Xor(Pad(rest), c.k2);
    }
    tag := c.aes.encrypt(c.key, Xor(x, last));
  }

  // S2V (section 2.4 of RFC 5297)

  /** The XOR of a block onto the end of a string at least as long. */
  function XorEnd(a: bytes, b: Block): (r: bytes)
    requires |a| >= 16
    ensures |r| == |a|
  {
    a[..|a| - 16] + Xor(a[|a| - 16..], b)
  }

  /** S2V from the value D over the strings that are left, the last of which ends it. */
  function S2vFrom(aes: Aes, key: bytes, d: Block, strings: seq<bytes>): Block
    requires strings != []
    decreases |strings|
  {
    var s := strings[0];
    if |strings| > 1 then S2vFrom(aes, key, Xor(Double(d), Mac(aes, key, s)), strings[1..])
    else if |s| >= 16 then Mac(aes, key, XorEnd(s, d))
    else Mac(aes, key, Xor(Double(d), Pad(s)))
  }

  /** S2V of S1 to Sn, for n of at least 1. */
  function S2v(aes: Aes, key: bytes, strings: seq<bytes>): Block
    requires strings != []
  {
    S2vFrom(aes, key, Mac(aes, key, ZERO_BLOCK), strings)
  }

  /** siv.s2v: the associated data in order, the plaintext last. */
  method SyntheticIv(c: Cmac, plaintext: bytes, ad: seq<bytes>) returns (v: Block)
    requires c.Derived()
    ensures v == S2v(c.aes, c.key, ad + [plaintext])
  {
    hide Double, Mac, Pad;
    var d: Block := Sum(c, ZERO_BLOCK);
    ghost var strings := ad + [plaintext];
    assert strings[0..] == strings;
    for i := 0 to |ad|
      invariant S2vFrom(c.aes, c.key, d, strings[i..]) == S2v(c.aes, c.key, strings)
    {
      assert strings[i..][1..] == strings[i + 1..];
      var m := Sum(c, ad[i]);
      d := Dbl(d);
      d := Xor(d, m);
    }
    assert strings[|ad|..] == [plaintext];
    var t: bytes;
    if |plaintext| >= 16 {
      t := plaintext[..|plaintext| - 16] + Xor(plaintext[|plaintext| - 16..], d);
    } else {
      d := Dbl(d);
      t := Xor(d, Pad(plaintext));
    }
    v := Sum(c, t);
  }

  // CTR (section 2.5 of RFC 5297)

  /** The counter of the synthetic IV: its 32nd and 64th bit from the right are cleared. */
  function Cleared(v: Block): (q: Block)
    ensures q[8] <= 0x7f && q[12] <= 0x7f
    ensures forall k :: 0 <= k < 16 && k != 8 && k != 12 ==> q[k] == v[k]
  {
    v[8 := v[8] & 0x7f][12 := v[12] & 0x7f]
  }

  /** Exactly those two bits are cleared. */
  lemma ClearedBits(v: Block, i: nat, j: nat)
    requires i < 16 && j < 8
    ensures Bit(Cleared(v)[i], j) <==> Bit(v[i], j) && !((i == 8 || i == 12) && j == 7)
  {
  }

  /** The counter i blocks on, as a 128-bit number that wraps around. */
  function CounterBlock(q: Block, i: nat): Block {
    ToBytes((Number(q) + i) % Pow256(16), 16)
  }

  function KeyStream(aes: Aes, key: bytes, q: Block, k: nat): byte {
    aes.encrypt(key, CounterBlock(q, k / 16))[k % 16]
  }

  /** What cipher.NewCTR and XORKeyStream make of a string. */
  function CtrXor(aes: Aes, key: bytes, v: Block, src: bytes): (dst: bytes)
    ensures |dst| == |src|
  {
    Xor(src, seq(|src|, k requires 0 <= k < |src| => KeyStream(aes, key, Cleared(v), k)))
  }

  lemma CtrXorTwice(aes: Aes, key: bytes, v: Block, src: bytes)
    ensures CtrXor(aes, key, v, CtrXor(aes, key, v, src)) == src
  {
  }

  /** A number whose first bit is clear is below half of what its bytes hold. */
  lemma TopBitClear(b: bytes)
    requires b != [] && b[0] <= 0x7f
    ensures 2 * Number(b) < Pow256(|b|)
  {
    var rest := b[1..];
    assert b == [b[0]] + rest;
    NumberOfConcat([b[0]], rest);
    NumberBound(rest);
    assert Number([b[0]]) == b[0] as nat by {
      assert [b[0]][..0] == [];
    }
    assert b[0] as nat <= 127;
    HalfBound(b[0] as nat, Number(rest), Pow256(|rest|));
  }

  /** Adding less than half of what the low bytes of a counter hold never carries out of them. */
  lemma CounterStaysInLowBytes(q: Block, low: nat, i: nat)
    requires 0 < low < 16 && q[16 - low] <= 0x7f
    requires 2 * i < Pow256(low)
    ensures Number(q[16 - low..]) + i < Pow256(low)
    ensures CounterBlock(q, i) == q[..16 - low] + ToBytes(Number(q[16 - low..]) + i, low)
  {
    hide Pow256, Number, ToBytes;
    var a, b := q[..16 - low], q[16 - low..];
    assert q == a + b;
    TopBitClear(b);
    NumberOfConcat(a, b);
    var sum := Number(b) + i;
    ToBytesSplits(Number(a), sum, 16 - low, low);
    ToBytesOfNumber(a);
    var moved := CounterMoved(a, sum, low);
    assert Number(q) + i == Number(a) * Pow256(low) + sum;
  }

  /** The counter block with its low bytes replaced, which is still a 128-bit number. */
  lemma CounterMoved(a: bytes, sum: nat, low: nat) returns (x: nat)
    requires |a| + low == 16 && sum < Pow256(low)
    ensures x == Number(a) * Pow256(low) + sum
    ensures x % Pow256(16) == x
  {
    hide Number, Pow256;
    x := Number(a) * Pow256(low) + sum;
    NumberBound(a);
    PowersMultiply(|a|, low);
    ProductBound(Number(a), Pow256(|a|), Pow256(low), sum);
    SmallRemainder(x, Pow256(16));
  }

  /**
   With the two bits cleared, a counter kept in the low 64 bits, or for shorter
   messages in the low 32, steps through the same blocks as the 128-bit one.
   */
  lemma NarrowCounterAgrees(v: Block, i: nat)
    ensures i < 0x8000_0000_0000_0000 ==>
              && Number(Cleared(v)[8..]) + i < 0x1_0000_0000_0000_0000
              && CounterBlock(Cleared(v), i) == Cleared(v)[..8] + ToBytes(Number(Cleared(v)[8..]) + i, 8)
    ensures i < 0x8000_0000 ==>
              && Number(Cleared(v)[12..]) + i < 0x1_0000_0000
              && CounterBlock(Cleared(v), i) == Cleared(v)[..12] + ToBytes(Number(Cleared(v)[12..]) + i, 4)
  {
    PowersKnown();
    hide Pow256, Number, ToBytes, Cleared, CounterBlock;
    if i < 0x8000_0000_0000_0000 {
      CounterStaysInLowBytes(Cleared(v), 8, i);
    }
    if i < 0x8000_0000 {
      CounterStaysInLowBytes(Cleared(v), 4, i);
    }
  }

  lemma PowersKnown()
    ensures Pow256(4) == 0x1_0000_0000
    ensures Pow256(8) == 0x1_0000_0000_0000_0000
  {
  }

  // Seal and open (sections 2.6 and 2.7 of RFC 5297)

  datatype SivError = BadKey | Refused

  /** siv: the MAC key with its subkeys, and the key of CTR. */
  datatype Keys = Keys(aes: Aes, macKey: bytes, ctrKey: bytes)

  function Sealed(k: Keys, plaintext: bytes, ad: seq<bytes>): (c: bytes)
    ensures |c| == |plaintext| + 16
  {
    var v := S2v(k.aes, k.macKey, ad + [plaintext]);
    v + CtrXor(k.aes, k.ctrKey, v, plaintext)
  }

  function Opened(k: Keys, c: bytes, ad: seq<bytes>): Result<bytes, SivError> {
    if |c| < 16 then Err(Refused)
    else
      var plaintext := CtrXor(k.aes, k.ctrKey, c[..16], c[16..]);
      if S2v(k.aes, k.macKey, ad + [plaintext]) == c[..16] then Ok(plaintext) else Err(Refused)
  }

  /** What opens to a plaintext is exactly what that plaintext is sealed to. */
  lemma OpenExactlyUndoesSeal(k: Keys, plaintext: bytes, c: bytes, ad: seq<bytes>)
    ensures Opened(k, c, ad) == Ok(plaintext) <==> c == Sealed(k, plaintext, ad)
  {
    hide S2v, CtrXor;
    if c == Sealed(k, plaintext, ad) {
      var v := S2v(k.aes, k.macKey, ad + [plaintext]);
      assert c[..16] == v && c[16..] == CtrXor(k.aes, k.ctrKey, v, plaintext);
      CtrXorTwice(k.aes, k.ctrKey, v, plaintext);
    }
    if Opened(k, c, ad) == Ok(plaintext) {
      CtrXorTwice(k.aes, k.ctrKey, c[..16], c[16..]);
      assert c == c[..16] + c[16..];
    }
  }

  /** Two plaintexts under one set of associated data are never sealed to one ciphertext. */
  lemma SealInjective(k: Keys, p: bytes, q: bytes, ad: seq<bytes>)
    requires Sealed(k, p, ad) == Sealed(k, q, ad)
    ensures p == q
  {
    OpenExactlyUndoesSeal(k, p, Sealed(k, p, ad), ad);
    OpenExactlyUndoesSeal(k, q, Sealed(k, q, ad), ad);
  }

  /** newSIV: the MAC key is taken first. */
  method NewSiv(aes: Aes, encKey: bytes, macKey: bytes) returns (res: Result<(Cmac, Keys), SivError>)
    ensures res.Ok? <==> IsAesKey(encKey) && IsAesKey(macKey)
    ensures res.Ok? ==> res.value.0.Derived() && res.value.0.aes == aes && res.value.0.key == macKey
    ensures res.Ok? ==> res.value.1 == Keys(aes, macKey, encKey)
  {
    if !IsAesKey(macKey) || !IsAesKey(encKey) {
      return Err(BadKey);
    }
    var c := NewCmac(aes, macKey);
    return Ok((c, Keys(aes, macKey, encKey)));
  }

  /** siv.seal. */
  method Seal(c: Cmac, k: Keys, plaintext: bytes, ad: seq<bytes>) returns (out: bytes)
    requires c.Derived() && c.aes == k.aes && c.key == k.macKey
    ensures out == Sealed(k, plaintext, ad)
  {
    hide S2v, CtrXor;
    var v := SyntheticIv(c, plaintext, ad);
    out := v + CtrXor(k.aes, k.ctrKey, v, plaintext);
  }

  /** siv.open. */
  method Open(c: Cmac, k: Keys, ciphertext: bytes, ad: seq<bytes>) returns (res: Result<bytes, SivError>)
    requires c.Derived() && c.aes == k.aes && c.key == k.macKey
    ensures res == Opened(k, ciphertext, ad)
  {
    hide S2v, CtrXor;
    if |ciphertext| < 16 {
      return Err(Refused);
    }
    var v: Block := ciphertext[..16];
    var plaintext := CtrXor(k.aes, k.ctrKey, v, ciphertext[16..]);
    var check := SyntheticIv(c, plaintext, ad);
    if check != v {
      return Err(Refused);
    }
    return Ok(plaintext);
  }
}
