/** Byte strings as big-endian numbers of any length. */
module Numbers {
  import opened Bytes

  /** 256 to the power n. */
  function Pow256(n: nat): (p: nat)
    ensures p >= 1
  {
    if n == 0 then 1 else 256 * Pow256(n - 1)
  }

  function Number(b: bytes): nat {
    if b == [] then 0 else 256 * Number(b[..|b| - 1]) + b[|b| - 1] as nat
  }

  /** The low n bytes of a number. */
  function ToBytes(x: nat, n: nat): (b: bytes)
    ensures |b| == n
    decreases n
  {
    if n == 0 then [] else ToBytes(x / 256, n - 1) + [(x % 256) as byte]
  }

  lemma Scaled(h: nat, p: nat)
    ensures h * (256 * p) == 256 * (h * p)
  {
  }

  lemma SmallRemainder(x: nat, p: nat)
    requires x < p
    ensures x % p == x
  {
  }

  lemma HalfBound(x: nat, r: nat, p: nat)
    requires x <= 127 && r < p
    ensures 2 * (x * p + r) < 256 * p
  {
  }

  lemma ProductBound(a: nat, b: nat, p: nat, s: nat)
    requires a < b && s < p
    ensures a * p + s < b * p
  {
    assert (a + 1) * p <= b * p;
  }

  lemma {:induction false} PowersMultiply(n: nat, m: nat)
    ensures Pow256(n) * Pow256(m) == Pow256(n + m)
    decreases m
  {
    if m > 0 {
      PowersMultiply(n, m - 1);
      Scaled(Pow256(n), Pow256(m - 1));
    }
  }

  lemma {:induction false} NumberBound(b: bytes)
    ensures Number(b) < Pow256(|b|)
  {
    if b != [] {
      NumberBound(b[..|b| - 1]);
    }
  }

  lemma {:induction false} ToBytesOfNumber(b: bytes)
    ensures ToBytes(Number(b), |b|) == b
  {
    if b != [] {
      var init := b[..|b| - 1];
      assert Number(b) / 256 == Number(init) && Number(b) % 256 == b[|b| - 1] as nat;
      ToBytesOfNumber(init);
      assert b == init + [b[|b| - 1]];
    }
  }

  lemma NumberOfLonger(init: bytes, last: byte)
    ensures Number(init + [last]) == 256 * Number(init) + last as nat
  {
    assert (init + [last])[..|init|] == init;
  }

  /** Counting up to a number. */
  function ByteOf(y: nat): (b: byte)
    requires y < 256
    ensures b as nat == y
  {
    if y == 0 then 0 else ByteOf(y - 1) + 1
  }

  lemma LowByte(x: nat)
    ensures (x % 256) as byte as nat == x % 256
  {
    var b := ByteOf(x % 256);
    assert (b as nat) as byte == b;
  }

  /** A number that fits is what its bytes say. */
  lemma {:induction false} NumberOfToBytes(x: nat, n: nat)
    requires x < Pow256(n)
    ensures Number(ToBytes(x, n)) == x
    decreases n
  {
    if n > 0 {
      assert x / 256 < Pow256(n - 1);
      hide Pow256, Number;
      NumberOfToBytes(x / 256, n - 1);
      NumberOfLonger(ToBytes(x / 256, n - 1), (x % 256) as byte);
      LowByte(x);
    }
  }

  lemma {:induction false} NumberOfConcat(a: bytes, b: bytes)
    ensures Number(a + b) == Number(a) * Pow256(|b|) + Number(b)
  {
    if b == [] {
      assert a + b == a;
    } else {
      var init := b[..|b| - 1];
      assert (a + b)[..|a + b| - 1] == a + init;
      NumberOfConcat(a, init);
      var p := Pow256(|init|);
      assert Pow256(|b|) == 256 * p;
      hide Pow256;
      Scaled(Number(a), p);
      assert Number(a + b) == 256 * (Number(a) * p + Number(init)) + b[|b| - 1] as nat;
    }
  }

  /** Adding to the low bytes without a carry out of them leaves the high bytes alone. */
  lemma {:induction false} ToBytesSplits(high: nat, low: nat, n: nat, m: nat)
    requires low < Pow256(m)
    ensures ToBytes(high * Pow256(m) + low, n + m) == ToBytes(high, n) + ToBytes(low, m)
    decreases m
  {
    if m > 0 {
      var x, p := high * Pow256(m) + low, Pow256(m - 1);
      assert Pow256(m) == 256 * p;
      hide Pow256;
      Scaled(high, p);
      assert x == 256 * (high * p) + low;
      assert x / 256 == high * p + low / 256 && x % 256 == low % 256;
      ToBytesSplits(high, low / 256, n, m - 1);
    } else {
      assert high * Pow256(0) + low == high;
    }
  }
}
