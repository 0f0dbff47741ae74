/** CRC-32 with the IEEE polynomial, reflected, as hash/crc32 computes it, and the errors it is sure to catch. */
module Crc32 {
  import opened Bytes

  /** One bit through the register: x^32 is replaced by the polynomial 0xEDB88320. */
  function Shift(s: bv32): bv32 {
    if s & 1 == 1 then (s >> 1) ^ 0xEDB88320 else s >> 1
  }

  /** Eight bits through the register. */
  function Shift8(s: bv32): bv32 {
    Shift(Shift(Shift(Shift(Shift(Shift(Shift(Shift(s))))))))
  }

  function Feed(s: bv32, b: byte): bv32 {
    Shift8(s ^ (b as bv32))
  }

  /** The register after a string. */
  function Run(s: bv32, msg: bytes): bv32 {
    if msg == [] then s else Feed(Run(s, msg[..|msg| - 1]), msg[|msg| - 1])
  }

  /** crc32.ChecksumIEEE. */
  function Checksum(msg: bytes): bv32 {
    Run(0xFFFF_FFFF, msg) ^ 0xFFFF_FFFF
  }

  lemma ShiftInjective(s: bv32, t: bv32)
    requires Shift(s) == Shift(t)
    ensures s == t
  {
  }

  lemma HalvesXor(s: bv32, t: bv32)
    ensures (s ^ t) >> 1 == (s >> 1) ^ (t >> 1)
    ensures (s ^ t) & 1 == (s & 1) ^ (t & 1)
  {
  }

  predicate IsXor(u: bv32, s: bv32, t: bv32) {
    u == s ^ t
  }

  lemma ShiftLinear(s: bv32, t: bv32, u: bv32)
    requires IsXor(u, s, t)
    ensures IsXor(Shift(u), Shift(s), Shift(t))
  {
    HalvesXor(s, t);
    assert s & 1 == 0 || s & 1 == 1;
    assert t & 1 == 0 || t & 1 == 1;
  }

  lemma Shift8Injective(s: bv32, t: bv32)
    requires Shift8(s) == Shift8(t)
    ensures s == t
  {
    hide Shift;
    var s1, t1 := Shift(s), Shift(t);
    var s2, t2 := Shift(s1), Shift(t1);
    var s3, t3 := Shift(s2), Shift(t2);
    var s4, t4 := Shift(s3), Shift(t3);
    var s5, t5 := Shift(s4), Shift(t4);
    var s6, t6 := Shift(s5), Shift(t5);
    var s7, t7 := Shift(s6), Shift(t6);
    ShiftInjective(s7, t7);
    ShiftInjective(s6, t6);
    ShiftInjective(s5, t5);
    ShiftInjective(s4, t4);
    ShiftInjective(s3, t3);
    ShiftInjective(s2, t2);
    ShiftInjective(s1, t1);
    ShiftInjective(s, t);
  }

  lemma Shift8Linear(s: bv32, t: bv32, u: bv32)
    requires IsXor(u, s, t)
    ensures IsXor(Shift8(u), Shift8(s), Shift8(t))
  {
    hide Shift, IsXor;
    var s1, t1, u1 := Shift(s), Shift(t), Shift(u);
    var s2, t2, u2 := Shift(s1), Shift(t1), Shift(u1);
    var s3, t3, u3 := Shift(s2), Shift(t2), Shift(u2);
    var s4, t4, u4 := Shift(s3), Shift(t3), Shift(u3);
    var s5, t5, u5 := Shift(s4), Shift(t4), Shift(u4);
    var s6, t6, u6 := Shift(s5), Shift(t5), Shift(u5);
    ShiftLinear(s, t, u);
    ShiftLinear(s1, t1, u1);
    ShiftLinear(s2, t2, u2);
    ShiftLinear(s3, t3, u3);
    ShiftLinear(s4, t4, u4);
    ShiftLinear(s5, t5, u5);
    ShiftLinear(s6, t6, u6);
    ShiftLinear(Shift(s6), Shift(t6), Shift(u6));
  }

  lemma RunConcat(s: bv32, a: bytes, b: bytes)
    ensures Run(s, a + b) == Run(Run(s, a), b)
  {
    hide Feed;
    if b == [] {
      assert a + b == a;
    } else {
      assert (a + b)[..|a + b| - 1] == a + b[..|b| - 1];
      RunConcat(s, a, b[..|b| - 1]);
    }
  }

  lemma FeedInjective(s: bv32, t: bv32, b: byte)
    requires Feed(s, b) == Feed(t, b)
    ensures s == t
  {
    hide Shift8;
    Shift8Injective(s ^ (b as bv32), t ^ (b as bv32));
  }

  lemma {:induction false} RunInjective(s: bv32, t: bv32, msg: bytes)
    requires Run(s, msg) == Run(t, msg)
    ensures s == t
  {
    hide Feed;
    if msg != [] {
      var init, b := msg[..|msg| - 1], msg[|msg| - 1];
      FeedInjective(Run(s, init), Run(t, init), b);
      RunInjective(s, t, init);
    }
  }

  lemma FedBytesDiffer(s: bv32, x: byte, y: byte)
    ensures IsXor((x ^ y) as bv32, s ^ (x as bv32), s ^ (y as bv32))
  {
  }

  /** The difference of two bytes fed from one state is their difference pushed through the register. */
  lemma FedDifference(s: bv32, x: byte, y: byte)
    ensures IsXor(Shift8((x ^ y) as bv32), Feed(s, x), Feed(s, y))
  {
    hide Shift8, IsXor;
    FedBytesDiffer(s, x, y);
    Shift8Linear(s ^ (x as bv32), s ^ (y as bv32), (x ^ y) as bv32);
  }

  /** A sum gives away any change within two neighbouring bytes. */
  lemma CatchesTwoBytes(before: bytes, x1: byte, x2: byte, y1: byte, y2: byte, after: bytes)
    requires Checksum(before + [x1, x2] + after) == Checksum(before + [y1, y2] + after)
    ensures x1 == y1 && x2 == y2
  {
    hide Feed, Checksum, IsXor, Shift8, Run;
    var s := Run(0xFFFF_FFFF, before);
    RunOfTwoBytes(before, x1, x2, after);
    RunOfTwoBytes(before, y1, y2, after);
    var s1, t1 := Feed(s, x1), Feed(s, y1);
    var s2, t2 := Feed(s1, x2), Feed(t1, y2);
    SameRun(before + [x1, x2] + after, before + [y1, y2] + after);
    RunInjective(s2, t2, after);
    SecondByte(s1, t1, x2, y2);
    FedDifference(s, x1, y1);
    BothBytes(s1, t1, x1, x2, y1, y2);
  }

  lemma SameRun(a: bytes, b: bytes)
    requires Checksum(a) == Checksum(b)
    ensures Run(0xFFFF_FFFF, a) == Run(0xFFFF_FFFF, b)
  {
  }

  lemma RunOfTwoBytes(before: bytes, x1: byte, x2: byte, after: bytes)
    ensures Run(0xFFFF_FFFF, before + [x1, x2] + after)
         == Run(Feed(Feed(Run(0xFFFF_FFFF, before), x1), x2), after)
  {
    hide Feed;
    var s := Run(0xFFFF_FFFF, before);
    RunConcat(0xFFFF_FFFF, before + [x1, x2], after);
    RunConcat(0xFFFF_FFFF, before, [x1, x2]);
    assert [x1, x2][..1] == [x1] && [x1][..0] == [];
    assert Run(s, [x1]) == Feed(s, x1);
  }

  lemma SecondByte(s: bv32, t: bv32, x: byte, y: byte)
    requires Feed(s, x) == Feed(t, y)
    ensures IsXor((x ^ y) as bv32, s, t)
  {
    hide Shift8;
    Shift8Injective(s ^ (x as bv32), t ^ (y as bv32));
  }

  lemma BothBytes(s: bv32, t: bv32, x1: byte, x2: byte, y1: byte, y2: byte)
    requires IsXor((x2 ^ y2) as bv32, s, t)
    requires IsXor(Shift8((x1 ^ y1) as bv32), s, t)
    ensures x1 == y1 && x2 == y2
  {
  }

  /** A change of the last two bits of a message shows in the sum behind its first three bits. */
  lemma CatchesLastBits(before: bytes, x: byte, y: byte)
    requires x ^ y <= 3
    requires (Checksum(before + [x]) ^ Checksum(before + [y])) & 0x1FFF_FFFF == 0
    ensures x == y
  {
    hide Feed, Shift8;
    var s := Run(0xFFFF_FFFF, before);
    assert (before + [x])[..|before|] == before && (before + [y])[..|before|] == before;
    FedDifference(s, x, y);
    LastBits(Feed(s, x), Feed(s, y), x, y);
  }

  lemma LastBits(s: bv32, t: bv32, x: byte, y: byte)
    requires x ^ y <= 3
    requires IsXor(Shift8((x ^ y) as bv32), s, t)
    requires ((s ^ 0xFFFF_FFFF) ^ (t ^ 0xFFFF_FFFF)) & 0x1FFF_FFFF == 0
    ensures x == y
  {
  }
}
