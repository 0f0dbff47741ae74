/**
 AES Key Wrap. The specification is the shifting-register description of
 section 2.2.1 and 2.2.2 of RFC 3394; the methods are the in-place indexed loops
 the vault runs, and are proved to compute it.
 */
module KeyWrap {
  import opened Wrappers
  import opened Bytes
  import opened Numbers

  datatype WrapError = BadLength | BadKey | Mismatch

  const KEY_WRAP_IV: Word := [0xA6, 0xA6, 0xA6, 0xA6, 0xA6, 0xA6, 0xA6, 0xA6]

  /** The register A and the registers R[1] to R[n] of section 2.2.1. */
  datatype State = State(a: Word, r: seq<Word>)

  /** A XOR t, as big-endian numbers of 64 bits. */
  function MixCounter(w: Word, t: nat): Word {
    Xor(w, ToBytes(t, 8))
  }

  lemma MixCounterTwice(w: Word, t: nat)
    ensures MixCounter(MixCounter(w, t), t) == w
  {
    XorCancels(w, ToBytes(t, 8));
  }

  /** Step t of wrapping: every register moves down by one, and the last takes what was encrypted. */
  function Step(aes: Aes, kek: bytes, t: nat, s: State): (s': State)
    requires s.r != []
    ensures |s'.r| == |s.r|
  {
    var b := aes.encrypt(kek, s.a + s.r[0]);
    State(MixCounter(b[..8], t), s.r[1..] + [b[8..]])
  }

  /** Step t of unwrapping, of section 2.2.2: every register moves up by one. */
  function Unstep(aes: Aes, kek: bytes, t: nat, s: State): (s': State)
    requires s.r != []
    ensures |s'.r| == |s.r|
  {
    var last := |s.r| - 1;
    var b := aes.decrypt(kek, MixCounter(s.a, t) + s.r[last]);
    State(b[..8], [b[8..]] + s.r[..last])
  }

  /** Steps 1 to t, one after the other. */
  function Steps(aes: Aes, kek: bytes, s: State, t: nat): (s': State)
    requires s.r != []
    ensures |s'.r| == |s.r|
    decreases t
  {
    if t == 0 then s else Step(aes, kek, t, Steps(aes, kek, s, t - 1))
  }

  /** Steps t down to 1, undone one after the other. */
  function Unsteps(aes: Aes, kek: bytes, s: State, t: nat): (s': State)
    requires s.r != []
    ensures |s'.r| == |s.r|
    decreases t
  {
    if t == 0 then s else Unsteps(aes, kek, Unstep(aes, kek, t, s), t - 1)
  }

  /** A string of whole 64-bit words, as the words. */
  function Words(b: bytes): (r: seq<Word>)
    requires |b| % 8 == 0
    ensures |r| == |b| / 8
  {
    seq(|b| / 8, i requires 0 <= i < |b| / 8 => b[8 * i..8 * i + 8])
  }

  function Join(r: seq<Word>): (b: bytes)
    ensures |b| == 8 * |r|
  {
    seq(8 * |r|, k requires 0 <= k < 8 * |r| => r[k / 8][k % 8])
  }

  lemma JoinOfWords(b: bytes)
    requires |b| % 8 == 0
    ensures Join(Words(b)) == b
  {
  }

  lemma WordsOfJoin(r: seq<Word>)
    ensures Words(Join(r)) == r
  {
    forall i | 0 <= i < |r|
      ensures Words(Join(r))[i] == r[i]
    {
      assert forall k :: 0 <= k < 8 ==> Join(r)[8 * i + k] == r[i][k];
    }
  }

  /** Section 2.2.1 of RFC 3394, with the initial value of section 2.2.3.1. */
  function Wrap(aes: Aes, kek: bytes, key: bytes): (wrapped: bytes)
    requires |key| % 8 == 0 && |key| >= 16
    ensures |wrapped| == |key| + 8
  {
    var s := Steps(aes, kek, State(KEY_WRAP_IV, Words(key)), 6 * (|key| / 8));
    s.a + Join(s.r)
  }

  /** Section 2.2.2 of RFC 3394, with the integrity check of section 2.2.3. */
  function Unwrap(aes: Aes, kek: bytes, wrapped: bytes): Result<bytes, WrapError>
    requires |wrapped| % 8 == 0 && |wrapped| >= 24
  {
    var s := Unsteps(aes, kek, State(wrapped[..8], Words(wrapped[8..])), 6 * (|wrapped| / 8 - 1));
    if s.a == KEY_WRAP_IV then Ok(Join(s.r)) else Err(Mismatch)
  }

  /** What wrapKey and unwrapKey return for every key and every input. */
  function Wrapped(aes: Aes, kek: bytes, key: bytes): Result<bytes, WrapError> {
    if |key| % 8 != 0 || |key| < 16 then Err(BadLength)
    else if !IsAesKey(kek) then Err(BadKey)
    else Ok(Wrap(aes, kek, key))
  }

  function Unwrapped(aes: Aes, kek: bytes, wrapped: bytes): Result<bytes, WrapError> {
    if |wrapped| % 8 != 0 || |wrapped| < 24 then Err(BadLength)
    else if !IsAesKey(kek) then Err(BadKey)
    else Unwrap(aes, kek, wrapped)
  }

  // Unwrapping and wrapping undo each other

  lemma UnstepOfStep(aes: Aes, kek: bytes, t: nat, s: State)
    requires s.r != []
    ensures Unstep(aes, kek, t, Step(aes, kek, t, s)) == s
  {
    var block: Block := s.a + s.r[0];
    var b := aes.encrypt(kek, block);
    MixCounterTwice(b[..8], t);
    assert b[..8] + b[8..] == b;
    assert aes.decrypt(kek, b) == block;
    assert block[..8] == s.a && block[8..] == s.r[0];
    var r' := s.r[1..] + [b[8..]];
    assert [s.r[0]] + r'[..|r'| - 1] == s.r;
  }

  lemma StepOfUnstep(aes: Aes, kek: bytes, t: nat, s: State)
    requires s.r != []
    ensures Step(aes, kek, t, Unstep(aes, kek, t, s)) == s
  {
    var last := |s.r| - 1;
    var block: Block := MixCounter(s.a, t) + s.r[last];
    var b := aes.decrypt(kek, block);
    assert b[..8] + b[8..] == b;
    assert aes.encrypt(kek, b) == block;
    assert block[..8] == MixCounter(s.a, t) && block[8..] == s.r[last];
    MixCounterTwice(s.a, t);
    var r' := [b[8..]] + s.r[..last];
    assert r'[1..] + [s.r[last]] == s.r;
  }

  lemma {:induction false} UnstepsOfSteps(aes: Aes, kek: bytes, s: State, t: nat)
    requires s.r != []
    ensures Unsteps(aes, kek, Steps(aes, kek, s, t), t) == s
    decreases t
  {
    hide Step, Unstep;
    if t > 0 {
      UnstepOfStep(aes, kek, t, Steps(aes, kek, s, t - 1));
      UnstepsOfSteps(aes, kek, s, t - 1);
    }
  }

  lemma {:induction false} StepsOfUnsteps(aes: Aes, kek: bytes, s: State, t: nat)
    requires s.r != []
    ensures Steps(aes, kek, Unsteps(aes, kek, s, t), t) == s
    decreases t
  {
    hide Step, Unstep;
    if t > 0 {
      StepsOfUnsteps(aes, kek, Unstep(aes, kek, t, s), t - 1);
      StepOfUnstep(aes, kek, t, s);
    }
  }

  lemma UnwrapIffWrap(aes: Aes, kek: bytes, key: bytes, wrapped: bytes)
    requires |key| % 8 == 0 && |key| >= 16
    requires |wrapped| % 8 == 0 && |wrapped| >= 24
    ensures Unwrap(aes, kek, wrapped) == Ok(key) <==> wrapped == Wrap(aes, kek, key)
  {
    hide Steps, Unsteps, Words, Join;
    if wrapped == Wrap(aes, kek, key) {
      var s0 := State(KEY_WRAP_IV, Words(key));
      var s := Steps(aes, kek, s0, 6 * (|key| / 8));
      assert wrapped[..8] == s.a && wrapped[8..] == Join(s.r);
      WordsOfJoin(s.r);
      UnstepsOfSteps(aes, kek, s0, 6 * (|key| / 8));
      JoinOfWords(key);
    }
    if Unwrap(aes, kek, wrapped) == Ok(key) {
      var s0 := State(wrapped[..8], Words(wrapped[8..]));
      var s := Unsteps(aes, kek, s0, 6 * (|wrapped| / 8 - 1));
      WordsOfJoin(s.r);
      StepsOfUnsteps(aes, kek, s0, 6 * (|wrapped| / 8 - 1));
      JoinOfWords(wrapped[8..]);
      assert wrapped[..8] + wrapped[8..] == wrapped;
    }
  }

  /** What is in the buffer after the last step is the wrapped key. */
  lemma WrapFromBuffer(aes: Aes, kek: bytes, key: bytes, a: Word, tail: bytes)
    requires |key| % 8 == 0 && |key| >= 16 && |tail| == |key|
    requires Steps(aes, kek, State(KEY_WRAP_IV, Words(key)), StepsOf(|key| / 8, 6)) == State(a, Words(tail))
    ensures Wrap(aes, kek, key) == a + tail
  {
    hide Steps, Words, Join;
    StepsOfIsProduct(|key| / 8, 6);
    JoinOfWords(tail);
  }

  /** What is in the buffer after the last step is undone decides. */
  lemma UnwrapFromBuffer(aes: Aes, kek: bytes, wrapped: bytes, a: Word, tail: bytes)
    requires |wrapped| % 8 == 0 && |wrapped| >= 24 && |tail| == |wrapped| - 8
    requires Unsteps(aes, kek, State(wrapped[..8], Words(wrapped[8..])), StepsOf(|wrapped| / 8 - 1, 6))
          == Unsteps(aes, kek, State(a, Words(tail)), StepsOf(|wrapped| / 8 - 1, 0))
    ensures Unwrap(aes, kek, wrapped) == if a == KEY_WRAP_IV then Ok(tail) else Err(Mismatch)
  {
    hide Unstep, Words, Join, KEY_WRAP_IV;
    StepsOfIsProduct(|wrapped| / 8 - 1, 6);
    JoinOfWords(tail);
  }

  lemma {:induction false} UnwrapLength(aes: Aes, kek: bytes, wrapped: bytes)
    requires |wrapped| % 8 == 0 && |wrapped| >= 24
    ensures Unwrap(aes, kek, wrapped).Ok? ==> |Unwrap(aes, kek, wrapped).value| == |wrapped| - 8
  {
    hide Unsteps, Words;
  }

  /** Exactly keys of whole words, two at least, are wrapped, under a key that AES has. */
  lemma WrapsExactlyWholeWords(aes: Aes, kek: bytes, b: bytes)
    ensures Wrapped(aes, kek, b).Ok? <==> |b| % 8 == 0 && |b| >= 16 && |kek| in {16, 24, 32}
    ensures Unwrapped(aes, kek, b) == Err(BadLength) <==> |b| % 8 != 0 || |b| < 24
    ensures Unwrapped(aes, kek, b) == Err(BadKey) <==> |b| % 8 == 0 && |b| >= 24 && |kek| !in {16, 24, 32}
  {
    hide Wrap, Steps, Unsteps, Words;
  }

  /**
   What unwraps to a key is exactly what that key wraps to, whatever the
   lengths: every wrapped key is accepted, and nothing else is.
   */
  lemma UnwrapExactlyUndoesWrap(aes: Aes, kek: bytes, key: bytes, wrapped: bytes)
    ensures Unwrapped(aes, kek, wrapped) == Ok(key) <==> Wrapped(aes, kek, key) == Ok(wrapped)
  {
    hide Wrap, Unwrap, IsAesKey;
    if |wrapped| % 8 == 0 && |wrapped| >= 24 {
      UnwrapLength(aes, kek, wrapped);
      if |key| % 8 == 0 && |key| >= 16 {
        UnwrapIffWrap(aes, kek, key, wrapped);
      }
    }
  }

  // The indexed loops

  /** How many steps j passes over n registers are. */
  function StepsOf(n: nat, j: nat): nat {
    if j == 0 then 0 else StepsOf(n, j - 1) + n
  }

  lemma StepsOfNone(aes: Aes, kek: bytes, s: State, n: nat)
    requires s.r != []
    ensures Steps(aes, kek, s, StepsOf(n, 0)) == s
  {
  }

  lemma StepsOfIsProduct(n: nat, j: nat)
    ensures StepsOf(n, j) == n * j
  {
  }

  /** The registers as they are after k steps of a pass, when they stay put and the pass moves over them. */
  function Rotated(r: seq<Word>, k: nat): (s: seq<Word>)
    requires k <= |r|
    ensures |s| == |r|
  {
    r[k..] + r[..k]
  }

  lemma RotatedEnds(r: seq<Word>)
    ensures Rotated(r, 0) == r && Rotated(r, |r|) == r
  {
  }

  lemma StepsOfNext(n: nat, j: nat)
    ensures StepsOf(n, j + 1) == StepsOf(n, j) + n
  {
  }

  /** An indexed step is a shifting one, seen through the rotation. */
  lemma StepAtIndex(aes: Aes, kek: bytes, t: nat, a: Word, r: seq<Word>, i: nat)
    requires i < |r|
    ensures var b := aes.encrypt(kek, a + r[i]);
            Step(aes, kek, t, State(a, Rotated(r, i))) == State(MixCounter(b[..8], t), Rotated(r[i := b[8..]], i + 1))
  {
    hide MixCounter;
  }

  lemma StepsAtIndex(aes: Aes, kek: bytes, start: State, t: nat, a: Word, r: seq<Word>, i: nat)
    requires start.r != [] && i < |r|
    requires Steps(aes, kek, start, t) == State(a, Rotated(r, i))
    ensures var b := aes.encrypt(kek, a + r[i]);
            Steps(aes, kek, start, t + 1) == State(MixCounter(b[..8], t + 1), Rotated(r[i := b[8..]], i + 1))
  {
    hide MixCounter, Rotated, Step;
    StepAtIndex(aes, kek, t + 1, a, r, i);
  }

  lemma UnstepAtIndex(aes: Aes, kek: bytes, t: nat, a: Word, r: seq<Word>, i: nat)
    requires i < |r|
    ensures var b := aes.decrypt(kek, MixCounter(a, t) + r[i]);
            Unstep(aes, kek, t, State(a, Rotated(r, i + 1))) == State(b[..8], Rotated(r[i := b[8..]], i))
  {
    hide MixCounter;
  }

  lemma UnstepsAtIndex(aes: Aes, kek: bytes, goal: State, t: nat, a: Word, r: seq<Word>, i: nat)
    requires i < |r| && Unsteps(aes, kek, State(a, Rotated(r, i + 1)), t + 1) == goal
    ensures var b := aes.decrypt(kek, MixCounter(a, t + 1) + r[i]);
            Unsteps(aes, kek, State(b[..8], Rotated(r[i := b[8..]], i)), t) == goal
  {
    hide Unstep, Rotated, MixCounter;
    UnstepAtIndex(aes, kek, t + 1, a, r, i);
  }

  /** Overwriting the bytes of one register changes that register alone. */
  lemma WordsUpdated(before: bytes, after: bytes, i: nat, w: Word)
    requires |before| == |after| && |before| % 8 == 0 && i < |before| / 8
    requires forall k :: 0 <= k < |before| && !(8 * i <= k < 8 * i + 8) ==> after[k] == before[k]
    requires forall k :: 0 <= k < 8 ==> after[8 * i + k] == w[k]
    ensures Words(after) == Words(before)[i := w]
  {
    forall m | 0 <= m < |before| / 8
      ensures Words(after)[m] == Words(before)[i := w][m]
    {
      if m == i {
        assert after[8 * i..8 * i + 8] == w;
      } else {
        assert after[8 * m..8 * m + 8] == before[8 * m..8 * m + 8];
      }
    }
  }

  /** The registers in the buffer behind its first word, which A is written to at the end. */
  ghost function Registers(out: array<byte>): (r: seq<Word>)
    requires out.Length % 8 == 0 && out.Length >= 8
    reads out
    ensures |r| == out.Length / 8 - 1
  {
    Words(out[8..])
  }

  lemma RegistersAreWords(out: array<byte>)
    requires out.Length % 8 == 0 && out.Length >= 8
    ensures Registers(out) == Words(out[8..])
  {
  }

  /** Register i of the buffer, read. */
  method GetWord(out: array<byte>, i: nat) returns (w: Word)
    requires out.Length % 8 == 0 && 1 <= i < out.Length / 8
    ensures w == Registers(out)[i - 1]
  {
    w := out[8 * i..8 * i + 8];
  }

  /** Register i of the buffer, overwritten. */
  method PutWord(out: array<byte>, i: nat, w: Word)
    requires out.Length % 8 == 0 && 1 <= i < out.Length / 8
    modifies out
    ensures Registers(out) == old(Registers(out))[i - 1 := w]
  {
    forall k | 0 <= k < 8 {
      out[8 * i + k] := w[k];
    }
    WordsUpdated(old(out[8..]), out[8..], i - 1, w);
  }

  /** The inner loop of wrapKey: pass j over the registers, from the first to the last. */
  method WrapPass(aes: Aes, kek: bytes, out: array<byte>, n: nat, a0: Word, j: nat, ghost start: State)
    returns (a: Word)
    requires out.Length == 8 * n + 8 && n > 0 && start.r != []
    requires Steps(aes, kek, start, StepsOf(n, j)) == State(a0, Registers(out))
    modifies out
    ensures Steps(aes, kek, start, StepsOf(n, j + 1)) == State(a, Registers(out))
  {
    hide Steps, MixCounter, Words, Registers, Rotated, StepsOf;
    a := a0;
    StepsOfIsProduct(n, j);
    StepsOfNext(n, j);
    RotatedEnds(Registers(out));
    for i := 1 to n + 1
      invariant Steps(aes, kek, start, StepsOf(n, j) + i - 1) == State(a, Rotated(Registers(out), i - 1))
    {
      var r := GetWord(out, i);
      var b := aes.encrypt(kek, a + r);
      var t := n * j + i;
      StepsAtIndex(aes, kek, start, t - 1, a, Registers(out), i - 1);
      a := MixCounter(b[..8], t);
      PutWord(out, i, b[8..]);
    }
    RotatedEnds(Registers(out));
  }

  /** A buffer with a key behind room for the first word. */
  method Buffer(key: bytes) returns (out: array<byte>)
    ensures fresh(out) && out.Length == 8 + |key| && out[8..] == key
  {
    out := new byte[8 + |key|];
    forall k | 8 <= k < out.Length {
      out[k] := key[k - 8];
    }
  }

  /** wrapKey: six passes over the registers in place. */
  method WrapKey(aes: Aes, kek: bytes, key: bytes) returns (res: Result<bytes, WrapError>)
    ensures res == Wrapped(aes, kek, key)
  {
    hide Step, MixCounter, Words, Join, Wrap, IsAesKey, Steps, StepsOf, KEY_WRAP_IV, Registers;
    if |key| % 8 != 0 || |key| < 16 {
      return Err(BadLength);
    }
    if !IsAesKey(kek) {
      return Err(BadKey);
    }
    var n := |key| / 8;
    var out := Buffer(key);
    RegistersAreWords(out);
    var a: Word := KEY_WRAP_IV;
    ghost var start := State(a, Words(key));
    StepsOfNone(aes, kek, start, n);
    for j := 0 to 6
      invariant out.Length == 8 + |key|
      invariant Steps(aes, kek, start, StepsOf(n, j)) == State(a, Registers(out))
    {
      a := WrapPass(aes, kek, out, n, a, j, start);
    }
    RegistersAreWords(out);
    WrapFromBuffer(aes, kek, key, a, out[8..]);
    return Ok(a + out[8..]);
  }

  /** The inner loop of unwrapKey: pass j undone, from the last register to the first. */
  method UnwrapPass(aes: Aes, kek: bytes, out: array<byte>, n: nat, a0: Word, j: nat, ghost goal: State)
    returns (a: Word)
    requires out.Length == 8 * n + 8 && n > 0
    requires Unsteps(aes, kek, State(a0, Registers(out)), StepsOf(n, j + 1)) == goal
    modifies out
    ensures Unsteps(aes, kek, State(a, Registers(out)), StepsOf(n, j)) == goal
  {
    hide Unsteps, MixCounter, Words, Registers, Rotated, StepsOf;
    a := a0;
    StepsOfIsProduct(n, j);
    StepsOfNext(n, j);
    RotatedEnds(Registers(out));
    for i := n + 1 downto 1
      invariant Unsteps(aes, kek, State(a, Rotated(Registers(out), i - 1)), StepsOf(n, j) + i - 1) == goal
    {
      var t := n * j + i;
      var r := GetWord(out, i);
      var b := aes.decrypt(kek, MixCounter(a, t) + r);
      UnstepsAtIndex(aes, kek, goal, t - 1, a, Registers(out), i - 1);
      a := b[..8];
      PutWord(out, i, b[8..]);
    }
    RotatedEnds(Registers(out));
  }

  /** unwrapKey: the passes undone, the last first. */
  method UnwrapKey(aes: Aes, kek: bytes, wrapped: bytes) returns (res: Result<bytes, WrapError>)
    ensures res == Unwrapped(aes, kek, wrapped)
  {
    if |wrapped| % 8 != 0 || |wrapped| < 24 {
      return Err(BadLength);
    }
    if !IsAesKey(kek) {
      return Err(BadKey);
    }
    hide Unsteps, Unstep, MixCounter, Words, Unwrap, KEY_WRAP_IV, StepsOf, IsAesKey;
    var n := |wrapped| / 8 - 1;
    var out := Buffer(wrapped[8..]);
    var a: Word := wrapped[..8];
    ghost var goal := Unsteps(aes, kek, State(a, Registers(out)), StepsOf(n, 6));
    for j := 6 downto 0
      invariant out.Length == |wrapped|
      invariant Unsteps(aes, kek, State(a, Registers(out)), StepsOf(n, j)) == goal
    {
      a := UnwrapPass(aes, kek, out, n, a, j, goal);
    }
    UnwrapFromBuffer(aes, kek, wrapped, a, out[8..]);
    if a != KEY_WRAP_IV {
      return Err(Mismatch);
    }
    return Ok(out[8..]);
  }
}
