/**
 The recovery key: the two keys of a vault and their checksum, in base32 and in
 groups. What is written is read back, and one mistyped character never yields
 other keys.
 */
module Recovery {
  import opened Wrappers
  import opened Bytes
  import opened Base32
  import Crc32

  datatype RecoveryError = NotARecoveryKey

  const GROUP := 6

  /** binary.BigEndian.AppendUint32, of what is appended. */
  function PutUint32(x: bv32): (b: bytes)
    ensures |b| == 4
  {
    [((x >> 24) & 0xff) as byte, ((x >> 16) & 0xff) as byte, ((x >> 8) & 0xff) as byte, (x & 0xff) as byte]
  }

  /** binary.BigEndian.Uint32. */
  function Uint32(b: bytes): bv32
    requires |b| == 4
  {
    ((b[0] as bv32) << 24) | ((b[1] as bv32) << 16) | ((b[2] as bv32) << 8) | (b[3] as bv32)
  }

  lemma Uint32OfPutUint32(x: bv32)
    ensures Uint32(PutUint32(x)) == x
  {
  }

  function TextOf(v: seq<Symbol>): string {
    seq(|v|, i requires 0 <= i < |v| => CharOf(v[i]))
  }

  /** The symbols of a text, when every character has one. */
  function SymbolsOf(text: string): Option<seq<Symbol>> {
    if forall i :: 0 <= i < |text| ==> SymbolOf(text[i]).Some?
    then Some(seq(|text|, i requires 0 <= i < |text| => SymbolOf(text[i]).value))
    else None
  }

  lemma SymbolsOfTextOf(v: seq<Symbol>)
    ensures SymbolsOf(TextOf(v)) == Some(v)
  {
    hide SymbolOf, CharOf;
    forall i | 0 <= i < |v|
      ensures SymbolOf(TextOf(v)[i]) == Some(v[i])
    {
      SymbolOfCharOf(v[i]);
    }
    assert SymbolsOf(TextOf(v)).Some?;
    assert SymbolsOf(TextOf(v)).value == v;
  }

  // Writing

  /** A text in groups, with a dash between two of them. */
  function Grouped(text: string): string {
    if |text| <= GROUP then text else text[..GROUP] + "-" + Grouped(text[GROUP..])
  }

  /** strings.Join with a dash. */
  function Joined(groups: seq<string>): string {
    if groups == [] then "" else if |groups| == 1 then groups[0]
    else Joined(groups[..|groups| - 1]) + "-" + groups[|groups| - 1]
  }

  /** The bytes that are written out: the two keys and their checksum. */
  function Summed(keys: bytes): (raw: bytes)
    ensures |raw| == |keys| + 4
  {
    keys + PutUint32(Crc32.Checksum(keys))
  }

  function Written(keys: bytes): string {
    Grouped(TextOf(Encode(Summed(keys))))
  }

  lemma {:induction false} JoinedGrows(groups: seq<string>, text: string)
    requires text != []
    ensures Joined(groups + [text[..if |text| < GROUP then |text| else GROUP]])
         == (if groups == [] then "" else Joined(groups) + "-") + text[..if |text| < GROUP then |text| else GROUP]
  {
  }

  /** Vault.RecoveryKey, of the raw keys: the loop cuts the text into groups, then they are joined. */
  method RecoveryKey(keys: bytes) returns (key: string)
    ensures key == Written(keys)
  {
    hide Encode, Summed, TextOf;
    var text := TextOf(Encode(Summed(keys)));
    ghost var whole := text;
    var groups: seq<string> := [];
    while text != []
      invariant (if groups == [] then "" else if text == [] then Joined(groups) else Joined(groups) + "-")
                + Grouped(text)
             == Grouped(whole)
      decreases |text|
    {
      var n := if GROUP < |text| then GROUP else |text|;
      JoinedGrows(groups, text);
      assert text[..|text|] == text;
      groups := groups + [text[..n]];
      text := text[n..];
    }
    key := Joined(groups);
  }

  // Reading

  /** A text without the characters that are passed over. */
  function Without(text: string, dropped: string): string {
    if text == [] then []
    else
      var last := text[|text| - 1];
      Without(text[..|text| - 1], dropped) + if last in dropped then [] else [last]
  }

  /**
   strings.ToUpper, as far as a character can become one of the alphabet: the
   small letters, the dotless i and the long s. Every other character stays
   outside it.
   */
  function Upper(c: char): char {
    if 'a' <= c <= 'z' then (c as int - 'a' as int + 'A' as int) as char
    else if c == '\U{0131}' then 'I'
    else if c == '\U{017F}' then 'S'
    else c
  }

  function UpperAll(text: string): string {
    seq(|text|, i requires 0 <= i < |text| => Upper(text[i]))
  }

  /** What is decoded of what was typed: no dashes and spaces, capitals, and no line ends. */
  function Normal(text: string): string {
    Without(UpperAll(Without(text, "- \n\t")), "\r\n")
  }

  /** Recover, up to the keys it recovers. */
  function Recovered(typed: string): Result<bytes, RecoveryError> {
    match SymbolsOf(Normal(typed))
    case None => Err(NotARecoveryKey)
    case Some(v) => Checked(Decode(v))
  }

  function Checked(raw: bytes): Result<bytes, RecoveryError> {
    if |raw| != 68 || Uint32(raw[64..]) != Crc32.Checksum(raw[..64]) then Err(NotARecoveryKey)
    else Ok(raw[..64])
  }

  lemma {:induction false} WithoutConcat(a: string, b: string, dropped: string)
    ensures Without(a + b, dropped) == Without(a, dropped) + Without(b, dropped)
  {
    if b == [] {
      assert a + b == a;
    } else {
      assert (a + b)[..|a + b| - 1] == a + b[..|b| - 1];
      WithoutConcat(a, b[..|b| - 1], dropped);
    }
  }

  lemma NormalConcat(a: string, b: string)
    ensures Normal(a + b) == Normal(a) + Normal(b)
  {
    WithoutConcat(a, b, "- \n\t");
    var x, y := Without(a, "- \n\t"), Without(b, "- \n\t");
    assert UpperAll(x + y) == UpperAll(x) + UpperAll(y);
    WithoutConcat(UpperAll(x), UpperAll(y), "\r\n");
  }

  lemma NormalOfOne(c: char)
    ensures Normal([c]) == if c in "- \n\t\r" then [] else [Upper(c)]
  {
    assert [c][..0] == [];
    assert Without([c], "- \n\t") == if c in "- \n\t" then [] else [c];
    assert UpperAll([c]) == [Upper(c)];
    assert [Upper(c)][..0] == [];
    assert Without([], "\r\n") == [];
  }

  predicate InAlphabet(text: string) {
    forall i :: 0 <= i < |text| ==> SymbolOf(text[i]).Some?
  }

  lemma NormalOfNothing()
    ensures Normal([]) == []
  {
  }

  lemma AlphabetIsKept(c: char)
    requires SymbolOf(c).Some?
    ensures c !in "- \n\t\r" && Upper(c) == c
  {
  }

  lemma {:induction false} NormalOfAlphabet(text: string)
    requires InAlphabet(text)
    ensures Normal(text) == text
  {
    if text == [] {
      NormalOfNothing();
    } else {
      var init, last := text[..|text| - 1], text[|text| - 1];
      assert InAlphabet(init) && SymbolOf(last).Some?;
      hide Normal, Upper, SymbolOf, InAlphabet;
      NormalOfAlphabet(init);
      NormalConcat(init, [last]);
      NormalOfOne(last);
      AlphabetIsKept(last);
      assert text == init + [last];
    }
  }

  lemma DashIsDropped()
    ensures Normal("-") == ""
  {
    hide Normal, Upper;
    NormalOfOne('-');
  }

  lemma {:induction false} NormalOfGrouped(text: string)
    requires InAlphabet(text)
    ensures Normal(Grouped(text)) == text
    decreases |text|
  {
    if |text| <= GROUP {
      NormalOfAlphabet(text);
    } else {
      var group, rest := text[..GROUP], text[GROUP..];
      assert InAlphabet(group) && InAlphabet(rest);
      hide Normal, Upper, InAlphabet;
      DashIsDropped();
      NormalOfGrouped(rest);
      NormalOfAlphabet(group);
      NormalConcat(group + "-", Grouped(rest));
      NormalConcat(group, "-");
    }
  }

  lemma NormalOfWritten(keys: bytes)
    ensures SymbolsOf(Normal(Written(keys))) == Some(Encode(Summed(keys)))
  {
    hide Normal, Encode, Grouped, TextOf, Summed;
    var v := Encode(Summed(keys));
    SymbolsOfTextOf(v);
    assert InAlphabet(TextOf(v));
    NormalOfGrouped(TextOf(v));
  }

  /** A recovery key gives back the keys it was written of, exactly when they are the 64 bytes of two full keys. */
  lemma RecoveredExactlyFullKeys(keys: bytes)
    ensures Recovered(Written(keys)) == Ok(keys) <==> |keys| == 64
    ensures |keys| != 64 ==> Recovered(Written(keys)).Err?
  {
    hide Normal, Written, Encode, Decode, Crc32.Checksum, SymbolsOf;
    NormalOfWritten(keys);
    DecodeOfEncode(Summed(keys));
    var raw := Summed(keys);
    assert raw[..|keys|] == keys && raw[|keys|..] == PutUint32(Crc32.Checksum(keys));
    Uint32OfPutUint32(Crc32.Checksum(keys));
  }

  lemma SmallLetter(letter: char)
    requires 'a' <= letter <= 'z'
    ensures Normal([letter]) == Normal([(letter as int - 32) as char])
  {
    hide Normal;
    NormalOfOne(letter);
    NormalOfOne((letter as int - 32) as char);
  }

  lemma SpaceIsDropped(space: char)
    requires space in "- \n\t\r"
    ensures Normal([space]) == []
  {
    hide Normal;
    NormalOfOne(space);
  }

  /** How a key is typed does not matter: dashes and white space may be anywhere or nowhere, and letters small. */
  lemma HowItIsTypedDoesNotMatter(a: string, b: string, space: char, letter: char)
    requires space in "- \n\t\r" && 'a' <= letter <= 'z'
    ensures Recovered(a + [space] + b) == Recovered(a + b)
    ensures Recovered(a + [letter] + b) == Recovered(a + [(letter as int - 32) as char] + b)
  {
    hide Normal, SymbolsOf, Checked, Decode;
    SpaceIsDropped(space);
    SmallLetter(letter);
    NormalSplit(a, space, b);
    NormalSplit(a, letter, b);
    NormalSplit(a, (letter as int - 32) as char, b);
    NormalConcat(a, b);
    assert Normal(a) + [] == Normal(a);
  }

  // One character mistyped

  /** Bytes that decode from one symbol more or less are the same but for the two that hold its bits. */
  lemma ChangedSymbolKeepsKeys(v: seq<Symbol>, q: nat, s: Symbol)
    requires |v| == 109 && q < 109
    requires Checked(Decode(v)).Ok? && Checked(Decode(v[q := s])).Ok?
    ensures Checked(Decode(v[q := s])) == Checked(Decode(v))
  {
    hide Decode, Crc32.Checksum, Uint32;
    var a, b := Decode(v), Decode(v[q := s]);
    var lo, hi := 5 * q / 8, (5 * q + 4) / 8;
    forall j | 0 <= j < 68 && (j < lo || j > hi)
      ensures b[j] == a[j]
    {
      DecodedElsewhere(v, q, s, j);
    }
    if hi < 64 {
      assert b[64..] == a[64..];
      var w := if lo < 62 then lo else 62;
      assert a[..64] == a[..w] + [a[w], a[w + 1]] + a[w + 2..64];
      assert b[..64] == a[..w] + [b[w], b[w + 1]] + a[w + 2..64];
      Crc32.CatchesTwoBytes(a[..w], a[w], a[w + 1], b[w], b[w + 1], a[w + 2..64]);
    } else if lo < 64 {
      ChangedAcrossTheSum(v, s);
    } else {
      assert b[..64] == a[..64];
    }
  }

  /** Symbol 102 holds the last two bits of the keys and the first three of the sum. */
  lemma ChangedAcrossTheSum(v: seq<Symbol>, s: Symbol)
    requires |v| == 109
    requires Checked(Decode(v)).Ok? && Checked(Decode(v[102 := s])).Ok?
    ensures Decode(v[102 := s])[..64] == Decode(v)[..64]
  {
    hide Decode, Crc32.Checksum, Uint32;
    var a, b := Decode(v), Decode(v[102 := s]);
    forall j | 0 <= j < 68 && j != 63 && j != 64
      ensures b[j] == a[j]
    {
      DecodedElsewhere(v, 102, s, j);
    }
    LowBitsChanged(v, s);
    assert a[64..][1..] == a[65..] == b[65..] == b[64..][1..];
    SumsDiffer(a[64..], b[64..]);
    assert a[..64] == a[..63] + [a[63]] && b[..64] == a[..63] + [b[63]];
    Crc32.CatchesLastBits(a[..63], a[63], b[63]);
  }

  /** The bits of the keys' last byte and of the sum's first that are in other symbols stay. */
  lemma OtherBitsStay(v: seq<Symbol>, s: Symbol, j: nat, i: nat)
    requires |v| == 109 && i < 8 && ((j == 63 && i >= 2) || (j == 64 && i < 5))
    ensures Bit(Decode(v[102 := s])[j], i) == Bit(Decode(v)[j], i)
  {
    hide Decode, Bit;
    BitDecodedElsewhere(v, 102, s, 8 * j + (7 - i));
  }

  lemma LowBitsChanged(v: seq<Symbol>, s: Symbol)
    requires |v| == 109
    ensures var a, b := Decode(v), Decode(v[102 := s]);
            a[63] ^ b[63] <= 3 && (a[64] ^ b[64]) & 0x1f == 0
  {
    hide Decode, Bit;
    var a, b := Decode(v), Decode(v[102 := s]);
    forall i | 2 <= i < 8
      ensures Bit(a[63], i) == Bit(b[63], i)
    {
      OtherBitsStay(v, s, 63, i);
    }
    forall i | 0 <= i < 5
      ensures Bit(a[64], i) == Bit(b[64], i)
    {
      OtherBitsStay(v, s, 64, i);
    }
    DifferAbove(a[63], b[63]);
    DifferBelow(a[64], b[64]);
  }

  lemma DifferAbove(x: byte, y: byte)
    requires forall i :: 2 <= i < 8 ==> Bit(x, i) == Bit(y, i)
    ensures x ^ y <= 3
  {
    assert Bit(x, 2) == Bit(y, 2) && Bit(x, 3) == Bit(y, 3) && Bit(x, 4) == Bit(y, 4);
    assert Bit(x, 5) == Bit(y, 5) && Bit(x, 6) == Bit(y, 6) && Bit(x, 7) == Bit(y, 7);
  }

  lemma DifferBelow(x: byte, y: byte)
    requires forall i :: 0 <= i < 5 ==> Bit(x, i) == Bit(y, i)
    ensures (x ^ y) & 0x1f == 0
  {
    assert Bit(x, 0) == Bit(y, 0) && Bit(x, 1) == Bit(y, 1) && Bit(x, 2) == Bit(y, 2);
    assert Bit(x, 3) == Bit(y, 3) && Bit(x, 4) == Bit(y, 4);
  }

  lemma SumsDiffer(a: bytes, b: bytes)
    requires |a| == |b| == 4 && a[1..] == b[1..] && (a[0] ^ b[0]) & 0x1f == 0
    ensures (Uint32(a) ^ Uint32(b)) & 0x1FFF_FFFF == 0
  {
  }

  /**
   A recovery key with one character replaced by a base32 character, in capitals
   or small, is refused or yields the same keys.
   */
  lemma MistypedNeverYieldsOtherKeys(keys: bytes, p: nat, c: char)
    requires |keys| == 64 && p < |Written(keys)|
    requires SymbolOf(Upper(c)).Some?
    ensures Recovered(Written(keys)[p := c]).Err? || Recovered(Written(keys)[p := c]) == Ok(keys)
  {
    hide Written, Encode, Decode, Crc32.Checksum, Uint32, Normal, Upper, SymbolOf;
    var text, v := Written(keys), Encode(Summed(keys));
    RecoveredExactlyFullKeys(keys);
    NormalOfWritten(keys);
    var a, b, x := text[..p], text[p + 1..], text[p];
    assert text == a + [x] + b && text[p := c] == a + [c] + b;
    NormalSplit(a, x, b);
    NormalSplit(a, c, b);
    NormalOfOne(x);
    NormalOfOne(c);
    KeptCharacter(c);
    var t, t' := Normal(text), Normal(text[p := c]);
    assert t' == Normal(a) + [Upper(c)] + Normal(b);
    if SymbolsOf(t').Some? {
      var v' := SymbolsOf(t').value;
      if |t'| == 109 {
        var q := |Normal(a)|;
        assert v' == v[q := v'[q]];
        ChangedSymbolKeepsKeysIfAccepted(v, q, v'[q]);
      } else {
        assert |Decode(v')| == 65;
      }
    }
  }

  lemma NormalSplit(a: string, c: char, b: string)
    ensures Normal(a + [c] + b) == Normal(a) + Normal([c]) + Normal(b)
  {
    hide Normal;
    NormalConcat(a + [c], b);
    NormalConcat(a, [c]);
  }

  lemma KeptCharacter(c: char)
    requires SymbolOf(Upper(c)).Some?
    ensures c !in "- \n\t\r"
  {
  }

  lemma ChangedSymbolKeepsKeysIfAccepted(v: seq<Symbol>, q: nat, s: Symbol)
    requires |v| == 109 && q < 109 && Checked(Decode(v)).Ok?
    ensures Checked(Decode(v[q := s])).Err? || Checked(Decode(v[q := s])) == Checked(Decode(v))
  {
    hide Checked, Decode;
    if Checked(Decode(v[q := s])).Ok? {
      ChangedSymbolKeepsKeys(v, q, s);
    }
  }
}
