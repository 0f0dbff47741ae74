/**
 The parameters of a Digest header. The method walks the header as the source
 does, Parsed is what it comes to, and the lemmas are about headers that were
 printed with their values quoted or bare. Text is a sequence of characters.
 */
module DigestHeader {
  import opened Wrappers

  // The string functions the parser uses

  /** unicode.IsSpace. */
  predicate IsSpace(c: char) {
    || '\t' <= c <= '\r' || c == ' ' || c == '\U{85}' || c == '\U{A0}' || c == '\U{1680}'
    || '\U{2000}' <= c <= '\U{200A}' || c == '\U{2028}' || c == '\U{2029}' || c == '\U{202F}' || c == '\U{205F}'
    || c == '\U{3000}'
  }

  /** strings.TrimLeft. */
  function TrimLeft(s: string, cutset: string): (r: string)
    ensures |r| <= |s| && r == s[|s| - |r|..] && (r != "" ==> r[0] !in cutset)
  {
    if s != "" && s[0] in cutset then TrimLeft(s[1..], cutset) else s
  }

  function TrimSpaceLeft(s: string): (r: string)
    ensures |r| <= |s| && r == s[|s| - |r|..] && (r != "" ==> !IsSpace(r[0]))
  {
    if s != "" && IsSpace(s[0]) then TrimSpaceLeft(s[1..]) else s
  }

  function TrimSpaceRight(s: string): (r: string)
    ensures |r| <= |s| && r == s[..|r|] && (r != "" ==> !IsSpace(r[|r| - 1]))
  {
    if s != "" && IsSpace(s[|s| - 1]) then TrimSpaceRight(s[..|s| - 1]) else s
  }

  /** strings.TrimSpace. */
  function TrimSpace(s: string): (r: string)
    ensures |r| <= |s|
  {
    TrimSpaceRight(TrimSpaceLeft(s))
  }

  /** strings.Cut. */
  function Cut(s: string, separator: char): (r: Option<(string, string)>)
    ensures r.Some? ==> s == r.value.0 + [separator] + r.value.1 && separator !in r.value.0
    ensures r.None? <==> separator !in s
  {
    if s == "" then None
    else if s[0] == separator then Some(("", s[1..]))
    else
      match Cut(s[1..], separator)
      case None => None
      case Some((before, after)) => Some(([s[0]] + before, after))
  }

  // What the parser comes to

  /** A quoted value behind its opening quote: it ends at the next quote that is not escaped, or at the end. */
  function Unquoted(s: string): (r: (string, string))
    ensures |r.1| <= |s|
  {
    if s == "" then ("", "")
    else if s[0] == '\\' && |s| > 1 then
      var (value, rest) := Unquoted(s[2..]);
      ([s[1]] + value, rest)
    else if s[0] == '"' then ("", s[1..])
    else
      var (value, rest) := Unquoted(s[1..]);
      ([s[0]] + value, rest)
  }

  /** The value behind an equals sign, and what follows it. */
  function Valued(s: string): (r: (string, string))
    ensures |r.1| <= |s|
  {
    var after := TrimLeft(s, " \t");
    if after != "" && after[0] == '"' then Unquoted(after[1..])
    else
      match Cut(after, ',')
      case None => (TrimSpace(after), "")
      case Some((value, rest)) => (TrimSpace(value), rest)
  }

  function Parsed(s: string, params: map<string, string>): map<string, string>
    decreases |s|
  {
    match Cut(TrimLeft(s, " \t,"), '=')
    case None => params
    case Some((key, after)) =>
      var (value, rest) := Valued(after);
      Parsed(rest, params[TrimSpace(key) := value])
  }

  /** strings.TrimPrefix of the name of the scheme. */
  function WithoutScheme(header: string): string {
    if |header| >= 7 && header[..7] == "Digest " then header[7..] else header
  }

  lemma RestIsShorter(s: string)
    ensures match Cut(TrimLeft(s, " \t,"), '=')
            case None => true
            case Some((key, after)) => |Valued(after).1| < |s|
  {
    hide TrimLeft, Cut, Valued;
  }

  lemma ParsedStep(s: string, params: map<string, string>)
    ensures match Cut(TrimLeft(s, " \t,"), '=')
            case None => Parsed(s, params) == params
            case Some((key, after)) =>
              var (value, rest) := Valued(after);
              |rest| < |s| && Parsed(s, params) == Parsed(rest, params[TrimSpace(key) := value])
  {
    hide TrimLeft, Cut, Valued, TrimSpace, Unquoted;
    RestIsShorter(s);
  }

  /** With some of a quoted value read, the rest of the text decides how it goes on. */
  ghost predicate Continues(start: string, read: string, rest: string) {
    Unquoted(start) == (read + Unquoted(rest).0, Unquoted(rest).1)
  }

  lemma ContinuesOn(start: string, read: string, s: string)
    requires Continues(start, read, s)
    ensures s != "" && s[0] == '\\' && |s| > 1 ==> Continues(start, read + [s[1]], s[2..])
    ensures s != "" && s[0] == '"' ==> Unquoted(start) == (read, s[1..])
    ensures s != "" && s[0] != '"' && (s[0] != '\\' || |s| == 1) ==> Continues(start, read + [s[0]], s[1..])
    ensures s == "" ==> Unquoted(start) == (read, "")
  {
    assert read + "" == read;
    if s != "" {
      assert forall c: char, more: string :: read + ([c] + more) == (read + [c]) + more;
    }
  }

  /** The loop of parseDigest over a quoted value, from behind its opening quote. */
  method ReadQuoted(after: string) returns (value: string, rest: string)
    requires after != ""
    ensures (value, rest) == Unquoted(after[1..])
  {
    hide Unquoted, Continues;
    var index := 1;
    value := "";
    ContinuesFirst(after[1..]);
    while index < |after|
      invariant 1 <= index <= |after|
      invariant Continues(after[1..], value, after[index..])
    {
      ghost var s := after[index..];
      ContinuesOn(after[1..], value, s);
      assert s[1..] == after[index + 1..];
      if after[index] == '\\' && index + 1 < |after| {
        assert s[2..] == after[index + 2..] && s[1] == after[index + 1];
        value := value + [after[index + 1]];
        index := index + 2;
        continue;
      }
      if after[index] == '"' {
        return value, after[index + 1..];
      }
      value := value + [after[index]];
      index := index + 1;
    }
    ContinuesOn(after[1..], value, after[index..]);
    rest := after[index..];
  }

  lemma ContinuesFirst(start: string)
    ensures Continues(start, "", start)
  {
    assert "" + Unquoted(start).0 == Unquoted(start).0;
  }

  /** parseDigest, which ends on every header. */
  method ParseDigest(header: string) returns (params: map<string, string>)
    ensures params == Parsed(WithoutScheme(header), map[])
  {
    hide Parsed, TrimSpace, Unquoted, TrimLeft, Cut;
    params := map[];
    var rest := WithoutScheme(header);
    while true
      invariant Parsed(WithoutScheme(header), map[]) == Parsed(rest, params)
      decreases |rest|
    {
      ParsedStep(rest, params);
      rest := TrimLeft(rest, " \t,");
      if rest == "" {
        return;
      }
      var cut := Cut(rest, '=');
      if cut.None? {
        return;
      }
      var key := TrimSpace(cut.value.0);
      var after := TrimLeft(cut.value.1, " \t");
      var value;
      if after != "" && after[0] == '"' {
        value, rest := ReadQuoted(after);
      } else {
        var comma := Cut(after, ',');
        value := TrimSpace(if comma.Some? then comma.value.0 else after);
        rest := if comma.Some? then comma.value.1 else "";
      }
      params := params[key := value];
    }
  }

  // Headers that were printed

  /** A parameter, with its value as it is written, between quotes or bare. */
  datatype Param = Param(key: string, value: string, text: string, quoted: bool)

  predicate Writes(p: Param) {
    if p.quoted then Escapes(p.text, p.value) else p.text == p.value && Bare(p.value)
  }

  /** A value that needs no quotes: no comma in it, no space around it and no quote before it. */
  predicate Bare(value: string) {
    && ',' !in value
    && (value != "" ==> value[0] != '"' && !IsSpace(value[0]) && !IsSpace(value[|value| - 1]))
  }

  /**
   Section 5.6.4 of RFC 9110: between the quotes any character may have a
   backslash before it, and a quote or a backslash must.
   */
  predicate Escapes(text: string, value: string) {
    if text == "" then value == ""
    else if text[0] == '\\' then |text| > 1 && value != "" && text[1] == value[0] && Escapes(text[2..], value[1..])
    else text[0] != '"' && value != "" && text[0] == value[0] && Escapes(text[1..], value[1..])
  }

  /** The shortest way to write a value. */
  function Escaped(value: string): string {
    if value == "" then ""
    else (if value[0] == '"' || value[0] == '\\' then ['\\', value[0]] else [value[0]]) + Escaped(value[1..])
  }

  lemma {:induction false} EscapedEscapes(value: string)
    ensures Escapes(Escaped(value), value)
  {
    if value != "" {
      var rest := Escaped(value[1..]);
      EscapedEscapes(value[1..]);
      if value[0] == '"' || value[0] == '\\' {
        assert (['\\', value[0]] + rest)[2..] == rest;
      } else {
        assert ([value[0]] + rest)[1..] == rest;
      }
    }
  }

  function Item(p: Param): string {
    p.key + (['='] + if p.quoted then ['"'] + (p.text + ['"']) else p.text)
  }

  function Items(ps: seq<Param>): string {
    if ps == [] then "" else ", " + (Item(ps[0]) + Items(ps[1..]))
  }

  /** The header with the parameters, separated by commas. */
  function Printed(ps: seq<Param>): string {
    "Digest " + if ps == [] then "" else Item(ps[0]) + Items(ps[1..])
  }

  /** The key that is found where one was printed, if it has no equals sign in it. */
  function Found(key: string): string {
    TrimSpace(TrimLeft(key, " \t,"))
  }

  /** A key that is read back as it is: no equals sign, no space around it, no comma before it. */
  predicate Plain(key: string) {
    '=' !in key && Found(key) == key
  }

  function MapOf(ps: seq<Param>, m: map<string, string>): map<string, string> {
    if ps == [] then m else MapOf(ps[1..], m[ps[0].key := ps[0].value])
  }

  function FoundOf(ps: seq<Param>, m: map<string, string>): map<string, string> {
    if ps == [] then m else FoundOf(ps[1..], m[Found(ps[0].key) := ps[0].value])
  }

  lemma {:induction false} UnquotedOfEscaped(text: string, value: string, rest: string)
    requires Escapes(text, value)
    ensures Unquoted(text + (['"'] + rest)) == (value, rest)
    decreases |text|
  {
    var s := text + (['"'] + rest);
    if text == "" {
      assert s == ['"'] + rest && s[1..] == rest;
    } else if text[0] == '\\' {
      UnquotedOfEscaped(text[2..], value[1..], rest);
      assert s[2..] == text[2..] + (['"'] + rest);
      assert [value[0]] + value[1..] == value;
    } else {
      UnquotedOfEscaped(text[1..], value[1..], rest);
      assert s[1..] == text[1..] + (['"'] + rest);
      assert [value[0]] + value[1..] == value;
    }
  }

  lemma {:induction false} TrimLeftOf(s: string, tail: string, cutset: string)
    requires tail != "" && tail[0] !in cutset
    ensures TrimLeft(s + tail, cutset) == TrimLeft(s, cutset) + tail
    decreases |s|
  {
    if s == "" {
      assert s + tail == tail;
    } else {
      assert (s + tail)[1..] == s[1..] + tail;
      if s[0] in cutset {
        TrimLeftOf(s[1..], tail, cutset);
      }
    }
  }

  lemma CutStep(c: char, s: string, separator: char)
    ensures Cut([c] + s, separator) == if c == separator then Some(("", s)) else
              match Cut(s, separator)
              case None => None
              case Some((before, after)) => Some(([c] + before, after))
  {
  }

  lemma {:induction false} CutOf(before: string, separator: char, after: string)
    requires separator !in before
    ensures Cut(before + ([separator] + after), separator) == Some((before, after))
  {
    hide Cut;
    var s := before + ([separator] + after);
    if before == "" {
      assert s == [separator] + after;
      CutStep(separator, after, separator);
    } else {
      var rest := before[1..] + ([separator] + after);
      CutOf(before[1..], separator, after);
      assert s == [before[0]] + rest && [before[0]] + before[1..] == before;
      CutStep(before[0], rest, separator);
    }
  }

  lemma NothingIsTrimmed(c: char, s: string, cutset: string)
    requires c !in cutset
    ensures TrimLeft([c] + s, cutset) == [c] + s
  {
  }

  lemma ValuedOfQuoted(text: string, value: string, rest: string)
    requires Escapes(text, value)
    ensures Valued(['"'] + (text + (['"'] + rest))) == (value, rest)
  {
    hide Escapes, TrimLeft, Unquoted;
    var behind := text + (['"'] + rest);
    UnquotedOfEscaped(text, value, rest);
    NothingIsTrimmed('"', behind, " \t");
    assert (['"'] + behind)[1..] == behind;
  }

  lemma SpacesAreSpace(c: char)
    ensures c == ' ' || c == '\t' ==> IsSpace(c)
  {
  }

  lemma BareIsKept(value: string)
    requires Bare(value)
    ensures TrimSpace(value) == value
  {
    hide IsSpace;
  }

  lemma BareStarts(value: string, rest: string)
    requires Bare(value) && (rest == "" || rest[0] == ',')
    ensures var s := value + rest;
            TrimLeft(s, " \t") == s && (s == "" || s[0] != '"')
  {
    hide IsSpace;
    if value != "" {
      SpacesAreSpace(value[0]);
    }
  }

  lemma BareIsCut(value: string, rest: string)
    requires ',' !in value && (rest == "" || rest[0] == ',')
    ensures Cut(value + rest, ',') == if rest == "" then None else Some((value, rest[1..]))
  {
    hide Cut;
    if rest == "" {
      assert value + rest == value;
    } else {
      assert rest == [','] + rest[1..];
      CutOf(value, ',', rest[1..]);
    }
  }

  /** A bare value is read up to the comma, or to the end. */
  lemma ValuedOfBare(value: string, rest: string)
    requires Bare(value) && (rest == "" || rest[0] == ',')
    ensures Valued(value + rest) == (value, if rest == "" then "" else rest[1..])
  {
    hide TrimLeft, TrimSpace, IsSpace, Cut, Unquoted;
    BareIsKept(value);
    BareStarts(value, rest);
    BareIsCut(value, rest);
    assert rest == "" ==> value + rest == value;
  }

  /** How a value was written makes no difference to what is read. */
  lemma ValuedOfWritten(p: Param, rest: string)
    requires Writes(p) && (p.quoted || rest == "" || rest[0] == ',')
    ensures var s := if p.quoted then ['"'] + (p.text + (['"'] + rest)) else p.text + rest;
            Valued(s) == (p.value, if p.quoted || rest == "" then rest else rest[1..])
  {
    hide Valued, Escapes, Bare;
    if p.quoted {
      ValuedOfQuoted(p.text, p.value, rest);
    } else {
      ValuedOfBare(p.value, rest);
    }
  }

  lemma ItemRegrouped(p: Param, rest: string)
    ensures Item(p) + rest
         == p.key + (['='] + if p.quoted then ['"'] + (p.text + (['"'] + rest)) else p.text + rest)
  {
  }

  /** A comma in front is passed over. */
  lemma CommaIsPassed(s: string, m: map<string, string>)
    requires s != "" && s[0] == ','
    ensures Parsed(s, m) == Parsed(s[1..], m)
  {
    hide Parsed, TrimLeft, Cut, Valued, TrimSpace;
    assert s == [','] + s[1..];
    OneIsTrimmed(',', s[1..], " \t,");
    ParsedStep(s, m);
    ParsedStep(s[1..], m);
  }

  lemma FirstKeyIsCut(key: string, quoted: string)
    requires '=' !in key
    ensures Cut(TrimLeft(key + (['='] + quoted), " \t,"), '=') == Some((TrimLeft(key, " \t,"), quoted))
  {
    TrimLeftOf(key, ['='] + quoted, " \t,");
    var left := TrimLeft(key, " \t,");
    assert forall c :: c in left ==> c in key;
    hide Cut, TrimLeft;
    CutOf(left, '=', quoted);
  }

  /** One printed parameter is found, whatever follows, or before a comma or the end if its value is bare. */
  lemma ItemIsFound(p: Param, rest: string, m: map<string, string>)
    requires Writes(p) && '=' !in p.key && (p.quoted || rest == "" || rest[0] == ',')
    ensures Parsed(Item(p) + rest, m) == Parsed(rest, m[Found(p.key) := p.value])
    ensures Parsed(", " + (Item(p) + rest), m) == Parsed(rest, m[Found(p.key) := p.value])
  {
    hide Parsed, TrimLeft, Cut, Valued, TrimSpace, Item, Escapes;
    var written := if p.quoted then ['"'] + (p.text + (['"'] + rest)) else p.text + rest;
    var s := Item(p) + rest;
    ItemRegrouped(p, rest);
    FirstKeyIsCut(p.key, written);
    ValuedOfWritten(p, rest);
    SeparatorIsTrimmed(s);
    ParsedStep(s, m);
    ParsedStep(", " + s, m);
    if !p.quoted && rest != "" {
      CommaIsPassed(rest, m[Found(p.key) := p.value]);
    }
  }

  lemma OneIsTrimmed(c: char, s: string, cutset: string)
    requires c in cutset
    ensures TrimLeft([c] + s, cutset) == TrimLeft(s, cutset)
  {
  }

  lemma SeparatorIsTrimmed(s: string)
    ensures TrimLeft(", " + s, " \t,") == TrimLeft(s, " \t,")
  {
    hide TrimLeft;
    assert ", " + s == [','] + ([' '] + s);
    OneIsTrimmed(',', [' '] + s, " \t,");
    OneIsTrimmed(' ', s, " \t,");
  }

  lemma NothingIsFound(m: map<string, string>)
    ensures Parsed("", m) == m
  {
  }

  lemma {:induction false} ItemsAreFound(ps: seq<Param>, m: map<string, string>)
    requires forall p :: p in ps ==> Writes(p) && '=' !in p.key
    ensures Parsed(Items(ps), m) == FoundOf(ps, m)
    decreases |ps|
  {
    hide Parsed, Item, Found, Writes, Escapes;
    if ps == [] {
      NothingIsFound(m);
    } else {
      ItemIsFound(ps[0], Items(ps[1..]), m);
      ItemsAreFound(ps[1..], m[Found(ps[0].key) := ps[0].value]);
    }
  }

  lemma PrintedAreFound(ps: seq<Param>)
    requires forall p :: p in ps ==> Writes(p) && '=' !in p.key
    ensures Parsed(WithoutScheme(Printed(ps)), map[]) == FoundOf(ps, map[])
  {
    var body := if ps == [] then "" else Item(ps[0]) + Items(ps[1..]);
    assert WithoutScheme("Digest " + body) == body by {
      assert ("Digest " + body)[..7] == "Digest " && ("Digest " + body)[7..] == body;
    }
    hide Item, Found, Writes, Escapes, WithoutScheme;
    if ps != [] {
      hide Parsed;
      ItemIsFound(ps[0], Items(ps[1..]), map[]);
      ItemsAreFound(ps[1..], map[][Found(ps[0].key) := ps[0].value]);
    }
  }

  // Keys that are not read back

  lemma {:induction false} NoEqualsInKeys(s: string, m: map<string, string>, key: string)
    requires key in Parsed(s, m) && key !in m
    ensures '=' !in key
    decreases |s|
  {
    hide TrimLeft, Cut, Valued, TrimSpace;
    ParsedStep(s, m);
    match Cut(TrimLeft(s, " \t,"), '=') {
      case None =>
      case Some((k, after)) =>
        var (value, rest) := Valued(after);
        TrimSpaceIsPart(k);
        if key != TrimSpace(k) {
          NoEqualsInKeys(rest, m[TrimSpace(k) := value], key);
        }
    }
  }

  lemma TrimSpaceIsPart(s: string)
    ensures forall c :: c in TrimSpace(s) ==> c in s
  {
  }

  lemma TrimLeftIsShorter(s: string, cutset: string)
    ensures TrimLeft(s, cutset) == s || |TrimLeft(s, cutset)| < |s|
  {
  }

  lemma TrimSpaceIsShorter(s: string)
    ensures TrimSpace(s) == s || |TrimSpace(s)| < |s|
  {
    hide TrimSpaceLeft, TrimSpaceRight;
    var left := TrimSpaceLeft(s);
    if |left| == |s| {
      assert left == s;
    }
    if |TrimSpaceRight(left)| == |left| {
      assert TrimSpaceRight(left) == left;
    }
  }

  lemma FoundIsShorter(key: string)
    ensures Found(key) == key || |Found(key)| < |key|
  {
    hide TrimSpace, TrimLeft;
    TrimLeftIsShorter(key, " \t,");
    TrimSpaceIsShorter(TrimLeft(key, " \t,"));
  }

  lemma {:induction false} MapOfKeys(ps: seq<Param>, m: map<string, string>)
    ensures forall k :: k in MapOf(ps, m) <==> k in m || exists p :: p in ps && p.key == k
    decreases |ps|
  {
    if ps != [] {
      MapOfKeys(ps[1..], m[ps[0].key := ps[0].value]);
    }
  }

  lemma {:induction false} FoundOfKeys(ps: seq<Param>, m: map<string, string>)
    ensures forall k :: k in FoundOf(ps, m) <==> k in m || exists p :: p in ps && Found(p.key) == k
    decreases |ps|
  {
    hide Found;
    if ps != [] {
      FoundOfKeys(ps[1..], m[Found(ps[0].key) := ps[0].value]);
    }
  }

  /** The longest of the keys that are not plain. */
  lemma {:induction false} LongestNotPlain(ps: seq<Param>) returns (q: Param)
    requires exists p :: p in ps && !Plain(p.key)
    ensures q in ps && !Plain(q.key) && forall p :: p in ps && !Plain(p.key) ==> |p.key| <= |q.key|
    decreases |ps|
  {
    hide Plain;
    var rest := ps[1..];
    assert forall p :: p in ps <==> p == ps[0] || p in rest;
    if exists p :: p in rest && !Plain(p.key) {
      q := LongestNotPlain(rest);
      if !Plain(ps[0].key) && |ps[0].key| > |q.key| {
        q := ps[0];
      }
    } else {
      q := ps[0];
    }
  }

  lemma {:induction false} PlainAreFound(ps: seq<Param>, m: map<string, string>)
    requires forall p :: p in ps ==> Plain(p.key)
    ensures FoundOf(ps, m) == MapOf(ps, m)
    decreases |ps|
  {
    hide Found;
    if ps != [] {
      PlainAreFound(ps[1..], m[ps[0].key := ps[0].value]);
    }
  }

  /** Where no key has an equals sign in it, another key than was printed is found unless all are plain. */
  lemma OtherKeysAreFound(ps: seq<Param>)
    requires exists p :: p in ps && !Plain(p.key)
    requires forall p :: p in ps ==> '=' !in p.key
    ensures FoundOf(ps, map[]) != MapOf(ps, map[])
  {
    hide Found, MapOf, FoundOf;
    var q := LongestNotPlain(ps);
    MapOfKeys(ps, map[]);
    FoundOfKeys(ps, map[]);
    if q.key in FoundOf(ps, map[]) {
      var p :| p in ps && Found(p.key) == q.key;
      FoundIsShorter(p.key);
    }
  }

  /**
   Printing parameters, with values bare or quoted and escaped in whatever way,
   and parsing them gives the same parameters exactly if their keys are plain: values may
   hold commas, equals signs, quotes and backslashes, and keys no equals sign,
   no space around them and no comma before them.
   */
  lemma PrintedAreParsedExactlyIfPlain(ps: seq<Param>)
    requires forall p :: p in ps ==> Writes(p)
    ensures Parsed(WithoutScheme(Printed(ps)), map[]) == MapOf(ps, map[]) <==> forall p :: p in ps ==> Plain(p.key)
  {
    hide Found, Printed, WithoutScheme, Writes, Escapes, Parsed, MapOf, FoundOf;
    var header := WithoutScheme(Printed(ps));
    if p :| p in ps && '=' in p.key {
      MapOfKeys(ps, map[]);
      assert p.key in MapOf(ps, map[]);
      if p.key in Parsed(header, map[]) {
        NoEqualsInKeys(header, map[], p.key);
      }
    } else {
      PrintedAreFound(ps);
      if forall p :: p in ps ==> Plain(p.key) {
        PlainAreFound(ps, map[]);
      } else {
        OtherKeysAreFound(ps);
      }
    }
  }

  lemma NoSpaceIsTrimmed(c: char)
    requires !IsSpace(c)
    ensures TrimSpace([c]) == [c]
  {
  }

  lemma SpaceIsTrimmed()
    ensures Found(" a") == "a"
  {
    hide TrimLeft, TrimSpace;
    assert " a" == [' '] + "a" && ['a'] + "" == "a";
    OneIsTrimmed(' ', "a", " \t,");
    NothingIsTrimmed('a', "", " \t,");
    NoSpaceIsTrimmed('a');
  }

  lemma OneIsFound(p: Param)
    ensures FoundOf([p], map[]) == map[Found(p.key) := p.value] && MapOf([p], map[]) == map[p.key := p.value]
  {
    hide Found;
    assert [p][1..] == [];
  }

  /** A key with a space before it is found without the space. */
  lemma SpacedKeyIsNotReadBack()
    ensures var ps := [Param(" a", "v", "v", true)];
            Parsed(WithoutScheme(Printed(ps)), map[]) == map["a" := "v"] != MapOf(ps, map[])
  {
    hide Parsed, WithoutScheme, Printed, Found, FoundOf, MapOf;
    var p := Param(" a", "v", "v", true);
    PrintedAreFound([p]);
    OneIsFound(p);
    SpaceIsTrimmed();
    assert |" a"| != |"a"| && " a" in map[" a" := "v"];
  }

  /** With keys told apart, every value is found under its key. */
  lemma {:induction false} EveryValueIsThere(ps: seq<Param>, m: map<string, string>, i: nat)
    requires i < |ps| && forall j :: i < j < |ps| ==> ps[j].key != ps[i].key
    ensures ps[i].key in MapOf(ps, m) && MapOf(ps, m)[ps[i].key] == ps[i].value
    decreases |ps|
  {
    if i > 0 {
      EveryValueIsThere(ps[1..], m[ps[0].key := ps[0].value], i - 1);
    } else {
      LastValueStays(ps[1..], m[ps[0].key := ps[0].value], ps[0].key);
    }
  }

  lemma {:induction false} LastValueStays(ps: seq<Param>, m: map<string, string>, key: string)
    requires key in m && forall j :: 0 <= j < |ps| ==> ps[j].key != key
    ensures key in MapOf(ps, m) && MapOf(ps, m)[key] == m[key]
    decreases |ps|
  {
    if ps != [] {
      LastValueStays(ps[1..], m[ps[0].key := ps[0].value], key);
    }
  }
}
