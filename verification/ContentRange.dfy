/** The header that names the place of a chunk: Content-Range: bytes start-end/total. */
module ContentRange {
  import opened Wrappers

  const MAX_INT64 := 0x7fff_ffff_ffff_ffff

  datatype Range = Range(start: nat, end: nat, total: nat) {
    /** What a parsed header promises of its numbers. */
    predicate Valid() {
      start <= end < total <= MAX_INT64
    }

    /** chunkSize: the end is inclusive. */
    function Size(): int {
      end - start + 1
    }
  }

  predicate IsDigit(c: char) {
    '0' <= c <= '9'
  }

  predicate AllDigits(s: string) {
    s != "" && forall i :: 0 <= i < |s| ==> IsDigit(s[i])
  }

  /** How many characters from the start are digits. */
  function Digits(s: string): (n: nat)
    ensures n <= |s| && (forall i :: 0 <= i < n ==> IsDigit(s[i])) && (n < |s| ==> !IsDigit(s[n]))
  {
    if s == "" || !IsDigit(s[0]) then 0 else 1 + Digits(s[1..])
  }

  /** strconv.ParseInt in base 10, of digits: leading zeros are taken, and what does not fit 64 bits is an error. */
  function ParseInt(s: string): Option<nat> {
    var n := Value(s);
    if n <= MAX_INT64 then Some(n) else None
  }

  function Value(s: string): nat {
    if s == "" then 0 else 10 * Value(s[..|s| - 1]) + DigitValue(s[|s| - 1])
  }

  function DigitValue(c: char): nat {
    if IsDigit(c) then c as nat - '0' as nat else 0
  }

  /** One or more digits at the start and the separator after them: the digits, and the rest. */
  function Field(s: string, separator: char): (f: Option<(string, string)>) {
    var n := Digits(s);
    if n == 0 || n == |s| || s[n] != separator then None else Some((s[..n], s[n + 1..]))
  }

  /** A match of the pattern, in its three numbers as they are written. */
  function Match(header: string): Option<(string, string, string)> {
    if |header| < 6 || header[..6] != "bytes " then None
    else
      match Field(header[6..], '-')
      case None => None
      case Some((a, after)) =>
        match Field(after, '/')
        case None => None
        case Some((b, c)) => if AllDigits(c) then Some((a, b, c)) else None
  }

  /** parseContentRange. */
  function ParseContentRange(header: string): (r: Option<Range>)
    ensures r.Some? ==> r.value.Valid()
  {
    match Match(header)
    case None => None
    case Some((a, b, c)) =>
      match (ParseInt(a), ParseInt(b), ParseInt(c))
      case (Some(start), Some(end), Some(total)) =>
        if start > end || end >= total then None else Some(Range(start, end, total))
      case _ => None
  }

  /** The header with the three numbers as they are written. */
  function Written(a: string, b: string, c: string): string {
    "bytes " + (a + ("-" + (b + ("/" + c))))
  }

  lemma {:induction false} DigitsOf(s: string, rest: string)
    requires (forall i :: 0 <= i < |s| ==> IsDigit(s[i])) && (rest == "" || !IsDigit(rest[0]))
    ensures Digits(s + rest) == |s|
  {
    if s == "" {
      assert s + rest == rest;
    } else {
      DigitsOf(s[1..], rest);
      assert (s + rest)[1..] == s[1..] + rest;
    }
  }

  lemma FieldOfWritten(digits: string, separator: char, rest: string)
    requires AllDigits(digits) && !IsDigit(separator)
    ensures Field(digits + ([separator] + rest), separator) == Some((digits, rest))
  {
    var s := digits + ([separator] + rest);
    DigitsOf(digits, [separator] + rest);
    assert s[..|digits|] == digits && s[|digits| + 1..] == rest;
  }

  lemma MatchOfWritten(a: string, b: string, c: string)
    requires AllDigits(a) && AllDigits(b) && AllDigits(c)
    ensures Match(Written(a, b, c)) == Some((a, b, c))
  {
    hide Field, AllDigits;
    FieldOfWritten(a, '-', b + (['/'] + c));
    FieldOfWritten(b, '/', c);
    var rest := a + (['-'] + (b + (['/'] + c)));
    assert Written(a, b, c) == "bytes " + rest;
    assert ("bytes " + rest)[..6] == "bytes " && ("bytes " + rest)[6..] == rest;
  }

  lemma WrittenOfMatch(header: string)
    requires Match(header).Some?
    ensures var (a, b, c) := Match(header).value;
            AllDigits(a) && AllDigits(b) && AllDigits(c) && header == Written(a, b, c)
  {
  }

  /** A header that writes the numbers of a range, in whatever digits. */
  ghost predicate Writes(header: string, r: Range) {
    exists a, b, c :: IsWritten(header, r, a, b, c)
  }

  predicate IsWritten(header: string, r: Range, a: string, b: string, c: string) {
    && AllDigits(a) && AllDigits(b) && AllDigits(c) && header == Written(a, b, c)
    && r == Range(Value(a), Value(b), Value(c))
  }

  /** A header is taken exactly if it writes numbers that are in order and fit 64 bits. */
  lemma ParsesExactlyRanges(header: string, r: Range)
    ensures ParseContentRange(header) == Some(r) <==> Writes(header, r) && r.Valid()
  {
    hide Match, AllDigits, Value, Written;
    if ParseContentRange(header) == Some(r) {
      WrittenOfMatch(header);
      var (a, b, c) := Match(header).value;
      assert IsWritten(header, r, a, b, c);
    }
    if Writes(header, r) && r.Valid() {
      var a, b, c :| IsWritten(header, r, a, b, c);
      MatchOfWritten(a, b, c);
    }
  }

  /** A number in decimal, as clients print it. */
  function Decimal(n: nat): (s: string)
    ensures AllDigits(s) && Value(s) == n
  {
    var last := [('0' as int + n % 10) as char];
    if n < 10 then last
    else
      assert (Decimal(n / 10) + last)[..|Decimal(n / 10)|] == Decimal(n / 10);
      Decimal(n / 10) + last
  }

  /** What a client prints is read back. */
  lemma PrintedRangeIsRead(r: Range)
    ensures ParseContentRange(Written(Decimal(r.start), Decimal(r.end), Decimal(r.total)))
         == if r.Valid() then Some(r) else None
  {
    MatchOfWritten(Decimal(r.start), Decimal(r.end), Decimal(r.total));
    hide Match, AllDigits, Value;
  }

  lemma TenDigits()
    ensures Value("10") == 10 && Value("019") == 19 && Value("234") == 234
    ensures Written("10", "019", "234") == "bytes 10-019/234"
  {
    assert "10"[..1] == "1" && "019"[..2] == "01" && "01"[..1] == "0" && "234"[..2] == "23" && "23"[..1] == "2";
  }

  /** The bytes 10 to 19 of 234, and which ranges are too large or out of order to be read. */
  lemma ReadInDecimal(r: Range)
    ensures ParseContentRange("bytes 10-019/234") == Some(Range(10, 19, 234))
    ensures ParseContentRange(Written(Decimal(r.start), Decimal(r.end), Decimal(r.total))).Some?
       <==> r.start <= r.end < r.total <= 9_223_372_036_854_775_807
  {
    TenDigits();
    assert AllDigits("10") && AllDigits("019") && AllDigits("234");
    hide ParseContentRange, Value, Written, Match, AllDigits;
    var some := Range(10, 19, 234);
    assert IsWritten("bytes 10-019/234", some, "10", "019", "234");
    ParsesExactlyRanges("bytes 10-019/234", some);
    PrintedRangeIsRead(r);
  }
}
