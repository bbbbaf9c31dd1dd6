/** The text beside an archive: one entry "size-compressed size," for each block. */
module Manifest {
  import opened Bytes

  // ----- Printing -----

  function Digit(d: nat): char
    requires d < 10
  {
    '0' + d as char
  }

  /** %i of a number that is not negative. */
  function Decimal(n: nat): (s: string)
    ensures s != []
  {
    if n < 10 then [Digit(n)] else Decimal(n / 10) + [Digit(n % 10)]
  }

  function Token(size: nat, csize: nat): string
  {
    Decimal(size) + "-" + Decimal(csize)
  }

  function Entry(size: nat, csize: nat): string
  {
    Token(size, csize) + ","
  }

  // ----- Parsing -----

  predicate IsDigit(c: char) { '0' <= c <= '9' }

  predicate IsSpace(c: char) { c == ' ' || '\t' <= c <= '\r' }

  function DigitValue(c: char): nat
    requires IsDigit(c)
  {
    (c - '0') as nat
  }

  /** The digits at `i`, after digits worth `acc`. */
  function ScanDigits(s: string, i: nat, acc: nat): (r: (nat, nat))
    requires i <= |s|
    ensures i <= r.1 <= |s|
    decreases |s| - i
  {
    if i < |s| && IsDigit(s[i]) then ScanDigits(s, i + 1, 10 * acc + DigitValue(s[i])) else (acc, i)
  }

  function SkipSpace(s: string, i: nat): (r: nat)
    requires i <= |s|
    ensures i <= r <= |s|
    decreases |s| - i
  {
    if i < |s| && IsSpace(s[i]) then SkipSpace(s, i + 1) else i
  }

  /** %ld of scanf: white space, a sign, and at least one digit. Values that do not fit a long are
      kept as they are; the caller refuses everything above INT_MAX. */
  function ScanLong(s: string, i: nat): (r: Option<(int, nat)>)
    requires i <= |s|
    ensures r.Some? ==> i <= r.value.1 <= |s|
  {
    var j := SkipSpace(s, i);
    var signed := j < |s| && (s[j] == '-' || s[j] == '+');
    var k := if signed then j + 1 else j;
    var (v: int, next) := ScanDigits(s, k, 0);
    if next == k then None
    else Some((if signed && s[j] == '-' then 0 - v else v, next))
  }

  /** sscanf of "%ld-%ld%c" that must convert exactly two values. */
  function ScanEntry(tok: string): Option<(int, int)>
  {
    match ScanLong(tok, 0)
    case None => None
    case Some((size, i)) =>
      if i >= |tok| || tok[i] != '-' then None else
      match ScanLong(tok, i + 1)
      case None => None
      case Some((csize, j)) => if j == |tok| then Some((size, csize)) else None
  }

  function UntilComma(s: string): (r: nat)
    ensures r <= |s| && (r < |s| ==> s[r] == ',') && forall k :: 0 <= k < r ==> s[k] != ','
  {
    if s == [] || s[0] == ',' then 0 else 1 + UntilComma(s[1..])
  }

  /** strtok with the separator ",": the next token and the text after it. */
  function NextToken(s: string): (r: Option<(string, string)>)
    ensures r.Some? ==> |r.value.1| < |s|
  {
    if s == [] then None
    else if s[0] == ',' then NextToken(s[1..])
    else
      var n := UntilComma(s);
      Some((s[..n], if n < |s| then s[n + 1..] else ""))
  }

  function UntilNul(s: string): (r: string)
  {
    if s == [] || s[0] == '\0' then "" else [s[0]] + UntilNul(s[1..])
  }

  /** file_contents: a line end at the very end goes, and C strings stop at a zero byte. */
  function Contents(file: string): string
  {
    var n := |file|;
    UntilNul(if n > 0 && (file[n - 1] == '\n' || file[n - 1] == '\r') then file[..n - 1] else file)
  }

  // ----- What is printed parses back -----

  /** Scanning passes over a printed number and has its value. */
  lemma {:induction false} ScanDecimal(n: nat, s: string, i: nat)
    requires At(s, i, Decimal(n))
    ensures ScanDigits(s, i, 0) == ScanDigits(s, i + |Decimal(n)|, n)
    decreases n
  {
    var last := i + |Decimal(n)| - 1;
    if n >= 10 {
      AtSplit(s, i, Decimal(n / 10), [Digit(n % 10)]);
      ScanDecimal(n / 10, s, i);
    }
    assert s[last] == s[i..last + 1][last - i] == Digit(n % 10);
  }

  lemma {:induction false} DecimalDigits(n: nat)
    ensures forall c :: c in Decimal(n) ==> IsDigit(c)
    decreases n
  {
    if n >= 10 {
      DecimalDigits(n / 10);
    }
  }

  lemma ScanLongDecimal(n: nat, s: string, i: nat)
    requires At(s, i, Decimal(n))
    requires var j := i + |Decimal(n)|; j < |s| ==> !IsDigit(s[j])
    ensures ScanLong(s, i) == Some((n, i + |Decimal(n)|))
  {
    DecimalDigits(n);
    assert s[i] == Decimal(n)[0];
    ScanDecimal(n, s, i);
  }

  lemma ScanToken(size: nat, csize: nat)
    ensures ScanEntry(Token(size, csize)) == Some((size, csize))
  {
    hide ScanLong, Decimal;
    TokenParts(size, csize);
    ScanLongDecimal(size, Token(size, csize), 0);
    ScanLongDecimal(csize, Token(size, csize), |Decimal(size)| + 1);
  }

  lemma TokenParts(size: nat, csize: nat)
    ensures var s, a, b := Token(size, csize), Decimal(size), Decimal(csize);
            At(s, 0, a) && s[|a|] == '-' && At(s, |a| + 1, b) && |s| == |a| + 1 + |b|
  {
    var s, a, b := Token(size, csize), Decimal(size), Decimal(csize);
    assert s[0..|s|] == a + "-" + b;
    AtSplit(s, 0, a + "-", b);
    AtSplit(s, 0, a, "-");
  }

  lemma {:induction false} UntilCommaOf(a: string, rest: string)
    requires ',' !in a
    ensures UntilComma(a + "," + rest) == |a|
  {
    if a != "" {
      assert (a + "," + rest)[1..] == a[1..] + "," + rest;
      UntilCommaOf(a[1..], rest);
    }
  }

  /** The first token of a manifest is its first entry. */
  lemma NextTokenOf(size: nat, csize: nat, rest: string)
    ensures NextToken(Entry(size, csize) + rest) == Some((Token(size, csize), rest))
  {
    var tok := Token(size, csize);
    DecimalDigits(size);
    DecimalDigits(csize);
    var s := Entry(size, csize) + rest;
    assert s == tok + "," + rest;
    assert ',' !in tok;
    UntilCommaOf(tok, rest);
    assert s[0] == Decimal(size)[0];
    assert s[..|tok|] == tok && s[|tok| + 1..] == rest;
  }

  /** No zero byte, and a comma at the very end: reading the file back changes nothing. */
  predicate Clean(s: string)
  {
    '\0' !in s && (s != "" ==> s[|s| - 1] == ',')
  }

  lemma {:induction false} UntilNulOf(s: string)
    requires '\0' !in s
    ensures UntilNul(s) == s
  {
    if s != "" {
      UntilNulOf(s[1..]);
      assert s == [s[0]] + s[1..];
    }
  }

  lemma ContentsOf(s: string)
    requires Clean(s)
    ensures Contents(s) == s
  {
    UntilNulOf(s);
  }

  lemma CleanEntry(size: nat, csize: nat, rest: string)
    requires Clean(rest)
    ensures Clean(Entry(size, csize) + rest)
  {
    DecimalDigits(size);
    DecimalDigits(csize);
  }

  lemma DecimalStep(n: nat, front: string)
    requires n >= 10 && Decimal(n / 10) == front
    ensures Decimal(n) == front + [Digit(n % 10)]
  {
  }

  lemma DecimalDigit(n: nat)
    requires n < 10
    ensures Decimal(n) == [Digit(n)]
  {
  }

  /** A block of 16384 bytes that was compressed to 75. */
  lemma EntryLooks()
    ensures Entry(16384, 75) == "16384-75,"
  {
    hide Decimal;
    DecimalDigit(1);
    DecimalStep(16, "1");
    DecimalStep(163, "16");
    DecimalStep(1638, "163");
    DecimalStep(16384, "1638");
    DecimalDigit(7);
    DecimalStep(75, "7");
  }

  lemma OneDigit(s: string, i: nat, acc: nat)
    requires i < |s| && IsDigit(s[i]) && (i + 1 < |s| ==> !IsDigit(s[i + 1]))
    ensures ScanDigits(s, i, acc) == (10 * acc + DigitValue(s[i]), i + 1)
  {
  }

  /** scanf lets white space pass before a number. */
  lemma SpaceLooks()
    ensures ScanEntry(" 5- 7") == Some((5, 7))
  {
    hide ScanDigits;
    var s := " 5- 7";
    OneDigit(s, 1, 0);
    OneDigit(s, 4, 0);
    assert ScanLong(s, 0) == Some((5, 2)) && ScanLong(s, 3) == Some((7, 5));
  }

  /** And signs. */
  lemma SignLooks()
    ensures ScanEntry("-5-+7") == Some((-5, 7))
  {
    hide ScanDigits;
    var s := "-5-+7";
    OneDigit(s, 1, 0);
    OneDigit(s, 4, 0);
    assert ScanLong(s, 0) == Some((-5, 2)) && ScanLong(s, 3) == Some((7, 5));
  }

  /** But nothing after the second number. */
  lemma RestLooks()
    ensures ScanEntry("5-7x") == None
  {
    hide ScanDigits;
    var s := "5-7x";
    OneDigit(s, 0, 0);
    OneDigit(s, 2, 0);
    assert ScanLong(s, 0) == Some((5, 1)) && ScanLong(s, 2) == Some((7, 3));
  }
}
