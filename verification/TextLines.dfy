/** What the C library does to persisted text: splitting with strtok, printing and reading integers. */
module TextLines {
  import opened CTypes
  import opened Records

  // ---------------------------------------------------------------- strtok

  /** The tokens strtok finds for one separator: the non-empty stretches between separators. */
  function Strtok(text: string, sep: char): seq<string>
    decreases |text|
  {
    var k := Strchr(text, sep);
    if text == "" then []
    else if k == 0 then Strtok(text[1..], sep)
    else [text[..k]] + (if k < |text| then Strtok(text[k + 1..], sep) else [])
  }

  function Lines(text: string): seq<string> {
    Strtok(text, '\n')
  }

  /** A line as strtok returns it. */
  predicate LineOk(line: string) {
    line != "" && '\n' !in line
  }

  function Unlines(lines: seq<string>): string {
    if lines == [] then "" else lines[0] + "\n" + Unlines(lines[1..])
  }

  lemma {:induction false} UnlinesConcat(a: seq<string>, b: seq<string>)
    ensures Unlines(a + b) == Unlines(a) + Unlines(b)
  {
    if a == [] {
      assert a + b == b;
    } else {
      assert (a + b)[1..] == a[1..] + b;
      UnlinesConcat(a[1..], b);
    }
  }

  lemma StrtokFirst(f: string, sep: char, rest: string)
    requires sep !in f
    ensures Strtok(f + [sep] + rest, sep) == (if f == "" then [] else [f]) + Strtok(rest, sep)
  {
    var text := f + [sep] + rest;
    StrchrOf(f, sep, rest);
    assert text[..|f|] == f && text[|f| + 1..] == rest;
  }

  lemma StrtokLast(f: string, sep: char)
    requires sep !in f
    ensures Strtok(f, sep) == if f == "" then [] else [f]
  {
    var k := Strchr(f, sep);
    assert f[..|f|] == f;
  }

  lemma {:induction false} LinesOfUnlines(lines: seq<string>)
    requires forall i :: 0 <= i < |lines| ==> LineOk(lines[i])
    ensures Lines(Unlines(lines)) == lines
  {
    if lines != [] {
      StrtokFirst(lines[0], '\n', Unlines(lines[1..]));
      LinesOfUnlines(lines[1..]);
    }
  }

  lemma {:induction false} TokensAreOk(text: string, sep: char)
    ensures forall t :: t in Strtok(text, sep) ==> t != "" && sep !in t && forall c :: c in t ==> c in text
    decreases |text|
  {
    var k := Strchr(text, sep);
    if text != "" {
      if k == 0 {
        TokensAreOk(text[1..], sep);
      } else if k < |text| {
        TokensAreOk(text[k + 1..], sep);
      }
    }
  }

  lemma UnlinesAppend(a: seq<string>, line: string)
    ensures Unlines(a + [line]) == Unlines(a) + line + "\n"
  {
    UnlinesConcat(a, [line]);
    assert Unlines([line]) == line + "\n";
    Regroup(Unlines(a), line, "\n");
  }

  // ---------------------------------------------------------------- integers

  predicate IsDigit(c: char) {
    '0' <= c <= '9'
  }

  function DigitOf(n: nat): (c: char)
    requires n < 10
    ensures IsDigit(c) && DigitValue(c) == n
  {
    ('0' as int + n) as char
  }

  function Digits(n: nat): (s: string)
    ensures s != "" && forall c :: c in s ==> IsDigit(c)
  {
    if n < 10 then [DigitOf(n)] else Digits(n / 10) + [DigitOf(n % 10)]
  }

  /** "%d", "%ld" and "%zu" */
  function Itoa(n: int): (s: string)
    ensures s != "" && forall c :: c in s ==> IsDigit(c) || c == '-'
  {
    if n < 0 then "-" + Digits(-n) else Digits(n)
  }

  function DigitValue(c: char): nat
    requires IsDigit(c)
  {
    c as int - '0' as int
  }

  function Value(digits: string): nat
    requires forall c :: c in digits ==> IsDigit(c)
  {
    if digits == "" then 0
    else
      assert digits[|digits| - 1] in digits;
      Value(digits[..|digits| - 1]) * 10 + DigitValue(digits[|digits| - 1])
  }

  function DigitCount(s: string): (k: nat)
    ensures k <= |s| && forall c :: c in s[..k] ==> IsDigit(c)
  {
    if s == "" || !IsDigit(s[0]) then 0
    else
      var k := DigitCount(s[1..]);
      assert s[..k + 1] == [s[0]] + s[1..][..k];
      k + 1
  }

  function SkipBlanks(s: string): (t: string)
    ensures |t| <= |s|
  {
    if s != "" && IsSpace(s[0]) then SkipBlanks(s[1..]) else s
  }

  /** Reads digits: their value and what they leave. */
  function Unsigned(s: string): (r: Option<(int, string)>)
    ensures r.Some? ==> |r.value.1| < |s|
  {
    var k := DigitCount(s);
    if k == 0 then None else Some((Value(s[..k]), s[k..]))
  }

  function Negated(r: Option<(int, string)>): Option<(int, string)> {
    if r.Some? then Some((-r.value.0, r.value.1)) else None
  }

  /** What strtol and "%d" read from the front of s, and what they leave; None without a digit. */
  function Number(s: string): (r: Option<(int, string)>)
    ensures r.Some? ==> |r.value.1| < |s|
  {
    var t := SkipBlanks(s);
    if t != "" && t[0] == '-' then Negated(Unsigned(t[1..]))
    else if t != "" && t[0] == '+' then Unsigned(t[1..])
    else Unsigned(t)
  }

  function Atoi(s: string): int {
    match Number(s)
    case Some((n, _)) => n
    case None => 0
  }

  lemma {:induction false} ValueOfDigits(n: nat)
    ensures Value(Digits(n)) == n
  {
    if n < 10 {
      assert [DigitOf(n)][..0] == "";
    } else {
      ValueOfDigits(n / 10);
      assert Digits(n)[..|Digits(n)| - 1] == Digits(n / 10);
    }
  }

  predicate NoDigitFirst(rest: string) {
    rest == "" || !IsDigit(rest[0])
  }

  lemma {:induction false} DigitCountOf(d: string, rest: string)
    requires (forall c :: c in d ==> IsDigit(c)) && NoDigitFirst(rest)
    ensures DigitCount(d + rest) == |d|
  {
    if d == "" {
      assert d + rest == rest;
    } else {
      assert (d + rest)[1..] == d[1..] + rest;
      assert d[0] in d;
      DigitCountOf(d[1..], rest);
    }
  }

  lemma UnsignedOfDigits(n: nat, rest: string)
    requires NoDigitFirst(rest)
    ensures Unsigned(Digits(n) + rest) == Some((n, rest))
  {
    var d := Digits(n);
    ValueOfDigits(n);
    hide Digits, Value, DigitCount;
    DigitCountOf(d, rest);
    assert (d + rest)[..|d|] == d && (d + rest)[|d|..] == rest;
  }

  /** What was printed is read back, whatever non-digit follows. */
  lemma NumberOfItoa(n: int, rest: string)
    requires NoDigitFirst(rest)
    ensures Number(Itoa(n) + rest) == Some((n, rest))
  {
    hide Digits, Unsigned;
    var d := Digits(if n < 0 then -n else n);
    UnsignedOfDigits(if n < 0 then -n else n, rest);
    assert d[0] in d;
    PlainSign(d + rest);
    if n < 0 {
      assert Itoa(n) + rest == "-" + (d + rest);
    }
  }

  /** Whitespace in front and a plus sign do not matter; without a digit behind an optional sign nothing is read. */
  lemma {:induction false} NumberSkips(blanks: string, s: string)
    requires forall i :: 0 <= i < |blanks| ==> IsSpace(blanks[i])
    ensures Number(blanks + s) == Number(s)
    ensures s != "" && IsDigit(s[0]) ==> Number(blanks + "+" + s) == Number(s) != None
    ensures NoDigitFirst(SkipBlanks(s)) && (SkipBlanks(s) != "" ==> SkipBlanks(s)[0] != '-' && SkipBlanks(s)[0] != '+') ==>
              Number(blanks + s) == None
    decreases |blanks|
  {
    hide Unsigned, Negated;
    if blanks == "" {
      assert blanks + s == s && blanks + "+" + s == "+" + s && ("+" + s)[1..] == s;
      NumberNeedsDigit(SkipBlanks(s));
      if s != "" && IsDigit(s[0]) {
        NumberNeedsDigit(s);
      }
    } else {
      NumberSkips(blanks[1..], s);
      assert (blanks + s)[1..] == blanks[1..] + s;
      assert (blanks + "+" + s)[1..] == blanks[1..] + "+" + s;
    }
  }

  lemma NumberNeedsDigit(s: string)
    ensures Unsigned(s) == None <==> NoDigitFirst(s)
  {
  }

  lemma PlainSign(s: string)
    requires s != "" && IsDigit(s[0])
    ensures Number(s) == Unsigned(s) && Number("-" + s) == Negated(Unsigned(s))
  {
    hide Unsigned;
    assert ("-" + s)[1..] == s;
  }

  lemma AtoiOfItoa(n: int, rest: string)
    requires NoDigitFirst(rest)
    ensures Atoi(Itoa(n) + rest) == n
  {
    NumberOfItoa(n, rest);
  }

  /** sscanf with n integer conversions separated by commas; None if it converts fewer. */
  function Numbers(s: string, n: nat): (r: Option<seq<int>>)
    ensures r.Some? ==> |r.value| == n
    decreases |s|
  {
    if n == 0 then Some([])
    else match Number(s)
         case None => None
         case Some((v, rest)) =>
           if n == 1 then Some([v])
           else if rest == "" || rest[0] != ',' then None
           else match Numbers(rest[1..], n - 1)
                case None => None
                case Some(vs) => Some([v] + vs)
  }

  /** Integers printed with commas between them. */
  function Commas(vs: seq<int>): string {
    if vs == [] then "" else if |vs| == 1 then Itoa(vs[0]) else Itoa(vs[0]) + ("," + Commas(vs[1..]))
  }

  lemma {:induction false} NumbersOfCommas(vs: seq<int>)
    requires vs != []
    ensures Numbers(Commas(vs), |vs|) == Some(vs)
  {
    hide Number, Itoa;
    if |vs| == 1 {
      NumberOfItoa(vs[0], "");
      assert Itoa(vs[0]) + "" == Itoa(vs[0]) && [vs[0]] == vs;
    } else {
      NumberOfItoa(vs[0], "," + Commas(vs[1..]));
      assert ("," + Commas(vs[1..]))[1..] == Commas(vs[1..]);
      assert [vs[0]] + vs[1..] == vs;
      NumbersOfCommas(vs[1..]);
    }
  }
}
