/** Roman numerals: writing a number with a table of symbols, and reading a numeral with one character of look-ahead. */
module Roman {

  // ---------- what numerals are ----------

  /** The seven letters and their values. */
  function Letter(c: char): int {
    match c
    case 'I' => 1 case 'V' => 5 case 'X' => 10 case 'L' => 50 case 'C' => 100 case 'D' => 500 case 'M' => 1000 case _ => 0
  }

  /** The sum of the letters, each counted negatively if a greater one follows it. */
  function LetterSum(s: string): int {
    if s == "" then 0
    else (if |s| > 1 && Letter(s[0]) < Letter(s[1]) then -Letter(s[0]) else Letter(s[0])) + LetterSum(s[1..])
  }

  /** A decimal digit, given the letters for one, five and ten at its place. */
  function Digit(d: nat, one: char, five: char, ten: char): string
    requires d < 10
  {
    match d
    case 0 => "" case 1 => [one] case 2 => [one, one] case 3 => [one, one, one] case 4 => [one, five]
    case 5 => [five] case 6 => [five, one] case 7 => [five, one, one] case 8 => [five, one, one, one] case _ => [one, ten]
  }

  function Thousands(m: nat): string {
    if m == 0 then "" else ['M'] + Thousands(m - 1)
  }

  /** Digits place by place, with as many M as there are thousands. */
  function Places(m: nat, h: nat, t: nat, u: nat): string
    requires h < 10 && t < 10 && u < 10
  {
    Thousands(m) + (Digit(h, 'C', 'D', 'M') + (Digit(t, 'X', 'L', 'C') + Digit(u, 'I', 'V', 'X')))
  }

  /** The numeral of a number. */
  function Numeral(v: nat): string {
    Places(v / 1000, v / 100 % 10, v / 10 % 10, v % 10)
  }

  // ---------- the table ----------

  /** The table: symbols and their values, in descending order. It has an entry of its own for 60. */
  function Worth(k: nat): (v: nat)
    requires k < 14
    ensures v > 0
  {
    match k
    case 0 => 1000 case 1 => 900 case 2 => 500 case 3 => 400 case 4 => 100 case 5 => 90 case 6 => 60
    case 7 => 50 case 8 => 40 case 9 => 10 case 10 => 9 case 11 => 5 case 12 => 4 case _ => 1
  }

  function Symbol(k: nat): string
    requires k < 14
  {
    match k
    case 0 => "M" case 1 => "CM" case 2 => "D" case 3 => "CD" case 4 => "C" case 5 => "XC" case 6 => "LX"
    case 7 => "L" case 8 => "XL" case 9 => "X" case 10 => "IX" case 11 => "V" case 12 => "IV" case _ => "I"
  }

  // ---------- writing ----------

  /** Which entry of the table is the first that fits. */
  function FirstFit(v: nat): (k: nat)
    requires v > 0
    ensures k < 14 && Worth(k) <= v && forall i :: 0 <= i < k ==> Worth(i) > v
  {
    if v >= 1000 then 0 else if v >= 900 then 1 else if v >= 500 then 2 else if v >= 400 then 3
    else if v >= 100 then 4 else if v >= 90 then 5 else if v >= 60 then 6 else if v >= 50 then 7
    else if v >= 40 then 8 else if v >= 10 then 9 else if v >= 9 then 10 else if v >= 5 then 11
    else if v >= 4 then 12 else 13
  }

  /** What is left of a number after taking off the first entry that fits. */
  function Rest(v: nat): (r: nat)
    requires v > 0
    ensures r < v
  {
    v - Worth(FirstFit(v))
  }

  function Written(v: nat): string {
    if v == 0 then "" else
      Symbol(FirstFit(v)) + Written(Rest(v))
  }

  lemma FitIs(v: nat, k: nat)
    requires k < 14 && v >= Worth(k) && (k > 0 ==> v < Worth(k - 1))
    ensures FirstFit(v) == k
  {
  }

  lemma DivTen(v: nat, q: nat, r: nat)
    requires v == 10 * q + r && r < 10
    ensures v / 10 == q && v % 10 == r
  {
  }

  lemma DivHundred(v: nat, q: nat, r: nat)
    requires v == 100 * q + r && r < 100
    ensures v / 100 == q
  {
  }

  lemma DivThousand(v: nat, q: nat, r: nat)
    requires v == 1000 * q + r && r < 1000
    ensures v / 1000 == q
  {
  }

  lemma DigitsOf(v: nat, m: nat, h: nat, t: nat, u: nat)
    requires h < 10 && t < 10 && u < 10 && v == 1000 * m + 100 * h + 10 * t + u
    ensures v / 1000 == m && v / 100 % 10 == h && v / 10 % 10 == t && v % 10 == u
  {
    var q, p := 10 * (10 * m + h) + t, 10 * m + h;
    DivTen(v, q, u);
    DivTen(q, p, t);
    DivHundred(v, p, 10 * t + u);
    DivTen(p, m, h);
    DivThousand(v, m, 100 * h + 10 * t + u);
  }

  /** Every number has such digits. */
  lemma Digits(v: nat) returns (m: nat, h: nat, t: nat, u: nat)
    ensures h < 10 && t < 10 && u < 10 && v == 1000 * m + 100 * h + 10 * t + u
  {
    var q := v / 10;
    var p := q / 10;
    m, h, t, u := p / 10, p % 10, q % 10, v % 10;
  }

  /** The numeral begins with the symbol, and what follows is the numeral of the rest. */
  ghost predicate Begins(v: nat, k: nat)
    requires k < 14 && v >= Worth(k)
  {
    FirstFit(v) == k && Numeral(v) == Symbol(k) + Numeral(v - Worth(k))
  }

  lemma DigitCases(d: nat, one: char, five: char, ten: char, rest: string)
    requires d < 10
    ensures 1 <= d <= 3 ==> Digit(d, one, five, ten) + rest == [one] + (Digit(d - 1, one, five, ten) + rest)
    ensures d == 4 ==> Digit(d, one, five, ten) + rest == [one, five] + rest
    ensures 5 <= d <= 8 ==> Digit(d, one, five, ten) + rest == [five] + (Digit(d - 5, one, five, ten) + rest)
    ensures d == 9 ==> Digit(d, one, five, ten) + rest == [one, ten] + rest
    ensures d == 0 ==> Digit(d, one, five, ten) + rest == rest
  {
  }

  /** The entry for 60: five and one at the place of tens. */
  lemma SixtyCases(t: nat, rest: string)
    requires 6 <= t <= 8
    ensures Digit(t, 'X', 'L', 'C') + rest == "LX" + (Digit(t - 6, 'X', 'L', 'C') + rest)
  {
    DigitCases(t, 'X', 'L', 'C', rest);
    DigitCases(t - 5, 'X', 'L', 'C', rest);
  }

  lemma ThousandBegins(v: nat, m: nat, h: nat, t: nat, u: nat)
    requires m > 0 && h < 10 && t < 10 && u < 10 && v == 1000 * m + 100 * h + 10 * t + u
    ensures Begins(v, 0)
  {
    DigitsOf(v, m, h, t, u);
    DigitsOf(v - 1000, m - 1, h, t, u);
    FitIs(v, 0);
  }

  lemma HundredBegins(v: nat, h: nat, t: nat, u: nat) returns (k: nat)
    requires 0 < h < 10 && t < 10 && u < 10 && v == 100 * h + 10 * t + u
    ensures k < 14 && v >= Worth(k) && Begins(v, k)
  {
    k := if h == 9 then 1 else if h >= 5 then 2 else if h == 4 then 3 else 4;
    var next := if h == 9 || h == 4 then 0 else if h >= 5 then h - 5 else h - 1;
    var rest := Digit(t, 'X', 'L', 'C') + Digit(u, 'I', 'V', 'X');
    DigitsOf(v, 0, h, t, u);
    DigitsOf(v - Worth(k), 0, next, t, u);
    FitIs(v, k);
    DigitCases(h, 'C', 'D', 'M', rest);
    DigitCases(next, 'C', 'D', 'M', rest);
    NoThousands(h, t, u);
    NoThousands(next, t, u);
  }

  lemma NoThousands(h: nat, t: nat, u: nat)
    requires h < 10 && t < 10 && u < 10
    ensures Places(0, h, t, u) == Digit(h, 'C', 'D', 'M') + (Digit(t, 'X', 'L', 'C') + Digit(u, 'I', 'V', 'X'))
    ensures h == 0 ==> Places(0, h, t, u) == Digit(t, 'X', 'L', 'C') + Digit(u, 'I', 'V', 'X')
    ensures h == t == 0 ==> Places(0, h, t, u) == Digit(u, 'I', 'V', 'X')
  {
  }

  lemma TenBegins(v: nat, t: nat, u: nat) returns (k: nat)
    requires 0 < t < 10 && u < 10 && v == 10 * t + u
    ensures k < 14 && v >= Worth(k) && Begins(v, k)
  {
    k := if t == 9 then 5 else if t >= 6 then 6 else if t == 5 then 7 else if t == 4 then 8 else 9;
    var next := if t == 9 || t == 5 || t == 4 then 0 else if t >= 6 then t - 6 else t - 1;
    var rest := Digit(u, 'I', 'V', 'X');
    DigitsOf(v, 0, 0, t, u);
    DigitsOf(v - Worth(k), 0, 0, next, u);
    FitIs(v, k);
    if k == 6 { SixtyCases(t, rest); } else { DigitCases(t, 'X', 'L', 'C', rest); }
    DigitCases(next, 'X', 'L', 'C', rest);
    NoThousands(0, t, u);
    NoThousands(0, next, u);
  }

  lemma OneBegins(u: nat) returns (k: nat)
    requires 0 < u < 10
    ensures k < 14 && u >= Worth(k) && Begins(u, k)
  {
    k := if u == 9 then 10 else if u >= 5 then 11 else if u == 4 then 12 else 13;
    var next := if u == 9 || u == 4 then 0 else if u >= 5 then u - 5 else u - 1;
    DigitsOf(u, 0, 0, 0, u);
    DigitsOf(next, 0, 0, 0, next);
    FitIs(u, k);
    DigitCases(u, 'I', 'V', 'X', "");
    DigitCases(next, 'I', 'V', 'X', "");
    NoThousands(0, 0, u);
    NoThousands(0, 0, next);
  }

  /** The first symbol of the table that fits is what the numeral begins with. */
  lemma NumeralBegins(v: nat)
    requires v > 0
    ensures Begins(v, FirstFit(v))
  {
    var m, h, t, u := Digits(v);
    if m > 0 {
      ThousandBegins(v, m, h, t, u);
    } else if h > 0 {
      var k := HundredBegins(v, h, t, u);
    } else if t > 0 {
      var k := TenBegins(v, t, u);
    } else {
      var k := OneBegins(v);
    }
  }

  /** The greedy decomposition writes the numeral, digit by digit. */
  lemma {:induction false} WrittenIsNumeral(v: nat)
    ensures Written(v) == Numeral(v)
    decreases v
  {
    if v == 0 {
      DigitsOf(0, 0, 0, 0, 0);
    } else {
      NumeralBegins(v);
      WrittenIsNumeral(Rest(v));
    }
  }

  /** No letter greater than the last one of its last symbol stands in front of what remains. */
  lemma LeadingLetter(v: nat)
    ensures var c := Letter(At(Written(v), 0));
      && (v < 4 ==> c <= 1) && (v < 9 ==> c <= 5) && (v < 40 ==> c <= 10)
      && (v < 90 ==> c <= 50) && (v < 400 ==> c <= 100) && (v < 900 ==> c <= 500) && c <= 1000
  {
    if v > 0 { assert Written(v)[0] == Symbol(FirstFit(v))[0]; }
  }

  lemma LeadingFits(v: nat)
    requires v > 0
    ensures var s := Symbol(FirstFit(v)); s != "" && Letter(At(Written(Rest(v)), 0)) <= Letter(s[|s| - 1])
  {
    LeadingLetter(Rest(v));
    LastLetter(FirstFit(v));
    RestBelow(v);
  }

  lemma LastLetter(k: nat)
    requires k < 14
    ensures Symbol(k) != "" && Letter(Symbol(k)[|Symbol(k)| - 1]) ==
      if k <= 1 then 1000 else if k <= 3 then 500 else if k <= 5 then 100 else if k == 7 || k == 8 then 50
      else if k <= 10 then 10 else if k <= 12 then 5 else 1
  {
  }

  lemma RestBelow(v: nat)
    requires v > 0
    ensures var k, r := FirstFit(v), Rest(v);
      && (k > 1 ==> r < 400) && (k > 3 ==> r < 300) && (k > 4 ==> r < 40) && (k > 8 ==> r < 30)
      && (k > 10 ==> r < 4) && (k > 12 ==> r < 3)
  {
  }

  lemma LetterStep(symbol: string, rest: string)
    requires symbol != "" && |symbol| <= 2 && Letter(At(rest, 0)) <= Letter(symbol[|symbol| - 1])
    ensures LetterSum(symbol + rest) == LetterSum(symbol) + LetterSum(rest)
  {
    var s := symbol + rest;
    if |symbol| == 1 {
      assert s[1..] == rest && symbol[1..] == "";
    } else {
      assert s[1..][1..] == rest && symbol[1..][1..] == "";
    }
  }

  /** The letters of what is written sum to the number. */
  lemma {:induction false} LettersSum(v: nat)
    ensures LetterSum(Written(v)) == v
    decreases v
  {
    if v > 0 {
      LettersSum(Rest(v));
      LeadingFits(v);
      SymbolSum(FirstFit(v));
      LetterStep(Symbol(FirstFit(v)), Written(Rest(v)));
    }
  }

  lemma SymbolSum(k: nat)
    requires k < 14
    ensures LetterSum(Symbol(k)) == Worth(k) && 1 <= |Symbol(k)| <= 2
  {
    var s := Symbol(k);
    if |s| == 2 {
      SumOfTwo(s[0], s[1]);
      assert s == [s[0], s[1]];
    } else {
      assert s[1..] == "";
    }
  }

  lemma SumOfTwo(c: char, d: char)
    ensures LetterSum([c, d]) == (if Letter(c) < Letter(d) then -Letter(c) else Letter(c)) + Letter(d)
  {
    assert [d][1..] == "";
    assert LetterSum([d]) == Letter(d);
    assert [c, d][1..] == [d];
  }

  /** The inner loop: the first symbol of the table that fits. */
  method PickSymbol(value: nat) returns (k: nat)
    requires value > 0
    ensures k == FirstFit(value)
  {
    k := 0;
    while value < Worth(k)
      invariant k <= FirstFit(value)
      decreases 14 - k
    {
      k := k + 1;
    }
  }

  lemma WrittenStep(sofar: string, rest: nat)
    requires rest > 0
    ensures sofar + Written(rest) == sofar + Symbol(FirstFit(rest)) + Written(Rest(rest))
  {
  }

  method IntToRoman(value: nat) returns (result: string)
    ensures result == Written(value) == Numeral(value) && LetterSum(result) == value
  {
    WrittenIsNumeral(value);
    LettersSum(value);
    result := "";
    var rest: nat := value;
    while rest != 0
      invariant result + Written(rest) == Written(value)
    {
      WrittenStep(result, rest);
      var k := PickSymbol(rest);
      result := result + Symbol(k);
      rest := rest - Worth(k);
    }
  }

  // ---------- reading ----------

  /** How many characters are read at once at the front of a numeral, and what they are worth. */
  function Token(c: char, next: char): (nat, nat) {
    if c == 'M' then (1, 1000)
    else if c == 'D' then (1, 500)
    else if c == 'C' then if next == 'D' then (2, 400) else if next == 'M' then (2, 900) else (1, 100)
    else if c == 'L' then (1, 50)
    else if c == 'X' then if next == 'L' then (2, 40) else if next == 'C' then (2, 90) else (1, 10)
    else if c == 'V' then (1, 5)
    else if c == 'I' then if next == 'V' then (2, 4) else if next == 'X' then (2, 9) else (1, 1)
    else (1, 0)
  }

  /** The character at a position; the one just behind the end is the string's terminator. */
  function At(s: string, i: nat): char {
    if i < |s| then s[i] else '\0'
  }

  function ValueFrom(s: string, i: nat): nat
    decreases |s| - i
  {
    if i >= |s| then 0 else
      var (n, v) := Token(s[i], At(s, i + 1));
      v + ValueFrom(s, i + n)
  }

  /** The pairs that are read as one. */
  predicate Subtractive(c: char, d: char) {
    (c == 'I' && (d == 'V' || d == 'X')) || (c == 'X' && (d == 'L' || d == 'C')) || (c == 'C' && (d == 'D' || d == 'M'))
  }

  /** If the letter at i stands before a greater one, the two are such a pair, and no greater one follows them. */
  ghost predicate WellPlaced(s: string, i: nat)
    requires i < |s|
  {
    var c, d, e := s[i], At(s, i + 1), At(s, i + 2);
    0 < Letter(c) < Letter(d) ==> Subtractive(c, d) && Letter(e) <= Letter(d)
  }

  ghost predicate Proper(s: string, i: nat) {
    forall k: nat :: i <= k < |s| ==> WellPlaced(s, k)
  }

  lemma TokenIs(c: char, d: char)
    ensures Token(c, d) == if Subtractive(c, d) then (2, Letter(d) - Letter(c)) else (1, Letter(c))
    ensures Subtractive(c, d) ==> 0 < Letter(c) < Letter(d)
  {
  }

  /** The reader computes the sum of the letters if and only if the string is proper, and more otherwise. */
  lemma {:induction false} ProperRead(s: string, i: nat)
    requires i <= |s|
    ensures LetterSum(s[i..]) <= ValueFrom(s, i) && (ValueFrom(s, i) == LetterSum(s[i..]) <==> Proper(s, i))
    decreases |s| - i
  {
    if i < |s| {
      var c, d := s[i], At(s, i + 1);
      SumAt(s, i);
      TokenIs(c, d);
      ProperNext(s, i);
      if Subtractive(c, d) {
        SumAt(s, i + 1);
        ProperNext(s, i + 1);
        ProperRead(s, i + 2);
        assert WellPlaced(s, i) ==> WellPlaced(s, i + 1);
      } else {
        ProperRead(s, i + 1);
      }
    }
  }

  lemma ProperNext(s: string, i: nat)
    requires i < |s|
    ensures Proper(s, i) <==> WellPlaced(s, i) && Proper(s, i + 1)
  {
  }

  lemma SumAt(s: string, i: nat)
    requires i < |s|
    ensures var c, d := Letter(s[i]), Letter(At(s, i + 1));
      LetterSum(s[i..]) == (if c < d then -c else c) + LetterSum(s[i + 1..])
  {
    assert s[i..][1..] == s[i + 1..];
  }

  /** For instance, I before L counts as one more, not as one less. */
  lemma ImproperRead()
    ensures !Proper("IL", 0) && ValueFrom("IL", 0) == 51 && LetterSum("IL") == 49
  {
    assert !WellPlaced("IL", 0);
    assert "IL"[1..] == "L" && "L"[1..] == "";
    assert ValueFrom("IL", 1) == 50;
  }

  /** The sum of the letters exactly if the string is proper; the number if it is the numeral of one. */
  ghost predicate ReadRightly(str: string, value: nat) {
    && (value == LetterSum(str) <==> Proper(str, 0))
    && forall v :: str == Numeral(v) ==> value == v == LetterSum(str)
  }

  /** The reader sums the letters of proper strings only, and gives back the number of every numeral. */
  lemma NumeralsRead(str: string)
    ensures ReadRightly(str, ValueFrom(str, 0))
  {
    ProperRead(str, 0);
    assert str[0..] == str;
    forall v | str == Numeral(v) ensures ValueFrom(str, 0) == v == LetterSum(str) {
      WrittenIsNumeral(v);
      RoundTrip(v);
      LettersSum(v);
    }
  }

  /** One round: how far to go and what to add, given a character and the next one. */
  method ReadToken(c: char, next: char) returns (n: nat, v: nat)
    ensures (n, v) == Token(c, next)
  {
    n, v := 1, 0;
    if c == 'M' { v := 1000; }
    else if c == 'D' { v := 500; }
    else if c == 'C' {
      if next == 'D' { n, v := 2, 400; } else if next == 'M' { n, v := 2, 900; } else { v := 100; }
    }
    else if c == 'L' { v := 50; }
    else if c == 'X' {
      if next == 'L' { n, v := 2, 40; } else if next == 'C' { n, v := 2, 90; } else { v := 10; }
    }
    else if c == 'V' { v := 5; }
    else if c == 'I' {
      if next == 'V' { n, v := 2, 4; } else if next == 'X' { n, v := 2, 9; } else { v := 1; }
    }
  }

  method RomanToInt(str: string) returns (result: nat)
    ensures result == ValueFrom(str, 0) && ReadRightly(str, result)
  {
    NumeralsRead(str);
    result := 0;
    var idx := 0;
    while idx < |str|
      invariant result + ValueFrom(str, idx) == ValueFrom(str, 0)
      decreases |str| - idx
    {
      var n, v := ReadToken(str[idx], At(str, idx + 1));
      result := result + v;
      idx := idx + n;
    }
  }

  // ---------- reading what was written ----------

  /** The first character of a written number tells its order of magnitude. */
  lemma FirstCharacter(v: nat)
    ensures var c := At(Written(v), 0);
      && (v < 3 ==> c != 'V' && c != 'X') && (v < 30 ==> c != 'L' && c != 'C') && (v < 300 ==> c != 'D' && c != 'M')
  {
    if v > 0 {
      var k := FirstFit(v);
      assert Written(v)[0] == Symbol(k)[0];
    }
  }

  /** Reading at a position sees only what follows. */
  lemma {:induction false} ValueShift(s: string, t: string, i: nat)
    requires i <= |t|
    ensures ValueFrom(s + t, |s| + i) == ValueFrom(t, i)
    decreases |t| - i
  {
    if i < |t| {
      assert (s + t)[|s| + i] == t[i] && At(s + t, |s| + i + 1) == At(t, i + 1);
      var (n, _) := Token(t[i], At(t, i + 1));
      if i + n <= |t| { ValueShift(s, t, i + n); }
    }
  }

  /** A string without its first characters is worth what the rest is. */
  lemma TokenRead(s: string, symbol: string, rest: string)
    requires s == symbol + rest && |symbol| > 0
    ensures var (n, v) := Token(symbol[0], if |symbol| > 1 then symbol[1] else At(rest, 0));
      ValueFrom(s, 0) == v + ValueFrom(s, n)
    ensures ValueFrom(s, |symbol|) == ValueFrom(rest, 0)
  {
    ValueShift(symbol, rest, 0);
    assert At(s, 1) == if |symbol| > 1 then symbol[1] else At(rest, 0);
  }

  /** What reading the symbol for v takes, when the rest of the number comes behind it. */
  lemma TokenFits(v: nat)
    requires v > 0 && FirstFit(v) != 6
    ensures var k := FirstFit(v); var symbol := Symbol(k);
      symbol != "" && Token(symbol[0], if |symbol| > 1 then symbol[1] else At(Written(Rest(v)), 0)) == (|symbol|, Worth(k))
  {
    FirstCharacter(Rest(v));
  }

  /** The symbol for 60 is read as two. */
  lemma SixtyRead(rest: nat)
    requires rest < 30
    ensures ValueFrom("LX" + Written(rest), 0) == 60 + ValueFrom(Written(rest), 0)
  {
    FirstCharacter(rest);
    TokenRead("LX" + Written(rest), "LX", Written(rest));
    assert At("LX" + Written(rest), 2) == At(Written(rest), 0);
  }

  /** A symbol followed by the rest of the number is read as that symbol, whatever the rest. */
  lemma SymbolRead(v: nat)
    requires v > 0
    ensures ValueFrom(Written(v), 0) == v - Rest(v) + ValueFrom(Written(Rest(v)), 0)
  {
    var k := FirstFit(v);
    if k == 6 {
      SixtyRead(v - 60);
    } else {
      TokenFits(v);
      TokenRead(Written(v), Symbol(k), Written(Rest(v)));
    }
  }

  lemma {:induction false} RoundTrip(v: nat)
    ensures ValueFrom(Written(v), 0) == v
    decreases v
  {
    if v > 0 {
      SymbolRead(v);
      RoundTrip(Rest(v));
    }
  }
}
