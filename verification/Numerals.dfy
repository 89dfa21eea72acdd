/** Decimal numerals as text, and how the order of texts relates to the order of numbers. */
module Numerals {
  import opened Text

  predicate IsDigit(c: char) { '0' <= c <= '9' }

  predicate Digits(s: string) { forall i | 0 <= i < |s| :: IsDigit(s[i]) }

  function Digit(d: nat): (c: char)
    requires d < 10
    ensures IsDigit(c) && c as int - '0' as int == d
  {
    (d + '0' as int) as char
  }

  /** std::to_string on a number that is not negative. */
  function Numeral(n: nat): (s: string)
    ensures s != "" && Digits(s)
  {
    if n < 10 then [Digit(n)] else Numeral(n / 10) + [Digit(n % 10)]
  }

  lemma NumeralSnoc(n: nat, d: nat)
    requires n > 0 && d < 10
    ensures Numeral(10 * n + d) == Numeral(n) + [Digit(d)]
  {
    assert (10 * n + d) / 10 == n && (10 * n + d) % 10 == d;
  }

  /** std::stoi on a text of digits. */
  function Value(s: string): nat
    requires Digits(s)
  {
    if s == "" then 0 else 10 * Value(s[..|s|-1]) + (s[|s|-1] as int - '0' as int)
  }

  lemma ValueSnoc(s: string, c: char)
    requires Digits(s) && IsDigit(c)
    ensures Digits(s + [c]) && Value(s + [c]) == 10 * Value(s) + (c as int - '0' as int)
  {
    assert (s + [c])[..|s|] == s;
  }

  lemma {:induction false} ValueOfNumeral(n: nat)
    ensures Value(Numeral(n)) == n
  {
    if n < 10 {
      assert Numeral(n)[..0] == "";
    } else {
      ValueOfNumeral(n / 10);
      ValueSnoc(Numeral(n / 10), Digit(n % 10));
    }
  }

  const SPACES := {' ', '\t', '\n', '\U{B}', '\U{C}', '\r'}

  const INT_MAX := 0x7FFF_FFFF

  predicate FitsInt(n: int) { -INT_MAX - 1 <= n <= INT_MAX }

  function Sign(t: string): string { if t != "" && (t[0] == '-' || t[0] == '+') then [t[0]] else "" }

  function FrontDigits(u: string): Option<int> {
    var k := LeadingDigits(u);
    if k == 0 then None else Some(Value(u[..k]))
  }

  function Signed(sign: string, v: int): int { if sign == "-" then 0 - v else v }

  /** std::strtol: blanks, a sign, and the digits up to the first other character; None without a digit. */
  function LeadingNumber(s: string): Option<int> {
    var t := Skip(s, SPACES);
    match FrontDigits(t[|Sign(t)|..])
    case None => None
    case Some(v) => Some(Signed(Sign(t), v))
  }

  function Atoi(s: string): int {
    match LeadingNumber(s)
    case None => 0
    case Some(n) => n
  }

  /** std::stoi, None standing for its exceptions: no number in front, or one that is no int. */
  function Stoi(s: string): Option<int> {
    match LeadingNumber(s)
    case None => None
    case Some(n) => if FitsInt(n) then Some(n) else None
  }

  /** std::to_string. */
  function ToText(n: int): string { if n < 0 then "-" + Numeral(-n) else Numeral(n) }

  function LeadingDigits(s: string): (k: nat)
    ensures k <= |s| && Digits(s[..k]) && (k < |s| ==> !IsDigit(s[k]))
  {
    if s == "" || !IsDigit(s[0]) then 0 else 1 + LeadingDigits(s[1..])
  }

  /** The text is some blanks, perhaps a sign, digits for the number, and then anything but another digit. */
  predicate Parts(s: string, blanks: string, sign: string, digits: string, rest: string, n: int) {
    && s == blanks + (sign + (digits + rest))
    && (forall i | 0 <= i < |blanks| :: blanks[i] in SPACES)
    && (sign == "" || sign == "-" || sign == "+")
    && digits != "" && Digits(digits) && (rest == "" || !IsDigit(rest[0]))
    && n == Signed(sign, Value(digits))
  }

  /** The number read is the one the text spells out in front. */
  lemma LeadingNumberIs(s: string, n: int)
    ensures LeadingNumber(s) == Some(n) <==> exists b, g, d, r :: Parts(s, b, g, d, r, n)
  {
    hide LeadingNumber, Parts;
    if LeadingNumber(s) == Some(n) {
      var b, g, d, r := TakeApart(s, n);
    }
    if b, g, d, r :| Parts(s, b, g, d, r, n) {
      PartsNumber(s, b, g, d, r, n);
    }
  }

  lemma PartsNumber(s: string, b: string, g: string, d: string, r: string, n: int)
    requires Parts(s, b, g, d, r, n)
    ensures LeadingNumber(s) == Some(n)
  {
    hide LeadingNumber;
    SpelledNumber(b, g, d, r);
  }

  lemma TakeApart(s: string, n: int) returns (b: string, g: string, d: string, r: string)
    requires LeadingNumber(s) == Some(n)
    ensures Parts(s, b, g, d, r, n)
  {
    hide Skip, Sign, Signed, FrontDigits, Value, Digits;
    var t := Skip(s, SPACES);
    b := SpacesBefore(s);
    g := Sign(t);
    SignInFront(t);
    assert t == g + t[|g|..];
    d, r := DigitsApart(t[|g|..]);
    hide IsDigit;
    assert s == b + (g + (d + r));
  }

  /** What `stoi` and `atoi` make of a text: the number spelled out in front; without one, or with one that is no int,
      `stoi` throws, and without one `atoi` gives 0. */
  lemma ReadingsAre(s: string, n: int)
    ensures Stoi(s) == Some(n) <==>
            -2147483648 <= n <= 2147483647 && exists b, g, d, r :: Parts(s, b, g, d, r, n)
    ensures (exists b, g, d, r :: Parts(s, b, g, d, r, n)) ==> Atoi(s) == n
    ensures (forall m, b, g, d, r :: !Parts(s, b, g, d, r, m)) ==> Stoi(s) == None && Atoi(s) == 0
  {
    hide LeadingNumber, Parts;
    LeadingNumberIs(s, n);
    if LeadingNumber(s).Some? { LeadingNumberIs(s, LeadingNumber(s).value); }
  }

  lemma LetterInFront(s: string)
    requires s != "" && s[0] !in SPACES && !IsDigit(s[0]) && s[0] != '-' && s[0] != '+'
    ensures LeadingNumber(s) == None
  {
    assert Skip(s, SPACES) == s && Sign(s) == "" && s[0..] == s;
    hide Value;
    assert LeadingDigits(s) == 0;
  }

  lemma SpacesBefore(s: string) returns (b: string)
    ensures s == b + Skip(s, SPACES) && forall i | 0 <= i < |b| :: b[i] in SPACES
  {
    hide Skip;
    b := s[..|s|-|Skip(s, SPACES)|];
  }

  lemma DigitsApart(u: string) returns (d: string, r: string)
    requires FrontDigits(u).Some?
    ensures u == d + r && d != "" && Digits(d) && (r == "" || !IsDigit(r[0]))
    ensures FrontDigits(u) == Some(Value(d))
  {
    hide LeadingDigits, Value;
    var k := LeadingDigits(u);
    d, r := u[..k], u[k..];
  }

  lemma SignInFront(t: string)
    ensures Sign(t) <= t && (Sign(t) == "" || Sign(t) == "-" || Sign(t) == "+")
  {
  }

  lemma SignIs(g: string, u: string)
    requires (g == "" || g == "-" || g == "+") && u != "" && IsDigit(u[0])
    ensures Sign(g + u) == g && (g + u)[|g|..] == u && g + u != "" && (g + u)[0] !in SPACES
  {
  }

  lemma FrontDigitsAre(d: string, r: string)
    requires d != "" && Digits(d) && (r == "" || !IsDigit(r[0]))
    ensures FrontDigits(d + r) == Some(Value(d))
  {
    LeadingDigitsOf(d, r);
    assert (d + r)[..|d|] == d;
  }

  lemma SpelledNumber(b: string, g: string, d: string, r: string)
    requires forall i | 0 <= i < |b| :: b[i] in SPACES
    requires (g == "" || g == "-" || g == "+") && d != "" && Digits(d) && (r == "" || !IsDigit(r[0]))
    ensures LeadingNumber(b + (g + (d + r))) == Some(Signed(g, Value(d)))
  {
    assert IsDigit((d + r)[0]);
    SignIs(g, d + r);
    FrontDigitsAre(d, r);
    hide Skip, Sign, Signed, FrontDigits, Value;
    SkipRun(b, g + (d + r), SPACES);
  }

  lemma AtoiOfDigits(n: string, rest: string)
    requires n != "" && Digits(n) && (rest == "" || !IsDigit(rest[0]))
    ensures LeadingNumber(n + rest) == Some(Value(n)) && Atoi(n + rest) == Value(n)
  {
    SpelledNumber("", "", n, rest);
    hide LeadingNumber, Value;
    assert "" + ("" + (n + rest)) == n + rest;
  }

  lemma NothingAround(g: string, d: string)
    ensures "" + (g + (d + "")) == g + d && "" + d == d
  {
  }

  /** What to_string writes, stoi reads back, as long as it is an int. */
  lemma StoiOfText(n: int)
    ensures Stoi(ToText(n)) == if FitsInt(n) then Some(n) else None
  {
    var (g, v) := if n < 0 then ("-", -n) else ("", n);
    ValueOfNumeral(v);
    SpelledNumber("", g, Numeral(v), "");
    hide LeadingNumber, Numeral, Value, Signed, FitsInt;
    NothingAround(g, Numeral(v));
    assert g + Numeral(v) == ToText(n) by { if n >= 0 { NothingAround("", Numeral(v)); } }
  }

  lemma {:induction false} LeadingDigitsOf(n: string, rest: string)
    requires Digits(n) && (rest == "" || !IsDigit(rest[0]))
    ensures LeadingDigits(n + rest) == |n|
  {
    if n == "" {
      assert n + rest == rest;
    } else {
      assert (n + rest)[1..] == n[1..] + rest;
      LeadingDigitsOf(n[1..], rest);
    }
  }

  predicate IsNumeral(s: string) {
    s != "" && Digits(s) && (s[0] == '0' ==> |s| == 1)
  }

  lemma {:induction false} NumeralShape(n: nat)
    ensures IsNumeral(Numeral(n)) && (Numeral(n)[0] == '0' <==> n == 0)
  {
    if n >= 10 { NumeralShape(n / 10); }
  }

  lemma {:induction false} NumeralOfValue(s: string)
    requires IsNumeral(s)
    ensures Numeral(Value(s)) == s
  {
    var (front, last) := (s[..|s|-1], s[|s|-1]);
    assert s == front + [last];
    if |s| == 1 {
      assert front == "" && Value(front) == 0;
    } else {
      assert Digits(front) && front[0] == s[0];
      NumeralOfValue(front);
      PositiveValue(front);
      assert Value(s) / 10 == Value(front);
    }
  }

  lemma {:induction false} PositiveValue(s: string)
    requires s != "" && Digits(s) && s[0] != '0'
    ensures Value(s) > 0
  {
    if |s| > 1 { PositiveValue(s[..|s|-1]); }
  }

  /** The order of texts byte by byte, as the database compares them. */
  predicate TextLess(a: string, b: string) {
    b != "" && (a == "" || a[0] < b[0] || (a[0] == b[0] && TextLess(a[1..], b[1..])))
  }

  lemma {:induction false} TextLessOrder(a: string, b: string)
    ensures !(TextLess(a, b) && TextLess(b, a)) && !TextLess(a, a)
    ensures a == b || TextLess(a, b) || TextLess(b, a)
    decreases |a| + |b|
  {
    if a != "" && b != "" {
      TextLessOrder(a[1..], b[1..]);
      assert a == [a[0]] + a[1..] && b == [b[0]] + b[1..];
    } else if a != "" {
      TextLessOrder(a[1..], "");
    }
  }

  lemma {:induction false} TextLessTransitive(a: string, b: string, c: string)
    requires TextLess(a, b) && TextLess(b, c)
    ensures TextLess(a, c)
  {
    if a != "" && a[0] == b[0] == c[0] { TextLessTransitive(a[1..], b[1..], c[1..]); }
  }

  lemma {:induction false} TextLessSnoc(a: string, x: char, b: string, y: char)
    requires |a| == |b|
    ensures TextLess(a + [x], b + [y]) <==> TextLess(a, b) || (a == b && x < y)
  {
    if a == "" {
      assert a + [x] == [x] && b + [y] == [y];
    } else {
      TextLessSnoc(a[1..], x, b[1..], y);
      assert (a + [x])[1..] == a[1..] + [x] && (b + [y])[1..] == b[1..] + [y];
      assert a == [a[0]] + a[1..] && b == [b[0]] + b[1..];
    }
  }

  /** For digit texts of equal length the two orders agree. */
  lemma {:induction false} EqualLengthOrder(a: string, b: string)
    requires Digits(a) && Digits(b) && |a| == |b|
    ensures TextLess(a, b) <==> Value(a) < Value(b)
    ensures a == b <==> Value(a) == Value(b)
  {
    if a != "" {
      var (a', b', x, y) := (a[..|a|-1], b[..|b|-1], a[|a|-1], b[|b|-1]);
      EqualLengthOrder(a', b');
      TextLessSnoc(a', x, b', y);
      assert a == a' + [x] && b == b' + [y];
    }
  }

  predicate AllNines(s: string) { s != "" && forall i | 0 <= i < |s| :: s[i] == '9' }

  function Zeros(k: nat): (z: string)
    ensures |z| == k && forall i | 0 <= i < k :: z[i] == '0'
  {
    seq(k, _ => '0')
  }

  lemma NinesSnoc(s: string, c: char)
    requires s != ""
    ensures AllNines(s + [c]) <==> AllNines(s) && c == '9'
  {
    if AllNines(s + [c]) {
      assert forall i | 0 <= i < |s| :: s[i] == (s + [c])[i];
      assert (s + [c])[|s|] == c;
    }
  }

  /** Counting up keeps the length of a numeral, unless it is all nines. */
  lemma {:induction false} Successor(n: nat)
    ensures AllNines(Numeral(n)) ==> Numeral(n + 1) == "1" + Zeros(|Numeral(n)|)
    ensures !AllNines(Numeral(n)) ==> |Numeral(n + 1)| == |Numeral(n)|
  {
    if n >= 10 {
      var front := Numeral(n / 10);
      assert Numeral(n) == front + [Digit(n % 10)];
      NinesSnoc(front, Digit(n % 10));
      assert Digit(n % 10) == '9' <==> n % 10 == 9;
      Successor(n / 10);
      if n % 10 == 9 {
        assert Numeral(n + 1) == Numeral(n / 10 + 1) + [Digit(0)];
        assert Zeros(|front|) + "0" == Zeros(|front| + 1);
      } else {
        assert (n + 1) / 10 == n / 10;
      }
    } else if n == 9 {
      assert Numeral(10) == Numeral(1) + [Digit(0)];
      assert Digit(1) == '1' && Digit(0) == '0' && Digit(9) == '9';
      assert Numeral(n) == "9" && Zeros(1) == "0";
      assert Numeral(n + 1) == "1" + Zeros(1);
    } else {
      assert Numeral(n)[0] != '9';
    }
  }

  lemma SuccessorGrows(n: nat)
    ensures TextLess(Numeral(n), Numeral(n + 1)) <==> !AllNines(Numeral(n))
  {
    Successor(n);
    if AllNines(Numeral(n)) {
      assert Numeral(n)[0] == '9' && Numeral(n + 1)[0] == '1';
    } else {
      EqualLengthOrder(Numeral(n), Numeral(n + 1));
      ValueOfNumeral(n);
      ValueOfNumeral(n + 1);
    }
  }

  /** The numerals of the numbers from 10000 to 99999 are the five-digit ones. */
  lemma FiveDigits(n: nat)
    requires 10000 <= n < 100000
    ensures |Numeral(n)| == 5
  {
    var n1, n2, n3, n4 := n / 10, n / 100, n / 1000, n / 10000;
    assert n1 / 10 == n2 && n2 / 10 == n3 && n3 / 10 == n4;
    assert |Numeral(n4)| == 1;
    assert |Numeral(n3)| == 2;
    assert |Numeral(n2)| == 3;
    assert |Numeral(n1)| == 4;
  }

  predicate TextAtMost(a: string, b: string) { a == b || TextLess(a, b) }

  /** SQL's MAX over a text column. */
  ghost predicate IsTextMax(m: string, ids: set<string>) {
    m in ids && forall x | x in ids :: TextAtMost(x, m)
  }

  lemma TextMaxUnique(m: string, m': string, ids: set<string>)
    requires IsTextMax(m, ids) && IsTextMax(m', ids)
    ensures m == m'
  {
    TextLessOrder(m, m');
  }

  method SelectMax(ids: set<string>) returns (m: string)
    requires ids != {}
    ensures IsTextMax(m, ids)
  {
    m :| m in ids;
    TextLessOrder(m, m);
    var rest := ids - {m};
    while rest != {}
      invariant rest <= ids && m in ids
      invariant forall x | x in ids - rest :: TextAtMost(x, m)
      decreases |rest|
    {
      var y :| y in rest;
      TextLessOrder(y, m);
      if TextLess(m, y) {
        forall x | x in ids - rest ensures TextAtMost(x, y) {
          if TextLess(x, m) { TextLessTransitive(x, m, y); }
        }
        m := y;
      }
      rest := rest - {y};
    }
  }
}
