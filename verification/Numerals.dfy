/** Positional numerals as `%d` and `%x` print them and `atoi` and `strtol` read them. */
module Numerals {
  import opened Arithmetic

  type Base = b: nat | 2 <= b <= 16 witness 10

  const DIGITS := "0123456789abcdef"

  /** The value of a digit, upper-case hex letters included, and 16 for any other character. */
  function DigitValue(c: char): (v: nat)
    ensures v <= 16
  {
    if '0' <= c <= '9' then c as int - '0' as int
    else if 'a' <= c <= 'f' then 10 + (c as int - 'a' as int)
    else if 'A' <= c <= 'F' then 10 + (c as int - 'A' as int)
    else 16
  }

  /** `%d` for base 10 and `%x` for base 16, on numbers that are not negative. */
  function Print(b: Base, n: nat): (s: string)
    ensures s != []
  {
    if n < b then [DIGITS[n]] else Print(b, n / b) + [DIGITS[n % b]]
  }

  predicate AllDigits(b: Base, s: string) {
    forall i :: 0 <= i < |s| ==> DigitValue(s[i]) < b
  }

  function Value(b: Base, s: string): (v: nat) {
    if s == [] then 0 else b * Value(b, s[..|s| - 1]) + DigitValue(s[|s| - 1])
  }

  /** The longest run of digits at the start. */
  function Leading(b: Base, s: string): (text: string) {
    if s == [] || DigitValue(s[0]) >= b then [] else [s[0]] + Leading(b, s[1..])
  }

  /** `isspace`. */
  predicate IsBlank(c: char) {
    c == ' ' || '\t' <= c <= '\r'
  }

  function SkipBlanks(s: string): (t: string) {
    if s != [] && IsBlank(s[0]) then SkipBlanks(s[1..]) else s
  }

  /** Base 16 allows "0x" before the digits; without a digit after it, the number is its 0. */
  function SkipPrefix(b: Base, s: string): (t: string) {
    if b == 16 && |s| > 2 && s[0] == '0' && (s[1] == 'x' || s[1] == 'X') && DigitValue(s[2]) < 16 then s[2..] else s
  }

  function Magnitude(b: Base, s: string): (n: nat) {
    Value(b, Leading(b, SkipPrefix(b, s)))
  }

  /** `strtol` in base 10 and 16, and `atoi`, on numbers that fit their result: blanks, a sign
      and digits, and zero when there are none. */
  function Scan(b: Base, s: string): (n: int) {
    var t := SkipBlanks(s);
    if t == [] then 0
    else if t[0] == '-' then 0 - Magnitude(b, t[1..])
    else Magnitude(b, if t[0] == '+' then t[1..] else t)
  }

  function Power(b: Base, k: nat): (p: nat)
    ensures p > 0
  {
    if k == 0 then 1 else b * Power(b, k - 1)
  }

  lemma Associate(x: nat, y: nat, z: nat)
    ensures x * (y * z) == (x * y) * z
  {
  }

  lemma {:induction false} PowerAdd(b: Base, j: nat, k: nat)
    ensures Power(b, j + k) == Power(b, j) * Power(b, k)
  {
    if j > 0 {
      PowerAdd(b, j - 1, k);
      Associate(b, Power(b, j - 1), Power(b, k));
    }
  }

  lemma {:induction false} PowerMonotone(b: Base, j: nat, k: nat)
    requires j <= k
    ensures Power(b, j) <= Power(b, k)
  {
    if j < k {
      PowerMonotone(b, j, k - 1);
      ProductMonotone(1, b, Power(b, k - 1));
    }
  }

  lemma {:induction false} ValueBound(b: Base, s: string)
    requires AllDigits(b, s)
    ensures Value(b, s) < Power(b, |s|)
  {
    if s != [] {
      ValueBound(b, s[..|s| - 1]);
      DigitBelow(b, Value(b, s[..|s| - 1]), DigitValue(s[|s| - 1]), Power(b, |s| - 1));
    }
  }

  lemma DigitBelow(b: nat, v: nat, d: nat, p: nat)
    requires v < p && d < b
    ensures b * v + d < b * p
  {
    ProductMonotone(v + 1, p, b);
  }

  lemma {:induction false} ValueAppend(b: Base, s: string, t: string)
    ensures Value(b, s + t) == Value(b, s) * Power(b, |t|) + Value(b, t)
  {
    if t == [] {
      assert s + t == s;
    } else {
      var t' := t[..|t| - 1];
      assert (s + t)[..|s + t| - 1] == s + t';
      ValueAppend(b, s, t');
      Distribute(b, Value(b, s), Power(b, |t'|), Value(b, t'));
    }
  }

  lemma Distribute(b: nat, v: nat, p: nat, u: nat)
    ensures b * (v * p + u) == v * (b * p) + b * u
  {
  }

  lemma DigitOf(d: nat)
    requires d < 16
    ensures DigitValue(DIGITS[d]) == d
  {
    assert DIGITS[d] == if d < 10 then ('0' as int + d) as char else ('a' as int + (d - 10)) as char;
  }

  /** The digits are those of DIGITS, with hexadecimal letters of either case. */
  lemma DigitValueIs(c: char, d: nat)
    requires d < 16
    ensures DigitValue(c) == d <==> c == DIGITS[d] || c == "0123456789ABCDEF"[d]
  {
    DigitOf(d);
    assert "0123456789ABCDEF"[d] == if d < 10 then ('0' as int + d) as char else ('A' as int + (d - 10)) as char;
  }

  lemma ValueSnoc(b: Base, s: string, c: char)
    ensures Value(b, s + [c]) == b * Value(b, s) + DigitValue(c)
  {
    assert (s + [c])[..|s|] == s;
  }

  lemma {:induction false} PrintDigits(b: Base, n: nat)
    ensures AllDigits(b, Print(b, n))
  {
    if n < b {
      DigitOf(n);
    } else {
      QuotientSmaller(n, b);
      PrintDigits(b, n / b);
      DigitOf(n % b);
    }
  }

  lemma PrintStep(b: Base, n: nat)
    requires n >= b
    ensures Value(b, Print(b, n)) == b * Value(b, Print(b, n / b)) + n % b
  {
    ValueSnoc(b, Print(b, n / b), DIGITS[n % b]);
    DigitOf(n % b);
  }

  lemma {:induction false} PrintValue(b: Base, n: nat)
    ensures Value(b, Print(b, n)) == n
  {
    if n < b {
      DigitOf(n);
      ValueSnoc(b, [], DIGITS[n]);
      assert [] + [DIGITS[n]] == Print(b, n);
      assert b * Value(b, []) == 0;
    } else {
      QuotientSmaller(n, b);
      PrintStep(b, n);
      PrintValue(b, n / b);
    }
  }

  lemma PrintRead(b: Base, n: nat)
    ensures AllDigits(b, Print(b, n)) && Value(b, Print(b, n)) == n
  {
    PrintDigits(b, n);
    PrintValue(b, n);
  }

  lemma QuotientSmaller(n: nat, b: Base)
    requires n >= b
    ensures 0 < n / b < n && b * (n / b) + n % b == n
  {
    QuotientBounds(n, b);
  }

  lemma {:induction false} LeadingStops(b: Base, s: string, rest: string)
    requires AllDigits(b, s) && (rest == [] || DigitValue(rest[0]) >= b)
    ensures Leading(b, s + rest) == s
  {
    if s == [] {
      assert s + rest == rest;
    } else {
      assert (s + rest)[1..] == s[1..] + rest;
      LeadingStops(b, s[1..], rest);
    }
  }

  /** Text that starts with a digit has no blanks and no sign, and no prefix unless an x is
      its second character. */
  lemma ScanDigits(b: Base, s: string)
    requires s != [] && DigitValue(s[0]) < b
    requires |s| > 1 ==> s[1] != 'x' && s[1] != 'X'
    ensures Scan(b, s) == Value(b, Leading(b, s))
  {
    assert SkipBlanks(s) == s && SkipPrefix(b, s) == s;
  }

  /** A printed number is read back, whatever follows it, up to the first non-digit; only an x
      could make a printed zero a prefix. */
  lemma RoundTrip(b: Base, n: nat, rest: string)
    requires rest == [] || (DigitValue(rest[0]) >= b && rest[0] != 'x' && rest[0] != 'X')
    ensures Scan(b, Print(b, n) + rest) == n
  {
    PrintRead(b, n);
    LeadingStops(b, Print(b, n), rest);
    ScanDigits(b, Print(b, n) + rest);
  }

  lemma PrintScan(b: Base, n: nat)
    ensures Scan(b, Print(b, n)) == n
  {
    RoundTrip(b, n, []);
    assert Print(b, n) + [] == Print(b, n);
  }

  lemma AllDigitsScan(b: Base, s: string)
    requires AllDigits(b, s)
    ensures Scan(b, s) == Value(b, s)
  {
    if s != [] {
      LeadingStops(b, s, []);
      assert s + [] == s;
      ScanDigits(b, s);
    }
  }

  lemma {:induction false} TruncatedValue(b: Base, n: nat, k: nat)
    requires k < |Print(b, n)|
    ensures Value(b, Print(b, n)[..k]) <= n
    ensures Value(b, Print(b, n)[..k]) == n <==> k == 0 && n == 0
  {
    var s := Print(b, n);
    if n < b {
      assert s[..k] == [];
    } else {
      var q := Print(b, n / b);
      QuotientSmaller(n, b);
      PrintRead(b, n / b);
      assert s[..k] == q[..k];
      if k < |q| {
        TruncatedValue(b, n / b, k);
      } else {
        assert q[..k] == q;
      }
    }
  }

  /** A numeral that lost digits at its end reads as a smaller number, save an empty zero. */
  lemma TruncatedReadsLess(b: Base, n: nat, k: nat)
    requires k < |Print(b, n)|
    ensures Scan(b, Print(b, n)[..k]) <= n
    ensures Scan(b, Print(b, n)[..k]) == n <==> k == 0 && n == 0
  {
    PrintRead(b, n);
    AllDigitsScan(b, Print(b, n)[..k]);
    TruncatedValue(b, n, k);
  }

  lemma {:induction false} DecimalValue(n: nat)
    ensures AllDigits(16, Print(10, n)) && n <= Value(16, Print(10, n))
    ensures n == Value(16, Print(10, n)) <==> n < 10
  {
    PrintDigits(10, n);
    if n < 10 {
      assert Print(10, n) == Print(16, n);
      PrintValue(16, n);
    } else {
      DecimalValue(n / 10);
      ValueSnoc(16, Print(10, n / 10), DIGITS[n % 10]);
      DigitOf(n % 10);
    }
  }

  /** Decimal digits read as hexadecimal stand for a greater number, from ten on. */
  lemma DecimalAsHex(n: nat)
    ensures Scan(16, Print(10, n)) == n <==> n < 10
  {
    DecimalValue(n);
    AllDigitsScan(16, Print(10, n));
  }

  // ---------- Blanks, signs and prefixes ----------

  const BLANKS := " \t\n\U{0B}\U{0C}\r"

  lemma {:induction false} BlanksSkipped(blanks: string, s: string)
    requires forall i :: 0 <= i < |blanks| ==> blanks[i] in BLANKS
    requires s != [] && s[0] !in BLANKS
    ensures SkipBlanks(blanks + s) == SkipBlanks(s) == s
  {
    if blanks == [] {
      assert blanks + s == s;
    } else {
      assert (blanks + s)[1..] == blanks[1..] + s && (blanks + s)[0] == blanks[0];
      BlanksSkipped(blanks[1..], s);
    }
  }

  lemma NoPrefix(b: Base, n: nat, rest: string)
    requires rest == [] || (DigitValue(rest[0]) >= b && rest[0] != 'x' && rest[0] != 'X')
    ensures SkipPrefix(b, Print(b, n) + rest) == Print(b, n) + rest
  {
    var digits := Print(b, n);
    PrintRead(b, n);
    assert |digits + rest| > 1 ==> (digits + rest)[1] == if |digits| > 1 then digits[1] else rest[0];
  }

  lemma SomePrefix(prefix: string, s: string)
    requires (prefix == "0x" || prefix == "0X") && s != [] && DigitValue(s[0]) < 16
    ensures SkipPrefix(16, prefix + s) == s
  {
    assert (prefix + s)[2] == s[0] && (prefix + s)[2..] == s;
  }

  lemma PrefixSkipped(b: Base, prefix: string, n: nat, rest: string)
    requires prefix == "" || (b == 16 && (prefix == "0x" || prefix == "0X"))
    requires rest == [] || (DigitValue(rest[0]) >= b && rest[0] != 'x' && rest[0] != 'X')
    ensures Magnitude(b, prefix + (Print(b, n) + rest)) == n
  {
    var s := Print(b, n) + rest;
    PrintRead(b, n);
    LeadingStops(b, Print(b, n), rest);
    if prefix == "" {
      NoPrefix(b, n, rest);
      assert prefix + s == s;
    } else {
      SomePrefix(prefix, s);
    }
  }

  lemma SignRead(b: Base, sign: string, number: string)
    requires sign == "" || sign == "+" || sign == "-"
    requires number != [] && DigitValue(number[0]) < 16
    ensures (sign + number)[0] !in BLANKS
    ensures Scan(b, sign + number) == if sign == "-" then 0 - Magnitude(b, number) else Magnitude(b, number)
  {
    var s := sign + number;
    assert sign == "" ==> s == number;
    assert sign != "" ==> s[1..] == number;
    assert SkipBlanks(s) == s;
  }

  /** A printed number is read back after blanks, a sign and, in base 16, a prefix. */
  lemma ScanForms(b: Base, blanks: string, sign: string, prefix: string, n: nat, rest: string)
    requires forall i :: 0 <= i < |blanks| ==> blanks[i] in BLANKS
    requires sign == "" || sign == "+" || sign == "-"
    requires prefix == "" || (b == 16 && (prefix == "0x" || prefix == "0X"))
    requires rest == [] || (DigitValue(rest[0]) >= b && rest[0] != 'x' && rest[0] != 'X')
    ensures Scan(b, blanks + (sign + (prefix + (Print(b, n) + rest)))) == if sign == "-" then 0 - n else n
  {
    var number := prefix + (Print(b, n) + rest);
    PrefixSkipped(b, prefix, n, rest);
    PrintRead(b, n);
    assert number[0] == if prefix == "" then Print(b, n)[0] else '0';
    SignRead(b, sign, number);
    BlanksSkipped(blanks, sign + number);
  }
}
