/** Seconds and microseconds that went through arithmetic, and mpong's round-trip statistics. */
module TimeValue {
  import opened Arithmetic
  import opened Numerals

  const MILLION := 1_000_000

  /** A `struct timeval` as a value. */
  datatype Tv = Tv(sec: int, usec: int) {
    function Micros(): (n: int) {
      MILLION * sec + usec
    }

    /** Less than a second of microseconds, of the sign of the seconds. */
    predicate Normal() {
      -MILLION < usec < MILLION && (sec > 0 ==> usec >= 0) && (sec < 0 ==> usec <= 0)
    }

    /** The comparison field by field. */
    predicate Less(other: Tv) {
      sec < other.sec || (sec == other.sec && usec < other.usec)
    }
  }

  /** On normal values the comparison by fields is the comparison of times. */
  lemma LessIsEarlier(a: Tv, b: Tv)
    requires a.Normal() && b.Normal()
    ensures a.Less(b) <==> a.Micros() < b.Micros()
  {
  }

  /** A time has one normal form. */
  lemma NormalUnique(a: Tv, b: Tv)
    requires a.Normal() && b.Normal() && a.Micros() == b.Micros()
    ensures a == b
  {
    LessIsEarlier(a, b);
    LessIsEarlier(b, a);
  }

  class Timeval {
    var sec: int
    var usec: int

    constructor (sec: int, usec: int)
      ensures Value() == Tv(sec, usec)
    {
      this.sec, this.usec := sec, usec;
    }

    ghost function Value(): (v: Tv)
      reads this
    {
      Tv(sec, usec)
    }

    method Normalize()
      modifies this
      ensures Value().Normal() && Value().Micros() == old(Value()).Micros()
    {
      if usec >= MILLION {
        while usec >= MILLION
          invariant usec >= 0 && Value().Micros() == old(Value()).Micros()
        {
          sec, usec := sec + 1, usec - MILLION;
        }
      } else if usec <= -MILLION {
        while usec <= -MILLION
          invariant usec <= 0 && Value().Micros() == old(Value()).Micros()
        {
          sec, usec := sec - 1, usec + MILLION;
        }
      }
      if sec >= 1 && usec < 0 {
        sec, usec := sec - 1, usec + MILLION;
      } else if sec < 0 && usec > 0 {
        sec, usec := sec + 1, usec - MILLION;
      }
    }
  }

  // ---------- Round-trip statistics ----------

  function Rtt(start: Tv, end: Tv): (n: int)
    ensures start.Micros() + n == end.Micros()
  {
    end.Micros() - start.Micros()
  }

  function Total(starts: seq<Tv>, ends: seq<Tv>, n: nat): (value: int)
    requires n <= |starts| == |ends|
  {
    if n == 0 then 0 else Total(starts, ends, n - 1) + Rtt(starts[n - 1], ends[n - 1])
  }

  ghost predicate IsLeast(x: int, starts: seq<Tv>, ends: seq<Tv>, n: nat)
    requires n <= |starts| == |ends|
  {
    (exists i :: 0 <= i < n && x == Rtt(starts[i], ends[i])) && forall i :: 0 <= i < n ==> x <= Rtt(starts[i], ends[i])
  }

  ghost predicate IsGreatest(x: int, starts: seq<Tv>, ends: seq<Tv>, n: nat)
    requires n <= |starts| == |ends|
  {
    (exists i :: 0 <= i < n && x == Rtt(starts[i], ends[i])) && forall i :: 0 <= i < n ==> x >= Rtt(starts[i], ends[i])
  }

  lemma LeastStep(x: int, starts: seq<Tv>, ends: seq<Tv>, n: nat)
    requires n < |starts| == |ends| && (n > 0 ==> IsLeast(x, starts, ends, n))
    ensures var rtt := Rtt(starts[n], ends[n]);
      IsLeast(if n == 0 || rtt < x then rtt else x, starts, ends, n + 1)
  {
  }

  lemma GreatestStep(x: int, starts: seq<Tv>, ends: seq<Tv>, n: nat)
    requires n < |starts| == |ends| && (n > 0 ==> IsGreatest(x, starts, ends, n))
    ensures var rtt := Rtt(starts[n], ends[n]);
      IsGreatest(if n == 0 || rtt > x then rtt else x, starts, ends, n + 1)
  {
  }

  lemma NewLeast(min: Tv, rtt: Tv, starts: seq<Tv>, ends: seq<Tv>, n: nat)
    requires n < |starts| == |ends| && rtt.Normal() && rtt.Micros() == Rtt(starts[n], ends[n])
    requires n > 0 ==> min.Normal() && IsLeast(min.Micros(), starts, ends, n)
    ensures IsLeast((if n == 0 || rtt.Less(min) then rtt else min).Micros(), starts, ends, n + 1)
  {
    LeastStep(min.Micros(), starts, ends, n);
    if n > 0 {
      LessIsEarlier(rtt, min);
    }
  }

  lemma NewGreatest(max: Tv, rtt: Tv, starts: seq<Tv>, ends: seq<Tv>, n: nat)
    requires n < |starts| == |ends| && rtt.Normal() && rtt.Micros() == Rtt(starts[n], ends[n])
    requires n > 0 ==> max.Normal() && IsGreatest(max.Micros(), starts, ends, n)
    ensures IsGreatest((if n == 0 || max.Less(rtt) then rtt else max).Micros(), starts, ends, n + 1)
  {
    GreatestStep(max.Micros(), starts, ends, n);
    if n > 0 {
      LessIsEarlier(max, rtt);
    }
  }

  /** A total of `n` times between two bounds is between n times the one and n times the other. */
  lemma {:induction false} TotalBetween(starts: seq<Tv>, ends: seq<Tv>, n: nat, lo: int, hi: int)
    requires n <= |starts| == |ends| && forall i :: 0 <= i < n ==> lo <= Rtt(starts[i], ends[i]) <= hi
    ensures n * lo <= Total(starts, ends, n) <= n * hi
  {
    if n > 0 {
      TotalBetween(starts, ends, n - 1, lo, hi);
      assert n * lo == (n - 1) * lo + lo && n * hi == (n - 1) * hi + hi;
    }
  }

  /** One sample's round-trip time in normal form. */
  method SampleRtt(start: Tv, end: Tv) returns (rtt: Tv)
    ensures rtt.Normal() && rtt.Micros() == Rtt(start, end)
    ensures MILLION * start.sec + start.usec + (MILLION * rtt.sec + rtt.usec) == MILLION * end.sec + end.usec
  {
    var delta := new Timeval(end.sec - start.sec, end.usec - start.usec);
    delta.Normalize();
    rtt := Tv(delta.sec, delta.usec);
  }

  /** The loop over the samples: exact sum, minimum and maximum, all in normal form. */
  method Statistics(starts: seq<Tv>, ends: seq<Tv>) returns (sum: Tv, min: Tv, max: Tv)
    requires |starts| == |ends|
    ensures sum.Normal() && sum.Micros() == Total(starts, ends, |starts|)
    ensures starts != [] ==> min.Normal() && IsLeast(min.Micros(), starts, ends, |starts|)
    ensures starts != [] ==> max.Normal() && IsGreatest(max.Micros(), starts, ends, |starts|)
    ensures |starts| * min.Micros() <= sum.Micros() <= |starts| * max.Micros()
  {
    var sumTv := new Timeval(0, 0);
    min, max := Tv(0, 0), Tv(0, 0);
    var i := 0;
    while i < |starts|
      invariant 0 <= i <= |starts| && fresh(sumTv)
      invariant sumTv.Value().Normal() && sumTv.Value().Micros() == Total(starts, ends, i)
      invariant i > 0 ==> min.Normal() && IsLeast(min.Micros(), starts, ends, i)
      invariant i > 0 ==> max.Normal() && IsGreatest(max.Micros(), starts, ends, i)
    {
      var rtt := SampleRtt(starts[i], ends[i]);
      NewLeast(min, rtt, starts, ends, i);
      NewGreatest(max, rtt, starts, ends, i);
      sumTv.sec, sumTv.usec := sumTv.sec + rtt.sec, sumTv.usec + rtt.usec;
      sumTv.Normalize();
      assert sumTv.Value().Micros() == Total(starts, ends, i + 1);
      if i == 0 || rtt.Less(min) {
        min := rtt;
      }
      if i == 0 || max.Less(rtt) {
        max := rtt;
      }
      i := i + 1;
    }
    sum := Tv(sumTv.sec, sumTv.usec);
    TotalBetween(starts, ends, |starts|, min.Micros(), max.Micros());
  }

  // ---------- Printing ----------

  /** `%d`. */
  function Signed(n: int): (text: string) {
    if n < 0 then "-" + Print(10, -n) else Print(10, n)
  }

  /** The last `k` digits, with leading zeros. */
  function Fixed(n: nat, k: nat): (text: string) {
    if k == 0 then "" else Fixed(n / 10, k - 1) + [DIGITS[n % 10]]
  }

  /** At least `width` digits. */
  function PaddedTo(n: nat, width: nat): (text: string) {
    if n < Power(10, width) then Fixed(n, width) else Print(10, n)
  }

  /** `%06d`: six characters, or as many as it takes, the sign included. */
  function Padded(n: int): (text: string) {
    if n < 0 then "-" + PaddedTo(-n, 5) else PaddedTo(n, 6)
  }

  /** The text printed for a round-trip time. */
  function RttText(t: Tv): (text: string) {
    if t.sec != 0 then Signed(t.sec) + Padded(t.usec) else Signed(t.usec)
  }

  lemma Regroup(a: string, b: string, c: string)
    ensures a + b + c == a + (b + c)
  {
  }

  lemma PrintUnfold(n: nat)
    requires n >= 10
    ensures Print(10, n) == Print(10, n / 10) + [DIGITS[n % 10]]
  {
  }

  lemma {:induction false} PrintSplits(high: nat, low: nat, k: nat)
    requires high > 0 && low < Power(10, k)
    ensures Print(10, high * Power(10, k) + low) == Print(10, high) + Fixed(low, k)
  {
    if k == 0 {
      assert high * Power(10, 0) + low == high;
      assert Print(10, high) + "" == Print(10, high);
    } else {
      var p := Power(10, k - 1);
      QuotientBelow(low, p, 10);
      PrintSplits(high, low / 10, k - 1);
      TenfoldPrint(high, p, low, Fixed(low / 10, k - 1));
    }
  }

  lemma TenfoldPrint(high: nat, p: nat, low: nat, digits: string)
    requires high > 0 && p > 0 && Print(10, high * p + low / 10) == Print(10, high) + digits
    ensures Print(10, high * (10 * p) + low) == Print(10, high) + (digits + [DIGITS[low % 10]])
  {
    TenfoldSplits(high, p, low);
    PrintUnfold(high * (10 * p) + low);
    Regroup(Print(10, high), digits, [DIGITS[low % 10]]);
  }

  lemma TenfoldSplits(high: nat, p: nat, low: nat)
    requires high > 0 && p > 0
    ensures var n := high * (10 * p) + low; n >= 10 && n / 10 == high * p + low / 10 && n % 10 == low % 10
  {
    assert high * (10 * p) == 10 * (high * p);
    ProductMonotone(1, p, high);
  }

  lemma Power6()
    ensures Power(10, 6) == MILLION
  {
    assert Power(10, 3) == 1000;
    PowerAdd(10, 3, 3);
  }

  lemma DigitsNotMinus(n: nat)
    ensures '-' !in Print(10, n)
  {
    PrintRead(10, n);
  }

  lemma SplitNumber(high: nat, low: nat, k: nat, m: nat)
    requires high > 0 && k > 0 && m == Power(10, k) && low < m
    ensures Print(10, m * high + low) == Print(10, high) + PaddedTo(low, k)
  {
    PrintSplits(high, low, k);
    assert m * high == high * m;
  }

  lemma SecondsText(t: Tv)
    requires t.Normal() && t.sec > 0
    ensures RttText(t) == Signed(t.Micros())
  {
    Power6();
    SplitNumber(t.sec, t.usec, 6, MILLION);
  }

  lemma NegativeText(sec: int, usec: int)
    requires sec > 0 && usec >= 0
    ensures RttText(Tv(-sec, usec)) == "-" + (Print(10, sec) + PaddedTo(usec, 6))
  {
    var first, second := Print(10, sec), PaddedTo(usec, 6);
    assert Signed(-sec) == "-" + first;
    Regroup("-", first, second);
  }

  lemma NegatedText(t: Tv, micros: int)
    requires t.sec < 0 <= t.usec < MILLION && micros == MILLION * t.sec - t.usec
    ensures RttText(t) == Signed(micros)
  {
    var s := -t.sec;
    assert t == Tv(-s, t.usec) && micros == -(MILLION * s + t.usec);
    Power6();
    NegativeText(s, t.usec);
    SplitNumber(s, t.usec, 6, MILLION);
  }

  lemma OneSign(text: string, digits: string, k: nat)
    requires 0 < k < |text| && text[k] == '-' && '-' !in digits
    ensures text != "-" + digits
  {
    if k <= |digits| {
      assert ("-" + digits)[k] == digits[k - 1];
    }
  }

  lemma SecondSign(t: Tv)
    requires t.Normal() && t.sec < 0 && t.usec < 0
    ensures RttText(t) != Signed(t.Micros())
  {
    var text, first := RttText(t), Signed(t.sec);
    assert text[|first|] == Padded(t.usec)[0] == '-';
    DigitsNotMinus(-t.Micros());
    OneSign(text, Print(10, -t.Micros()), |first|);
  }

  /** The printed text is the time in microseconds exactly when the time is not negative by a
      second or more with microseconds left over: then a second sign lands inside the number. */
  lemma RttTextExact(t: Tv)
    requires t.Normal()
    ensures RttText(t) == Signed(t.Micros()) <==> t.sec >= 0 || t.usec == 0
  {
    if t.sec > 0 {
      SecondsText(t);
    } else if t.sec < 0 && t.usec == 0 {
      NegatedText(t, t.Micros());
    } else if t.sec < 0 {
      SecondSign(t);
    }
  }
}
