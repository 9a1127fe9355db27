/** Reading a bitmap of any length from hexadecimal digits into 32-bit words. */
module HexBitmap {
  import opened MachineIntegers
  import opened Arithmetic
  import opened Numerals
  import opened Bits

  /** The number of words for `nbits` bits, in 32-bit arithmetic. */
  function WordCount(nbits: uint32): (n: nat)
    ensures nbits <= U32 - 32 ==> 32 * n - 32 < nbits <= 32 * n
  {
    (nbits + 31) % U32 / 32
  }

  /** The number that words stand for, least significant word first. */
  function NumberOf(words: seq<nat>): (n: nat) {
    if words == [] then 0 else words[0] + U32 * NumberOf(words[1..])
  }

  // ---------- Words and digits ----------

  /** One past the last digit that belongs to word `j` of a string of `len` digits. */
  function End(len: nat, j: nat): (n: nat) {
    if 8 * j >= len then 0 else len - 8 * j
  }

  /** What word `j` holds when the first `i` digits have been read. */
  ghost function Word(s: string, i: nat, j: nat): (n: nat)
    requires i <= |s|
  {
    var lo, hi := End(|s|, j + 1), End(|s|, j);
    if i <= lo then 0
    else if i >= hi then Value(16, s[lo..hi])
    else Value(16, s[lo..i]) * Power(16, hi - i)
  }

  lemma {:induction false} Pow2Of4(k: nat)
    ensures Pow2(4 * k) == Power(16, k)
  {
    if k > 0 {
      Pow2Of4(k - 1);
      assert Pow2(4) == 16;
      Pow2Add(4, 4 * (k - 1));
    }
  }

  lemma WordFits(v: nat, n: nat, t: nat)
    requires v < Power(16, n) && n + t <= 8
    ensures v * Power(16, t) < U32
  {
    ProductLess(v, Power(16, n), Power(16, t));
    PowerAdd(16, n, t);
    PowerMonotone(16, n + t, 8);
    PowerOf8();
  }

  lemma PowerOf8()
    ensures Power(16, 8) == U32
  {
    assert Power(16, 4) == 0x1_0000;
    PowerAdd(16, 4, 4);
  }

  /** Or-ing a digit below the digits read so far appends it. */
  lemma OrDigit(x: nat, d: nat, n: nat, t: nat)
    requires 16 * x + d < Power(16, n + 1) && d < 16 && n + 1 + t <= 8
    ensures d * Power(16, t) < U32
    ensures Or(x * Power(16, t + 1), d * Power(16, t)) == (16 * x + d) * Power(16, t) < U32
  {
    WordFits(16 * x + d, n + 1, t);
    Pow2Of4(t + 1);
    Pow2Of32();
    OrShifted(x, d, Power(16, t), 4 * (t + 1));
  }

  lemma Spread(x: nat, d: nat, p: nat)
    ensures x * (16 * p) + d * p == (16 * x + d) * p
    ensures 0 <= d * p <= (16 * x + d) * p
  {
    assert x * (16 * p) == 16 * x * p;
    ProductMonotone(0, 16 * p, x);
  }

  lemma OrShifted(x: nat, d: nat, p: nat, m: nat)
    requires Pow2(m) == 16 * p && d < 16 && p > 0 && (16 * x + d) * p < Pow2(32)
    ensures d * p <= (16 * x + d) * p
    ensures Or(x * (16 * p), d * p) == (16 * x + d) * p
  {
    Spread(x, d, p);
    ProductLess(d, 16, p);
    OrAdds(x, d * p, m, 32);
    Pow2Of32();
  }

  lemma WordBefore(s: string, i: nat, j: nat)
    requires i < |s| && End(|s|, j + 1) <= i < End(|s|, j)
    ensures Word(s, i, j) == Value(16, s[End(|s|, j + 1)..i]) * Power(16, End(|s|, j) - i)
  {
  }

  lemma WordAfter(s: string, i: nat, j: nat)
    requires i < |s| && End(|s|, j + 1) <= i < End(|s|, j)
    ensures Word(s, i + 1, j)
         == (16 * Value(16, s[End(|s|, j + 1)..i]) + DigitValue(s[i])) * Power(16, End(|s|, j) - 1 - i)
  {
    var lo := End(|s|, j + 1);
    ValueSnoc(16, s[lo..i], s[i]);
    assert s[lo..i] + [s[i]] == s[lo..i + 1];
    assert Power(16, 0) == 1;
  }

  lemma DigitsRead(s: string, lo: nat, i: nat)
    requires lo <= i < |s| && AllDigits(16, s[..i + 1])
    ensures DigitValue(s[i]) < 16
    ensures 16 * Value(16, s[lo..i]) + DigitValue(s[i]) < Power(16, i - lo + 1)
  {
    var read := s[lo..i + 1];
    assert s[..i + 1][i] == s[i];
    assert read == s[..i + 1][lo..];
    ValueBound(16, read);
    ValueSnoc(16, s[lo..i], s[i]);
    assert s[lo..i] + [s[i]] == read;
  }

  /** The step of the loop. */
  lemma WordStep(s: string, i: nat, j: nat, t: nat)
    requires i < |s| && AllDigits(16, s[..i + 1])
    requires End(|s|, j + 1) <= i < End(|s|, j) && t == End(|s|, j) - 1 - i
    ensures DigitValue(s[i]) < 16 && DigitValue(s[i]) * Power(16, t) < U32
    ensures Or(Word(s, i, j), DigitValue(s[i]) * Power(16, t)) == Word(s, i + 1, j) < U32
  {
    var lo := End(|s|, j + 1);
    DigitsRead(s, lo, i);
    WordBefore(s, i, j);
    WordAfter(s, i, j);
    OrDigit(Value(16, s[lo..i]), DigitValue(s[i]), i - lo, t);
  }

  /** Words that a digit does not belong to keep their value. */
  lemma OtherWord(s: string, i: nat, j: nat)
    requires i < |s| && !(End(|s|, j + 1) <= i < End(|s|, j))
    ensures Word(s, i + 1, j) == Word(s, i, j)
  {
    assert Power(16, 0) == 1;
  }

  /** The digits of a string in words of eight, least significant first. */
  ghost function Words(s: string, n: nat): (ws: seq<nat>) {
    seq(n, j requires j >= 0 => Word(s, |s|, j))
  }

  lemma WordsShift(s: string, n: nat)
    requires n > 0
    ensures Words(s, n)[1..] == Words(s[..End(|s|, 1)], n - 1)
  {
    var k := End(|s|, 1);
    var high := s[..k];
    forall j: nat | j < n - 1 ensures Words(s, n)[1..][j] == Words(high, n - 1)[j] {
      assert End(|s|, j + 1) == End(k, j) && End(|s|, j + 2) == End(k, j + 1);
      assert s[End(|s|, j + 2)..End(|s|, j + 1)] == high[End(k, j + 1)..End(k, j)];
    }
  }

  lemma LowestWord(s: string)
    ensures Word(s, |s|, 0) == Value(16, s[End(|s|, 1)..])
  {
    assert s[End(|s|, 1)..|s|] == s[End(|s|, 1)..];
  }

  lemma SplitWord(high: string, low: string)
    requires high == [] || |low| == 8
    ensures Value(16, high + low) == U32 * Value(16, high) + Value(16, low)
  {
    if high == [] {
      assert high + low == low;
    } else {
      ValueAppend(16, high, low);
      PowerOf8();
    }
  }

  lemma {:induction false} WordsNumber(s: string, n: nat)
    requires |s| <= 8 * n
    ensures NumberOf(Words(s, n)) == Value(16, s)
  {
    if n > 0 {
      WordsShift(s, n);
      var k := End(|s|, 1);
      WordsNumber(s[..k], n - 1);
      LowestWord(s);
      SplitWord(s[..k], s[k..]);
      assert s[..k] + s[k..] == s;
    }
  }

  ghost predicate Holds(words: seq<uint32>, s: string, i: nat, n: nat)
    requires i <= |s|
  {
    n <= |words| && forall j :: 0 <= j < n ==> words[j] == Word(s, i, j)
  }

  /** The place of digit `i`: its word, and the digits below it in that word. */
  lemma PlaceOf(len: nat, i: nat, shift: nat) returns (j: nat, t: nat)
    requires i < len && shift == (len - 1 - i) * 4
    ensures j == shift / 32 && 4 * t == shift % 32 && 8 * j < len
    ensures End(len, j + 1) <= i < End(len, j) && t == End(len, j) - 1 - i
  {
    var m := len - 1 - i;
    j, t := m / 8, m % 8;
    assert m * 4 == 32 * j + 4 * t;
  }

  lemma DigitPut(words: seq<uint32>, s: string, i: nat, n: nat, j: nat, t: nat) returns (w: uint32)
    requires i < |s| && AllDigits(16, s[..i + 1]) && Holds(words, s, i, n) && j < n
    requires End(|s|, j + 1) <= i < End(|s|, j) && t == End(|s|, j) - 1 - i
    ensures 0 <= DigitValue(s[i]) * Pow2(4 * t) < U32
    ensures w == Or(words[j], DigitValue(s[i]) * Pow2(4 * t))
    ensures Holds(words[j := w], s, i + 1, n)
  {
    WordStep(s, i, j, t);
    Pow2Of4(t);
    ProductMonotone(0, Pow2(4 * t), DigitValue(s[i]));
    w := Word(s, i + 1, j);
    forall k {:trigger words[k]} | 0 <= k < n ensures words[j := w][k] == Word(s, i + 1, k) {
      if k != j {
        OtherWord(s, i, k);
      }
    }
  }

  /** The body of the loop: puts digit `i` into its word. */
  method PutDigit(s: string, i: nat, nibble: nat, result: array<uint32>, ghost n: nat)
    requires i < |s| <= 8 * n && AllDigits(16, s[..i + 1]) && nibble == DigitValue(s[i])
    requires 4 * |s| < U32 && Holds(result[..], s, i, n)
    modifies result
    ensures Holds(result[..], s, i + 1, n)
    ensures result[n..] == old(result[n..])
  {
    var shift := (|s| - 1 - i) * 4;
    ghost var j, t := PlaceOf(|s|, i, shift);
    ghost var w := DigitPut(result[..], s, i, n, j, t);
    var dest, low := shift / 32, shift % 32;
    assert dest == j && low == 4 * t;
    assert nibble * Pow2(low) == DigitValue(s[i]) * Pow2(4 * t);
    var mask: uint32 := nibble * Pow2(low);
    result[dest] := Or(result[dest], mask);
    assert result[..] == old(result[..])[j := w];
  }

  /** What reading the digits `t` comes to. */
  ghost predicate ReadAs(r: int, words: seq<uint32>, t: string) {
    && (r == 0 <==> AllDigits(16, t) && |t| <= 8 * |words|)
    && (r == 0 ==> NumberOf(words) == Value(16, t))
  }

  /** The loop over the digits, into cleared words. */
  method ReadDigits(digits: string, nwords: nat, result: array<uint32>) returns (r: int)
    requires |digits| <= 8 * nwords && nwords <= result.Length && 4 * |digits| < U32
    requires forall j :: 0 <= j < nwords ==> result[j] == 0
    modifies result
    ensures r == 0 || r == -1
    ensures ReadAs(r, result[..nwords], digits)
    ensures result[nwords..] == old(result[nwords..])
  {
    var i := 0;
    while i < |digits|
      invariant 0 <= i <= |digits| && AllDigits(16, digits[..i])
      invariant Holds(result[..], digits, i, nwords)
      invariant result[nwords..] == old(result[nwords..])
    {
      var nibble := DigitValue(digits[i]);
      if nibble >= 16 {
        return -1;
      }
      assert digits[..i + 1] == digits[..i] + [digits[i]];
      PutDigit(digits, i, nibble, result, nwords);
      i := i + 1;
    }
    assert digits[..i] == digits;
    WordsNumber(digits, nwords);
    assert result[..nwords] == Words(digits, nwords);
    return 0;
  }

  /** Reads `s` into `result`; a prefix with digits after it is not one of the digits.  The
      words above the digits are cleared; a string that is too long leaves them all as they
      were. */
  method Parse(s: string, nbits: uint32, result: array<uint32>) returns (r: int)
    requires result.Length >= WordCount(nbits)
    modifies result
    ensures r == 0 || r == -1
    ensures "0x" < s || "0X" < s ==> ReadAs(r, result[..WordCount(nbits)], s[2..])
    ensures !("0x" < s || "0X" < s) ==> ReadAs(r, result[..WordCount(nbits)], s)
    ensures result[WordCount(nbits)..] == old(result[WordCount(nbits)..])
    ensures |s| - (if "0x" < s || "0X" < s then 2 else 0) > 8 * WordCount(nbits) ==> result[..] == old(result[..])
  {
    var nwords, digits := WordCount(nbits), s;
    if |s| > 2 && s[0] == '0' && (s[1] == 'x' || s[1] == 'X') {
      digits := s[2..];
    }
    if |digits| > 8 * nwords {
      return -1;
    }
    forall j | 0 <= j < nwords {
      result[j] := 0;
    }
    r := ReadDigits(digits, nwords, result);
  }
}
