/** mdump's hexadecimal dump of a datagram, and the payload option of msend that reads
    hexadecimal digits back into bytes. */
module HexDump {
  import opened Numerals

  type byte = n: int | 0 <= n < 0x100
  type Bytes = seq<byte>

  const LINE := 16
  const MAX_DIGITS := 65536
  const BUFFER := 65536

  // ---------- Dumping ----------

  /** `%02x`. */
  function TwoDigits(c: byte): (text: string) {
    [DIGITS[c / 16], DIGITS[c % 16]]
  }

  function Printable(c: byte): (d: char) {
    if c < 0x20 || c > 0x7e then '.' else c as char
  }

  function HexPart(bs: Bytes): (text: string) {
    if bs == [] then "" else HexPart(bs[..|bs| - 1]) + TwoDigits(bs[|bs| - 1]) + " "
  }

  function TextPart(bs: Bytes): (t: string)
    ensures |t| == |bs|
  {
    seq(|bs|, i requires 0 <= i < |bs| => Printable(bs[i]))
  }

  function Blanks(k: nat): (s: string)
    ensures |s| == k && forall i :: 0 <= i < k ==> s[i] == ' '
  {
    seq(k, _ => ' ')
  }

  /** One line for up to 16 bytes. */
  function Line(bs: Bytes): (text: string)
    requires |bs| <= LINE
  {
    HexPart(bs) + Blanks(3 * (LINE - |bs|)) + ("\t" + (TextPart(bs) + Blanks(LINE - |bs|)) + "\n")
  }

  function FullLines(bs: Bytes, n: nat): (text: string)
    requires LINE * n <= |bs|
  {
    if n == 0 then "" else FullLines(bs, n - 1) + Line(bs[LINE * (n - 1)..LINE * n])
  }

  /** Full lines, then one for the bytes left over, even if there are none. */
  function DumpText(bs: Bytes): (text: string) {
    var n := |bs| / LINE;
    FullLines(bs, n) + Line(bs[LINE * n..])
  }

  lemma NextByte(bs: Bytes, i: nat)
    requires i < |bs|
    ensures HexPart(bs[..i + 1]) == HexPart(bs[..i]) + TwoDigits(bs[i]) + " "
    ensures TextPart(bs[..i + 1]) == TextPart(bs[..i]) + [Printable(bs[i])]
  {
    assert bs[..i + 1][..i] == bs[..i];
  }

  /** The first loop of a line: bytes in hexadecimal, and their text on the side. */
  method PrintBytes(bs: Bytes, text: array<char>) returns (out: string)
    requires |bs| <= LINE && text.Length == 20
    modifies text
    ensures out == HexPart(bs) && text[..|bs|] == TextPart(bs)
  {
    out := "";
    var i := 0;
    while i < |bs|
      invariant 0 <= i <= |bs| && out == HexPart(bs[..i])
      invariant text[..i] == TextPart(bs[..i])
    {
      NextByte(bs, i);
      out := out + TwoDigits(bs[i]) + " ";
      text[i] := Printable(bs[i]);
      i := i + 1;
    }
    assert bs[..i] == bs;
  }

  /** The second loop: blanks in both columns up to the full width. */
  method PrintBlanks(n: nat, text: array<char>) returns (out: string)
    requires n <= LINE && text.Length == 20
    modifies text
    ensures out == Blanks(3 * (LINE - n)) && text[..LINE] == old(text[..n]) + Blanks(LINE - n)
  {
    out := "";
    var i := n;
    while i < LINE
      invariant n <= i <= LINE && out == Blanks(3 * (i - n))
      invariant text[..i] == old(text[..n]) + Blanks(i - n)
    {
      out := out + "   ";
      text[i] := ' ';
      i := i + 1;
    }
  }

  /** The text column is built in an array and printed as a C string. */
  method DumpLine(bs: Bytes, text: array<char>) returns (out: string)
    requires |bs| <= LINE && text.Length == 20
    modifies text
    ensures out == Line(bs)
  {
    out := PrintBytes(bs, text);
    var blanks := PrintBlanks(|bs|, text);
    text[LINE] := '\0';
    out := out + blanks + ("\t" + text[..LINE] + "\n");
  }

  lemma FullLinesStep(bs: Bytes, i: nat)
    requires i < |bs| / LINE
    ensures LINE * (i + 1) <= |bs|
    ensures FullLines(bs, i + 1) == FullLines(bs, i) + Line(bs[LINE * i..LINE * (i + 1)])
  {
  }

  method Dump(buffer: Bytes) returns (out: string)
    ensures out == DumpText(buffer)
  {
    var text := new char[20](_ => '\0');
    out := "";
    var i := 0;
    while i < |buffer| / LINE
      invariant 0 <= i <= |buffer| / LINE && out == FullLines(buffer, i)
    {
      FullLinesStep(buffer, i);
      var line := DumpLine(buffer[LINE * i..LINE * (i + 1)], text);
      out := out + line;
      i := i + 1;
    }
    var line := DumpLine(buffer[LINE * i..], text);
    out := out + line;
  }

  // ---------- The layout ----------

  lemma HexPartStep(bs: Bytes)
    requires bs != []
    ensures HexPart(bs) == HexPart(bs[..|bs| - 1]) + [DIGITS[bs[|bs| - 1] / 16], DIGITS[bs[|bs| - 1] % 16], ' ']
  {
  }

  lemma {:induction false} HexPartAt(bs: Bytes, i: nat)
    requires i < |bs|
    ensures |HexPart(bs)| == 3 * |bs|
    ensures HexPart(bs)[3 * i] == DIGITS[bs[i] / 16] && HexPart(bs)[3 * i + 1] == DIGITS[bs[i] % 16]
    ensures HexPart(bs)[3 * i + 2] == ' '
  {
    var n := |bs| - 1;
    HexPartStep(bs);
    HexPartLength(bs[..n]);
    if i < n {
      HexPartAt(bs[..n], i);
    }
  }

  lemma {:induction false} HexPartLength(bs: Bytes)
    ensures |HexPart(bs)| == 3 * |bs|
  {
    if bs != [] {
      HexPartLength(bs[..|bs| - 1]);
      HexPartStep(bs);
    }
  }

  lemma LineLength(bs: Bytes)
    requires |bs| <= LINE
    ensures |Line(bs)| == 66
  {
    HexPartLength(bs);
  }

  /** The columns of a line: the digits of byte `i` at 3 * i, the tab at 48, the byte's text at
      49 + i, with blanks where the line has no byte, and the newline at 65. */
  lemma LineLayout(bs: Bytes, i: nat)
    requires |bs| <= LINE && i < LINE
    ensures |Line(bs)| == 66 && Line(bs)[48] == '\t' && Line(bs)[65] == '\n'
    ensures i < |bs| ==>
      && Line(bs)[3 * i] == DIGITS[bs[i] / 16] && Line(bs)[3 * i + 1] == DIGITS[bs[i] % 16]
      && Line(bs)[49 + i] == if 0x20 <= bs[i] <= 0x7e then bs[i] as char else '.'
    ensures i >= |bs| ==> Line(bs)[3 * i] == Line(bs)[3 * i + 1] == Line(bs)[49 + i] == ' '
    ensures Line(bs)[3 * i + 2] == ' '
  {
    HexPartLength(bs);
    if i < |bs| {
      HexPartAt(bs, i);
    }
    var hex, blanks, text := HexPart(bs), Blanks(3 * (LINE - |bs|)), TextPart(bs) + Blanks(LINE - |bs|);
    assert Line(bs) == (hex + blanks) + (["\t"[0]] + text + ["\n"[0]]);
    assert |hex + blanks| == 48 && |text| == 16;
    assert Line(bs)[49 + i] == text[i];
    assert Line(bs)[3 * i] == (hex + blanks)[3 * i];
    assert Line(bs)[3 * i + 1] == (hex + blanks)[3 * i + 1];
    assert Line(bs)[3 * i + 2] == (hex + blanks)[3 * i + 2];
  }

  lemma {:induction false} FullLinesLength(bs: Bytes, n: nat)
    requires LINE * n <= |bs|
    ensures |FullLines(bs, n)| == 66 * n
  {
    if n > 0 {
      FullLinesLength(bs, n - 1);
      LineLength(bs[LINE * (n - 1)..LINE * n]);
    }
  }

  /** One line for every sixteen bytes, and one more. */
  lemma DumpLength(bs: Bytes)
    ensures |DumpText(bs)| == 66 * (|bs| / 16 + 1)
  {
    FullLinesLength(bs, |bs| / LINE);
    LineLength(bs[LINE * (|bs| / LINE)..]);
  }

  // ---------- Reading the hexadecimal column ----------

  /** What is left of a dump when, on each line, the text after the tab and the blanks before it
      are dropped.  `inText` says that the tab of the current line has been passed. */
  function Column(s: string, inText: bool): (text: string) {
    if s == "" then ""
    else if s[0] == '\n' then Column(s[1..], false)
    else if inText || s[0] == '\t' then Column(s[1..], true)
    else if s[0] == ' ' then Column(s[1..], false)
    else [s[0]] + Column(s[1..], false)
  }

  function InText(s: string, inText: bool): (after: bool) {
    if s == "" then inText
    else InText(s[1..], s[0] != '\n' && (inText || s[0] == '\t'))
  }

  function Hex(bs: Bytes): (text: string) {
    if bs == [] then "" else Hex(bs[..|bs| - 1]) + TwoDigits(bs[|bs| - 1])
  }

  lemma {:induction false} ColumnAppend(s: string, t: string, inText: bool)
    ensures Column(s + t, inText) == Column(s, inText) + Column(t, InText(s, inText))
    ensures InText(s + t, inText) == InText(t, InText(s, inText))
  {
    if s == "" {
      assert s + t == t;
    } else {
      assert (s + t)[1..] == s[1..] + t;
      ColumnAppend(s[1..], t, s[0] != '\n' && (inText || s[0] == '\t'));
    }
  }

  lemma DigitsPlain(d: nat)
    requires d < 16
    ensures DIGITS[d] != '\n' && DIGITS[d] != '\t' && DIGITS[d] != ' '
  {
    DigitOf(d);
  }

  lemma ByteColumn(c: byte)
    ensures Column(TwoDigits(c) + " ", false) == TwoDigits(c) && !InText(TwoDigits(c) + " ", false)
  {
    DigitsPlain(c / 16);
    DigitsPlain(c % 16);
    var s := TwoDigits(c) + " ";
    assert s[1..][1..] == " " && s[1..][0] == DIGITS[c % 16];
    assert Column(" ", false) == "";
    assert !InText(" ", false);
  }

  lemma {:induction false} HexColumn(bs: Bytes)
    ensures Column(HexPart(bs), false) == Hex(bs) && !InText(HexPart(bs), false)
  {
    if bs != [] {
      var c := bs[|bs| - 1];
      HexColumn(bs[..|bs| - 1]);
      ByteColumn(c);
      assert HexPart(bs) == HexPart(bs[..|bs| - 1]) + (TwoDigits(c) + " ");
      ColumnAppend(HexPart(bs[..|bs| - 1]), TwoDigits(c) + " ", false);
    }
  }

  lemma {:induction false} BlankColumn(k: nat)
    ensures Column(Blanks(k), false) == "" && !InText(Blanks(k), false)
  {
    if k > 0 {
      assert Blanks(k)[1..] == Blanks(k - 1);
      BlankColumn(k - 1);
    }
  }

  /** After the tab nothing is kept until the line ends. */
  lemma {:induction false} TextDropped(s: string)
    requires '\n' !in s
    ensures Column(s, true) == "" && InText(s, true)
  {
    if s != "" {
      TextDropped(s[1..]);
    }
  }

  lemma TailColumn(text: string)
    requires '\n' !in text
    ensures Column("\t" + text + "\n", false) == "" && !InText("\t" + text + "\n", false)
  {
    TextDropped(text);
    ColumnAppend(text, "\n", true);
    NewlineColumn();
    assert ("\t" + text + "\n")[1..] == text + "\n";
  }

  lemma ThreeColumns(line: string, a: string, b: string, c: string)
    requires line == a + b + c && !InText(a, false) && !InText(b, false) && !InText(c, false)
    requires Column(b, false) == "" && Column(c, false) == ""
    ensures Column(line, false) == Column(a, false) && !InText(line, false)
  {
    ColumnAppend(a, b, false);
    ColumnAppend(a + b, c, false);
  }

  lemma LineColumn(bs: Bytes)
    requires |bs| <= LINE
    ensures Column(Line(bs), false) == Hex(bs) && !InText(Line(bs), false)
  {
    var blanks, text := LineBlanks(bs);
    TailColumn(text);
    HexColumn(bs);
    ThreeColumns(Line(bs), HexPart(bs), blanks, "\t" + text + "\n");
  }

  lemma LineBlanks(bs: Bytes) returns (blanks: string, text: string)
    requires |bs| <= LINE
    ensures Line(bs) == HexPart(bs) + blanks + ("\t" + text + "\n") && '\n' !in text
    ensures Column(blanks, false) == "" && !InText(blanks, false)
  {
    blanks, text := Blanks(3 * (LINE - |bs|)), TextPart(bs) + Blanks(LINE - |bs|);
    BlankColumn(3 * (LINE - |bs|));
  }

  lemma NewlineColumn()
    ensures Column("\n", true) == "" && !InText("\n", true)
  {
  }

  lemma {:induction false} HexAppend(a: Bytes, b: Bytes)
    ensures Hex(a + b) == Hex(a) + Hex(b)
  {
    if b == [] {
      assert a + b == a;
    } else {
      assert (a + b)[..|a + b| - 1] == a + b[..|b| - 1];
      HexAppend(a, b[..|b| - 1]);
    }
  }

  lemma ColumnsJoin(s: string, t: string, a: Bytes, b: Bytes)
    requires Column(s, false) == Hex(a) && !InText(s, false)
    requires Column(t, false) == Hex(b) && !InText(t, false)
    ensures Column(s + t, false) == Hex(a + b) && !InText(s + t, false)
  {
    ColumnAppend(s, t, false);
    HexAppend(a, b);
  }

  lemma Slices(bs: Bytes, i: nat, j: nat)
    requires i <= j <= |bs|
    ensures bs[..i] + bs[i..j] == bs[..j] && bs[..j] + bs[j..] == bs
  {
  }

  lemma {:induction false} FullLinesColumn(bs: Bytes, n: nat)
    requires LINE * n <= |bs|
    ensures Column(FullLines(bs, n), false) == Hex(bs[..LINE * n]) && !InText(FullLines(bs, n), false)
  {
    if n > 0 {
      var i, j := LINE * (n - 1), LINE * n;
      FullLinesColumn(bs, n - 1);
      LineColumn(bs[i..j]);
      ColumnsJoin(FullLines(bs, n - 1), Line(bs[i..j]), bs[..i], bs[i..j]);
      Slices(bs, i, j);
    }
  }

  /** The hexadecimal column of a dump has each byte once and in order. */
  lemma DumpColumn(bs: Bytes)
    ensures Column(DumpText(bs), false) == Hex(bs)
  {
    var n := |bs| / LINE;
    var i := LINE * n;
    FullLinesColumn(bs, n);
    LineColumn(bs[i..]);
    ColumnsJoin(FullLines(bs, n), Line(bs[i..]), bs[..i], bs[i..]);
    Slices(bs, i, i);
  }

  // ---------- Reading the text column ----------

  /** What is left of a dump when, on each line, all up to the tab is dropped. */
  function TextColumn(s: string, inText: bool): (text: string) {
    if s == "" then ""
    else if s[0] == '\n' then TextColumn(s[1..], false)
    else if inText then [s[0]] + TextColumn(s[1..], true)
    else TextColumn(s[1..], s[0] == '\t')
  }

  lemma {:induction false} TextColumnAppend(s: string, t: string, inText: bool)
    ensures TextColumn(s + t, inText) == TextColumn(s, inText) + TextColumn(t, InText(s, inText))
    ensures InText(s + t, inText) == InText(t, InText(s, inText))
  {
    if s == "" {
      assert s + t == t;
    } else {
      assert (s + t)[1..] == s[1..] + t;
      TextColumnAppend(s[1..], t, s[0] != '\n' && (inText || s[0] == '\t'));
    }
  }

  lemma {:induction false} BeforeTab(s: string)
    requires '\n' !in s && '\t' !in s
    ensures TextColumn(s, false) == "" && !InText(s, false)
  {
    if s != "" {
      BeforeTab(s[1..]);
    }
  }

  lemma {:induction false} AfterTab(s: string)
    requires '\n' !in s
    ensures TextColumn(s, true) == s && InText(s, true)
  {
    if s != "" {
      AfterTab(s[1..]);
    }
  }

  lemma {:induction false} HexPartPlain(bs: Bytes)
    ensures '\n' !in HexPart(bs) && '\t' !in HexPart(bs)
  {
    if bs != [] {
      var c := bs[|bs| - 1];
      HexPartPlain(bs[..|bs| - 1]);
      HexPartStep(bs);
      DigitsPlain(c / 16);
      DigitsPlain(c % 16);
    }
  }

  lemma TabText(text: string)
    requires '\n' !in text
    ensures TextColumn("\t" + text + "\n", false) == text && !InText("\t" + text + "\n", false)
  {
    AfterTab(text);
    TextColumnAppend(text, "\n", true);
    assert TextColumn("\n", true) == "" && !InText("\n", true);
    assert text + "" == text;
    assert ("\t" + text + "\n")[1..] == text + "\n";
  }

  /** A line's text: one character a byte, then blanks. */
  lemma LineText(bs: Bytes)
    requires |bs| <= LINE
    ensures TextColumn(Line(bs), false) == TextPart(bs) + Blanks(LINE - |bs|) && !InText(Line(bs), false)
  {
    var left, text := HexPart(bs) + Blanks(3 * (LINE - |bs|)), TextPart(bs) + Blanks(LINE - |bs|);
    HexPartPlain(bs);
    BeforeTab(left);
    TabText(text);
    TextColumnAppend(left, "\t" + text + "\n", false);
    assert "" + text == text;
  }

  lemma FullLineText(bs: Bytes)
    requires |bs| == LINE
    ensures TextColumn(Line(bs), false) == TextPart(bs) && !InText(Line(bs), false)
  {
    LineText(bs);
    assert TextPart(bs) + Blanks(0) == TextPart(bs);
  }

  lemma TextJoin(s: string, t: string, a: string, b: string)
    requires TextColumn(s, false) == a && !InText(s, false) && TextColumn(t, false) == b && !InText(t, false)
    ensures TextColumn(s + t, false) == a + b && !InText(s + t, false)
  {
    TextColumnAppend(s, t, false);
  }

  lemma TextPartJoin(bs: Bytes, i: nat, j: nat)
    requires i <= j <= |bs|
    ensures TextPart(bs[..i]) + TextPart(bs[i..j]) == TextPart(bs[..j])
  {
  }

  lemma {:induction false} FullLinesText(bs: Bytes, n: nat)
    requires LINE * n <= |bs|
    ensures TextColumn(FullLines(bs, n), false) == TextPart(bs[..LINE * n]) && !InText(FullLines(bs, n), false)
  {
    if n > 0 {
      var i, j := LINE * (n - 1), LINE * n;
      FullLinesText(bs, n - 1);
      FullLineText(bs[i..j]);
      TextJoin(FullLines(bs, n - 1), Line(bs[i..j]), TextPart(bs[..i]), TextPart(bs[i..j]));
      TextPartJoin(bs, i, j);
    }
  }

  /** The text column of a dump has one character for each byte, in order: the byte itself if it
      is printable, and else a dot.  Blanks fill the last line. */
  lemma DumpTexts(bs: Bytes)
    ensures var text := TextColumn(DumpText(bs), false);
      && |text| == 16 * (|bs| / 16 + 1)
      && (forall i :: 0 <= i < |bs| ==> text[i] == if 0x20 <= bs[i] <= 0x7e then bs[i] as char else '.')
      && forall i :: |bs| <= i < |text| ==> text[i] == ' '
  {
    var n := |bs| / LINE;
    var i := LINE * n;
    FullLinesText(bs, n);
    LineText(bs[i..]);
    TextJoin(FullLines(bs, n), Line(bs[i..]), TextPart(bs[..i]), TextPart(bs[i..]) + Blanks(LINE - |bs[i..]|));
    TextPartJoin(bs, i, |bs|);
    assert bs[i..|bs|] == bs[i..] && bs[..|bs|] == bs;
    SumAssoc(TextPart(bs[..i]), TextPart(bs[i..]), Blanks(LINE - |bs[i..]|));
  }

  lemma SumAssoc(a: string, b: string, c: string)
    ensures a + (b + c) == (a + b) + c
  {
  }

  // ---------- The payload option ----------

  datatype Payload = Bytes(bytes: Bytes) | TooBig | OddLength | BadDigit

  /** What a string of digits stands for. */
  function Decoded(s: string): (p: Payload) {
    if |s| > MAX_DIGITS then TooBig
    else if |s| % 2 != 0 then OddLength
    else if !AllDigits(16, s) then BadDigit
    else Payload.Bytes(seq(|s| / 2, i requires 0 <= i < |s| / 2 => PairValue(s, i)))
  }

  function PairValue(s: string, i: nat): (c: byte)
    requires 2 * i + 1 < |s|
  {
    (16 * DigitValue(s[2 * i]) + DigitValue(s[2 * i + 1])) % 0x100
  }

  /** The loop over pairs of digits: the first digit is stored, then shifted up by the second. */
  method Decode(s: string) returns (r: Payload)
    ensures r == Decoded(s)
    ensures r.TooBig? <==> |s| > 65536
    ensures r.OddLength? <==> |s| <= 65536 && |s| % 2 == 1
    ensures r.BadDigit? <==> |s| <= 65536 && |s| % 2 == 0 && exists i :: 0 <= i < |s| && DigitValue(s[i]) == 16
    ensures r.Bytes? ==>
      && 2 * |r.bytes| == |s|
      && forall i :: 0 <= i < |r.bytes| ==> r.bytes[i] == 16 * DigitValue(s[2 * i]) + DigitValue(s[2 * i + 1])
  {
    if |s| > MAX_DIGITS {
      return TooBig;
    }
    if |s| % 2 > 0 {
      return OddLength;
    }
    var buff := new byte[BUFFER](_ => 0);
    var msgLen := |s| / 2;
    var i := 0;
    while i < msgLen
      invariant 0 <= i <= msgLen
      invariant forall k :: 0 <= k < 2 * i ==> DigitValue(s[k]) < 16
      invariant forall k :: 0 <= k < i ==> buff[k] == PairValue(s, k)
    {
      var c := s[i * 2];
      if DigitValue(c) == 16 {
        return BadDigit;
      }
      buff[i] := DigitValue(c);
      c := s[i * 2 + 1];
      if DigitValue(c) == 16 {
        return BadDigit;
      }
      buff[i] := (16 * buff[i] + DigitValue(c)) % 0x100;
      i := i + 1;
    }
    return Payload.Bytes(buff[..msgLen]);
  }

  lemma {:induction false} HexDigits(bs: Bytes, i: nat)
    requires i < |bs|
    ensures |Hex(bs)| == 2 * |bs|
    ensures Hex(bs)[2 * i] == DIGITS[bs[i] / 16] && Hex(bs)[2 * i + 1] == DIGITS[bs[i] % 16]
  {
    var n := |bs| - 1;
    assert Hex(bs) == Hex(bs[..n]) + TwoDigits(bs[n]);
    HexLength(bs[..n]);
    if i < n {
      HexDigits(bs[..n], i);
    }
  }

  lemma {:induction false} HexLength(bs: Bytes)
    ensures |Hex(bs)| == 2 * |bs|
  {
    if bs != [] {
      HexLength(bs[..|bs| - 1]);
    }
  }

  lemma DigitsMeanByte(c: byte)
    ensures DigitValue(DIGITS[c / 16]) == c / 16 && DigitValue(DIGITS[c % 16]) == c % 16
    ensures (16 * (c / 16) + c % 16) % 0x100 == c
  {
    DigitOf(c / 16);
    DigitOf(c % 16);
  }

  lemma ByteRead(bs: Bytes, i: nat)
    requires i < |bs|
    ensures |Hex(bs)| == 2 * |bs| && PairValue(Hex(bs), i) == bs[i]
    ensures DigitValue(Hex(bs)[2 * i]) < 16 && DigitValue(Hex(bs)[2 * i + 1]) < 16
  {
    HexDigits(bs, i);
    DigitsMeanByte(bs[i]);
  }

  lemma HexValid(bs: Bytes)
    ensures AllDigits(16, Hex(bs))
  {
    HexLength(bs);
    forall i | 0 <= i < |Hex(bs)| ensures DigitValue(Hex(bs)[i]) < 16 {
      ByteRead(bs, i / 2);
      assert i == 2 * (i / 2) || i == 2 * (i / 2) + 1;
    }
  }

  lemma PairsDecode(s: string, bs: Bytes)
    requires |s| == 2 * |bs| && AllDigits(16, s) && forall i :: 0 <= i < |bs| ==> PairValue(s, i) == bs[i]
    ensures Decoded(s) == if |bs| <= 32768 then Payload.Bytes(bs) else TooBig
  {
  }

  lemma HexDecodes(bs: Bytes)
    ensures Decoded(Hex(bs)) == if |bs| <= 32768 then Payload.Bytes(bs) else TooBig
  {
    HexLength(bs);
    HexValid(bs);
    forall i | 0 <= i < |bs| ensures PairValue(Hex(bs), i) == bs[i] {
      ByteRead(bs, i);
    }
    PairsDecode(Hex(bs), bs);
  }

  /** Decoding the hexadecimal column of a dump gives back the bytes, exactly when they are not
      more than the payload option takes. */
  lemma DumpDecodes(bs: Bytes)
    ensures Decoded(Column(DumpText(bs), false)) == if |bs| <= 32768 then Payload.Bytes(bs) else TooBig
  {
    DumpColumn(bs);
    HexDecodes(bs);
  }
}
