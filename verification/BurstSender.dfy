/** The sending side of a test: msend's loops over tests, bursts and messages. */
module BurstSender {
  import opened MachineIntegers
  import opened Arithmetic
  import opened Numerals
  import opened Wire

  function AtLeastZero(n: int): (m: nat) {
    if n < 0 then 0 else n
  }

  /** The number of data messages of one test. */
  function Total(o: Options): (n: nat)
    ensures n == if o.numBursts <= 0 || o.burstCount <= 0 then 0 else o.numBursts * o.burstCount
  {
    AtLeastZero(o.numBursts) * AtLeastZero(o.burstCount)
  }

  function FirstNumbers(n: nat): (ms: seq<Message>)
    ensures |ms| == n && forall q :: 0 <= q < n ==> ms[q] == Data(q)
  {
    seq(n, q requires q >= 0 => Data(q))
  }

  function Test(o: Options): (ms: seq<Message>)
    ensures |ms| == (if o.statOn then 2 else 1) + Total(o)
    ensures ms[0] == Echo && (o.statOn ==> ms[|ms| - 1] == Stat(Total(o)))
    ensures forall q :: 0 <= q < Total(o) ==> ms[1 + q] == Data(q)
  {
    [Echo] + FirstNumbers(Total(o)) + if o.statOn then [Stat(Total(o))] else []
  }

  /** All messages of a run, in order. */
  function Plan(o: Options, rounds: nat): (ms: seq<Message>) {
    if rounds == 0 then [] else Plan(o, rounds - 1) + Test(o)
  }

  lemma {:induction false} PlanLength(o: Options, rounds: nat)
    ensures |Plan(o, rounds)| == rounds * |Test(o)|
  {
    if rounds > 0 {
      PlanLength(o, rounds - 1);
      assert (rounds - 1) * |Test(o)| + |Test(o)| == rounds * |Test(o)|;
    }
  }

  lemma SliceOfSum<T>(s: seq<T>, t: seq<T>, lo: nat, hi: nat)
    requires lo <= hi <= |s|
    ensures (s + t)[lo..hi] == s[lo..hi] && (s + t)[|s|..|s| + |t|] == t
  {
  }

  /** Each test of a run has its own messages, in its own place. */
  lemma {:induction false} PlanRound(o: Options, rounds: nat, t: nat)
    requires t < rounds
    ensures t * |Test(o)| + |Test(o)| <= |Plan(o, rounds)|
    ensures Plan(o, rounds)[t * |Test(o)|..t * |Test(o)| + |Test(o)|] == Test(o)
  {
    PlanLength(o, rounds - 1);
    if t < rounds - 1 {
      PlanRound(o, rounds - 1, t);
      SliceOfSum(Plan(o, rounds - 1), Test(o), t * |Test(o)|, t * |Test(o)| + |Test(o)|);
    } else {
      SliceOfSum(Plan(o, rounds - 1), Test(o), 0, 0);
    }
  }

  ghost predicate AllEncode(o: Options, sent: seq<string>, ms: seq<Message>) {
    |sent| == |ms| && forall i :: 0 <= i < |sent| ==> Encodes(o, sent[i], ms[i])
  }

  lemma {:induction false} PrintLength(b: Base, n: nat, k: nat)
    requires k > 0 && n < Power(b, k)
    ensures |Print(b, n)| <= k
    decreases k
  {
    if n >= b {
      assert Power(b, 1) == b * Power(b, 0);
      QuotientBelow(n, Power(b, k - 1), b);
      PrintLength(b, n / b, k - 1);
    }
  }

  lemma NumbersFit(o: Options, q: nat)
    requires q <= INT_MAX
    ensures |o.Text(q)| <= 18
  {
    assert Power(10, 5) == 100_000;
    assert Power(10, 10) == 10_000_000_000;
    assert Power(16, 4) == 0x1_0000;
    assert Power(16, 8) == 0x1_0000_0000;
    PrintLength(o.NumberBase(), q, if o.decimal then 10 else 8);
  }

  /** `sprintf` of a text into a buffer. */
  method PutText(buff: array<char>, text: string)
    requires |text| < buff.Length
    modifies buff
    ensures buff[..] == text + [NUL] + old(buff[|text| + 1..])
  {
    forall i | 0 <= i < |text| {
      buff[i] := text[i];
    }
    buff[|text|] := NUL;
  }

  /** The body of the innermost loop. */
  method SendNumber(o: Options, buff: array<char>, q: nat) returns (d: string)
    requires buff.Length == MAX_DATAGRAM && o.msgLen <= MAX_DATAGRAM && q <= INT_MAX
    modifies buff
    ensures Numbered(o, d, q)
  {
    NumbersFit(o, q);
    PutText(buff, o.Text(q));
    var sendLen := o.msgLen;
    if o.msgLen == 0 {
      sendLen := |o.Text(q)|;
    }
    d := buff[..sendLen];
  }

  ghost predicate NumberedFrom(o: Options, ds: seq<string>, first: nat) {
    forall i :: 0 <= i < |ds| ==> Numbered(o, ds[i], first + i)
  }

  /** The inner loop: one burst, numbered from `msgNum` on. */
  method SendBurst(o: Options, buff: array<char>, msgNum: nat) returns (burst: seq<string>, msgNum': nat)
    requires buff.Length == MAX_DATAGRAM && o.msgLen <= MAX_DATAGRAM
    requires msgNum + AtLeastZero(o.burstCount) <= INT_MAX
    modifies buff
    ensures |burst| == AtLeastZero(o.burstCount) && NumberedFrom(o, burst, msgNum)
    ensures msgNum' == msgNum + |burst|
  {
    burst, msgNum' := [], msgNum;
    var i := 0;
    while i < o.burstCount
      invariant 0 <= i <= AtLeastZero(o.burstCount)
      invariant i == |burst| && msgNum' == msgNum + i && NumberedFrom(o, burst, msgNum)
    {
      var d := SendNumber(o, buff, msgNum');
      burst := burst + [d];
      msgNum' := msgNum' + 1;
      i := i + 1;
    }
  }

  lemma NextBurst(bursts: nat, count: nat, k: nat)
    requires k < bursts
    ensures count * k + count == count * (k + 1) <= bursts * count
  {
    ProductMonotone(k + 1, bursts, count);
  }

  /** The bursts of one test.  A count of zero asks for an endless test, which ends when the
      program is interrupted. */
  function Bursts(o: Options, interrupted: nat): (n: nat) {
    if o.numBursts == 0 then interrupted else AtLeastZero(o.numBursts)
  }

  /** The outer loop: all bursts of a test, or those of an endless test until it is
      interrupted after so many. */
  method SendBursts(o: Options, buff: array<char>, interrupted: nat) returns (data: seq<string>, msgNum: nat)
    requires buff.Length == MAX_DATAGRAM && o.msgLen <= MAX_DATAGRAM
    requires Bursts(o, interrupted) * AtLeastZero(o.burstCount) <= INT_MAX
    modifies buff
    ensures |data| == msgNum == Bursts(o, interrupted) * AtLeastZero(o.burstCount) && NumberedFrom(o, data, 0)
  {
    data, msgNum := [], 0;
    var burstNum := 0;
    while o.numBursts == 0 || burstNum < o.numBursts
      invariant 0 <= burstNum <= Bursts(o, interrupted)
      invariant |data| == msgNum == AtLeastZero(o.burstCount) * burstNum
      invariant NumberedFrom(o, data, 0)
      decreases Bursts(o, interrupted) - burstNum
    {
      if o.numBursts == 0 && burstNum == interrupted {
        return;
      }
      NextBurst(Bursts(o, interrupted), AtLeastZero(o.burstCount), burstNum);
      var burst;
      burst, msgNum := SendBurst(o, buff, msgNum);
      data := data + burst;
      burstNum := burstNum + 1;
    }
  }

  /** An endless test sends an echo and then the numbers from zero on. */
  method SendEndless(o: Options, interrupted: nat) returns (sent: seq<string>)
    requires o.msgLen <= MAX_DATAGRAM && o.numBursts == 0 && interrupted * AtLeastZero(o.burstCount) <= INT_MAX
    ensures AllEncode(o, sent, [Echo] + FirstNumbers(interrupted * AtLeastZero(o.burstCount)))
  {
    var buff := new char[MAX_DATAGRAM](_ => NUL);
    sent := [ECHO + o.banner + [NUL]];
    var data, msgNum := SendBursts(o, buff, interrupted);
    EncodeAppend(o, sent, [Echo], data, FirstNumbers(msgNum));
    sent := sent + data;
  }

  method SendTest(o: Options, buff: array<char>) returns (sent: seq<string>)
    requires buff.Length == MAX_DATAGRAM && o.msgLen <= MAX_DATAGRAM
    requires o.numBursts != 0 && Total(o) <= INT_MAX
    modifies buff
    ensures AllEncode(o, sent, Test(o))
    ensures sent[0] == "echo " + o.banner + [NUL]
    ensures o.statOn ==> sent[|sent| - 1] == "stat " + Print(10, Total(o))
  {
    sent := [ECHO + o.banner + [NUL]];
    var data, msgNum := SendBursts(o, buff, 0);
    EncodeAppend(o, sent, [Echo], data, FirstNumbers(msgNum));
    sent := sent + data;
    if o.statOn {
      EncodeAppend(o, sent, [Echo] + FirstNumbers(msgNum), [STAT + Print(10, msgNum)], [Stat(msgNum)]);
      sent := sent + [STAT + Print(10, msgNum)];
    }
  }

  lemma EncodeAppend(o: Options, sent: seq<string>, ms: seq<Message>, more: seq<string>, ns: seq<Message>)
    requires AllEncode(o, sent, ms) && AllEncode(o, more, ns)
    ensures AllEncode(o, sent + more, ms + ns)
  {
    forall i | 0 <= i < |sent + more| ensures Encodes(o, (sent + more)[i], (ms + ns)[i]) {
      assert if i < |sent| then Encodes(o, sent[i], ms[i]) else Encodes(o, more[i - |sent|], ns[i - |sent|]);
    }
  }

  /** A run with finitely many bursts sends the planned messages, each under its number.  The
      number of tests is only looked at after a test, so there is always one. */
  method Send(o: Options) returns (sent: seq<string>)
    requires o.numBursts != 0 && o.msgLen <= MAX_DATAGRAM && Total(o) <= INT_MAX
    ensures AllEncode(o, sent, Plan(o, if o.loops < 1 then 1 else o.loops))
    ensures |sent| == (if o.loops < 1 then 1 else o.loops) * ((if o.statOn then 2 else 1) + Total(o))
  {
    var buff := new char[MAX_DATAGRAM](_ => NUL);
    sent := [];
    var loops := o.loops;
    ghost var done, rounds := 0, if o.loops < 1 then 1 else o.loops;
    PlanLength(o, rounds);
    var again := true;
    while again
      invariant 0 <= done <= rounds && loops == o.loops - done
      invariant again <==> done < rounds
      invariant AllEncode(o, sent, Plan(o, done))
      decreases rounds - done
    {
      var test := SendTest(o, buff);
      EncodeAppend(o, sent, Plan(o, done), test, Test(o));
      sent := sent + test;
      done := done + 1;
      loops := loops - 1;
      again := loops > 0;
    }
  }
}
