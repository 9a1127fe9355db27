/** A whole run of tests: msend, a channel that may lose datagrams, and mdump. */
module TestProtocol {
  import opened MachineIntegers
  import opened Numerals
  import opened Wire
  import opened BurstSender
  import opened Receiver

  // ---------- The channel ----------

  /** Which datagrams of one test arrive; they arrive in order and unchanged. */
  datatype Arrival = Arrival(echo: bool, data: seq<bool>, stat: bool)

  function Pick<T>(s: seq<T>, mask: seq<bool>): (kept: seq<T>)
    requires |s| == |mask|
  {
    if s == [] then [] else (if mask[0] then [s[0]] else []) + Pick(s[1..], mask[1..])
  }

  lemma Assoc<T>(a: seq<T>, b: seq<T>, c: seq<T>)
    ensures (a + b) + c == a + (b + c)
  {
  }

  lemma TailOfSum<T>(s: seq<T>, t: seq<T>)
    requires s != []
    ensures (s + t)[0] == s[0] && (s + t)[1..] == s[1..] + t
  {
  }

  lemma {:induction false} PickAppend<T>(s: seq<T>, m: seq<bool>, t: seq<T>, n: seq<bool>)
    requires |s| == |m| && |t| == |n|
    ensures Pick(s + t, m + n) == Pick(s, m) + Pick(t, n)
  {
    if s == [] {
      assert s + t == t && m + n == n;
      assert Pick(s, m) + Pick(t, n) == Pick(t, n);
    } else {
      TailOfSum(s, t);
      TailOfSum(m, n);
      PickAppend(s[1..], m[1..], t, n);
      Assoc(if m[0] then [s[0]] else [], Pick(s[1..], m[1..]), Pick(t, n));
    }
  }

  predicate Possible(o: Options, a: Arrival) {
    |a.data| == Total(o) && (a.stat ==> o.statOn)
  }

  predicate AllPossible(o: Options, kept: seq<Arrival>) {
    forall i :: 0 <= i < |kept| ==> Possible(o, kept[i])
  }

  function TestMask(o: Options, a: Arrival): (mask: seq<bool>) {
    [a.echo] + a.data + if o.statOn then [a.stat] else []
  }

  function Mask(o: Options, kept: seq<Arrival>): (mask: seq<bool>) {
    if kept == [] then [] else Mask(o, kept[..|kept| - 1]) + TestMask(o, kept[|kept| - 1])
  }

  lemma {:induction false} MaskLength(o: Options, kept: seq<Arrival>)
    requires AllPossible(o, kept)
    ensures |Mask(o, kept)| == |Plan(o, |kept|)|
  {
    if kept != [] {
      MaskLength(o, kept[..|kept| - 1]);
    }
  }

  // ---------- The receiver on messages instead of bytes ----------

  /** What a verifying receiver finds at the place of message q's number: the digits, cut off
      at a fixed length, or what was there before when not even the heading fits. */
  function Shown(o: Options, q: nat, stale: string): (text: string) {
    var digits, room := Print(o.NumberBase(), q), o.msgLen - |MESSAGE|;
    if o.msgLen == 0 then digits
    else if room < 0 then stale
    else if |digits| <= room then digits
    else digits[..room]
  }

  /** The effect of a message on a receiver that has not stopped. */
  function Deliver(o: Options, verify: bool, stop: bool, s: State, m: Message): (t: State) {
    if s.stopped then s
    else
      match m
      case Echo =>
        Restart(s, Echoed(ECHO + o.banner)).(stale := Left(verify, s.stale, ECHO + o.banner + [NUL]))
      case Data(q) => Count(verify, s, Shown(o, q, s.stale))
      case Stat(n) =>
        var report, left := Report(n, s.received), Left(verify, s.stale, STAT + Print(10, n));
        if stop then s.(log := s.log + [report], stopped := true, stale := left)
        else Restart(s, report).(stale := left)
  }

  function DeliverAll(o: Options, verify: bool, stop: bool, s: State, ms: seq<Message>): (t: State) {
    if ms == [] then s
    else Deliver(o, verify, stop, DeliverAll(o, verify, stop, s, ms[..|ms| - 1]), ms[|ms| - 1])
  }

  lemma {:induction false} DeliverAppend(o: Options, verify: bool, stop: bool, s: State,
                                         ms: seq<Message>, ns: seq<Message>)
    ensures DeliverAll(o, verify, stop, s, ms + ns)
         == DeliverAll(o, verify, stop, DeliverAll(o, verify, stop, s, ms), ns)
  {
    if ns == [] {
      assert ms + ns == ms;
    } else {
      assert (ms + ns)[..|ms + ns| - 1] == ms + ns[..|ns| - 1];
      DeliverAppend(o, verify, stop, s, ms, ns[..|ns| - 1]);
    }
  }

  /** The number of the message survives in the datagram: it is printed in hexadecimal and is
      not cut off. */
  predicate Readable(o: Options, q: nat) {
    !o.decimal && (o.msgLen == 0 || |o.Text(q)| <= o.msgLen)
  }

  predicate AllReadable(o: Options) {
    forall q :: 0 <= q < Total(o) ==> Readable(o, q)
  }

  lemma DigitsNotNul(b: Base, n: nat)
    ensures NUL !in Print(b, n)
  {
    PrintRead(b, n);
  }

  lemma CStringPrefix(s: string, k: nat, rest: string)
    requires NUL !in s && k <= |s| && (rest == [] || rest[0] == NUL)
    ensures CString(s[..k] + rest) == s[..k]
  {
    CStringCut(s[..k], rest);
    CStringWhole(s[..k]);
  }

  /** The receiver finds what a data message shows, for every length and base. */
  lemma DataText(o: Options, d: string, q: nat, stale: string)
    requires Numbered(o, d, q)
    ensures NumberText(stale, d) == Shown(o, q, stale)
  {
    var digits, room := Print(o.NumberBase(), q), o.msgLen - |MESSAGE|;
    DigitsNotNul(o.NumberBase(), q);
    if o.msgLen == 0 {
      CStringWhole(digits);
      assert d[|MESSAGE|..] == digits;
    } else if room >= 0 {
      var k := if |digits| <= room then |digits| else room;
      assert d[|MESSAGE|..] == digits[..k] + d[|MESSAGE| + k..];
      CStringPrefix(digits, k, d[|MESSAGE| + k..]);
    }
  }

  lemma NotCommand(o: Options, d: string, q: nat)
    requires Numbered(o, d, q)
    ensures !IsCommand(d, ECHO) && !IsCommand(d, STAT)
  {
    if |d| > 5 {
      assert d[0] == 'M';
    }
  }

  /** On a datagram that msend sent, mdump does what the message asks for. */
  lemma TakeIsDeliver(o: Options, verify: bool, stop: bool, s: State, d: string, m: Message)
    requires Encodes(o, d, m) && NUL !in o.banner && !s.stopped
    ensures Take(verify, stop, s, d) == Deliver(o, verify, stop, s, m)
  {
    match m
    case Echo =>
      CStringWhole(ECHO + o.banner);
      CStringCut(ECHO + o.banner, [NUL]);
      assert ECHO <= d;
    case Data(q) =>
      NotCommand(o, d, q);
      DataText(o, d, q, s.stale);
    case Stat(n) =>
      assert d[0] == 's' && STAT <= d && d[5..] == Print(10, n);
      DigitsNotNul(10, n);
      CStringWhole(d[5..]);
      PrintScan(10, n);
  }

  /** The same for all that arrives. */
  lemma {:induction false} TakeAllIsDeliverAll(o: Options, verify: bool, stop: bool, s: State,
                                               ds: seq<string>, ms: seq<Message>)
    requires AllEncode(o, ds, ms) && NUL !in o.banner && !s.stopped
    ensures TakeAll(verify, stop, s, ds) == DeliverAll(o, verify, stop, s, ms)
  {
    if ms != [] {
      var n := |ms| - 1;
      assert AllEncode(o, ds[..n], ms[..n]);
      TakeAllIsDeliverAll(o, verify, stop, s, ds[..n], ms[..n]);
      var before := TakeAll(verify, stop, s, ds[..n]);
      if !before.stopped {
        TakeIsDeliver(o, verify, stop, before, ds[n], ms[n]);
      }
    }
  }

  // ---------- One test ----------

  /** How many of the first `n` messages arrive. */
  function Arrived(data: seq<bool>, n: nat): (k: nat)
    requires n <= |data|
    ensures k <= n
  {
    if n == 0 then 0 else Arrived(data, n - 1) + if data[n - 1] then 1 else 0
  }

  /** The number expected after the first `n` messages by a receiver that expected `e` before
      them: the one after the last arrival.  With e = 0 it is the start of the run of lost
      messages that ends before message n, or n itself. */
  function Expected(e: int, data: seq<bool>, n: nat): (p: int)
    requires n <= |data|
    ensures p != e ==> 0 < p <= n && data[p - 1]
    ensures 0 <= p && (e <= 0 || p != e) ==> forall i :: p <= i < n ==> !data[i]
  {
    if n == 0 then e else if data[n - 1] then n else Expected(e, data, n - 1)
  }

  lemma ExpectedStep(e: int, data: seq<bool>, n: nat)
    requires n < |data|
    ensures Expected(e, data, n + 1) == if data[n] then n + 1 else Expected(e, data, n)
  {
  }

  /** The mismatch at message `q`, if it arrives and was not expected. */
  function GapLine(e: int, data: seq<bool>, q: nat): (lines: seq<Line>)
    requires q < |data|
  {
    if data[q] && Expected(e, data, q) != q then [Mismatch(Expected(e, data, q), Print(16, q))] else []
  }

  /** With e = 0, one mismatch for each maximal run of lost messages that an arrival follows. */
  function GapLines(e: int, data: seq<bool>, n: nat): (lines: seq<Line>)
    requires n <= |data|
  {
    if n == 0 then [] else GapLines(e, data, n - 1) + GapLine(e, data, n - 1)
  }

  function EchoLines(o: Options, a: Arrival): (log: seq<Line>) {
    if a.echo then [Echoed(ECHO + o.banner)] else []
  }

  function MismatchLines(verify: bool, e: int, a: Arrival): (log: seq<Line>) {
    if verify then GapLines(if a.echo then 0 else e, a.data, |a.data|) else []
  }

  function ReportLines(total: nat, carried: nat, a: Arrival): (log: seq<Line>) {
    if a.stat then [Report(total, (if a.echo then 0 else carried) + Arrived(a.data, |a.data|))] else []
  }

  /** All that mdump prints for a test that it enters having counted `carried` messages since it
      last cleared its counters, and expecting number `e`. */
  function TestLog(o: Options, verify: bool, carried: nat, e: int, a: Arrival): (log: seq<Line>) {
    EchoLines(o, a) + MismatchLines(verify, e, a) + ReportLines(Total(o), carried, a)
  }

  function Reports(log: seq<Line>): (reports: seq<Line>) {
    if log == [] then []
    else Reports(log[..|log| - 1]) + if log[|log| - 1].Report? then [log[|log| - 1]] else []
  }

  lemma ReportsOne(a: seq<Line>, l: Line)
    ensures Reports(a + [l]) == Reports(a) + if l.Report? then [l] else []
  {
    assert (a + [l])[..|a|] == a;
  }

  function DeliveredData(data: seq<bool>, n: nat): (ms: seq<Message>)
    requires n <= |data|
  {
    Pick(FirstNumbers(n), data[..n])
  }

  function DeliveredTest(o: Options, a: Arrival): (ms: seq<Message>)
    requires Possible(o, a)
  {
    Pick(Test(o), TestMask(o, a))
  }

  lemma DeliveredDataStep(data: seq<bool>, n: nat)
    requires n < |data|
    ensures DeliveredData(data, n + 1) == DeliveredData(data, n) + if data[n] then [Data(n)] else []
  {
    assert FirstNumbers(n + 1) == FirstNumbers(n) + [Data(n)] && data[..n + 1] == data[..n] + [data[n]];
    PickAppend(FirstNumbers(n), data[..n], [Data(n)], [data[n]]);
  }

  /** What `t` must be after the first `n` data messages of a test entered in state `s`: all
      that arrived are counted; and a receiver that verifies numbers it can read expects the
      one after the last arrival and has printed exactly the gaps. */
  ghost predicate Counted(verify: bool, readable: bool, s: State, t: State, data: seq<bool>, n: nat)
    requires n <= |data|
  {
    && !t.stopped && t.received == s.received + Arrived(data, n)
    && Reports(t.log) == Reports(s.log)
    && (!verify ==> t.log == s.log)
    && (verify && readable ==>
         t.expected == Expected(s.expected, data, n) && t.log == s.log + GapLines(s.expected, data, n))
  }

  /** Whatever text a message shows, it is counted and nothing is reported. */
  lemma CountIs(verify: bool, t: State, text: string)
    ensures var t' := Receiver.Count(verify, t, text);
      && t'.received == t.received + 1 && t'.stopped == t.stopped && Reports(t'.log) == Reports(t.log)
      && (!verify ==> t'.log == t.log)
      && (verify ==> t'.expected == Scan(16, text) + 1)
  {
    ReportsOne(t.log, Mismatch(t.expected, text));
    assert t.log + [] == t.log;
  }

  /** A number that can be read is taken for itself: whatever was expected, the next is expected
      after it, and a mismatch is printed exactly if it was not the one expected. */
  lemma NumberIs(o: Options, t: State, q: nat)
    requires Readable(o, q)
    ensures var t' := Receiver.Count(true, t, Shown(o, q, t.stale));
      && t'.expected == q + 1
      && t'.log == t.log + if t.expected != q then [Mismatch(t.expected, Print(16, q))] else []
  {
    PrintScan(16, q);
  }

  lemma GapLinesStep(log: seq<Line>, e: int, data: seq<bool>, n: nat)
    requires n < |data|
    ensures log + GapLines(e, data, n + 1) == (log + GapLines(e, data, n)) + GapLine(e, data, n)
  {
    Assoc(log, GapLines(e, data, n), GapLine(e, data, n));
  }

  lemma CountedLost(verify: bool, readable: bool, s: State, t: State, data: seq<bool>, n: nat)
    requires n < |data| && !data[n] && Counted(verify, readable, s, t, data, n)
    ensures Counted(verify, readable, s, t, data, n + 1)
  {
    ExpectedStep(s.expected, data, n);
    GapLinesStep(s.log, s.expected, data, n);
    assert t.log + [] == t.log;
  }

  lemma CountedArrived(o: Options, verify: bool, readable: bool, s: State, t: State, data: seq<bool>, n: nat)
    requires n < |data| && data[n] && Counted(verify, readable, s, t, data, n)
    requires readable ==> Readable(o, n)
    ensures Counted(verify, readable, s, Receiver.Count(verify, t, Shown(o, n, t.stale)), data, n + 1)
  {
    CountIs(verify, t, Shown(o, n, t.stale));
    if verify && readable {
      NumberIs(o, t, n);
      ExpectedStep(s.expected, data, n);
      GapLinesStep(s.log, s.expected, data, n);
    }
  }

  lemma {:induction false} DataCounted(o: Options, verify: bool, readable: bool, stop: bool, s: State,
                                       data: seq<bool>, n: nat)
    requires n <= |data| && !s.stopped
    requires readable ==> forall q :: 0 <= q < n ==> Readable(o, q)
    ensures Counted(verify, readable, s, DeliverAll(o, verify, stop, s, DeliveredData(data, n)), data, n)
  {
    if n == 0 {
      assert DeliveredData(data, 0) == [];
      assert s.log + GapLines(s.expected, data, 0) == s.log;
    } else {
      var before := DeliveredData(data, n - 1);
      var t := DeliverAll(o, verify, stop, s, before);
      DataCounted(o, verify, readable, stop, s, data, n - 1);
      DataStep(o, verify, stop, s, data, n - 1);
      if !data[n - 1] {
        CountedLost(verify, readable, s, t, data, n - 1);
      } else {
        CountedArrived(o, verify, readable, s, t, data, n - 1);
      }
    }
  }

  /** What the next data message does, if it arrives. */
  lemma DataStep(o: Options, verify: bool, stop: bool, s: State, data: seq<bool>, n: nat)
    requires n < |data|
    ensures var t := DeliverAll(o, verify, stop, s, DeliveredData(data, n));
      DeliverAll(o, verify, stop, s, DeliveredData(data, n + 1))
      == if data[n] then Deliver(o, verify, stop, t, Data(n)) else t
  {
    var before := DeliveredData(data, n);
    DeliveredDataStep(data, n);
    DeliverAppend(o, verify, stop, s, before, [Data(n)]);
    DeliverOne(o, verify, stop, DeliverAll(o, verify, stop, s, before), Data(n));
    assert before + [] == before;
  }

  lemma DeliverOne(o: Options, verify: bool, stop: bool, s: State, m: Message)
    ensures DeliverAll(o, verify, stop, s, [m]) == Deliver(o, verify, stop, s, m)
  {
    assert [m][..0] == [];
  }

  lemma TestSplits(o: Options, a: Arrival)
    requires Possible(o, a)
    ensures DeliveredTest(o, a) == (if a.echo then [Echo] else []) + DeliveredData(a.data, |a.data|)
                                   + (if a.stat then [Stat(Total(o))] else [])
  {
    var last, lastMask := if o.statOn then [Stat(Total(o))] else [], if o.statOn then [a.stat] else [];
    assert a.data[..|a.data|] == a.data;
    PickAppend([Echo] + FirstNumbers(Total(o)), [a.echo] + a.data, last, lastMask);
    PickAppend([Echo], [a.echo], FirstNumbers(Total(o)), a.data);
  }

  /** The number expected after a test that was entered expecting `e`. */
  function ExpectedAfter(e: int, a: Arrival): (p: int) {
    if a.stat then 0 else Expected(if a.echo then 0 else e, a.data, |a.data|)
  }

  /** One test, any of whose messages may have been lost: what is counted, reported and, if its
      numbers can be read, printed. */
  ghost predicate TestOutcome(o: Options, verify: bool, readable: bool, s: State, a: Arrival, t: State)
    requires Possible(o, a)
  {
    && CountOutcome(o, verify, readable, s, a, t)
    && (!verify || readable ==> t.log == s.log + TestLog(o, verify, s.received, s.expected, a))
  }

  lemma TestCounted(o: Options, verify: bool, readable: bool, s: State, a: Arrival)
    requires Possible(o, a) && !s.stopped
    requires readable ==> AllReadable(o)
    ensures TestOutcome(o, verify, readable, s, a, DeliverAll(o, verify, false, s, DeliveredTest(o, a)))
  {
    var data := DeliveredData(a.data, |a.data|);
    var echo, stat := if a.echo then [Echo] else [], if a.stat then [Stat(Total(o))] else [];
    TestSplits(o, a);
    DeliverAppend(o, verify, false, s, echo + data, stat);
    DeliverAppend(o, verify, false, s, echo, data);
    DeliverOne(o, verify, false, s, Echo);
    EchoCounts(o, verify, s);
    var s1 := DeliverAll(o, verify, false, s, echo);
    DataCounted(o, verify, readable, false, s1, a.data, |a.data|);
    var s2 := DeliverAll(o, verify, false, s1, data);
    DeliverOne(o, verify, false, s2, Stat(Total(o)));
    StatCounts(o, verify, s2, Total(o));
    var t := DeliverAll(o, verify, false, s2, stat);
    AfterData(o, verify, readable, s, a, s1, s2);
    CountsOf(o, verify, readable, s, a, s2, t);
    if !verify || readable {
      DataLog(o, verify, readable, s, a, s1, s2);
      LastLine(o, verify, readable, s, a, s2, t);
      LogOf(o, verify, s, a, s2, t);
    }
  }

  /** The state after an `echo`. */
  ghost predicate Echoes(o: Options, s: State, t: State) {
    && t.received == 0 && t.expected == 0 && !t.stopped
    && t.log == s.log + [Echoed(ECHO + o.banner)] && Reports(t.log) == Reports(s.log)
  }

  lemma EchoCounts(o: Options, verify: bool, s: State)
    requires !s.stopped
    ensures Echoes(o, s, Deliver(o, verify, false, s, Echo))
  {
    ReportsOne(s.log, Echoed(ECHO + o.banner));
  }

  /** The state after a `stat` that reported `n` messages sent. */
  ghost predicate Reported(s: State, n: nat, t: State) {
    && t.received == 0 && t.expected == 0 && !t.stopped
    && t.log == s.log + [Report(n, s.received)] && Reports(t.log) == Reports(s.log) + [Report(n, s.received)]
  }

  lemma StatCounts(o: Options, verify: bool, s: State, n: nat)
    requires !s.stopped
    ensures Reported(s, n, Deliver(o, verify, false, s, Stat(n)))
  {
    ReportsOne(s.log, Report(n, s.received));
  }

  /** The states of a test: before it, after its `echo` and after its data messages. */
  ghost predicate TestStates(o: Options, verify: bool, readable: bool, s: State, a: Arrival, s1: State, s2: State) {
    && Possible(o, a) && !s.stopped
    && (if a.echo then Echoes(o, s, s1) else s1 == s)
    && Counted(verify, readable, s1, s2, a.data, |a.data|)
  }

  /** What is counted after the data messages of a test. */
  ghost predicate DataOutcome(verify: bool, readable: bool, s: State, a: Arrival, s2: State) {
    && !s2.stopped && s2.received == (if a.echo then 0 else s.received) + Arrived(a.data, |a.data|)
    && Reports(s2.log) == Reports(s.log)
    && (verify && readable ==> s2.expected == Expected(if a.echo then 0 else s.expected, a.data, |a.data|))
  }

  lemma AfterData(o: Options, verify: bool, readable: bool, s: State, a: Arrival, s1: State, s2: State)
    requires TestStates(o, verify, readable, s, a, s1, s2)
    ensures DataOutcome(verify, readable, s, a, s2)
  {
  }

  /** The counts after a test, from those before it. */
  ghost predicate CountOutcome(o: Options, verify: bool, readable: bool, s: State, a: Arrival, t: State)
    requires Possible(o, a)
  {
    var count := (if a.echo then 0 else s.received) + Arrived(a.data, |a.data|);
    && !t.stopped
    && t.received == (if a.stat then 0 else count)
    && Reports(t.log) == Reports(s.log) + ReportLines(Total(o), s.received, a)
    && (verify && readable ==> t.expected == ExpectedAfter(s.expected, a))
  }

  lemma CountsOf(o: Options, verify: bool, readable: bool, s: State, a: Arrival, s2: State, t: State)
    requires Possible(o, a) && DataOutcome(verify, readable, s, a, s2)
    requires if a.stat then Reported(s2, Total(o), t) else t == s2
    ensures CountOutcome(o, verify, readable, s, a, t)
  {
    assert Reports(s.log) + [] == Reports(s.log);
  }

  lemma DataLog(o: Options, verify: bool, readable: bool, s: State, a: Arrival, s1: State, s2: State)
    requires TestStates(o, verify, readable, s, a, s1, s2) && (!verify || readable)
    ensures s2.log == (s.log + EchoLines(o, a)) + MismatchLines(verify, s.expected, a)
  {
    assert s.log + [] == s.log && s2.log + [] == s2.log;
    assert s1.log == s.log + EchoLines(o, a);
  }

  lemma LogOf(o: Options, verify: bool, s: State, a: Arrival, s2: State, t: State)
    requires s2.log == (s.log + EchoLines(o, a)) + MismatchLines(verify, s.expected, a)
    requires t.log == s2.log + ReportLines(Total(o), s.received, a)
    ensures t.log == s.log + TestLog(o, verify, s.received, s.expected, a)
  {
    LogSplits(s.log, EchoLines(o, a), MismatchLines(verify, s.expected, a), ReportLines(Total(o), s.received, a));
  }

  lemma LastLine(o: Options, verify: bool, readable: bool, s: State, a: Arrival, s2: State, t: State)
    requires DataOutcome(verify, readable, s, a, s2)
    requires if a.stat then Reported(s2, Total(o), t) else t == s2
    ensures t.log == s2.log + ReportLines(Total(o), s.received, a)
  {
    assert s2.log + [] == s2.log;
  }

  lemma LogSplits<T>(s: seq<T>, a: seq<T>, b: seq<T>, c: seq<T>)
    ensures s + (a + b + c) == ((s + a) + b) + c
  {
  }

  // ---------- A whole run ----------

  /** What arrives of a run of tests. */
  function Delivered(o: Options, kept: seq<Arrival>): (ms: seq<Message>)
    requires AllPossible(o, kept)
  {
    MaskLength(o, kept);
    Pick(Plan(o, |kept|), Mask(o, kept))
  }

  /** The state after a run; at its start `stale` was at the place of a number. */
  function RunState(o: Options, verify: bool, stop: bool, stale: string, kept: seq<Arrival>): (s: State)
    requires AllPossible(o, kept)
  {
    DeliverAll(o, verify, stop, Start(stale), Delivered(o, kept))
  }

  lemma RunStep(o: Options, verify: bool, stop: bool, stale: string, kept: seq<Arrival>)
    requires AllPossible(o, kept) && kept != []
    ensures var n := |kept| - 1;
      RunState(o, verify, stop, stale, kept) ==
      DeliverAll(o, verify, stop, RunState(o, verify, stop, stale, kept[..n]), DeliveredTest(o, kept[n]))
  {
    var n := |kept| - 1;
    MaskLength(o, kept[..n]);
    PickAppend(Plan(o, n), Mask(o, kept[..n]), Test(o), TestMask(o, kept[n]));
    DeliverAppend(o, verify, stop, Start(stale), Delivered(o, kept[..n]), DeliveredTest(o, kept[n]));
  }

  /** The messages counted since the counters were last cleared. */
  function Carried(o: Options, kept: seq<Arrival>): (n: nat)
    requires AllPossible(o, kept)
  {
    if kept == [] || kept[|kept| - 1].stat then 0
    else
      var a := kept[|kept| - 1];
      (if a.echo then 0 else Carried(o, kept[..|kept| - 1])) + Arrived(a.data, |a.data|)
  }

  /** The reports of a run, in which a test adds what was carried into it. */
  function RunReports(o: Options, kept: seq<Arrival>): (reports: seq<Line>)
    requires AllPossible(o, kept)
  {
    if kept == [] then []
    else
      var a, before := kept[|kept| - 1], kept[..|kept| - 1];
      RunReports(o, before) + ReportLines(Total(o), Carried(o, before), a)
  }

  /** The reports a user wants: for each test whose `stat` arrives, the messages sent and the
      data messages of that test that arrived. */
  function TrueReports(o: Options, kept: seq<Arrival>): (reports: seq<Line>)
    requires AllPossible(o, kept)
  {
    if kept == [] then []
    else TrueReports(o, kept[..|kept| - 1]) + ReportLines(Total(o), 0, kept[|kept| - 1])
  }

  /** The number expected after the tests of `kept`. */
  function RunExpected(kept: seq<Arrival>): (e: int) {
    if kept == [] then 0 else ExpectedAfter(RunExpected(kept[..|kept| - 1]), kept[|kept| - 1])
  }

  /** All that a run prints, for any pattern of losses: each test goes on from the count and the
      number that the tests before it left. */
  function RunLog(o: Options, verify: bool, kept: seq<Arrival>): (log: seq<Line>)
    requires AllPossible(o, kept)
  {
    if kept == [] then []
    else
      var a, before := kept[|kept| - 1], kept[..|kept| - 1];
      RunLog(o, verify, before) + TestLog(o, verify, Carried(o, before), RunExpected(before), a)
  }

  /** What is known of the receiver after the tests of `kept`. */
  ghost predicate CountedUpTo(o: Options, verify: bool, readable: bool, kept: seq<Arrival>, t: State)
    requires AllPossible(o, kept)
  {
    && !t.stopped && t.received == Carried(o, kept) && Reports(t.log) == RunReports(o, kept)
    && (!verify || readable ==> t.log == RunLog(o, verify, kept))
    && (verify && readable ==> t.expected == RunExpected(kept))
  }

  /** A receiver that does not verify prints nothing that depends on the number expected. */
  lemma UnverifiedLog(o: Options, carried: nat, e: int, e': int, a: Arrival)
    ensures TestLog(o, false, carried, e, a) == TestLog(o, false, carried, e', a)
  {
  }

  lemma CountedNext(o: Options, verify: bool, readable: bool, kept: seq<Arrival>, s: State, t: State)
    requires kept != [] && AllPossible(o, kept)
    requires CountedUpTo(o, verify, readable, kept[..|kept| - 1], s)
    requires TestOutcome(o, verify, readable, s, kept[|kept| - 1], t)
    ensures CountedUpTo(o, verify, readable, kept, t)
  {
    if !verify {
      UnverifiedLog(o, s.received, s.expected, RunExpected(kept[..|kept| - 1]), kept[|kept| - 1]);
    }
  }

  lemma {:induction false} RunCounted(o: Options, verify: bool, readable: bool, stale: string, kept: seq<Arrival>)
    requires AllPossible(o, kept)
    requires readable ==> AllReadable(o)
    ensures CountedUpTo(o, verify, readable, kept, RunState(o, verify, false, stale, kept))
  {
    if kept != [] {
      var n := |kept| - 1;
      var s := RunState(o, verify, false, stale, kept[..n]);
      RunCounted(o, verify, readable, stale, kept[..n]);
      RunStep(o, verify, false, stale, kept);
      TestCounted(o, verify, readable, s, kept[n]);
      CountedNext(o, verify, readable, kept, s, RunState(o, verify, false, stale, kept));
    }
  }

  /** No test whose `stat` arrives counts messages of an earlier one: its own `echo` arrived,
      or nothing was counted since the counters were last cleared. */
  ghost predicate NothingCarried(o: Options, kept: seq<Arrival>)
    requires AllPossible(o, kept)
  {
    forall t :: 0 <= t < |kept| && kept[t].stat ==> kept[t].echo || Carried(o, kept[..t]) == 0
  }

  lemma {:induction false} TrueReportsLength(o: Options, kept: seq<Arrival>)
    requires AllPossible(o, kept)
    ensures |TrueReports(o, kept)| == |RunReports(o, kept)|
  {
    if kept != [] {
      TrueReportsLength(o, kept[..|kept| - 1]);
    }
  }

  /** What the test after those of `before` takes over. */
  ghost predicate TakesOver(o: Options, before: seq<Arrival>, a: Arrival)
    requires AllPossible(o, before)
  {
    a.stat && !a.echo && Carried(o, before) != 0
  }

  lemma NothingCarriedStep(o: Options, kept: seq<Arrival>, n: nat)
    requires AllPossible(o, kept) && |kept| == n + 1
    ensures NothingCarried(o, kept) <==> NothingCarried(o, kept[..n]) && !TakesOver(o, kept[..n], kept[n])
  {
    var before := kept[..n];
    assert forall t :: 0 <= t < n ==> kept[..t] == before[..t] && kept[t] == before[t];
    if NothingCarried(o, kept) {
      assert kept[n].stat ==> kept[n].echo || Carried(o, kept[..n]) == 0;
    }
  }

  lemma SameAppended<T>(s: seq<T>, s': seq<T>, t: seq<T>, t': seq<T>)
    requires |s| == |s'|
    ensures s + t == s' + t' <==> s == s' && t == t'
  {
    assert (s + t)[..|s|] == s && (s' + t')[..|s'|] == s' && (s + t)[|s|..] == t && (s' + t')[|s'|..] == t';
  }

  /** The printed (sent, received) pairs are all exact if and only if nothing is carried. */
  lemma {:induction false} ReportsExact(o: Options, kept: seq<Arrival>)
    requires AllPossible(o, kept)
    ensures RunReports(o, kept) == TrueReports(o, kept) <==> NothingCarried(o, kept)
  {
    if kept != [] {
      var n := |kept| - 1;
      var before, a := kept[..n], kept[n];
      ReportsExact(o, before);
      TrueReportsLength(o, before);
      NothingCarriedStep(o, kept, n);
      LastReportExact(o, before, a);
      SameAppended(RunReports(o, before), TrueReports(o, before),
        ReportLines(Total(o), Carried(o, before), a), ReportLines(Total(o), 0, a));
    }
  }

  lemma LastReportExact(o: Options, before: seq<Arrival>, a: Arrival)
    requires AllPossible(o, before)
    ensures ReportLines(Total(o), Carried(o, before), a) == ReportLines(Total(o), 0, a) <==> !TakesOver(o, before, a)
  {
    if a.stat {
      assert ReportLines(Total(o), Carried(o, before), a)[0].Report? && ReportLines(Total(o), 0, a)[0].Report?;
    }
  }

  /** At every boundary the `stat` of the test before or the `echo` of the next arrives. */
  predicate Synchronised(kept: seq<Arrival>) {
    forall t :: 0 < t < |kept| ==> kept[t].echo || kept[t - 1].stat
  }

  lemma SynchronisedCarriesNothing(o: Options, kept: seq<Arrival>)
    requires AllPossible(o, kept) && Synchronised(kept)
    ensures NothingCarried(o, kept)
  {
    forall t | 0 <= t < |kept| && kept[t].stat
      ensures kept[t].echo || Carried(o, kept[..t]) == 0
    {
      if t > 0 && !kept[t].echo {
        assert kept[..t][t - 1].stat;
      }
    }
  }

  /** The logs of the tests, each taken alone. */
  function FullLog(o: Options, verify: bool, kept: seq<Arrival>): (log: seq<Line>)
    requires AllPossible(o, kept)
  {
    if kept == [] then []
    else FullLog(o, verify, kept[..|kept| - 1]) + TestLog(o, verify, 0, 0, kept[|kept| - 1])
  }

  lemma {:induction false} SynchronisedPrefix(kept: seq<Arrival>, n: nat)
    requires Synchronised(kept) && n <= |kept|
    ensures Synchronised(kept[..n])
  {
    forall t | 0 < t < n ensures kept[..n][t].echo || kept[..n][t - 1].stat {
      assert kept[t].echo || kept[t - 1].stat;
    }
  }

  /** What a synchronised run prints, each test prints by itself. */
  lemma {:induction false} LogExact(o: Options, verify: bool, kept: seq<Arrival>)
    requires AllPossible(o, kept) && Synchronised(kept)
    ensures RunLog(o, verify, kept) == FullLog(o, verify, kept)
  {
    if kept != [] {
      var n := |kept| - 1;
      SynchronisedPrefix(kept, n);
      LogExact(o, verify, kept[..n]);
      assert kept[n].echo || (Carried(o, kept[..n]) == 0 && RunExpected(kept[..n]) == 0);
    }
  }

  /** With both boundary messages lost, the second test reports the messages of the first as
      its own and more than were sent. */
  lemma BothLost(o: Options)
    requires Total(o) == 1 && o.statOn
    ensures var kept := [Arrival(true, [true], false), Arrival(false, [true], true)];
      AllPossible(o, kept) && RunReports(o, kept) == [Report(1, 2)]
  {
    var kept := [Arrival(true, [true], false), Arrival(false, [true], true)];
    assert kept[..1] == [kept[0]] && kept[..1][..0] == [];
    assert Carried(o, kept[..1]) == 1;
    assert RunReports(o, kept[..1]) == [];
  }

  // ---------- Gaps ----------

  /** The numbers that a list of mismatches says are missing. */
  function Missing(lines: seq<Line>): (n: int) {
    if lines == [] then 0
    else
      var l := lines[|lines| - 1];
      Missing(lines[..|lines| - 1]) + if l.Mismatch? then Scan(16, l.got) - l.expected else 0
  }

  lemma MissingGap(lines: seq<Line>, expected: int, q: nat)
    ensures Missing(lines + [Mismatch(expected, Print(16, q))]) == Missing(lines) + q - expected
  {
    PrintScan(16, q);
    var l := Mismatch(expected, Print(16, q));
    assert (lines + [l])[..|lines|] == lines;
  }

  lemma MissingAt(lines: seq<Line>, e: int, data: seq<bool>, q: nat)
    requires q < |data|
    ensures Missing(lines + GapLine(e, data, q)) == Missing(lines) + if data[q] then q - Expected(e, data, q) else 0
  {
    if data[q] && Expected(e, data, q) != q {
      MissingGap(lines, Expected(e, data, q), q);
    } else {
      assert lines + [] == lines;
    }
  }

  /** The gaps a verifying receiver prints and the messages it counts add up to the change of
      the number it expects: with e = 0, every message lost before the last arrival is in
      exactly one printed gap. */
  lemma {:induction false} GapsAddUp(e: int, data: seq<bool>, n: nat)
    requires n <= |data|
    ensures Missing(GapLines(e, data, n)) + Arrived(data, n) == Expected(e, data, n) - e
  {
    if n > 0 {
      var m := n - 1;
      GapsAddUp(e, data, m);
      MissingAt(GapLines(e, data, m), e, data, m);
      ExpectedStep(e, data, m);
    }
  }

  // ---------- Numbers that cannot be read ----------

  /** A fixed length garbles a number exactly when it cuts a digit off, save that an empty text
      reads as zero.  Where not even the heading fits, the text was there before the test's
      data, and is right for one number at most. */
  lemma CutNumberGarbled(o: Options, q: nat, stale: string)
    requires !o.decimal
    ensures Scan(16, Shown(o, q, stale)) == q <==>
      if 0 < o.msgLen < |MESSAGE| then q == Scan(16, stale)
      else o.msgLen == 0 || |o.Text(q)| <= o.msgLen || (o.msgLen == |MESSAGE| && q == 0)
  {
    if Readable(o, q) {
      PrintScan(16, q);
    } else if o.msgLen >= |MESSAGE| {
      TruncatedReadsLess(16, q, o.msgLen - |MESSAGE|);
    }
  }

  /** Read as hexadecimal, a decimal number that is not cut off is right exactly below ten. */
  lemma DecimalMisread(o: Options, q: nat, stale: string)
    requires o.decimal && (o.msgLen == 0 || |o.Text(q)| <= o.msgLen)
    ensures Scan(16, Shown(o, q, stale)) == q <==> q < 10
  {
    DecimalAsHex(q);
  }

  /** The mismatch that the k-th message too short for the heading adds: all such messages read
      the same number. */
  function ShortLine(s: State, k: nat): (lines: seq<Line>) {
    var n := Scan(16, s.stale);
    var e := if k == 0 then s.expected else n + 1;
    if e != n then [Mismatch(e, s.stale)] else []
  }

  function ShortLines(s: State, k: nat): (lines: seq<Line>) {
    if k == 0 then [] else ShortLines(s, k - 1) + ShortLine(s, k - 1)
  }

  /** The state after `k` of them. */
  function ShortState(s: State, k: nat): (t: State) {
    var expected := if k == 0 then s.expected else Scan(16, s.stale) + 1;
    State(s.received + k, expected, s.log + ShortLines(s, k), s.stopped, s.stale)
  }

  lemma ShortStep(o: Options, stop: bool, s: State, k: nat, q: nat)
    requires !s.stopped && 0 < o.msgLen < |MESSAGE|
    ensures Deliver(o, true, stop, ShortState(s, k), Data(q)) == ShortState(s, k + 1)
  {
    Assoc(s.log, ShortLines(s, k), ShortLine(s, k));
  }

  /** Any data messages that are too short for the heading only add mismatches for the text that
      was there before. */
  lemma {:induction false} ShortMessages(o: Options, stop: bool, s: State, ms: seq<Message>)
    requires !s.stopped && 0 < o.msgLen < |MESSAGE| && forall i :: 0 <= i < |ms| ==> ms[i].Data?
    ensures DeliverAll(o, true, stop, s, ms) == ShortState(s, |ms|)
  {
    if ms == [] {
      assert s.log + [] == s.log;
    } else {
      var k := |ms| - 1;
      ShortMessages(o, stop, s, ms[..k]);
      ShortStep(o, stop, s, k, ms[k].number);
    }
  }

  /** `k` such messages print k mismatches, or k - 1 if the first was expected. */
  lemma {:induction false} ShortLinesLength(s: State, k: nat)
    ensures |ShortLines(s, k)| == if k > 0 && s.expected == Scan(16, s.stale) then k - 1 else k
  {
    if k > 0 {
      ShortLinesLength(s, k - 1);
    }
  }

  // ---------- Stopping at the first report ----------

  /** How a receiver that stops relates to one that does not. */
  ghost predicate Cut(t: State, u: State) {
    if t.stopped then t.log <= u.log && t.log != [] && Reports(t.log) == [t.log[|t.log| - 1]]
    else t == u && Reports(u.log) == []
  }

  lemma CutStep(o: Options, verify: bool, t: State, u: State, m: Message)
    requires Cut(t, u) && !u.stopped
    ensures Cut(Deliver(o, verify, true, t, m), Deliver(o, verify, false, u, m))
    ensures !Deliver(o, verify, false, u, m).stopped
  {
    LogGrows(o, verify, false, u, m);
    if !t.stopped {
      match m
      case Echo => ReportsOne(t.log, Echoed(ECHO + o.banner));
      case Data(q) =>
        ReportsOne(t.log, Mismatch(t.expected, Shown(o, q, t.stale)));
        assert t.log + [] == t.log;
      case Stat(n) => ReportsOne(t.log, Report(n, t.received));
    }
  }

  /** With `-s` the receiver prints what it would print otherwise, up to the first report. */
  lemma {:induction false} StopCuts(o: Options, verify: bool, stale: string, ms: seq<Message>)
    ensures Cut(DeliverAll(o, verify, true, Start(stale), ms), DeliverAll(o, verify, false, Start(stale), ms))
    ensures !DeliverAll(o, verify, false, Start(stale), ms).stopped
  {
    if ms != [] {
      var before, m, s := ms[..|ms| - 1], ms[|ms| - 1], Start(stale);
      StopCuts(o, verify, stale, before);
      CutStep(o, verify, DeliverAll(o, verify, true, s, before), DeliverAll(o, verify, false, s, before), m);
    }
  }

  lemma {:induction false} ReportsPrefix(a: seq<Line>, b: seq<Line>)
    requires a <= b
    ensures Reports(a) <= Reports(b)
  {
    if a != b {
      var n := |b| - 1;
      assert a <= b[..n];
      ReportsPrefix(a, b[..n]);
    }
  }

  /** What is left of the reports: the first, if there is one. */
  lemma CutReports(t: State, u: State)
    requires Cut(t, u)
    ensures Reports(t.log) == FirstOf(Reports(u.log))
  {
    if t.stopped {
      ReportsPrefix(t.log, u.log);
    }
  }

  function FirstOf<T>(s: seq<T>): (first: seq<T>) {
    if s == [] then [] else [s[0]]
  }

  lemma LogGrows(o: Options, verify: bool, stop: bool, s: State, m: Message)
    ensures s.log <= Deliver(o, verify, stop, s, m).log
  {
  }

  // ---------- The programs together ----------

  lemma {:induction false} PickEncodes(o: Options, sent: seq<string>, ms: seq<Message>, mask: seq<bool>)
    requires AllEncode(o, sent, ms) && |mask| == |ms|
    ensures AllEncode(o, Pick(sent, mask), Pick(ms, mask))
    ensures forall m :: m in Pick(ms, mask) ==> m in ms
  {
    if ms != [] {
      assert Encodes(o, sent[0], ms[0]);
      assert AllEncode(o, sent[1..], ms[1..]) by {
        forall i | 0 <= i < |sent| - 1 ensures Encodes(o, sent[1..][i], ms[1..][i]) {
          assert Encodes(o, sent[i + 1], ms[i + 1]);
        }
      }
      PickEncodes(o, sent[1..], ms[1..], mask[1..]);
    }
  }

  lemma {:induction false} PlanNumbers(o: Options, rounds: nat)
    ensures forall m :: m in Plan(o, rounds) && m.Data? ==> m.number < Total(o)
  {
    if rounds > 0 {
      PlanNumbers(o, rounds - 1);
    }
  }

  lemma DatagramFits(o: Options, d: string, m: Message)
    requires Encodes(o, d, m) && |o.banner| + |ECHO| < MAX_DATAGRAM && o.msgLen <= MAX_DATAGRAM
    requires m.Data? ==> m.number <= INT_MAX
    requires m.Stat? ==> m.count <= INT_MAX
    ensures |d| <= MAX_DATAGRAM
  {
    match m
    case Echo =>
    case Data(q) => NumbersFit(o, q);
    case Stat(n) => NumbersFit(o.(decimal := true), n);
  }

  lemma {:induction false} PlanStats(o: Options, rounds: nat)
    ensures forall m :: m in Plan(o, rounds) && m.Stat? ==> m.count == Total(o)
  {
    if rounds > 0 {
      PlanStats(o, rounds - 1);
    }
  }

  predicate Sendable(o: Options) {
    && o.numBursts != 0 && o.msgLen <= MAX_DATAGRAM && Total(o) <= INT_MAX
    && NUL !in o.banner && |o.banner| + |ECHO| < MAX_DATAGRAM
  }

  lemma AllArrive(o: Options, sent: seq<string>, kept: seq<Arrival>)
    requires Sendable(o) && AllPossible(o, kept) && AllEncode(o, sent, Plan(o, |kept|))
    ensures |sent| == |Mask(o, kept)| && AllEncode(o, Pick(sent, Mask(o, kept)), Delivered(o, kept))
    ensures AllFit(Pick(sent, Mask(o, kept)))
  {
    MaskLength(o, kept);
    PickEncodes(o, sent, Plan(o, |kept|), Mask(o, kept));
    PlanNumbers(o, |kept|);
    PlanStats(o, |kept|);
    var ds, ms := Pick(sent, Mask(o, kept)), Delivered(o, kept);
    forall i | 0 <= i < |ds| ensures |ds[i]| <= MAX_DATAGRAM {
      assert Encodes(o, ds[i], ms[i]) && ms[i] in ms;
      DatagramFits(o, ds[i], ms[i]);
    }
  }

  // ---------- What the reports say ----------

  /** The number of arrivals, counted over the whole pattern. */
  lemma {:induction false} ArrivedCounts(data: seq<bool>, n: nat)
    requires n <= |data|
    ensures Arrived(data, n) == multiset(data[..n])[true]
  {
    if n > 0 {
      ArrivedCounts(data, n - 1);
      assert data[..n] == data[..n - 1] + [data[n - 1]];
    }
  }

  /** How many tests of a run report. */
  function Stats(kept: seq<Arrival>): (n: nat) {
    if kept == [] then 0 else Stats(kept[..|kept| - 1]) + if kept[|kept| - 1].stat then 1 else 0
  }

  lemma {:induction false} ReportsLength(o: Options, kept: seq<Arrival>)
    requires AllPossible(o, kept)
    ensures |RunReports(o, kept)| == Stats(kept)
  {
    if kept != [] {
      ReportsLength(o, kept[..|kept| - 1]);
    }
  }

  /** The test reports, and the counters were cleared at its start. */
  predicate Fresh(kept: seq<Arrival>, t: nat) {
    t < |kept| && kept[t].stat && (kept[t].echo || t == 0 || kept[t - 1].stat)
  }

  lemma CarriedIntoFresh(o: Options, kept: seq<Arrival>, t: nat)
    requires AllPossible(o, kept) && Fresh(kept, t)
    ensures ReportLines(Total(o), Carried(o, kept[..t]), kept[t]) == [Report(Total(o), multiset(kept[t].data)[true])]
  {
    var data := kept[t].data;
    ArrivedCounts(data, |data|);
    assert data[..|data|] == data;
    assert t > 0 ==> kept[..t][t - 1] == kept[t - 1];
  }

  /** The report of a test stands after those of the tests before it.  It gives the number sent
      and the number of that test's messages that arrived, if the `echo` of the test or the
      `stat` before it arrived. */
  lemma {:induction false} ReportOf(o: Options, kept: seq<Arrival>, t: nat)
    requires AllPossible(o, kept) && Fresh(kept, t)
    ensures Stats(kept[..t]) < Stats(kept) == |RunReports(o, kept)|
    ensures RunReports(o, kept)[Stats(kept[..t])] == Report(Total(o), multiset(kept[t].data)[true])
  {
    var n := |kept| - 1;
    ReportsLength(o, kept);
    ReportsLength(o, kept[..n]);
    if t < n {
      assert kept[..n][..t] == kept[..t];
      ReportOf(o, kept[..n], t);
    } else {
      CarriedIntoFresh(o, kept, t);
    }
  }

  lemma {:induction false} ReportsIn(log: seq<Line>)
    ensures forall i :: 0 <= i < |Reports(log)| ==> Reports(log)[i] in log
  {
    if log != [] {
      ReportsIn(log[..|log| - 1]);
    }
  }

  /** The exact reports are among the lines printed. */
  ghost predicate FreshReported(o: Options, kept: seq<Arrival>, log: seq<Line>) {
    forall t: nat :: Fresh(kept, t) ==> Report(Total(o), multiset(kept[t].data)[true]) in log
  }

  lemma ReportsPrinted(o: Options, kept: seq<Arrival>, log: seq<Line>)
    requires AllPossible(o, kept) && Reports(log) == RunReports(o, kept)
    ensures FreshReported(o, kept, log)
  {
    ReportsIn(log);
    forall t: nat | Fresh(kept, t) ensures Report(Total(o), multiset(kept[t].data)[true]) in log {
      ReportOf(o, kept, t);
    }
  }

  /** What a run prints: with or without the stop option its reports are those of the loss
      pattern, whatever the numbers look like. */
  lemma RunPrints(o: Options, verify: bool, stop: bool, stale: string, kept: seq<Arrival>)
    requires AllPossible(o, kept)
    ensures var log := RunState(o, verify, stop, stale, kept).log;
      && Reports(log) == (if stop then FirstOf(RunReports(o, kept)) else RunReports(o, kept))
      && (!stop && (!verify || AllReadable(o)) ==> log == RunLog(o, verify, kept))
      && (!stop ==> FreshReported(o, kept, log))
  {
    RunCounted(o, verify, AllReadable(o), stale, kept);
    StopCuts(o, verify, stale, Delivered(o, kept));
    CutReports(RunState(o, verify, true, stale, kept), RunState(o, verify, false, stale, kept));
    ReportsPrinted(o, kept, RunState(o, verify, false, stale, kept).log);
  }

  lemma NumbersKept(o: Options)
    requires Total(o) == 0 || !o.decimal
    requires o.msgLen == 0 || forall q :: 0 <= q < Total(o) ==> |o.Text(q)| <= o.msgLen
    ensures AllReadable(o)
  {
    forall q | 0 <= q < Total(o) ensures Readable(o, q) {
      assert |o.Text(q)| >= 0;
    }
  }

  /** mdump's loop on the datagrams of a run that arrive is the run on messages. */
  lemma ArrivingRun(o: Options, verify: bool, stop: bool, stale: string, sent: seq<string>, kept: seq<Arrival>)
    requires Sendable(o) && AllPossible(o, kept) && AllEncode(o, sent, Plan(o, |kept|))
    ensures |sent| == |Mask(o, kept)| && AllFit(Pick(sent, Mask(o, kept)))
    ensures TakeAll(verify, stop, Start(stale), Pick(sent, Mask(o, kept))) == RunState(o, verify, stop, stale, kept)
  {
    AllArrive(o, sent, kept);
    TakeAllIsDeliverAll(o, verify, stop, Start(stale), Pick(sent, Mask(o, kept)), Delivered(o, kept));
  }

  /** msend's run, the losses and mdump's loop.  The reports are those of the loss pattern for
      all options; everything printed is, when the numbers can be read or are not looked at.
      `memory` is what the receiver's buffer holds when it is allocated. */
  method Session(o: Options, verify: bool, stop: bool, memory: string, kept: seq<Arrival>) returns (log: seq<Line>)
    requires Sendable(o) && |kept| == (if o.loops < 1 then 1 else o.loops)
    requires AllPossible(o, kept) && |memory| == MAX_DATAGRAM + 1
    ensures log == RunState(o, verify, stop, BufferText(verify, memory), kept).log
    ensures Reports(log) == if stop then FirstOf(RunReports(o, kept)) else RunReports(o, kept)
    ensures !stop ==> FreshReported(o, kept, log)
    ensures !stop && !verify ==> log == RunLog(o, verify, kept)
    ensures !stop && (Total(o) == 0 || !o.decimal) &&
            (o.msgLen == 0 || forall q :: 0 <= q < Total(o) ==> |o.Text(q)| <= o.msgLen)
      ==> log == RunLog(o, verify, kept)
  {
    var sent := Send(o);
    ghost var stale := BufferText(verify, memory);
    ArrivingRun(o, verify, stop, stale, sent, kept);
    log := Printed(verify, stop, memory, Pick(sent, Mask(o, kept)));
    if (Total(o) == 0 || !o.decimal) && (o.msgLen == 0 || forall q :: 0 <= q < Total(o) ==> |o.Text(q)| <= o.msgLen) {
      NumbersKept(o);
    }
    RunPrints(o, verify, stop, stale, kept);
  }
}
