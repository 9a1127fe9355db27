/** The receiving side of a test: mdump's loop over datagrams. */
module Receiver {
  import opened Numerals
  import opened Wire

  /** What the loop prints, apart from the dump of each datagram. */
  datatype Line =
    | Echoed(text: string)
    | Report(sent: int, received: nat)
    | Mismatch(expected: int, got: string)

  /** `stale` is the text at the place of a number, which only a verifying receiver reads: a
      datagram shorter than the heading leaves it to be read as its number. */
  datatype State = State(received: nat, expected: int, log: seq<Line>, stopped: bool, stale: string)

  /** The text at the place of a number in a buffer that starts with `d` and a NUL. */
  function NumberText(stale: string, d: string): (text: string) {
    if |d| < |MESSAGE| then stale else CString(d[|MESSAGE|..])
  }

  /** What a verifying receiver has at the place of a number after `d`; one that does not
      verify never looks. */
  function Left(verify: bool, stale: string, d: string): (text: string) {
    if verify then NumberText(stale, d) else stale
  }

  /** Prints `l` and starts counting afresh. */
  function Restart(s: State, l: Line): (t: State) {
    s.(received := 0, expected := 0, log := s.log + [l])
  }

  /** Counts a data message whose text after the heading is `text`. */
  function Count(verify: bool, s: State, text: string): (t: State) {
    if !verify then s.(received := s.received + 1, expected := s.expected + 1)
    else
      var n := Scan(16, text);
      var lines := if s.expected != n then [Mismatch(s.expected, text)] else [];
      State(s.received + 1, n + 1, s.log + lines, s.stopped, text)
  }

  predicate IsCommand(d: string, name: string) {
    |d| > 5 && name <= d
  }

  /** A newline at the end gives way to a NUL. */
  function WithoutNewline(d: string): (e: string)
    ensures |e| == |d|
  {
    if d != [] && d[|d| - 1] == '\n' then d[|d| - 1 := NUL] else d
  }

  function ReportCounts(verify: bool, stop: bool, s: State, d: string): (t: State)
    requires |d| > 5
  {
    var report, left := Report(Scan(10, CString(d[5..])), s.received), Left(verify, s.stale, d);
    if stop then s.(log := s.log + [report], stopped := true, stale := left)
    else Restart(s, report).(stale := left)
  }

  /** The effect of one datagram. */
  function Take(verify: bool, stop: bool, s: State, d: string): (t: State) {
    if IsCommand(d, ECHO) then
      var e := WithoutNewline(d);
      Restart(s, Echoed(CString(e))).(stale := Left(verify, s.stale, e))
    else if IsCommand(d, STAT) then
      ReportCounts(verify, stop, s, d)
    else Count(verify, s, NumberText(s.stale, d))
  }

  /** The effect of several datagrams; after the report of a receiver told to stop there, it
      reads no more. */
  function TakeAll(verify: bool, stop: bool, s: State, ds: seq<string>): (t: State) {
    if ds == [] then s
    else
      var before := TakeAll(verify, stop, s, ds[..|ds| - 1]);
      if before.stopped then before else Take(verify, stop, before, ds[|ds| - 1])
  }

  /** A buffer whose start was overwritten with `d` and a NUL. */
  function Terminated(b: string, d: string): (b': string)
    requires |d| < |b|
  {
    d + [NUL] + b[|d| + 1..]
  }

  /** The buffer after one datagram. */
  function BufferAfter(verify: bool, b: string, d: string): (b': string)
    requires |d| < |b|
  {
    if IsCommand(d, ECHO) then Terminated(b, WithoutNewline(d))
    else if IsCommand(d, STAT) || verify then Terminated(b, d)
    else d + b[|d|..]
  }

  /** The text that is read from some place in the buffer. */
  lemma TextAfter(b: string, d: string, from: nat)
    requires |d| < |b| && from <= |MESSAGE| < |b|
    ensures CString(Terminated(b, d)[from..]) == CString(if from <= |d| then d[from..] else b[from..])
  {
    var b' := Terminated(b, d);
    if from <= |d| {
      assert b'[from..] == d[from..] + ([NUL] + b[|d| + 1..]);
      CStringCut(d[from..], [NUL] + b[|d| + 1..]);
    } else {
      assert b'[from..] == b[from..];
    }
  }

  /** Storing a datagram first changes nothing of what is read after its NUL. */
  lemma StoredText(b: string, d: string, e: string)
    requires |e| == |d| < |b| && |MESSAGE| < |b|
    ensures var stored := d + b[|d|..];
      && Terminated(stored, e) == Terminated(b, e)
      && NumberText(CString(stored[|MESSAGE|..]), e) == NumberText(CString(b[|MESSAGE|..]), e)
  {
    var stored := d + b[|d|..];
    assert stored[|d| + 1..] == b[|d| + 1..];
    assert |d| < |MESSAGE| ==> stored[|MESSAGE|..] == b[|MESSAGE|..];
  }

  lemma TakeStored(verify: bool, stop: bool, s: State, b: string, d: string)
    requires |d| < |b| && |MESSAGE| < |b| && s.stale == BufferText(verify, b)
    ensures var s' := s.(stale := BufferText(verify, d + b[|d|..]));
      Take(verify, stop, s', d) == Take(verify, stop, s, d)
  {
    StoredText(b, d, d);
    StoredText(b, d, WithoutNewline(d));
  }

  lemma BufferStored(verify: bool, b: string, d: string)
    requires |d| < |b| && |MESSAGE| < |b|
    ensures BufferAfter(verify, d + b[|d|..], d) == BufferAfter(verify, b, d)
  {
    StoredText(b, d, d);
    StoredText(b, d, WithoutNewline(d));
    assert (d + b[|d|..])[|d|..] == b[|d|..];
  }

  /** What a verifying receiver's buffer has at the place of a number. */
  function BufferText(verify: bool, b: string): (text: string)
    requires |b| >= |MESSAGE|
  {
    if verify then CString(b[|MESSAGE|..]) else ""
  }

  /** Before the first datagram.  The buffer's memory is as it was allocated. */
  function Start(stale: string): (s: State) {
    State(0, 0, [], false, stale)
  }

  predicate AllFit(ds: seq<string>) {
    forall i :: 0 <= i < |ds| ==> |ds[i]| <= MAX_DATAGRAM
  }

  lemma NewlineText(d: string)
    requires d != []
    ensures CString(WithoutNewline(d)) == CString(if d[|d| - 1] == '\n' then d[..|d| - 1] else d)
  {
    if d[|d| - 1] == '\n' {
      assert d[|d| - 1 := NUL] == d[..|d| - 1] + [NUL];
      CStringCut(d[..|d| - 1], [NUL]);
    }
  }

  /** The effect of a datagram on the counters and the log; `text` is what a verifying receiver
      reads at the place of a number. */
  lemma TakeMeans(verify: bool, stop: bool, s: State, d: string)
    requires !s.stopped
    ensures var t, text := Take(verify, stop, s, d), if |d| < 8 then s.stale else CString(d[8..]);
      && (|d| > 5 && "echo " <= d ==>
           && t.received == 0 && t.expected == 0 && !t.stopped
           && t.log == s.log + [Echoed(CString(if d[|d| - 1] == '\n' then d[..|d| - 1] else d))])
      && (|d| > 5 && "stat " <= d ==>
           && t.log == s.log + [Report(Scan(10, CString(d[5..])), s.received)] && t.stopped == stop
           && t.received == (if stop then s.received else 0) && t.expected == (if stop then s.expected else 0))
      && (|d| <= 5 || !("echo " <= d || "stat " <= d) ==>
           && t.received == s.received + 1 && !t.stopped
           && t.expected == (if verify then Scan(16, text) else s.expected) + 1
           && t.log == s.log + if verify && s.expected != Scan(16, text) then [Mismatch(s.expected, text)] else [])
  {
    assert s.log + [] == s.log;
    if |d| > 5 && "echo " <= d {
      NewlineText(d);
    }
    assert |d| > 5 && "stat " <= d ==> d[0] == 's';
  }

  class Mdump {
    const verify: bool
    const stop: bool
    var numRcvd: nat
    var curSeq: int
    var log: seq<Line>
    var stopped: bool
    const buff: array<char>

    constructor (verify: bool, stop: bool, memory: string)
      requires |memory| == MAX_DATAGRAM + 1
      ensures this.verify == verify && this.stop == stop && fresh(buff)
      ensures Valid() && Contents() == Start(BufferText(verify, memory)) && buff[..] == memory
      ensures numRcvd == 0 && curSeq == 0 && log == [] && !stopped
    {
      this.verify, this.stop := verify, stop;
      numRcvd, curSeq, log, stopped := 0, 0, [], false;
      buff := new char[|memory|](i requires 0 <= i < |memory| => memory[i]);
      new;
      assert buff[..] == memory;
    }

    ghost predicate Valid() {
      buff.Length == MAX_DATAGRAM + 1
    }

    ghost function Contents(): (s: State)
      requires Valid()
      reads this, buff
    {
      State(numRcvd, curSeq, log, stopped, BufferText(verify, buff[..]))
    }

    /** `recvfrom`: the datagram overwrites the start of the buffer. */
    method Store(d: string)
      requires Valid() && |d| <= MAX_DATAGRAM
      modifies buff
      ensures buff[..] == d + old(buff[|d|..])
    {
      forall i | 0 <= i < |d| {
        buff[i] := d[i];
      }
    }

    /** Puts a NUL after the datagram. */
    method Terminate(d: string)
      requires Valid() && |d| <= MAX_DATAGRAM && d <= buff[..]
      modifies buff
      ensures buff[..] == Terminated(old(buff[..]), d)
    {
      buff[|d|] := NUL;
    }

    /** Ends the text of an `echo` command, without a trailing newline. */
    method EndEcho(d: string)
      requires Valid() && 0 < |d| <= MAX_DATAGRAM && d <= buff[..]
      modifies buff
      ensures buff[..] == Terminated(old(buff[..]), WithoutNewline(d))
    {
      Terminate(d);
      if buff[|d| - 1] == '\n' {
        buff[|d| - 1] := NUL;
      }
    }

    /** Prints the text of an `echo` command. */
    method TakeEcho(d: string)
      requires Valid() && 0 < |d| <= MAX_DATAGRAM && d <= buff[..]
      modifies this, buff
      ensures Contents() == Restart(old(Contents()), Echoed(CString(WithoutNewline(d))))
        .(stale := Left(verify, old(Contents()).stale, WithoutNewline(d)))
      ensures buff[..] == Terminated(old(buff[..]), WithoutNewline(d))
    {
      TextAfter(buff[..], WithoutNewline(d), 0);
      TextAfter(buff[..], WithoutNewline(d), |MESSAGE|);
      EndEcho(d);
      log := log + [Echoed(CString(buff[..]))];
      numRcvd, curSeq := 0, 0;
    }

    /** Prints the counts for a `stat` command. */
    method TakeStat(d: string)
      requires Valid() && 5 < |d| <= MAX_DATAGRAM && d <= buff[..]
      modifies this, buff
      ensures Contents() == ReportCounts(verify, stop, old(Contents()), d)
      ensures buff[..] == Terminated(old(buff[..]), d)
    {
      TextAfter(buff[..], d, 5);
      TextAfter(buff[..], d, |MESSAGE|);
      Terminate(d);
      log := log + [Report(Scan(10, CString(buff[5..])), numRcvd)];
      if stop {
        stopped := true;
        return;
      }
      numRcvd, curSeq := 0, 0;
    }

    /** Compares the number in a text with the one expected, and goes on from the text's. */
    method CheckNumber(text: string)
      modifies this`log, this`curSeq
      ensures curSeq == Scan(16, text)
      ensures log == old(log) + if old(curSeq) != Scan(16, text) then [Mismatch(old(curSeq), text)] else []
    {
      if curSeq != Scan(16, text) {
        log := log + [Mismatch(curSeq, text)];
        curSeq := Scan(16, text);
      }
    }

    /** Reads the text at the place of a number and checks it. */
    method Verify(d: string)
      requires Valid() && |d| <= MAX_DATAGRAM && d <= buff[..]
      modifies this`log, this`curSeq, buff
      ensures buff[..] == Terminated(old(buff[..]), d)
      ensures var text := NumberText(old(BufferText(true, buff[..])), d);
        && BufferText(true, buff[..]) == text && curSeq == Scan(16, text)
        && log == old(log) + if old(curSeq) != Scan(16, text) then [Mismatch(old(curSeq), text)] else []
    {
      TextAfter(buff[..], d, |MESSAGE|);
      Terminate(d);
      assert buff[..][|MESSAGE|..] == buff[|MESSAGE|..];
      CheckNumber(CString(buff[|MESSAGE|..]));
    }

    /** Counts a data message, after checking its number if asked to. */
    method TakeData(d: string)
      requires Valid() && |d| <= MAX_DATAGRAM && d <= buff[..]
      modifies this, buff
      ensures Contents() == Count(verify, old(Contents()), NumberText(old(Contents()).stale, d))
      ensures buff[..] == if verify then Terminated(old(buff[..]), d) else old(buff[..])
    {
      ghost var text := NumberText(Contents().stale, d);
      if verify {
        Verify(d);
        assert Contents().stale == text && curSeq == Scan(16, text);
      }
      numRcvd := numRcvd + 1;
      curSeq := curSeq + 1;
    }

    /** One turn of the receive loop. */
    method Receive(d: string)
      requires Valid() && !stopped && |d| <= MAX_DATAGRAM
      modifies this, buff
      ensures Contents() == Take(verify, stop, old(Contents()), d)
      ensures buff[..] == BufferAfter(verify, old(buff[..]), d)
      ensures |d| > 5 && "echo " <= d ==>
        && numRcvd == 0 && curSeq == 0 && !stopped
        && log == old(log) + [Echoed(CString(if d[|d| - 1] == '\n' then d[..|d| - 1] else d))]
      ensures |d| > 5 && "stat " <= d ==>
        && log == old(log) + [Report(Scan(10, CString(d[5..])), old(numRcvd))] && stopped == stop
        && numRcvd == (if stop then old(numRcvd) else 0) && curSeq == if stop then old(curSeq) else 0
      ensures |d| <= 5 || !("echo " <= d || "stat " <= d) ==> numRcvd == old(numRcvd) + 1 && !stopped
      ensures (|d| <= 5 || !("echo " <= d || "stat " <= d)) && !verify ==> curSeq == old(curSeq) + 1 && log == old(log)
      ensures (|d| <= 5 || !("echo " <= d || "stat " <= d)) && verify ==>
        var text := if |d| < 8 then CString(old(buff[8..])) else CString(d[8..]);
        && curSeq == Scan(16, text) + 1
        && log == old(log) + if old(curSeq) != Scan(16, text) then [Mismatch(old(curSeq), text)] else []
    {
      TakeMeans(verify, stop, Contents(), d);
      assert buff[..][8..] == buff[8..];
      TakeStored(verify, stop, Contents(), buff[..], d);
      BufferStored(verify, buff[..], d);
      Store(d);
      if |d| > 5 && buff[..5] == ECHO {
        TakeEcho(d);
      } else if |d| > 5 && buff[..5] == STAT {
        TakeStat(d);
      } else {
        TakeData(d);
      }
    }

    /** The receive loop, on whatever arrives. */
    method Listen(arriving: seq<string>)
      requires Valid() && !stopped && AllFit(arriving)
      modifies this, buff
      ensures Contents() == TakeAll(verify, stop, old(Contents()), arriving)
    {
      var i := 0;
      assert arriving[..0] == [];
      while i < |arriving| && !stopped
        invariant 0 <= i <= |arriving|
        invariant Contents() == TakeAll(verify, stop, old(Contents()), arriving[..i])
      {
        TakeNext(verify, stop, old(Contents()), arriving, i);
        Receive(arriving[i]);
        i := i + 1;
      }
      StoppedTakesNothing(verify, stop, old(Contents()), arriving, i);
    }
  }

  lemma TakeNext(verify: bool, stop: bool, s: State, ds: seq<string>, i: nat)
    requires i < |ds| && !TakeAll(verify, stop, s, ds[..i]).stopped
    ensures TakeAll(verify, stop, s, ds[..i + 1]) == Take(verify, stop, TakeAll(verify, stop, s, ds[..i]), ds[i])
  {
    assert ds[..i + 1][..i] == ds[..i];
  }

  lemma {:induction false} StoppedTakesNothing(verify: bool, stop: bool, s: State, ds: seq<string>, i: nat)
    requires i <= |ds| && (i < |ds| ==> TakeAll(verify, stop, s, ds[..i]).stopped)
    ensures TakeAll(verify, stop, s, ds) == TakeAll(verify, stop, s, ds[..i])
  {
    if i == |ds| {
      assert ds[..i] == ds;
    } else {
      var before := ds[..|ds| - 1];
      assert before[..i] == ds[..i];
      StoppedTakesNothing(verify, stop, s, before, i);
      assert TakeAll(verify, stop, s, before).stopped;
    }
  }

  /** What mdump prints, apart from dumps; `memory` is its buffer as it is allocated. */
  method Printed(verify: bool, stop: bool, memory: string, arriving: seq<string>) returns (log: seq<Line>)
    requires |memory| == MAX_DATAGRAM + 1 && AllFit(arriving)
    ensures log == TakeAll(verify, stop, Start(BufferText(verify, memory)), arriving).log
  {
    var mdump := new Mdump(verify, stop, memory);
    mdump.Listen(arriving);
    log := mdump.log;
  }
}
