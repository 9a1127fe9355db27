/** The datagrams of a multicast test: what msend puts on the wire and mdump looks for. */
module Wire {
  import opened MachineIntegers
  import opened Numerals

  const NUL := '\0'
  const MAX_DATAGRAM := 65536

  const ECHO := "echo "
  const STAT := "stat "
  const MESSAGE := "Message "

  datatype Message = Echo | Data(number: nat) | Stat(count: nat)

  /** msend's options as far as they decide what is sent; a `msgLen` of zero asks for
      messages as long as their text, and `statOn` stands for a positive `-s` pause. */
  datatype Options = Options(burstCount: int, numBursts: int, msgLen: nat, decimal: bool,
                             statOn: bool, loops: int, banner: string)
  {
    function NumberBase(): (b: Base) {
      if decimal then 10 else 16
    }

    function Text(q: nat): (text: string) {
      MESSAGE + Print(NumberBase(), q)
    }
  }

  /** A C string: what comes before the first NUL. */
  function CString(s: string): (r: string)
    ensures |r| <= |s| && r == s[..|r|] && (|r| < |s| ==> s[|r|] == NUL)
    ensures NUL !in r
  {
    if s == [] || s[0] == NUL then [] else [s[0]] + CString(s[1..])
  }

  lemma {:induction false} CStringCut(s: string, rest: string)
    requires rest == [] || rest[0] == NUL
    ensures CString(s + rest) == CString(s)
  {
    if s == [] {
      assert s + rest == rest;
    } else {
      assert (s + rest)[1..] == s[1..] + rest;
      CStringCut(s[1..], rest);
    }
  }

  lemma CStringWhole(s: string)
    requires NUL !in s
    ensures CString(s) == s
  {
    assert s == s[..|s|];
  }

  /** `d` is a data message numbered `q`.  At a fixed length the text is cut off, or a NUL and
      whatever else the sender's buffer held follow it. */
  ghost predicate Numbered(o: Options, d: string, q: nat) {
    var text := o.Text(q);
    if o.msgLen == 0 then d == text
    else |d| == o.msgLen && forall i :: 0 <= i < |d| && i <= |text| ==> d[i] == (text + [NUL])[i]
  }

  ghost predicate Encodes(o: Options, d: string, m: Message) {
    match m
    case Echo => d == ECHO + o.banner + [NUL]
    case Data(q) => Numbered(o, d, q)
    case Stat(n) => d == STAT + Print(10, n)
  }
}
