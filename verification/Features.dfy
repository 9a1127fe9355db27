/** Device features and the legacy flags that stand for groups of them (`ethtool -K`). */
module Features {
  import opened MachineIntegers
  import opened Wrappers
  import opened Bits
  import opened Sequences
  import HexBitmap
  import QueueMask

  /** A legacy flag: its name on the command line, the pattern of the features it stands for,
      and its bit in flag words. */
  datatype Flag = Flag(name: string, pattern: string, bit: nat)

  const FLAG_NAMES :=
    ["rx", "tx", "sg", "tso", "ufo", "gso", "gro", "lro", "rxvlan", "txvlan", "ntuple", "rxhash"]
  const FLAG_PATTERNS :=
    ["rx-checksum", "tx-checksum-*", "tx-scatter-gather*", "tx-tcp*-segmentation", "tx-udp-fragmentation",
     "tx-generic-segmentation", "rx-gro", "rx-lro", "rx-vlan-hw-parse", "tx-vlan-hw-insert", "rx-ntuple-filter",
     "rx-hashing"]
  const FLAG_BITS: seq<nat> := [0, 1, 2, 3, 4, 5, 6, 15, 8, 7, 27, 28]

  /** The program's own table. */
  function OffFlags(): (flags: seq<Flag>) {
    seq(12, i requires 0 <= i < 12 => Flag(FLAG_NAMES[i], FLAG_PATTERNS[i], FLAG_BITS[i]))
  }

  // ---------- Matching feature names ----------

  /** A pattern with its first star taken out, or None when it has no star. */
  function SplitAtStar(pattern: string): (r: Option<(string, string)>)
    ensures r.None? ==> '*' !in pattern
    ensures r.Some? ==> '*' !in r.value.0 && pattern == r.value.0 + "*" + r.value.1
  {
    if pattern == [] then None
    else if pattern[0] == '*' then Some(([], pattern[1..]))
    else
      match SplitAtStar(pattern[1..])
      case None => None
      case Some((prefix, suffix)) => Some(([pattern[0]] + prefix, suffix))
  }

  /** Any star stands for exactly one character. */
  predicate MatchesEach(pattern: string, name: string) {
    |pattern| == |name| && forall i :: 0 <= i < |name| ==> pattern[i] == '*' || pattern[i] == name[i]
  }

  /** The name starts with the prefix, and the suffix matches its end. */
  predicate MatchesSplit(prefix: string, suffix: string, name: string) {
    && |prefix| + |suffix| <= |name|
    && prefix == name[..|prefix|]
    && MatchesEach(suffix, name[|name| - |suffix|..])
  }

  /** The first star stands for any text; a later one for exactly one character. */
  predicate Matches(pattern: string, name: string) {
    match SplitAtStar(pattern)
    case None => pattern == name
    case Some((prefix, suffix)) => MatchesSplit(prefix, suffix, name)
  }

  lemma NoStarMeansEqual(suffix: string, name: string)
    requires '*' !in suffix
    ensures MatchesEach(suffix, name) <==> suffix == name
  {
    assert forall i :: 0 <= i < |suffix| ==> suffix[i] in suffix;
  }

  lemma Middle(prefix: string, suffix: string, name: string)
    requires |prefix| + |suffix| <= |name|
    requires prefix == name[..|prefix|] && suffix == name[|name| - |suffix|..]
    ensures name == prefix + name[|prefix|..|name| - |suffix|] + suffix
  {
  }

  lemma Ends(prefix: string, middle: string, suffix: string)
    ensures var name := prefix + middle + suffix;
      name[..|prefix|] == prefix && name[|name| - |suffix|..] == suffix
  {
  }

  /** Without a star, only the pattern itself matches. */
  lemma MatchesNoStar(pattern: string, name: string)
    requires '*' !in pattern
    ensures Matches(pattern, name) <==> pattern == name
  {
    SplitNone(pattern);
  }

  /** With one star, a name matches exactly when it is the prefix, any text and the suffix. */
  lemma MatchesOneStar(prefix: string, suffix: string, name: string)
    requires '*' !in prefix && '*' !in suffix
    ensures Matches(prefix + "*" + suffix, name) <==> exists middle: string :: name == prefix + middle + suffix
  {
    SplitUnique(prefix, suffix);
    if Matches(prefix + "*" + suffix, name) {
      NoStarMeansEqual(suffix, name[|name| - |suffix|..]);
      Middle(prefix, suffix, name);
    }
    if exists middle: string :: name == prefix + middle + suffix {
      var middle: string :| name == prefix + middle + suffix;
      Ends(prefix, middle, suffix);
      NoStarMeansEqual(suffix, suffix);
    }
  }

  lemma {:induction false} SplitUnique(prefix: string, suffix: string)
    requires '*' !in prefix
    ensures SplitAtStar(prefix + "*" + suffix) == Some((prefix, suffix))
  {
    var pattern := prefix + "*" + suffix;
    if prefix == [] {
      assert pattern[0] == '*' && pattern[1..] == suffix;
    } else {
      assert pattern[0] == prefix[0] && pattern[1..] == prefix[1..] + "*" + suffix;
      SplitUnique(prefix[1..], suffix);
      assert [pattern[0]] + prefix[1..] == prefix;
    }
  }

  lemma {:induction false} SplitNone(pattern: string)
    requires '*' !in pattern
    ensures SplitAtStar(pattern) == None
  {
    if pattern != [] {
      SplitNone(pattern[1..]);
    }
  }

  /** The matching loop over the rest of a pattern and of a name. */
  method MatchName(pattern: string, name: string) returns (matched: bool)
    ensures matched <==> Matches(pattern, name)
  {
    var p, n := pattern, name;
    ghost var starred := false;
    while true
      invariant !starred ==> (Matches(pattern, name) <==> Matches(p, n))
      invariant starred ==> |p| == |n| && (Matches(pattern, name) <==> MatchesEach(p, n))
      decreases |p|, |n|
    {
      if p != "" && p[0] == '*' {
        if |n| < |p| - 1 {
          return false;
        }
        n := n[|n| - (|p| - 1)..];
        p := p[1..];
        starred := true;
      } else if p == "" {
        return n == "";
      } else if n == "" || p[0] != n[0] {
        return false;
      } else {
        if !starred {
          MatchesTail(p, n);
        }
        p, n := p[1..], n[1..];
      }
    }
  }

  lemma MatchesTail(p: string, n: string)
    requires p != "" && n != "" && p[0] != '*' && p[0] == n[0]
    ensures Matches(p, n) <==> Matches(p[1..], n[1..])
  {
    match SplitAtStar(p[1..])
    case None =>
      assert p == [p[0]] + p[1..] && n == [n[0]] + n[1..];
    case Some((prefix, suffix)) => SplitTail(prefix, suffix, p[0], n);
  }

  lemma SplitTail(prefix: string, suffix: string, c: char, n: string)
    requires n != "" && n[0] == c
    ensures MatchesSplit([c] + prefix, suffix, n) <==> MatchesSplit(prefix, suffix, n[1..])
  {
    if |prefix| + 1 + |suffix| <= |n| {
      PrefixTail(prefix, c, n);
      SuffixTail(n, |suffix|);
    }
  }

  lemma PrefixTail(prefix: string, c: char, n: string)
    requires |prefix| < |n| && n[0] == c
    ensures [c] + prefix == n[..|prefix| + 1] <==> prefix == n[1..][..|prefix|]
  {
    assert n[..|prefix| + 1] == [c] + n[1..][..|prefix|];
    assert ([c] + prefix)[1..] == prefix && ([c] + n[1..][..|prefix|])[1..] == n[1..][..|prefix|];
  }

  lemma SuffixTail(n: string, k: nat)
    requires k < |n|
    ensures n[1..][|n| - 1 - k..] == n[|n| - k..]
  {
  }

  // ---------- Which flag a feature belongs to ----------

  /** The first flag from `j` on whose pattern matches, or -1. */
  function FlagFrom(flags: seq<Flag>, name: string, j: nat): (r: int)
    requires j <= |flags|
    ensures r == -1 || j <= r < |flags|
    ensures r >= 0 ==> Matches(flags[r].pattern, name)
    ensures forall i :: j <= i < (if r >= 0 then r else |flags|) ==> !Matches(flags[i].pattern, name)
    decreases |flags| - j
  {
    if j == |flags| then -1
    else if Matches(flags[j].pattern, name) then j
    else FlagFrom(flags, name, j + 1)
  }

  function FlagsOf(flags: seq<Flag>, names: seq<string>): (r: seq<int>)
    ensures |r| == |names|
  {
    seq(|names|, i requires 0 <= i < |names| => FlagFrom(flags, names[i], 0))
  }

  /** The inner loop: the first flag whose pattern matches, which is counted, or -1. */
  method FindFlag(flags: seq<Flag>, name: string, matched: array<nat>) returns (r: int)
    requires matched.Length == |flags|
    modifies matched
    ensures r == FlagFrom(flags, name, 0)
    ensures forall l :: 0 <= l < |flags| ==> matched[l] == old(matched[l]) + if l == r then 1 else 0
  {
    r := -1;
    var j := 0;
    while j < |flags| && r < 0
      invariant 0 <= j <= |flags|
      invariant FlagFrom(flags, name, 0) == (if r == -1 then FlagFrom(flags, name, j) else r) && r >= -1
      invariant forall l :: 0 <= l < |flags| ==> matched[l] == old(matched[l]) + if l == r then 1 else 0
    {
      var m := MatchName(flags[j].pattern, name);
      if m {
        r := j;
        matched[j] := matched[j] + 1;
      }
      j := j + 1;
    }
  }

  /** The features' flags, and for each flag the number of features that it was given. */
  method FeatureDefs(flags: seq<Flag>, names: seq<string>) returns (flagIndex: seq<int>, matched: array<nat>)
    ensures fresh(matched) && matched.Length == |flags|
    ensures flagIndex == FlagsOf(flags, names)
    ensures forall j :: 0 <= j < |flags| ==> matched[j] == multiset(flagIndex)[j]
  {
    flagIndex := [];
    matched := new nat[|flags|](_ => 0);
    var i := 0;
    while i < |names|
      invariant 0 <= i == |flagIndex| <= |names|
      invariant forall k :: 0 <= k < i ==> flagIndex[k] == FlagFrom(flags, names[k], 0)
      invariant forall j :: 0 <= j < |flags| ==> matched[j] == multiset(flagIndex)[j]
    {
      var r := FindFlag(flags, names[i], matched);
      flagIndex := flagIndex + [r];
      i := i + 1;
    }
  }

  // ---------- Feature words ----------

  /** The bit of feature `i` in an array of 32-bit words. */
  predicate IsSet(words: seq<uint32>, i: nat) {
    i / 32 < |words| && Bit(words[i / 32], i % 32)
  }

  function SetBit(words: seq<uint32>, i: nat): (r: seq<uint32>)
    requires i / 32 < |words|
    ensures |r| == |words|
  {
    words[i / 32 := Or(words[i / 32], Pow2(i % 32))]
  }

  lemma SetBitIs(words: seq<uint32>, i: nat, k: nat)
    requires i / 32 < |words|
    ensures IsSet(SetBit(words, i), k) <==> IsSet(words, k) || k == i
  {
    if k / 32 == i / 32 {
      OrBit(words[i / 32], Pow2(i % 32), k % 32);
      Pow2Bit(i % 32, k % 32);
    }
  }

  lemma OrFlag(word: nat, j: nat, k: nat)
    requires j < 32 && k < 32
    ensures Bit(Or(word, Pow2(j)), k) <==> Bit(word, k) || k == j
  {
    OrBit(word, Pow2(j), k);
    Pow2Bit(j, k);
  }

  // ---------- The command line ----------

  /** What an argument names: a legacy flag, or a feature by its own name. */
  datatype Target = Legacy(flag: nat) | Feature(feature: nat)

  datatype Choice = Choice(target: Target, on: bool)

  function IndexFrom(names: seq<string>, name: string, i: nat): (r: Option<nat>)
    requires i <= |names|
    ensures r.Some? ==> i <= r.value < |names| && names[r.value] == name
    ensures forall l :: i <= l < (if r.Some? then r.value else |names|) ==> names[l] != name
    decreases |names| - i
  {
    if i == |names| then None
    else if names[i] == name then Some(i)
    else IndexFrom(names, name, i + 1)
  }

  function FlagNames(flags: seq<Flag>): (r: seq<string>)
    ensures |r| == |flags| && forall i :: 0 <= i < |flags| ==> r[i] == flags[i].name
  {
    seq(|flags|, i requires 0 <= i < |flags| => flags[i].name)
  }

  /** The first flag of that name. */
  ghost predicate IsFlag(flags: seq<Flag>, name: string, j: nat) {
    j < |flags| && flags[j].name == name && forall l :: 0 <= l < j ==> flags[l].name != name
  }

  /** The first feature of that name, which no flag has. */
  ghost predicate IsFeature(flags: seq<Flag>, names: seq<string>, name: string, j: nat) {
    && j < |names| && names[j] == name && (forall l :: 0 <= l < j ==> names[l] != name)
    && forall l :: 0 <= l < |flags| ==> flags[l].name != name
  }

  lemma IndexMeans(flags: seq<Flag>, names: seq<string>, name: string, r: Option<nat>)
    requires r == IndexFrom(FlagNames(flags) + names, name, 0)
    ensures r.Some? && r.value < |flags| ==> IsFlag(flags, name, r.value)
    ensures r.Some? && r.value >= |flags| ==> IsFeature(flags, names, name, r.value - |flags|)
    ensures r.None? ==> name !in names && forall l :: 0 <= l < |flags| ==> flags[l].name != name
  {
    var infos := FlagNames(flags) + names;
    assert forall l :: 0 <= l < |flags| ==> infos[l] == flags[l].name;
    assert forall l :: 0 <= l < |names| ==> names[l] == infos[|flags| + l];
  }

  /** Legacy names come first, so they hide features of the same name. */
  function TargetOf(flags: seq<Flag>, names: seq<string>, name: string): (t: Option<Target>)
    ensures t.Some? && t.value.Legacy? ==> IsFlag(flags, name, t.value.flag)
    ensures t.Some? && t.value.Feature? ==> IsFeature(flags, names, name, t.value.feature)
    ensures t.None? ==> name !in names && forall l :: 0 <= l < |flags| ==> flags[l].name != name
  {
    var r := IndexFrom(FlagNames(flags) + names, name, 0);
    IndexMeans(flags, names, name, r);
    match r
    case None => None
    case Some(i) => Some(if i < |flags| then Legacy(i) else Feature(i - |flags|))
  }

  /** The choices of a command line of "name on" and "name off" pairs, or None for one that is
      malformed. */
  function Choices(flags: seq<Flag>, names: seq<string>, args: seq<string>): (cs: Option<seq<Choice>>) {
    if args == [] then Some([])
    else
      match TargetOf(flags, names, args[0])
      case None => None
      case Some(t) =>
        if |args| < 2 || (args[1] != "on" && args[1] != "off") then None
        else
          match Choices(flags, names, args[2..])
          case None => None
          case Some(rest) => Some([Choice(t, args[1] == "on")] + rest)
  }

  ghost predicate Named(cs: seq<Choice>, t: Target) {
    exists i :: 0 <= i < |cs| && cs[i].target == t
  }

  ghost predicate TurnedOn(cs: seq<Choice>, t: Target) {
    Choice(t, true) in cs
  }

  predicate GoodFlags(flags: seq<Flag>) {
    && (forall i :: 0 <= i < |flags| ==> flags[i].bit < 32)
    && (forall i, j :: 0 <= i < j < |flags| ==> flags[i].bit != flags[j].bit)
  }

  /** The masks of the legacy flags and of the features that a command asks for. */
  class Request {
    var offWanted: uint32
    var offMask: uint32
    var valid: seq<uint32>
    var requested: seq<uint32>

    constructor (n: nat)
      ensures offWanted == 0 && offMask == 0
      ensures valid == requested == seq((n + 31) / 32, _ => 0)
    {
      offWanted, offMask := 0, 0;
      valid, requested := seq((n + 31) / 32, _ => 0), seq((n + 31) / 32, _ => 0);
    }

    /** The masks hold exactly the given choices: a target is marked when it was named, and
        wanted when it was turned on at least once. */
    ghost predicate Holds(flags: seq<Flag>, n: nat, cs: seq<Choice>)
      requires GoodFlags(flags)
      reads this
    {
      && |valid| == |requested| == (n + 31) / 32
      && (forall j {:trigger flags[j]} :: 0 <= j < |flags| ==>
            && (Bit(offMask, flags[j].bit) <==> Named(cs, Legacy(j)))
            && (Bit(offWanted, flags[j].bit) <==> TurnedOn(cs, Legacy(j))))
      && (forall j: nat {:trigger IsSet(valid, j)} {:trigger IsSet(requested, j)} :: j < n ==>
            && (IsSet(valid, j) <==> Named(cs, Feature(j)))
            && (IsSet(requested, j) <==> TurnedOn(cs, Feature(j))))
    }

    /** The target is requested on. */
    predicate Wants(flags: seq<Flag>, t: Target)
      requires t.Legacy? ==> t.flag < |flags|
      reads this
    {
      match t
      case Legacy(j) => Bit(offWanted, flags[j].bit)
      case Feature(j) => IsSet(requested, j)
    }

    lemma WantsTurnedOn(flags: seq<Flag>, n: nat, cs: seq<Choice>, t: Target)
      requires GoodFlags(flags) && Holds(flags, n, cs)
      requires match t case Legacy(j) => j < |flags| case Feature(j) => j < n
      ensures Wants(flags, t) <==> TurnedOn(cs, t)
    {
      if t.Legacy? {
        var flag := flags[t.flag];
        assert Bit(offWanted, flag.bit) <==> TurnedOn(cs, Legacy(t.flag));
      }
    }

    /** Marks what an argument names. */
    method Mark(flags: seq<Flag>, ghost n: nat, t: Target, on: bool, ghost cs: seq<Choice>)
      requires GoodFlags(flags) && Holds(flags, n, cs)
      requires match t case Legacy(j) => j < |flags| case Feature(j) => j < n
      modifies this
      ensures Holds(flags, n, cs + [Choice(t, on)])
    {
      ghost var cs' := cs + [Choice(t, on)];
      NamedSnoc(cs, t, on);
      match t {
        case Legacy(j) =>
          forall k | 0 <= k < |flags|
            ensures Bit(Or(offMask, Pow2(flags[j].bit)), flags[k].bit) <==> Bit(offMask, flags[k].bit) || k == j
            ensures Bit(Or(offWanted, Pow2(flags[j].bit)), flags[k].bit) <==> Bit(offWanted, flags[k].bit) || k == j
          {
            OrFlag(offMask, flags[j].bit, flags[k].bit);
            OrFlag(offWanted, flags[j].bit, flags[k].bit);
          }
          offMask := Or(offMask, Pow2(flags[j].bit));
          if on {
            offWanted := Or(offWanted, Pow2(flags[j].bit));
          }
        case Feature(j) =>
          forall k: nat
            ensures IsSet(SetBit(valid, j), k) <==> IsSet(valid, k) || k == j
            ensures IsSet(SetBit(requested, j), k) <==> IsSet(requested, k) || k == j
          {
            SetBitIs(valid, j, k);
            SetBitIs(requested, j, k);
          }
          valid := SetBit(valid, j);
          if on {
            requested := SetBit(requested, j);
          }
      }
    }
  }

  lemma NamedSnoc(cs: seq<Choice>, t: Target, on: bool)
    ensures forall u :: Named(cs + [Choice(t, on)], u) <==> Named(cs, u) || u == t
    ensures forall u :: TurnedOn(cs + [Choice(t, on)], u) <==> TurnedOn(cs, u) || (u == t && on)
  {
    var cs' := cs + [Choice(t, on)];
    assert cs'[|cs|] == Choice(t, on);
    forall u ensures Named(cs', u) <==> Named(cs, u) || u == t {
      if Named(cs, u) {
        var i :| 0 <= i < |cs| && cs[i].target == u;
        assert cs'[i].target == u;
      }
    }
  }

  lemma ChoicesAt(flags: seq<Flag>, names: seq<string>, args: seq<string>, i: nat)
    requires i < |args|
    ensures Choices(flags, names, args[i..]) ==
      match TargetOf(flags, names, args[i])
      case None => None
      case Some(t) =>
        if i + 1 >= |args| || (args[i + 1] != "on" && args[i + 1] != "off") then None
        else Prepend([Choice(t, args[i + 1] == "on")], Choices(flags, names, args[i + 2..]))
  {
    assert i + 1 < |args| ==> args[i..][2..] == args[i + 2..];
  }

  /** The parser of "name on" and "name off" pairs: it fails on exactly the malformed command
      lines, and otherwise leaves the masks of the choices made. */
  method ParseCommandLine(flags: seq<Flag>, names: seq<string>, args: seq<string>) returns (ok: bool, req: Request)
    requires GoodFlags(flags)
    ensures fresh(req)
    ensures ok <==> Choices(flags, names, args).Some?
    ensures ok ==> req.Holds(flags, |names|, Choices(flags, names, args).value)
  {
    req := new Request(|names|);
    EmptyMasks(req, flags, |names|);
    ghost var cs: seq<Choice> := [];
    var i := 0;
    assert args[0..] == args;
    PrependNone(Choices(flags, names, args));
    while i < |args|
      invariant 0 <= i <= |args| && req.Holds(flags, |names|, cs)
      invariant Choices(flags, names, args) == Prepend(cs, Choices(flags, names, args[i..]))
    {
      var found, choice := ReadChoice(flags, names, args, i);
      if !found {
        return false, req;
      }
      req.Mark(flags, |names|, choice.target, choice.on, cs);
      PrependSnoc(cs, choice, Choices(flags, names, args[i + 2..]));
      cs, i := cs + [choice], i + 2;
    }
    assert args[i..] == [];
    assert cs + [] == cs;
    return true, req;
  }

  /** Looks up the name in argument `i` and reads the value after it. */
  method ReadChoice(flags: seq<Flag>, names: seq<string>, args: seq<string>, i: nat) returns (ok: bool, choice: Choice)
    requires i < |args|
    ensures !ok ==> Choices(flags, names, args[i..]) == None
    ensures ok ==> i + 2 <= |args|
    ensures ok ==> match choice.target case Legacy(j) => j < |flags| case Feature(j) => j < |names|
    ensures ok ==> Choices(flags, names, args[i..]) == Prepend([choice], Choices(flags, names, args[i + 2..]))
  {
    ChoicesAt(flags, names, args, i);
    choice := Choice(Legacy(0), false);
    var found := FindInfo(FlagNames(flags) + names, args[i]);
    if found < 0 {
      return false, choice;
    }
    if i + 1 >= |args| || (args[i + 1] != "on" && args[i + 1] != "off") {
      return false, choice;
    }
    choice := Choice(if found < |flags| then Legacy(found) else Feature(found - |flags|), args[i + 1] == "on");
    return true, choice;
  }

  function Prepend(cs: seq<Choice>, rest: Option<seq<Choice>>): (r: Option<seq<Choice>>) {
    match rest
    case None => None
    case Some(ds) => Some(cs + ds)
  }

  lemma PrependNone(rest: Option<seq<Choice>>)
    ensures Prepend([], rest) == rest
  {
    if rest.Some? {
      assert [] + rest.value == rest.value;
    }
  }

  lemma PrependSnoc(cs: seq<Choice>, c: Choice, rest: Option<seq<Choice>>)
    ensures Prepend(cs, Prepend([c], rest)) == Prepend(cs + [c], rest)
  {
    if rest.Some? {
      assert cs + ([c] + rest.value) == cs + [c] + rest.value;
    }
  }

  /** The first entry with the given name. */
  method FindInfo(infos: seq<string>, name: string) returns (found: int)
    ensures found == match IndexFrom(infos, name, 0) case None => -1 case Some(i) => i
  {
    var idx := 0;
    while idx < |infos|
      invariant 0 <= idx <= |infos| && IndexFrom(infos, name, 0) == IndexFrom(infos, name, idx)
    {
      if infos[idx] == name {
        return idx;
      }
      idx := idx + 1;
    }
    return -1;
  }

  lemma EmptyMasks(req: Request, flags: seq<Flag>, n: nat)
    requires GoodFlags(flags) && req.offMask == 0 && req.offWanted == 0
    requires req.valid == req.requested == seq((n + 31) / 32, _ => 0)
    ensures req.Holds(flags, n, [])
  {
    forall k ensures !Bit(0, k) {
      ZeroBit(k);
    }
  }

  // ---------- From legacy flags to features ----------

  /** The device can change the feature: it is available and not fixed. */
  predicate Changeable(available: seq<uint32>, fixed: seq<uint32>, j: nat) {
    IsSet(available, j) && !IsSet(fixed, j)
  }

  /** The feature is changeable and stands for a legacy flag that the user named. */
  ghost predicate Implied(flagIndex: seq<int>, available: seq<uint32>, fixed: seq<uint32>, cs: seq<Choice>, j: nat)
    requires j < |flagIndex|
  {
    flagIndex[j] >= 0 && Named(cs, Legacy(flagIndex[j])) && Changeable(available, fixed, j)
  }

  /** Feature `j`'s bits when the flags before `i`, and flag `i` for the features before `jj`,
      have been followed. */
  ghost predicate Followed(valid: bool, requested: bool, flagIndex: seq<int>, available: seq<uint32>,
                           fixed: seq<uint32>, cs: seq<Choice>, i: nat, jj: nat, j: nat)
    requires j < |flagIndex|
  {
    var implied := (flagIndex[j] < i || (flagIndex[j] == i && j < jj)) && Implied(flagIndex, available, fixed, cs, j);
    && (valid <==> Named(cs, Feature(j)) || implied)
    && (requested <==>
         if Named(cs, Feature(j)) then TurnedOn(cs, Feature(j))
         else implied && TurnedOn(cs, Legacy(flagIndex[j])))
  }

  /** The masks at that time. */
  ghost predicate Expanded(valid: seq<uint32>, requested: seq<uint32>, flagIndex: seq<int>, available: seq<uint32>,
                           fixed: seq<uint32>, cs: seq<Choice>, i: nat, jj: nat)
  {
    && |valid| == |requested| == (|flagIndex| + 31) / 32
    && forall j: nat {:trigger flagIndex[j]} :: j < |flagIndex| ==>
         Followed(IsSet(valid, j), IsSet(requested, j), flagIndex, available, fixed, cs, i, jj, j)
  }

  /** No feature of the flag, among the first `jj`, can be changed. */
  ghost predicate AllFixed(flagIndex: seq<int>, available: seq<uint32>, fixed: seq<uint32>, i: nat, jj: nat)
    requires jj <= |flagIndex|
  {
    forall j :: 0 <= j < jj && flagIndex[j] == i ==> !Changeable(available, fixed, j)
  }

  /** The body of the inner loop, for a flag that the user named. */
  method FollowFlag(flags: seq<Flag>, flagIndex: seq<int>, available: seq<uint32>, fixed: seq<uint32>,
                    req: Request, i: nat, j: nat, ghost cs: seq<Choice>) returns (changeable: bool)
    requires GoodFlags(flags) && i < |flags| && j < |flagIndex| && Named(cs, Legacy(i))
    requires Bit(req.offWanted, flags[i].bit) <==> TurnedOn(cs, Legacy(i))
    requires Expanded(req.valid, req.requested, flagIndex, available, fixed, cs, i, j)
    modifies req
    ensures req.offMask == old(req.offMask) && req.offWanted == old(req.offWanted)
    ensures Expanded(req.valid, req.requested, flagIndex, available, fixed, cs, i, j + 1)
    ensures changeable <==> flagIndex[j] == i && Changeable(available, fixed, j)
  {
    changeable := !(flagIndex[j] != i || !IsSet(available, j) || IsSet(fixed, j));
    ghost var valid, requested := req.valid, req.requested;
    assert Followed(IsSet(valid, j), IsSet(requested, j), flagIndex, available, fixed, cs, i, j, j);
    if changeable && !IsSet(req.valid, j) {
      AndTest(req.offWanted, flags[i].bit);
      req.valid := SetBit(req.valid, j);
      if And(req.offWanted, Pow2(flags[i].bit)) != 0 {
        req.requested := SetBit(req.requested, j);
      }
    }
    forall k: nat | k < |flagIndex|
      ensures Followed(IsSet(req.valid, k), IsSet(req.requested, k), flagIndex, available, fixed, cs, i, j + 1, k)
    {
      SetBitIs(valid, j, k);
      SetBitIs(requested, j, k);
      assert Followed(IsSet(valid, k), IsSet(requested, k), flagIndex, available, fixed, cs, i, j, k);
      if k != j {
        FollowedOther(IsSet(valid, k), IsSet(requested, k), flagIndex, available, fixed, cs, i, j, k);
      }
    }
  }

  /** A step of the inner loop is over one feature only. */
  lemma FollowedOther(valid: bool, requested: bool, flagIndex: seq<int>, available: seq<uint32>,
                      fixed: seq<uint32>, cs: seq<Choice>, i: nat, jj: nat, j: nat)
    requires j < |flagIndex| && j != jj && Followed(valid, requested, flagIndex, available, fixed, cs, i, jj, j)
    ensures Followed(valid, requested, flagIndex, available, fixed, cs, i, jj + 1, j)
  {
  }

  /** The inner loop, for a flag that the user named. */
  method FollowAll(flags: seq<Flag>, flagIndex: seq<int>, available: seq<uint32>, fixed: seq<uint32>,
                   req: Request, i: nat, ghost cs: seq<Choice>) returns (allFixed: bool)
    requires GoodFlags(flags) && i < |flags| && Named(cs, Legacy(i))
    requires Bit(req.offWanted, flags[i].bit) <==> TurnedOn(cs, Legacy(i))
    requires Expanded(req.valid, req.requested, flagIndex, available, fixed, cs, i, 0)
    modifies req
    ensures req.offMask == old(req.offMask) && req.offWanted == old(req.offWanted)
    ensures Expanded(req.valid, req.requested, flagIndex, available, fixed, cs, i, |flagIndex|)
    ensures allFixed <==> AllFixed(flagIndex, available, fixed, i, |flagIndex|)
  {
    allFixed := true;
    var j: nat := 0;
    while j < |flagIndex|
      invariant j <= |flagIndex| && req.offMask == old(req.offMask) && req.offWanted == old(req.offWanted)
      invariant Expanded(req.valid, req.requested, flagIndex, available, fixed, cs, i, j)
      invariant allFixed <==> AllFixed(flagIndex, available, fixed, i, j)
    {
      var changeable := FollowFlag(flags, flagIndex, available, fixed, req, i, j, cs);
      if changeable {
        allFixed := false;
      }
      j := j + 1;
    }
  }

  lemma NextFlag(valid: seq<uint32>, requested: seq<uint32>, flagIndex: seq<int>, available: seq<uint32>,
                 fixed: seq<uint32>, cs: seq<Choice>, i: nat, jj: nat)
    requires Expanded(valid, requested, flagIndex, available, fixed, cs, i, jj)
    requires jj == |flagIndex| || !Named(cs, Legacy(i))
    ensures Expanded(valid, requested, flagIndex, available, fixed, cs, i + 1, 0)
  {
    forall j: nat | j < |flagIndex|
      ensures Followed(IsSet(valid, j), IsSet(requested, j), flagIndex, available, fixed, cs, i + 1, 0, j)
    {
      assert Followed(IsSet(valid, j), IsSet(requested, j), flagIndex, available, fixed, cs, i, jj, j);
      if flagIndex[j] == i {
        assert j < jj || !Named(cs, Legacy(flagIndex[j]));
      }
    }
  }

  /** The loop nest of `do_sfeatures`: every changeable feature of a named flag follows the
      flag, unless the user chose it by name.  `warned` lists the flags with nothing to change. */
  method Expand(flags: seq<Flag>, flagIndex: seq<int>, available: seq<uint32>, fixed: seq<uint32>,
                req: Request, ghost cs: seq<Choice>) returns (warned: seq<nat>)
    requires GoodFlags(flags) && req.Holds(flags, |flagIndex|, cs)
    requires forall j :: 0 <= j < |flagIndex| ==> -1 <= flagIndex[j] < |flags|
    modifies req
    ensures Expanded(req.valid, req.requested, flagIndex, available, fixed, cs, |flags|, 0)
    ensures forall i: nat :: i in warned <==>
      i < |flags| && Named(cs, Legacy(i)) && AllFixed(flagIndex, available, fixed, i, |flagIndex|)
  {
    warned := [];
    var i: nat := 0;
    forall j: nat | j < |flagIndex|
      ensures Followed(IsSet(req.valid, j), IsSet(req.requested, j), flagIndex, available, fixed, cs, 0, 0, j)
    {
    }
    while i < |flags|
      invariant i <= |flags| && req.offMask == old(req.offMask) && req.offWanted == old(req.offWanted)
      invariant Expanded(req.valid, req.requested, flagIndex, available, fixed, cs, i, 0)
      invariant forall k: nat :: k in warned <==>
        k < i && Named(cs, Legacy(k)) && AllFixed(flagIndex, available, fixed, k, |flagIndex|)
    {
      AndTest(req.offMask, flags[i].bit);
      assert old(Bit(req.offMask, flags[i].bit)) <==> Named(cs, Legacy(i));
      if And(req.offMask, Pow2(flags[i].bit)) != 0 {
        var allFixed := FollowAll(flags, flagIndex, available, fixed, req, i, cs);
        NextFlag(req.valid, req.requested, flagIndex, available, fixed, cs, i, |flagIndex|);
        if allFixed {
          warned := warned + [i];
        }
      } else {
        NextFlag(req.valid, req.requested, flagIndex, available, fixed, cs, i, 0);
      }
      i := i + 1;
    }
  }

  // ---------- The whole command ----------

  /** The command line has the pair of this name and this value. */
  ghost predicate Says(args: seq<string>, name: string, value: string) {
    exists i :: 0 <= i < |args| - 1 && i % 2 == 0 && args[i] == name && args[i + 1] == value
  }

  function OnOff(on: bool): (value: string) {
    if on then "on" else "off"
  }

  /** The k-th choice is the k-th pair. */
  ghost predicate ChosenAt(flags: seq<Flag>, names: seq<string>, args: seq<string>, cs: seq<Choice>, k: nat)
    requires k < |cs| && 2 * |cs| == |args|
  {
    TargetOf(flags, names, args[2 * k]) == Some(cs[k].target) && args[2 * k + 1] == OnOff(cs[k].on)
  }

  lemma {:induction false} ChoicesAre(flags: seq<Flag>, names: seq<string>, args: seq<string>, cs: seq<Choice>)
    requires Choices(flags, names, args) == Some(cs)
    ensures 2 * |cs| == |args| && forall k :: 0 <= k < |cs| ==> ChosenAt(flags, names, args, cs, k)
  {
    if args != [] {
      ChoicesAre(flags, names, args[2..], cs[1..]);
      forall k | 0 <= k < |cs| ensures ChosenAt(flags, names, args, cs, k) {
        if k > 0 {
          assert ChosenAt(flags, names, args[2..], cs[1..], k - 1);
          assert args[2..][2 * (k - 1)] == args[2 * k] && args[2..][2 * (k - 1) + 1] == args[2 * k + 1];
        }
      }
    }
  }

  /** Names at the even places, "on" or "off" after each. */
  ghost predicate WellFormed(flags: seq<Flag>, names: seq<string>, args: seq<string>) {
    && |args| % 2 == 0
    && forall i :: 0 <= i < |args| ==>
         if i % 2 == 0 then args[i] in FlagNames(flags) || args[i] in names else args[i] == "on" || args[i] == "off"
  }

  lemma TargetFound(flags: seq<Flag>, names: seq<string>, name: string)
    ensures TargetOf(flags, names, name).Some? <==> name in FlagNames(flags) || name in names
  {
  }

  lemma {:induction false} ChoicesExist(flags: seq<Flag>, names: seq<string>, args: seq<string>)
    ensures Choices(flags, names, args).Some? <==> WellFormed(flags, names, args)
  {
    if args != [] {
      TargetFound(flags, names, args[0]);
      if |args| >= 2 {
        ChoicesExist(flags, names, args[2..]);
        WellFormedStep(flags, names, args);
      }
    }
  }

  lemma WellFormedStep(flags: seq<Flag>, names: seq<string>, args: seq<string>)
    requires |args| >= 2
    ensures WellFormed(flags, names, args) <==>
      && (args[0] in FlagNames(flags) || args[0] in names) && (args[1] == "on" || args[1] == "off")
      && WellFormed(flags, names, args[2..])
  {
    if WellFormed(flags, names, args[2..]) {
      forall i | 2 <= i < |args|
        ensures if i % 2 == 0 then args[i] in FlagNames(flags) || args[i] in names
                else args[i] == "on" || args[i] == "off"
      {
        assert args[i] == args[2..][i - 2];
      }
    }
  }

  /** A target is chosen when the command line says so of its name. */
  lemma SaidIsChosen(flags: seq<Flag>, names: seq<string>, args: seq<string>, cs: seq<Choice>,
                     name: string, t: Target, on: bool)
    requires Choices(flags, names, args) == Some(cs) && TargetOf(flags, names, name) == Some(t)
    ensures Says(args, name, OnOff(on)) <==> Choice(t, on) in cs
  {
    ChoicesAre(flags, names, args, cs);
    if Says(args, name, OnOff(on)) {
      var i :| 0 <= i < |args| - 1 && i % 2 == 0 && args[i] == name && args[i + 1] == OnOff(on);
      assert ChosenAt(flags, names, args, cs, i / 2);
      assert cs[i / 2] == Choice(t, on);
    }
    if Choice(t, on) in cs {
      var k :| 0 <= k < |cs| && cs[k] == Choice(t, on);
      assert ChosenAt(flags, names, args, cs, k);
      SameTarget(flags, names, args[2 * k], name, t);
      assert args[2 * k] == name && args[2 * k + 1] == OnOff(on);
    }
  }

  lemma SameTarget(flags: seq<Flag>, names: seq<string>, name: string, name': string, t: Target)
    requires TargetOf(flags, names, name) == Some(t) && TargetOf(flags, names, name') == Some(t)
    ensures name == name'
  {
  }

  /** The command line chooses a value for this name. */
  ghost predicate Chooses(args: seq<string>, name: string) {
    Says(args, name, "on") || Says(args, name, "off")
  }

  lemma ChoosesIsNamed(flags: seq<Flag>, names: seq<string>, args: seq<string>, cs: seq<Choice>,
                       name: string, t: Target)
    requires Choices(flags, names, args) == Some(cs) && TargetOf(flags, names, name) == Some(t)
    ensures Chooses(args, name) <==> Named(cs, t)
    ensures Says(args, name, "on") <==> TurnedOn(cs, t)
  {
    SaidIsChosen(flags, names, args, cs, name, t, true);
    SaidIsChosen(flags, names, args, cs, name, t, false);
    if Named(cs, t) {
      var i :| 0 <= i < |cs| && cs[i].target == t;
      assert cs[i] == Choice(t, cs[i].on);
    }
    if on: bool :| Choice(t, on) in cs {
      var i :| 0 <= i < |cs| && cs[i] == Choice(t, on);
      assert cs[i].target == t;
    }
  }

  lemma OwnTargets(flags: seq<Flag>, names: seq<string>)
    requires Distinct(FlagNames(flags) + names)
    ensures forall i :: 0 <= i < |flags| ==> TargetOf(flags, names, flags[i].name) == Some(Legacy(i))
    ensures forall j :: 0 <= j < |names| ==> TargetOf(flags, names, names[j]) == Some(Feature(j))
  {
    var infos := FlagNames(flags) + names;
    forall i | 0 <= i < |flags| ensures TargetOf(flags, names, flags[i].name) == Some(Legacy(i)) {
      assert infos[i] == flags[i].name;
      IndexFound(infos, flags[i].name, 0, i);
    }
    forall j | 0 <= j < |names| ensures TargetOf(flags, names, names[j]) == Some(Feature(j)) {
      assert infos[|flags| + j] == names[j];
      IndexFound(infos, names[j], 0, |flags| + j);
    }
  }

  /** The bits of feature `j` in the request, by what the command line says: its own choice if
      there is one, and else that of the first flag whose pattern it matches, if the device can
      change it. */
  ghost predicate AsAsked(valid: bool, requested: bool, flags: seq<Flag>, name: string, args: seq<string>,
                          changeable: bool)
  {
    var f := FlagFrom(flags, name, 0);
    var follows := f >= 0 && Chooses(args, flags[f].name) && changeable;
    && (valid <==> Chooses(args, name) || follows)
    && (requested <==>
         if Chooses(args, name) then Says(args, name, "on") else follows && Says(args, flags[f].name, "on"))
  }

  lemma ExpandedAsAsked(valid: seq<uint32>, requested: seq<uint32>, flags: seq<Flag>, names: seq<string>,
                        args: seq<string>, available: seq<uint32>, fixed: seq<uint32>, cs: seq<Choice>, j: nat)
    requires Distinct(FlagNames(flags) + names) && Choices(flags, names, args) == Some(cs) && j < |names|
    requires Expanded(valid, requested, FlagsOf(flags, names), available, fixed, cs, |flags|, 0)
    ensures AsAsked(IsSet(valid, j), IsSet(requested, j), flags, names[j], args,
                    IsSet(available, j) && !IsSet(fixed, j))
  {
    var flagIndex := FlagsOf(flags, names);
    var f := flagIndex[j];
    OwnTargets(flags, names);
    ChoosesIsNamed(flags, names, args, cs, names[j], Feature(j));
    if f >= 0 {
      ChoosesIsNamed(flags, names, args, cs, flags[f].name, Legacy(f));
    }
    assert Followed(IsSet(valid, j), IsSet(requested, j), flagIndex, available, fixed, cs, |flags|, 0, j);
  }

  /** The flags that cannot be changed: all features for which they are the first flag that
      matches are missing or fixed. */
  ghost predicate Stuck(flags: seq<Flag>, names: seq<string>, available: seq<uint32>, fixed: seq<uint32>, i: nat) {
    forall j :: 0 <= j < |names| && FlagFrom(flags, names[j], 0) == i ==> !IsSet(available, j) || IsSet(fixed, j)
  }

  lemma WarnedStuck(flags: seq<Flag>, names: seq<string>, args: seq<string>,
                    available: seq<uint32>, fixed: seq<uint32>, cs: seq<Choice>, i: nat)
    requires Distinct(FlagNames(flags) + names) && Choices(flags, names, args) == Some(cs) && i < |flags|
    ensures Named(cs, Legacy(i)) && AllFixed(FlagsOf(flags, names), available, fixed, i, |names|)
      <==> Chooses(args, flags[i].name) && Stuck(flags, names, available, fixed, i)
  {
    OwnTargets(flags, names);
    ChoosesIsNamed(flags, names, args, cs, flags[i].name, Legacy(i));
    assert forall j {:trigger names[j]} :: 0 <= j < |names| ==>
      FlagsOf(flags, names)[j] == FlagFrom(flags, names[j], 0);
  }

  /** The request and the warnings of a command on a device that names its features. */
  ghost predicate Answers(valid: seq<uint32>, requested: seq<uint32>, warned: seq<nat>, flags: seq<Flag>,
                          names: seq<string>, args: seq<string>, available: seq<uint32>, fixed: seq<uint32>)
  {
    && (forall j: nat {:trigger names[j]} :: j < |names| ==>
          AsAsked(IsSet(valid, j), IsSet(requested, j), flags, names[j], args,
                  IsSet(available, j) && !IsSet(fixed, j)))
    && (forall i: nat :: i in warned <==>
          i < |flags| && Chooses(args, flags[i].name) && Stuck(flags, names, available, fixed, i))
  }

  /** The whole command up to the request to the device.  `ok` is false for a malformed command
      line; without arguments there is nothing to send.  On a device that names its features,
      the legacy flags are followed to them; on another the flags' masks are all there is. */
  method SetFeatures(flags: seq<Flag>, names: seq<string>, args: seq<string>,
                     available: seq<uint32>, fixed: seq<uint32>)
    returns (ok: bool, req: Request, warned: seq<nat>)
    requires GoodFlags(flags)
    ensures ok <==> WellFormed(flags, names, args)
    ensures ok <==> Choices(flags, names, args).Some?
    ensures ok && args != [] && names != [] ==> var cs := Choices(flags, names, args).value;
      && Expanded(req.valid, req.requested, FlagsOf(flags, names), available, fixed, cs, |flags|, 0)
      && forall i: nat :: i in warned <==>
           i < |flags| && Named(cs, Legacy(i)) && AllFixed(FlagsOf(flags, names), available, fixed, i, |names|)
    ensures ok && args != [] && names != [] && Distinct(FlagNames(flags) + names) ==>
      Answers(req.valid, req.requested, warned, flags, names, args, available, fixed)
    ensures ok && (args == [] || names == []) ==>
      warned == [] && req.Holds(flags, |names|, Choices(flags, names, args).value)
  {
    warned := [];
    ChoicesExist(flags, names, args);
    var flagIndex, _ := FeatureDefs(flags, names);
    ok, req := ParseCommandLine(flags, names, args);
    if ok && args != [] && names != [] {
      ghost var cs := Choices(flags, names, args).value;
      warned := Expand(flags, flagIndex, available, fixed, req, cs);
      AnswersAre(req.valid, req.requested, warned, flags, names, args, available, fixed, cs);
    }
  }

  lemma AnswersAre(valid: seq<uint32>, requested: seq<uint32>, warned: seq<nat>, flags: seq<Flag>, names: seq<string>,
                   args: seq<string>, available: seq<uint32>, fixed: seq<uint32>, cs: seq<Choice>)
    requires Choices(flags, names, args) == Some(cs)
    requires Expanded(valid, requested, FlagsOf(flags, names), available, fixed, cs, |flags|, 0)
    requires forall i: nat :: i in warned <==>
      i < |flags| && Named(cs, Legacy(i)) && AllFixed(FlagsOf(flags, names), available, fixed, i, |names|)
    ensures Distinct(FlagNames(flags) + names) ==>
      Answers(valid, requested, warned, flags, names, args, available, fixed)
  {
    if Distinct(FlagNames(flags) + names) {
      forall j: nat | j < |names|
        ensures AsAsked(IsSet(valid, j), IsSet(requested, j), flags, names[j], args,
                        IsSet(available, j) && !IsSet(fixed, j))
      {
        ExpandedAsAsked(valid, requested, flags, names, args, available, fixed, cs, j);
      }
      forall i: nat
        ensures i in warned <==>
          i < |flags| && Chooses(args, flags[i].name) && Stuck(flags, names, available, fixed, i)
      {
        if i < |flags| {
          WarnedStuck(flags, names, args, available, fixed, cs, i);
        }
      }
    }
  }

  /** Feature `i` is bit `i` of the number that the words make up. */
  lemma FeatureBit(words: seq<uint32>, i: nat)
    ensures IsSet(words, i) <==> Bit(HexBitmap.NumberOf(words), i)
  {
    QueueMask.NumberBits(words, i);
  }

  /** The features that a command asks the device to change are those the user chose and the
      implied ones; a chosen feature gets what the user asked for, an implied one what its flag
      was given, and nothing is requested of other features. */
  lemma ExpandedMeans(valid: seq<uint32>, requested: seq<uint32>, flags: seq<Flag>, flagIndex: seq<int>,
                      available: seq<uint32>, fixed: seq<uint32>, cs: seq<Choice>, j: nat)
    requires Expanded(valid, requested, flagIndex, available, fixed, cs, |flags|, 0)
    requires j < |flagIndex| && -1 <= flagIndex[j] < |flags|
    ensures IsSet(valid, j) <==> Named(cs, Feature(j)) || Implied(flagIndex, available, fixed, cs, j)
    ensures IsSet(requested, j) ==> IsSet(valid, j)
    ensures Named(cs, Feature(j)) ==> (IsSet(requested, j) <==> TurnedOn(cs, Feature(j)))
    ensures IsSet(valid, j) && !Named(cs, Feature(j)) ==>
      (IsSet(requested, j) <==> TurnedOn(cs, Legacy(flagIndex[j])))
  {
    assert Followed(IsSet(valid, j), IsSet(requested, j), flagIndex, available, fixed, cs, |flags|, 0, j);
    if TurnedOn(cs, Feature(j)) {
      var i :| 0 <= i < |cs| && cs[i] == Choice(Feature(j), true);
    }
  }

  // ---------- Choosing twice ----------

  ghost predicate LastIs(cs: seq<Choice>, t: Target, on: bool) {
    exists i :: 0 <= i < |cs| && cs[i] == Choice(t, on) && forall k :: i < k < |cs| ==> cs[k].target != t
  }

  /** Turning a target off does not undo an earlier "on" in the same command: the mask that the
      parser leaves has the last choice exactly when that is not an "off" after an "on". */
  lemma LastChoiceRespected(req: Request, flags: seq<Flag>, n: nat, cs: seq<Choice>, t: Target)
    requires GoodFlags(flags) && req.Holds(flags, n, cs)
    requires Named(cs, t) && match t case Legacy(j) => j < |flags| case Feature(j) => j < n
    ensures (req.Wants(flags, t) <==> LastIs(cs, t, true)) <==> !(Choice(t, true) in cs && LastIs(cs, t, false))
  {
    var i := LastChoice(cs, t);
    req.WantsTurnedOn(flags, n, cs, t);
  }

  lemma {:induction false} LastChoice(cs: seq<Choice>, t: Target) returns (i: nat)
    requires Named(cs, t)
    ensures i < |cs| && cs[i].target == t && forall k :: i < k < |cs| ==> cs[k].target != t
    ensures LastIs(cs, t, cs[i].on)
  {
    i := |cs| - 1;
    while cs[i].target != t
      invariant 0 <= i < |cs| && forall k :: i < k < |cs| ==> cs[k].target != t
      invariant exists k :: 0 <= k <= i && cs[k].target == t
      decreases i
    {
      i := i - 1;
    }
    assert cs[i] == Choice(t, cs[i].on);
  }

  /** The first entry of the given name is the one found. */
  lemma {:induction false} IndexFound(names: seq<string>, name: string, i: nat, k: nat)
    requires i <= k < |names| && names[k] == name && forall l :: i <= l < k ==> names[l] != name
    ensures IndexFrom(names, name, i) == Some(k)
    decreases k - i
  {
    if i < k {
      IndexFound(names, name, i + 1, k);
    }
  }

  /** No legacy flag is called "rx-gro". */
  lemma GroTarget()
    ensures TargetOf(OffFlags(), ["rx-gro"], "rx-gro") == Some(Feature(0))
  {
    var infos := FlagNames(OffFlags()) + ["rx-gro"];
    forall l | 0 <= l < 12 ensures infos[l] != "rx-gro" {
      assert infos[l] == FLAG_NAMES[l];
    }
    IndexFound(infos, "rx-gro", 0, 12);
  }

  /** "rx-gro on rx-gro off" is read as it is meant but leaves the feature requested. */
  lemma OffDoesNotUndoOn(req: Request)
    ensures var cs := [Choice(Feature(0), true), Choice(Feature(0), false)];
      && Choices(OffFlags(), ["rx-gro"], ["rx-gro", "on", "rx-gro", "off"]) == Some(cs)
      && LastIs(cs, Feature(0), false)
      && GoodFlags(OffFlags()) && (req.Holds(OffFlags(), 1, cs) ==> IsSet(req.requested, 0))
  {
    var args, cs := ["rx-gro", "on", "rx-gro", "off"], [Choice(Feature(0), true), Choice(Feature(0), false)];
    GroTarget();
    OffFlagsGood();
    assert args[2..] == ["rx-gro", "off"] && args[2..][2..] == [];
    assert Choices(OffFlags(), ["rx-gro"], []) == Some([]);
    assert [cs[1]] + [] == [cs[1]];
    assert Choices(OffFlags(), ["rx-gro"], args[2..]) == Some([cs[1]]);
    assert [cs[0]] + [cs[1]] == cs && cs[1] == Choice(Feature(0), false);
    if req.Holds(OffFlags(), 1, cs) {
      req.WantsTurnedOn(OffFlags(), 1, cs, Feature(0));
      assert cs[0] == Choice(Feature(0), true);
    }
  }

  /** The program's flags have single, distinct bits, as the loops above ask. */
  lemma OffFlagsGood()
    ensures GoodFlags(OffFlags())
  {
    assert forall i :: 0 <= i < 12 ==> FLAG_BITS[i] < 32;
    assert forall i, j :: 0 <= i < j < 12 ==> FLAG_BITS[i] != FLAG_BITS[j];
  }
}
