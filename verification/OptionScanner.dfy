/** The command-line scanner `tgetopt`, called once per option with its position in globals. */
module OptionScanner {
  import opened Wrappers

  datatype Kind = Unknown | Plain | Takes

  /** What the option string says of a letter: `strchr` finds its first occurrence, and a colon
      after it asks for an argument. */
  function KindOf(ostr: string, c: char): (kind: Kind)
    ensures kind == Unknown <==> c == ':' || c !in ostr
  {
    if c == ':' then Unknown else Lookup(ostr, c)
  }

  function Lookup(ostr: string, c: char): (kind: Kind)
    ensures kind == Unknown <==> c !in ostr
  {
    if ostr == [] then Unknown
    else if ostr[0] != c then Lookup(ostr[1..], c)
    else if |ostr| > 1 && ostr[1] == ':' then Takes
    else Plain
  }

  /** A letter is declared where it first stands; only what follows it there counts. */
  lemma {:induction false} DeclaredKind(pre: string, c: char, post: string)
    requires c != ':' && c !in pre
    ensures KindOf(pre + [c] + post, c) == if ":" <= post then Takes else Plain
  {
    var ostr := pre + [c] + post;
    if pre == "" {
      assert ostr[0] == c && ostr[1..] == post;
    } else {
      assert ostr[0] == pre[0] && ostr[1..] == pre[1..] + [c] + post;
      DeclaredKind(pre[1..], c, post);
    }
  }

  /** The option string declares the letter, with an argument or without. */
  ghost predicate Declares(ostr: string, c: char, takes: bool) {
    exists pre, post :: ostr == pre + [c] + post && c != ':' && c !in pre && (takes <==> ":" <= post)
  }

  lemma DeclaresKind(ostr: string, c: char, takes: bool)
    requires Declares(ostr, c, takes)
    ensures KindOf(ostr, c) == if takes then Takes else Plain
  {
    var pre, post :| ostr == pre + [c] + post && c != ':' && c !in pre && (takes <==> ":" <= post);
    DeclaredKind(pre, c, post);
  }

  // ---------- The scanner ----------

  datatype Event = Flag(c: char) | WithArg(c: char, arg: string) | Illegal(c: char) | NoArg(c: char)

  const EOF := -1
  const BADCH := '?' as int
  const BADARG := ':' as int

  predicate Silent(ostr: string) {
    ostr != [] && ostr[0] == ':'
  }

  /** The values of `toptind`, `toptopt`, `toptarg` and the scanning pointer; the last is the
      rest of the argument it points into. */
  datatype State = State(ind: nat, opt: char, arg: Option<string>, place: string)

  const START := State(1, '\0', None, "")

  /** What a caller sees of one call. */
  datatype Seen = Seen(code: int, opt: char, arg: Option<string>)

  function See(ostr: string, e: Event, arg: Option<string>): (seen: Seen) {
    match e
    case Flag(c) => Seen(c as int, c, None)
    case WithArg(c, a) => Seen(c as int, c, Some(a))
    case Illegal(c) => Seen(BADCH, c, arg)
    case NoArg(c) => Seen(if Silent(ostr) then BADARG else BADCH, c, arg)
  }

  /** What a caller sees of several calls; `toptarg` keeps its value over an error. */
  function SeeAll(ostr: string, es: seq<Event>, arg: Option<string>): (seen: seq<Seen>) {
    if es == [] then []
    else var s := See(ostr, es[0], arg); [s] + SeeAll(ostr, es[1..], s.arg)
  }

  /** The scanning pointer inside an argument belongs to the argument that `toptind` names. */
  predicate Consistent(argv: seq<string>, s: State) {
    s.place != "" ==> s.ind < |argv| && |s.place| < |argv[s.ind]|
  }

  /** The characters left in the current argument, all of them between arguments. */
  function CharsLeft(argv: seq<string>, s: State): (n: nat) {
    if s.place != "" then |s.place| else if s.ind < |argv| then |argv[s.ind]| else 0
  }

  // ---------- What a command line means ----------

  /** The options from argument `i` on, and where they end. */
  function Parse(argv: seq<string>, ostr: string, i: nat): (r: (seq<Event>, nat))
    ensures i <= r.1 && (i <= |argv| ==> r.1 <= |argv|)
    decreases if i < |argv| then |argv| - i else 0, 1, 0
  {
    if i >= |argv| || argv[i] == "" || argv[i][0] != '-' then ([], i)
    else if argv[i] == "-" then Letters(argv, ostr, i, "-")
    else if argv[i][1] == '-' then ([], i + 1)
    else Letters(argv, ostr, i, argv[i][1..])
  }

  /** The rest of a cluster of letters in argument `i`, and what follows it. */
  function Letters(argv: seq<string>, ostr: string, i: nat, letters: string): (r: (seq<Event>, nat))
    requires i < |argv|
    ensures i <= r.1 <= |argv|
    decreases |argv| - i, 0, |letters|
  {
    if letters == "" then Parse(argv, ostr, i + 1)
    else
      var c, rest := letters[0], letters[1..];
      match KindOf(ostr, c)
      case Unknown => if c == '-' then ([], i) else Then(Illegal(c), Letters(argv, ostr, i, rest))
      case Plain => Then(Flag(c), Letters(argv, ostr, i, rest))
      case Takes =>
        if rest != "" then Then(WithArg(c, rest), Parse(argv, ostr, i + 1))
        else if i + 1 < |argv| then Then(WithArg(c, argv[i + 1]), Parse(argv, ostr, i + 2))
        else ([NoArg(c)], i + 1)
  }

  function Then(e: Event, r: (seq<Event>, nat)): (seq<Event>, nat) {
    ([e] + r.0, r.1)
  }

  /** What is still to come in a state: the rest of a cluster, or of the arguments. */
  function Remaining(argv: seq<string>, ostr: string, s: State): (seq<Event>, nat)
    requires Consistent(argv, s)
  {
    if s.place != "" then Letters(argv, ostr, s.ind, s.place) else Parse(argv, ostr, s.ind)
  }

  class Scanner {
    var toptind: nat
    var toptopt: char
    var toptarg: Option<string>
    var toptreset: bool
    var place: string

    constructor ()
      ensures Contents() == START && !toptreset
    {
      toptind, toptopt, toptarg, toptreset, place := 1, '\0', None, false, "";
    }

    ghost function Contents(): (s: State)
      reads this
    {
      State(toptind, toptopt, toptarg, place)
    }

    /** The state a call starts from. */
    ghost function Entry(): (s: State)
      reads this
    {
      if toptreset then START else Contents()
    }

    /** What a call does: it reports the first of the remaining options and leaves the others
        remaining, or there is none and it stays where the options end. */
    twostate predicate Steps(argv: seq<string>, ostr: string, r: (seq<Event>, nat), arg: Option<string>, code: int)
      requires Consistent(argv, Contents())
      reads this
    {
      if r.0 == [] then code == EOF && toptind == r.1
      else
        && code != EOF
        && Seen(code, toptopt, toptarg) == See(ostr, r.0[0], arg)
        && Remaining(argv, ostr, Contents()) == (r.0[1..], r.1)
    }

    /** The second half of a call: takes the next letter of the current cluster. */
    method TakeLetter(argv: seq<string>, ostr: string) returns (code: int)
      requires place != "" && toptind < |argv| && |place| <= |argv[toptind]|
      modifies this
      ensures Consistent(argv, Contents()) && toptreset == old(toptreset)
      ensures Steps(argv, ostr, old(Letters(argv, ostr, toptind, place)), old(toptarg), code)
      ensures toptopt == old(place)[0]
      ensures KindOf(ostr, toptopt) == Unknown ==>
        && code == (if toptopt == '-' then EOF else BADCH) && toptarg == old(toptarg) && place == old(place)[1..]
        && toptind == old(toptind) + if place == "" && toptopt != '-' then 1 else 0
      ensures KindOf(ostr, toptopt) == Plain ==>
        && code == toptopt as int && toptarg == None && place == old(place)[1..]
        && toptind == old(toptind) + if place == "" then 1 else 0
      ensures KindOf(ostr, toptopt) == Takes && |old(place)| > 1 ==>
        code == toptopt as int && toptarg == Some(old(place)[1..]) && place == "" && toptind == old(toptind) + 1
      ensures KindOf(ostr, toptopt) == Takes && |old(place)| == 1 && old(toptind) + 1 < |argv| ==>
        code == toptopt as int && toptarg == Some(argv[old(toptind) + 1]) && place == "" && toptind == old(toptind) + 2
      ensures KindOf(ostr, toptopt) == Takes && |old(place)| == 1 && old(toptind) + 1 == |argv| ==>
        && code == (if ":" <= ostr then BADARG else BADCH)
        && toptarg == old(toptarg) && place == "" && toptind == old(toptind) + 1
      ensures code != EOF ==> toptind <= |argv|
      ensures code != EOF ==> toptind > old(toptind) || (toptind == old(toptind) && 0 < |place| < |old(place)|)
    {
      toptopt := place[0];
      place := place[1..];
      var kind := KindOf(ostr, toptopt);
      if kind == Unknown {
        if toptopt == '-' {
          return EOF;
        }
        if place == "" {
          toptind := toptind + 1;
        }
        return BADCH;
      }
      if kind == Plain {
        toptarg := None;
        if place == "" {
          toptind := toptind + 1;
        }
      } else {
        if place != "" {
          toptarg := Some(place);
        } else {
          toptind := toptind + 1;
          if |argv| <= toptind {
            place := "";
            assert [NoArg(toptopt)][1..] == [];
            return if Silent(ostr) then BADARG else BADCH;
          }
          toptarg := Some(argv[toptind]);
        }
        place := "";
        toptind := toptind + 1;
      }
      return toptopt as int;
    }

    method Next(argv: seq<string>, ostr: string) returns (code: int)
      requires Consistent(argv, Entry())
      modifies this
      ensures Consistent(argv, Contents()) && !toptreset
      ensures Steps(argv, ostr, old(Remaining(argv, ostr, Entry())), old(Entry()).arg, code)
      ensures code != EOF ==> toptind <= |argv|
      ensures code != EOF ==>
        toptind > old(Entry()).ind ||
        (toptind == old(Entry()).ind && CharsLeft(argv, Contents()) < CharsLeft(argv, old(Entry())))
    {
      if toptreset {
        toptind, toptopt, toptreset, toptarg, place := 1, '\0', false, None, "";
      }
      if place == "" {
        if toptind >= |argv| || argv[toptind] == "" || argv[toptind][0] != '-' {
          place := "";
          return EOF;
        }
        place := argv[toptind];
        if |place| > 1 {
          place := place[1..];
          if place[0] == '-' {
            assert argv[toptind][1] == '-';
            toptind := toptind + 1;
            place := "";
            return EOF;
          }
        } else {
          assert place == "-";
        }
      }
      code := TakeLetter(argv, ostr);
    }
  }

  lemma SnocAssoc<T>(a: seq<T>, x: T, b: seq<T>)
    ensures a + ([x] + b) == (a + [x]) + b
  {
  }

  lemma SeeFirst(seen: seq<Seen>, ostr: string, es: seq<Event>, arg: Option<string>)
    requires es != []
    ensures var first := See(ostr, es[0], arg);
      seen + SeeAll(ostr, es, arg) == (seen + [first]) + SeeAll(ostr, es[1..], first.arg)
  {
    var first := See(ostr, es[0], arg);
    SnocAssoc(seen, first, SeeAll(ostr, es[1..], first.arg));
  }

  /** The callers' loop: calls until the first EOF see exactly the options of the command line,
      and `toptind` ends where they end. */
  method ScanAll(argv: seq<string>, ostr: string) returns (seen: seq<Seen>, toptind: nat)
    ensures seen == SeeAll(ostr, Parse(argv, ostr, 1).0, None)
    ensures toptind == Parse(argv, ostr, 1).1
    ensures toptind <= if argv == [] then 1 else |argv|
  {
    var scanner := new Scanner();
    seen := [];
    ghost var todo := Parse(argv, ostr, 1).0;
    while true
      invariant !scanner.toptreset && Consistent(argv, scanner.Contents())
      invariant scanner.toptind <= if argv == [] then 1 else |argv|
      invariant Remaining(argv, ostr, scanner.Contents()) == (todo, Parse(argv, ostr, 1).1)
      invariant seen + SeeAll(ostr, todo, scanner.toptarg) == SeeAll(ostr, Parse(argv, ostr, 1).0, None)
      decreases |argv| + 1 - scanner.toptind, CharsLeft(argv, scanner.Contents())
    {
      ghost var arg := scanner.toptarg;
      var code := scanner.Next(argv, ostr);
      if code == EOF {
        break;
      }
      SeeFirst(seen, ostr, todo, arg);
      seen, todo := seen + [Seen(code, scanner.toptopt, scanner.toptarg)], todo[1..];
    }
    toptind := scanner.toptind;
  }

  // ---------- Writing a command line ----------

  /** The end of a cluster: nothing, or an option with its argument in the same word or in the
      next one. */
  datatype Tail = NoTail | Attached(c: char, arg: string) | Separate(c: char, arg: string)

  /** One word of options: flags, then perhaps an option that takes an argument. */
  datatype Word = Word(flags: string, tail: Tail)

  function TailLetters(t: Tail): (text: string) {
    match t
    case NoTail => ""
    case Attached(c, arg) => [c] + arg
    case Separate(c, _) => [c]
  }

  function Render(w: Word): (words: seq<string>) {
    ["-" + w.flags + TailLetters(w.tail)] + if w.tail.Separate? then [w.tail.arg] else []
  }

  function RenderAll(ws: seq<Word>): (words: seq<string>) {
    if ws == [] then [] else Render(ws[0]) + RenderAll(ws[1..])
  }

  function FlagEvents(flags: string): (es: seq<Event>) {
    if flags == [] then [] else [Flag(flags[0])] + FlagEvents(flags[1..])
  }

  function TailEvents(t: Tail): (es: seq<Event>) {
    if t.NoTail? then [] else [WithArg(t.c, t.arg)]
  }

  function Events(ws: seq<Word>): (es: seq<Event>) {
    if ws == [] then [] else FlagEvents(ws[0].flags) + (TailEvents(ws[0].tail) + Events(ws[1..]))
  }

  /** The letters are declared as they are used, an attached argument is not empty, and the
      word does not read as the end marker. */
  ghost predicate Writable(ostr: string, w: Word) {
    && (forall i :: 0 <= i < |w.flags| ==> Declares(ostr, w.flags[i], false))
    && (w.tail.NoTail? || Declares(ostr, w.tail.c, true))
    && (w.tail.Attached? ==> w.tail.arg != "")
    && var letters := w.flags + TailLetters(w.tail);
       letters != "" && letters[0] != '-'
  }

  ghost predicate AllWritable(ostr: string, ws: seq<Word>) {
    forall i :: 0 <= i < |ws| ==> Writable(ostr, ws[i])
  }

  /** The word cannot be taken for an option. */
  predicate IsOperand(ostr: string, word: string) {
    word == "" || word[0] != '-' || (word == "-" && '-' !in ostr)
  }

  /** Where parsing goes on after a word with this tail, in argument `i`. */
  function NextWord(t: Tail, i: nat): (n: nat) {
    if t.Separate? then i + 2 else i + 1
  }

  ghost predicate TailFits(argv: seq<string>, ostr: string, i: nat, t: Tail) {
    && i < |argv| && (t.Separate? ==> i + 1 < |argv| && argv[i + 1] == t.arg)
    && (t.NoTail? || KindOf(ostr, t.c) == Takes)
    && (t.Attached? ==> t.arg != "")
  }

  lemma TailRead(argv: seq<string>, ostr: string, i: nat, t: Tail)
    requires TailFits(argv, ostr, i, t)
    ensures Letters(argv, ostr, i, TailLetters(t))
         == (TailEvents(t) + Parse(argv, ostr, NextWord(t, i)).0, Parse(argv, ostr, NextWord(t, i)).1)
  {
    if t.NoTail? {
      EmptyFront(Parse(argv, ostr, i + 1).0);
    } else {
      assert TailLetters(t)[1..] == if t.Attached? then t.arg else "";
    }
  }

  lemma EmptyFront<T>(s: seq<T>)
    ensures [] + s == s
  {
  }

  lemma FrontOf<T>(x: T, s: seq<T>, t: seq<T>)
    ensures ([x] + s + t)[0] == x && ([x] + s + t)[1..] == s + t
    ensures [x] + (s + t) == [x] + s + t
  {
  }

  /** The letters of one rendered word give its events, and parsing goes on after it. */
  lemma {:induction false} LettersRead(argv: seq<string>, ostr: string, i: nat, flags: string, t: Tail)
    requires TailFits(argv, ostr, i, t)
    requires forall k :: 0 <= k < |flags| ==> KindOf(ostr, flags[k]) == Plain
    ensures var next := Parse(argv, ostr, NextWord(t, i));
      Letters(argv, ostr, i, flags + TailLetters(t)) == (FlagEvents(flags) + (TailEvents(t) + next.0), next.1)
  {
    var next := Parse(argv, ostr, NextWord(t, i));
    if flags == [] {
      TailRead(argv, ostr, i, t);
      EmptyFront(TailLetters(t));
      EmptyFront(TailEvents(t) + next.0);
    } else {
      LettersRead(argv, ostr, i, flags[1..], t);
      assert flags == [flags[0]] + flags[1..];
      FrontOf(flags[0], flags[1..], TailLetters(t));
      FrontOf(Flag(flags[0]), FlagEvents(flags[1..]), TailEvents(t) + next.0);
      FlagRead(argv, ostr, i, flags + TailLetters(t));
    }
  }

  lemma FlagRead(argv: seq<string>, ostr: string, i: nat, letters: string)
    requires i < |argv| && letters != "" && KindOf(ostr, letters[0]) == Plain
    ensures Letters(argv, ostr, i, letters) == Then(Flag(letters[0]), Letters(argv, ostr, i, letters[1..]))
  {
  }

  lemma WordRead(argv: seq<string>, ostr: string, i: nat, w: Word)
    requires Writable(ostr, w) && i + |Render(w)| <= |argv| && argv[i..i + |Render(w)|] == Render(w)
    ensures i + |Render(w)| == NextWord(w.tail, i)
    ensures var next := Parse(argv, ostr, i + |Render(w)|);
      Parse(argv, ostr, i) == (FlagEvents(w.flags) + (TailEvents(w.tail) + next.0), next.1)
  {
    WordAt(argv, i, w);
    WordKinds(ostr, w);
    LettersRead(argv, ostr, i, w.flags, w.tail);
    ClusterRead(argv, ostr, i, w.flags + TailLetters(w.tail));
  }

  lemma WordKinds(ostr: string, w: Word)
    requires Writable(ostr, w)
    ensures forall k :: 0 <= k < |w.flags| ==> KindOf(ostr, w.flags[k]) == Plain
    ensures w.tail.NoTail? || KindOf(ostr, w.tail.c) == Takes
  {
    forall k | 0 <= k < |w.flags| ensures KindOf(ostr, w.flags[k]) == Plain {
      DeclaresKind(ostr, w.flags[k], false);
    }
    if !w.tail.NoTail? {
      DeclaresKind(ostr, w.tail.c, true);
    }
  }

  lemma WordAt(argv: seq<string>, i: nat, w: Word)
    requires i + |Render(w)| <= |argv| && argv[i..i + |Render(w)|] == Render(w)
    ensures argv[i] == "-" + (w.flags + TailLetters(w.tail))
    ensures w.tail.Separate? ==> argv[i + 1] == w.tail.arg
  {
    var words := argv[i..i + |Render(w)|];
    assert argv[i] == words[0] == "-" + w.flags + TailLetters(w.tail);
    assert w.tail.Separate? ==> argv[i + 1] == words[1];
  }

  lemma ClusterRead(argv: seq<string>, ostr: string, i: nat, letters: string)
    requires i < |argv| && argv[i] == "-" + letters && letters != "" && letters[0] != '-'
    ensures Parse(argv, ostr, i) == Letters(argv, ostr, i, letters)
  {
    assert argv[i][1..] == letters && argv[i][1] == letters[0];
  }

  /** The number of words that end the options without being one. */
  function EndMarker(operands: seq<string>): (n: nat) {
    if operands != [] && "--" <= operands[0] then 1 else 0
  }

  /** The options stop at these words. */
  predicate Stops(ostr: string, operands: seq<string>) {
    operands == [] || IsOperand(ostr, operands[0]) || "--" <= operands[0]
  }

  lemma OperandsEnd(argv: seq<string>, i: nat, operands: seq<string>, ostr: string)
    requires i <= |argv| && argv[i..] == operands && Stops(ostr, operands)
    ensures Parse(argv, ostr, i) == ([], i + EndMarker(operands))
  {
    assert operands != [] ==> argv[i] == operands[0];
  }

  lemma Regroup<T>(s: seq<T>, i: nat, a: seq<T>, b: seq<T>, c: seq<T>)
    requires i <= |s| && s[i..] == a + b + c
    ensures i + |a| <= |s| && s[i..i + |a|] == a && s[i + |a|..] == b + c
  {
    assert s[i..][..|a|] == a && s[i..][|a|..] == b + c;
  }

  /** From argument `i` on, the words' events are parsed and the options end after them. */
  ghost predicate ParsesTo(argv: seq<string>, ostr: string, i: nat, ws: seq<Word>, operands: seq<string>) {
    Parse(argv, ostr, i) == (Events(ws), i + |RenderAll(ws)| + EndMarker(operands))
  }

  lemma WordThenRest(argv: seq<string>, ostr: string, i: nat, ws: seq<Word>, operands: seq<string>)
    requires ws != [] && Writable(ostr, ws[0]) && i + |Render(ws[0])| <= |argv|
    requires argv[i..i + |Render(ws[0])|] == Render(ws[0])
    requires ParsesTo(argv, ostr, i + |Render(ws[0])|, ws[1..], operands)
    ensures ParsesTo(argv, ostr, i, ws, operands)
  {
    WordRead(argv, ostr, i, ws[0]);
  }

  lemma NoWords(argv: seq<string>, ostr: string, i: nat, operands: seq<string>)
    requires i <= |argv| && argv[i..] == [] + operands && Stops(ostr, operands)
    ensures ParsesTo(argv, ostr, i, [], operands)
  {
    EmptyFront(operands);
    OperandsEnd(argv, i, operands, ostr);
  }

  /** From argument `i` on there are the words, then the operands. */
  ghost predicate Rendered(argv: seq<string>, i: nat, ws: seq<Word>, operands: seq<string>, ostr: string) {
    && i <= |argv| && argv[i..] == RenderAll(ws) + operands
    && AllWritable(ostr, ws) && Stops(ostr, operands)
  }

  lemma FirstWord(argv: seq<string>, i: nat, ws: seq<Word>, operands: seq<string>, ostr: string)
    requires Rendered(argv, i, ws, operands, ostr) && ws != []
    ensures i + |Render(ws[0])| <= |argv| && argv[i..i + |Render(ws[0])|] == Render(ws[0]) && Writable(ostr, ws[0])
    ensures Rendered(argv, i + |Render(ws[0])|, ws[1..], operands, ostr)
  {
    assert RenderAll(ws) == Render(ws[0]) + RenderAll(ws[1..]);
    Regroup(argv, i, Render(ws[0]), RenderAll(ws[1..]), operands);
    OthersWritable(ostr, ws);
  }

  lemma OthersWritable(ostr: string, ws: seq<Word>)
    requires AllWritable(ostr, ws) && ws != []
    ensures AllWritable(ostr, ws[1..])
  {
    forall i | 0 <= i < |ws| - 1 ensures Writable(ostr, ws[1..][i]) {
      assert ws[1..][i] == ws[i + 1];
    }
  }

  lemma RestRendered(argv: seq<string>, i: nat, ws: seq<Word>, operands: seq<string>, ostr: string)
    requires Rendered(argv, i, ws, operands, ostr) && ws != []
    ensures Rendered(argv, i + |Render(ws[0])|, ws[1..], operands, ostr)
  {
    FirstWord(argv, i, ws, operands, ostr);
  }

  lemma FirstThenRest(argv: seq<string>, i: nat, ws: seq<Word>, operands: seq<string>, ostr: string)
    requires Rendered(argv, i, ws, operands, ostr) && ws != []
    requires ParsesTo(argv, ostr, i + |Render(ws[0])|, ws[1..], operands)
    ensures ParsesTo(argv, ostr, i, ws, operands)
  {
    FirstWord(argv, i, ws, operands, ostr);
    WordThenRest(argv, ostr, i, ws, operands);
  }

  lemma {:induction false} ParseFrom(argv: seq<string>, i: nat, ws: seq<Word>, operands: seq<string>, ostr: string)
    requires Rendered(argv, i, ws, operands, ostr)
    ensures ParsesTo(argv, ostr, i, ws, operands)
    decreases ws
  {
    if ws == [] {
      NoWords(argv, ostr, i, operands);
    } else {
      RestRendered(argv, i, ws, operands, ostr);
      ParseFrom(argv, i + |Render(ws[0])|, ws[1..], operands, ostr);
      FirstThenRest(argv, i, ws, operands, ostr);
    }
  }

  lemma RenderedAfterProgram(program: string, ws: seq<Word>, operands: seq<string>, ostr: string)
    requires AllWritable(ostr, ws) && Stops(ostr, operands)
    ensures Rendered([program] + RenderAll(ws) + operands, 1, ws, operands, ostr)
  {
    FrontOf(program, RenderAll(ws), operands);
  }

  /** Any list of declared options, written as clusters, attached or separate arguments, parses
      back to the same list and stops at the first operand. */
  lemma ParseRendered(program: string, ws: seq<Word>, operands: seq<string>, ostr: string)
    requires AllWritable(ostr, ws) && Stops(ostr, operands)
    ensures Parse([program] + RenderAll(ws) + operands, ostr, 1)
         == (Events(ws), 1 + |RenderAll(ws)| + if operands != [] && "--" <= operands[0] then 1 else 0)
  {
    var argv := [program] + RenderAll(ws) + operands;
    RenderedAfterProgram(program, ws, operands, ostr);
    ParseFrom(argv, 1, ws, operands, ostr);
  }
}
