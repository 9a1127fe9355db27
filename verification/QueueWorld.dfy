/** Queues as sequences: what queue operations do to the elements of any number of queues, with
    no pointers.  Each queue starts with its head. */
module QueueWorld {
  import opened Sequences

  /** The queues of a program: each head with its chain. */
  type World<!L> = map<L, seq<L>>

  ghost function Footprint<L>(w: World<L>): (links: set<L>)
    ensures forall h, x :: h in w && x in w[h] ==> x in links
  {
    set h, x | h in w && x in w[h] :: x
  }

  ghost predicate Disjoint<L>(w: World<L>) {
    forall g, h :: g in w && h in w && g != h ==> forall x :: x in w[g] ==> x !in w[h]
  }

  ghost predicate Headed<L>(w: World<L>) {
    forall h :: h in w ==> w[h] != [] && w[h][0] == h && Distinct(w[h])
  }

  datatype Command<L> =
    | DoInsertHead(h: L, e: L)
    | DoInsertTail(h: L, e: L)
    | DoInsertAfter(h: L, x: L, e: L)
    | DoInsertBefore(h: L, x: L, e: L)
    | DoRemove(h: L, x: L)
    | DoRemoveHead(h: L)
    | DoConcat(h: L, h2: L)

  predicate Inserts<L>(cmd: Command<L>) {
    cmd.DoInsertHead? || cmd.DoInsertTail? || cmd.DoInsertAfter? || cmd.DoInsertBefore?
  }

  ghost predicate Free<L>(w: World<L>, e: L) {
    forall h :: h in w ==> e !in w[h]
  }

  ghost predicate Listed<L>(w: World<L>, h: L, x: L) {
    h in w && w[h] != [] && x in w[h][1..]
  }

  /** What the macros ask of their callers. */
  ghost predicate Legal<L>(w: World<L>, cmd: Command<L>) {
    match cmd
    case DoInsertHead(h, e) => h in w && Free(w, e)
    case DoInsertTail(h, e) => h in w && Free(w, e)
    case DoInsertAfter(h, x, e) => Listed(w, h, x) && Free(w, e)
    case DoInsertBefore(h, x, e) => Listed(w, h, x) && Free(w, e)
    case DoRemove(h, x) => Listed(w, h, x)
    case DoRemoveHead(h) => h in w && |w[h]| > 1
    case DoConcat(h, h2) => h in w && h2 in w && h != h2
  }

  /** The position of a listed element in its chain. */
  ghost function Position<T>(c: seq<T>, x: T): (k: nat)
    requires c != [] && x in c[1..]
    ensures 0 < k < |c| && c[k] == x
  {
    var i :| 0 <= i < |c[1..]| && c[1..][i] == x;
    i + 1
  }

  /** What a command does to the sequences of elements; it reads no pointer. */
  ghost function Effect<L>(w: World<L>, cmd: Command<L>): (w': World<L>)
    requires Headed(w) && Legal(w, cmd)
  {
    match cmd
    case DoInsertHead(h, e) => w[h := Inserted(w[h], 1, e)]
    case DoInsertTail(h, e) => w[h := w[h] + [e]]
    case DoInsertAfter(h, x, e) => w[h := Inserted(w[h], Position(w[h], x) + 1, e)]
    case DoInsertBefore(h, x, e) => w[h := Inserted(w[h], Position(w[h], x), e)]
    case DoRemove(h, x) => w[h := Without(w[h], Position(w[h], x))]
    case DoRemoveHead(h) => w[h := Without(w[h], 1)]
    case DoConcat(h, h2) => w[h2 := [h2]][h := w[h] + w[h2][1..]]
  }

  ghost function Operand<L>(cmd: Command<L>): (links: set<L>) {
    match cmd
    case DoRemove(_, _) => {}
    case DoRemoveHead(_) => {}
    case DoConcat(_, _) => {}
    case _ => {cmd.e}
  }

  /** The queues a command names and the element it brings: all that it may write. */
  ghost function Touched<L>(w: World<L>, cmd: Command<L>): (links: set<L>)
    requires Legal(w, cmd)
  {
    (set x | x in w[cmd.h]) + Operand(cmd) + if cmd.DoConcat? then set x | x in w[cmd.h2] else {}
  }

  lemma Rechained<L>(w: World<L>, h: L, c: seq<L>)
    requires Headed(w) && Disjoint(w) && h in w
    requires c != [] && c[0] == h && Distinct(c)
    requires forall x :: x in c ==> x in w[h] || Free(w, x)
    ensures Headed(w[h := c]) && Disjoint(w[h := c])
  {
    var w' := w[h := c];
    forall f, g | f in w' && g in w' && f != g
      ensures forall x :: x in w'[f] ==> x !in w'[g]
    {
      assert f != h ==> w'[f] == w[f];
      assert g != h ==> w'[g] == w[g];
    }
  }

  lemma EffectSafe<L>(w: World<L>, cmd: Command<L>)
    requires Headed(w) && Disjoint(w) && Legal(w, cmd)
    ensures Headed(Effect(w, cmd)) && Disjoint(Effect(w, cmd))
  {
    match cmd
    case DoInsertHead(h, e) =>
      InsertedDistinct(w[h], 1, e);
      Rechained(w, h, Inserted(w[h], 1, e));
    case DoInsertTail(h, e) =>
      Rechained(w, h, w[h] + [e]);
    case DoInsertAfter(h, x, e) =>
      InsertedDistinct(w[h], Position(w[h], x) + 1, e);
      Rechained(w, h, Inserted(w[h], Position(w[h], x) + 1, e));
    case DoInsertBefore(h, x, e) =>
      InsertedDistinct(w[h], Position(w[h], x), e);
      Rechained(w, h, Inserted(w[h], Position(w[h], x), e));
    case DoRemove(h, x) =>
      Rechained(w, h, Without(w[h], Position(w[h], x)));
    case DoRemoveHead(h) =>
      Rechained(w, h, Without(w[h], 1));
    case DoConcat(h, h2) =>
      Rechained(w, h2, [h2]);
      assert forall i :: 0 < i < |w[h2]| ==> Free(w[h2 := [h2]], w[h2][i]);
      assert forall i :: 0 <= i < |w[h]| ==> w[h][i] !in w[h2];
      Rechained(w[h2 := [h2]], h, w[h] + w[h2][1..]);
  }

  lemma WithoutInserted<T>(c: seq<T>, k: nat, e: T)
    requires Distinct(c) && e !in c && 0 < k <= |c|
    ensures e in Inserted(c, k, e)[1..] && Position(Inserted(c, k, e), e) == k
    ensures Without(Inserted(c, k, e), k) == c
  {
    var c' := Inserted(c, k, e);
    InsertedDistinct(c, k, e);
    assert c'[k] == e && c'[1..][k - 1] == e;
  }

  /** Removing the element that was just inserted gives back every queue as it was. */
  lemma RemoveUndoesInsert<L>(w: World<L>, cmd: Command<L>)
    requires Headed(w) && Disjoint(w) && Legal(w, cmd)
    requires Inserts(cmd)
    ensures var w', undo := Effect(w, cmd), DoRemove(cmd.h, cmd.e);
      Headed(w') && Legal(w', undo) && Effect(w', undo) == w
  {
    EffectSafe(w, cmd);
    var c := w[cmd.h];
    assert c + [cmd.e] == Inserted(c, |c|, cmd.e);
    var k := match cmd
      case DoInsertHead(_, _) => 1
      case DoInsertTail(_, _) => |c|
      case DoInsertAfter(h, x, _) => Position(c, x) + 1
      case DoInsertBefore(h, x, _) => Position(c, x);
    WithoutInserted(c, k, cmd.e);
  }

  lemma RechainedWithin<L>(w: World<L>, h: L, c: seq<L>, extra: set<L>)
    requires h in w && forall x :: x in c ==> x in Footprint(w) || x in extra
    ensures Footprint(w[h := c]) <= Footprint(w) + extra
  {
    var w' := w[h := c];
    forall g, x | g in w' && x in w'[g] ensures x in Footprint(w) + extra {
      assert g != h ==> w'[g] == w[g];
    }
  }

  lemma EffectWithin<L>(w: World<L>, cmd: Command<L>)
    requires Headed(w) && Disjoint(w) && Legal(w, cmd)
    ensures Effect(w, cmd).Keys == w.Keys
    ensures Footprint(Effect(w, cmd)) <= Footprint(w) + Operand(cmd)
  {
    if cmd.DoConcat? {
      RechainedWithin(w, cmd.h2, [cmd.h2], {});
      RechainedWithin(w[cmd.h2 := [cmd.h2]], cmd.h, w[cmd.h] + w[cmd.h2][1..], Footprint(w));
    } else {
      RechainedWithin(w, cmd.h, Effect(w, cmd)[cmd.h], Operand(cmd));
    }
  }

  /** The queues that a command does not name. */
  ghost predicate Bystander<L>(w: World<L>, cmd: Command<L>, g: L) {
    g in w && g != cmd.h && (cmd.DoConcat? ==> g != cmd.h2)
  }

  lemma BystanderApart<L>(w: World<L>, cmd: Command<L>, g: L)
    requires Disjoint(w) && Legal(w, cmd) && Bystander(w, cmd, g)
    ensures forall i :: 0 <= i < |w[g]| ==> w[g][i] !in Touched(w, cmd)
  {
  }

  ghost predicate LegalRun<L>(w: World<L>, cmds: seq<Command<L>>)
    requires Headed(w) && Disjoint(w)
    decreases cmds
  {
    cmds == [] ||
    (Legal(w, cmds[0]) && (EffectSafe(w, cmds[0]); LegalRun(Effect(w, cmds[0]), cmds[1..])))
  }

  ghost function EffectRun<L>(w: World<L>, cmds: seq<Command<L>>): (w': World<L>)
    requires Headed(w) && Disjoint(w) && LegalRun(w, cmds)
    decreases cmds
  {
    if cmds == [] then w
    else EffectSafe(w, cmds[0]); EffectRun(Effect(w, cmds[0]), cmds[1..])
  }

  ghost function Operands<L>(cmds: seq<Command<L>>): (links: set<L>) {
    if cmds == [] then {} else Operand(cmds[0]) + Operands(cmds[1..])
  }
}
