/** Circular queues (the CIRCLEQ macros): both ends of the double chain lead to the head.

    A ring is the sequence of links that starts with the head and goes on with the elements. */
module CircularQueue {
  import opened Sequences
  import opened QueueWorld

  /** A queue head or an entry field: `next` is `cqh_first` or `cqe_next`, `prev` is
      `cqh_last` or `cqe_prev`.  The casts of the head to an element pointer are identities. */
  class Link {
    var next: Link
    var prev: Link

    constructor ()
      ensures next == this && prev == this
    {
      next := this;
      prev := this;
    }
  }

  ghost predicate Ring(c: seq<Link>)
    reads c
  {
    && c != []
    && Distinct(c)
    && (forall i {:trigger c[i].next} :: 0 <= i < |c| - 1 ==> c[i].next == c[i + 1])
    && (forall i {:trigger c[i].prev} :: 0 < i < |c| ==> c[i].prev == c[i - 1])
    && c[|c| - 1].next == c[0]
    && c[0].prev == c[|c| - 1]
  }

  /** The link after position `k`, which is the head after the last element. */
  ghost function After(c: seq<Link>, k: nat): (x: Link)
    requires k < |c|
  {
    if k + 1 == |c| then c[0] else c[k + 1]
  }

  method Init(h: Link)
    modifies h
    ensures Ring([h])
  {
    h.next := h;
    h.prev := h;
  }

  method InsertAfter(h: Link, x: Link, e: Link, ghost c: seq<Link>, ghost k: nat)
    requires Ring(c) && c[0] == h && e !in c
    requires 0 < k < |c| && c[k] == x
    modifies x, e, After(c, k)
    ensures Ring(Inserted(c, k + 1, e))
  {
    e.next := x.next;
    e.prev := x;
    if x.next == h {
      h.prev := e;
    } else {
      x.next.prev := e;
    }
    x.next := e;
  }

  method InsertBefore(h: Link, x: Link, e: Link, ghost c: seq<Link>, ghost k: nat)
    requires Ring(c) && c[0] == h && e !in c
    requires 0 < k < |c| && c[k] == x
    modifies x, e, c[k - 1]
    ensures Ring(Inserted(c, k, e))
  {
    InsertedDistinct(c, k, e);
    e.next := x;
    e.prev := x.prev;
    if x.prev == h {
      h.next := e;
    } else {
      x.prev.next := e;
    }
    x.prev := e;
  }

  method InsertHead(h: Link, e: Link, ghost c: seq<Link>)
    requires Ring(c) && c[0] == h && e !in c
    modifies h, e, After(c, 0)
    ensures Ring(Inserted(c, 1, e))
  {
    e.next := h.next;
    e.prev := h;
    if h.prev == h {
      h.prev := e;
    } else {
      h.next.prev := e;
    }
    h.next := e;
  }

  method InsertTail(h: Link, e: Link, ghost c: seq<Link>)
    requires Ring(c) && c[0] == h && e !in c
    modifies h, e, c[|c| - 1]
    ensures Ring(c + [e])
  {
    e.next := h;
    e.prev := h.prev;
    if h.next == h {
      h.next := e;
    } else {
      h.prev.next := e;
    }
    h.prev := e;
  }

  method Remove(h: Link, e: Link, ghost c: seq<Link>, ghost k: nat)
    requires Ring(c) && c[0] == h
    requires 0 < k < |c| && c[k] == e
    modifies c[k - 1], After(c, k)
    ensures Ring(Without(c, k))
    ensures e.next == old(e.next) && e.prev == old(e.prev)
  {
    if e.next == h {
      h.prev := e.prev;
    } else {
      e.next.prev := e.prev;
    }
    if e.prev == h {
      h.next := e.next;
    } else {
      e.prev.next := e.next;
    }
  }

  function LoopNext(h: Link, x: Link): (y: Link)
    reads h, x
  {
    if x.next == h then h.next else x.next
  }

  function LoopPrev(h: Link, x: Link): (y: Link)
    reads h, x
  {
    if x.prev == h then h.prev else x.prev
  }

  /** The position `m` steps around from position `k`, within one turn. */
  ghost function Around(c: seq<Link>, k: nat, m: nat): (r: nat)
    requires 0 < k < |c| && m < |c|
    ensures 0 < r < |c|
  {
    if k + m < |c| then k + m else k + m - (|c| - 1)
  }

  /** LOOP_NEXT and LOOP_PREV undo each other on every element. */
  lemma LoopsInverse(h: Link, c: seq<Link>, k: nat)
    requires Ring(c) && c[0] == h && 0 < k < |c|
    ensures LoopNext(h, c[k]) in c[1..] && LoopPrev(h, LoopNext(h, c[k])) == c[k]
    ensures LoopPrev(h, c[k]) in c[1..] && LoopNext(h, LoopPrev(h, c[k])) == c[k]
  {
    var next, prev := if k + 1 == |c| then 1 else k + 1, if k == 1 then |c| - 1 else k - 1;
    assert c[1..][next - 1] == c[next] == LoopNext(h, c[k]);
    assert c[1..][prev - 1] == c[prev] == LoopPrev(h, c[k]);
  }

  /** The element reached by `m` applications of LOOP_NEXT. */
  ghost function LoopFrom(h: Link, x: Link, m: nat, c: seq<Link>): (y: Link)
    requires Ring(c) && c[0] == h && x in c[1..]
    reads c
    ensures y in c[1..]
  {
    if m == 0 then x
    else
      var y := LoopFrom(h, x, m - 1, c);
      var k :| 0 < k < |c| && c[k] == y;
      LoopsInverse(h, c, k);
      LoopNext(h, y)
  }

  lemma {:induction false} LoopFromIs(h: Link, c: seq<Link>, k: nat, m: nat)
    requires Ring(c) && c[0] == h && 0 < k < |c| && m < |c|
    ensures c[k] in c[1..] && LoopFrom(h, c[k], m, c) == c[Around(c, k, m)]
  {
    assert c[1..][k - 1] == c[k];
    if m > 0 {
      LoopFromIs(h, c, k, m - 1);
      LoopsInverse(h, c, Around(c, k, m - 1));
    }
  }

  lemma AroundOnce(c: seq<Link>, k: nat, m: nat, j: nat)
    requires 0 < k < |c| && 0 < j < |c| && m < |c| - 1
    ensures Around(c, k, m) == j <==> m == if j >= k then j - k else j + |c| - 1 - k
  {
  }

  /** On n elements, every element is reached by exactly one number of applications of
      LOOP_NEXT below n, and n applications end where they started. */
  lemma LoopVisitsEachOnce(h: Link, c: seq<Link>, k: nat, j: nat) returns (m: nat)
    requires Ring(c) && c[0] == h && 0 < k < |c| && 0 < j < |c|
    ensures c[k] in c[1..] && LoopFrom(h, c[k], |c| - 1, c) == c[k]
    ensures m < |c| - 1 && LoopFrom(h, c[k], m, c) == c[j]
    ensures forall l: nat :: l < |c| - 1 && LoopFrom(h, c[k], l, c) == c[j] ==> l == m
  {
    LoopFromIs(h, c, k, |c| - 1);
    m := if j >= k then j - k else j + |c| - 1 - k;
    LoopFromIs(h, c, k, m);
    forall l: nat | l < |c| - 1 && LoopFrom(h, c[k], l, c) == c[j]
      ensures l == m
    {
      LoopFromIs(h, c, k, l);
      AroundOnce(c, k, l, j);
    }
  }

  // ---------- Any number of queues, any run of operations ----------

  ghost predicate WellShaped(w: World<Link>)
    reads Footprint(w)
  {
    && Headed(w)
    && Disjoint(w)
    && forall h :: h in w ==> Ring(w[h])
  }

  /** The operations that these queues have. */
  predicate Supported(cmd: Command<Link>) {
    !cmd.DoRemoveHead? && !cmd.DoConcat?
  }

  method DispatchBeside(cmd: Command<Link>, ghost w: World<Link>)
    requires WellShaped(w) && Legal(w, cmd) && (cmd.DoInsertAfter? || cmd.DoInsertBefore?)
    modifies Touched(w, cmd)
    ensures Ring(Effect(w, cmd)[cmd.h])
  {
    ghost var c, k := w[cmd.h], Position(w[cmd.h], cmd.x);
    if cmd.DoInsertAfter? {
      InsertAfter(cmd.h, cmd.x, cmd.e, c, k);
    } else {
      InsertBefore(cmd.h, cmd.x, cmd.e, c, k);
    }
  }

  method DispatchInsert(cmd: Command<Link>, ghost w: World<Link>)
    requires WellShaped(w) && Legal(w, cmd) && Supported(cmd) && Inserts(cmd)
    modifies Touched(w, cmd)
    ensures Ring(Effect(w, cmd)[cmd.h])
  {
    if cmd.DoInsertHead? {
      InsertHead(cmd.h, cmd.e, w[cmd.h]);
    } else if cmd.DoInsertTail? {
      InsertTail(cmd.h, cmd.e, w[cmd.h]);
    } else {
      DispatchBeside(cmd, w);
    }
  }

  method Dispatch(cmd: Command<Link>, ghost w: World<Link>)
    requires WellShaped(w) && Legal(w, cmd) && Supported(cmd)
    modifies Touched(w, cmd)
    ensures Ring(Effect(w, cmd)[cmd.h])
  {
    if cmd.DoRemove? {
      Remove(cmd.h, cmd.x, w[cmd.h], Position(w[cmd.h], cmd.x));
    } else {
      DispatchInsert(cmd, w);
    }
  }

  /** One operation keeps every queue well shaped, whether the operation names it or not. */
  method Execute(cmd: Command<Link>, ghost w: World<Link>)
    requires WellShaped(w) && Legal(w, cmd) && Supported(cmd)
    modifies Touched(w, cmd)
    ensures WellShaped(Effect(w, cmd))
  {
    EffectSafe(w, cmd);
    forall g | Bystander(w, cmd, g)
      ensures forall i :: 0 <= i < |w[g]| ==> w[g][i] !in Touched(w, cmd)
    {
      BystanderApart(w, cmd, g);
    }
    Dispatch(cmd, w);
    assert forall g :: Bystander(w, cmd, g) ==> Ring(w[g]);
  }

  /** Any legal run over any number of queues keeps every queue well shaped and does to the
      element sequences what the pointer-free semantics says. */
  method Run(cmds: seq<Command<Link>>, ghost w: World<Link>)
    requires WellShaped(w) && LegalRun(w, cmds) && forall i :: 0 <= i < |cmds| ==> Supported(cmds[i])
    modifies Footprint(w) + Operands(cmds)
    ensures WellShaped(EffectRun(w, cmds))
    decreases cmds
  {
    if cmds != [] {
      EffectSafe(w, cmds[0]);
      EffectWithin(w, cmds[0]);
      Execute(cmds[0], w);
      Run(cmds[1..], Effect(w, cmds[0]));
    }
  }
}
