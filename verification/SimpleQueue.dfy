/** Singly linked tail queues (the STAILQ macros; the SIMPLEQ macros have the same text).

    As for tail queues, a chain is the sequence of links that starts with the head. */
module SimpleQueue {
  import opened Sequences
  import opened QueueWorld

  /** A queue head or an entry field.  `next` is `stqh_first` or `stqe_next`.  `last` is
      `stqh_last`, the address of some link's `next` cell, modelled by that link; an entry
      has no such field and nothing is said of it. */
  class Link {
    var next: Link?
    var last: Link

    constructor ()
      ensures next == null && last == this
    {
      next := null;
      last := this;
    }
  }

  ghost predicate Chain(c: seq<Link>)
    reads c
  {
    && c != []
    && Distinct(c)
    && (forall i {:trigger c[i].next} :: 0 <= i < |c| - 1 ==> c[i].next == c[i + 1])
    && c[|c| - 1].next == null
    && c[0].last == c[|c| - 1]
  }

  method Init(h: Link)
    modifies h
    ensures Chain([h])
  {
    h.next := null;
    h.last := h;
  }

  method InsertHead(h: Link, e: Link, ghost c: seq<Link>)
    requires Chain(c) && c[0] == h && e !in c
    modifies h, e
    ensures Chain(Inserted(c, 1, e))
  {
    e.next := h.next;
    if e.next == null {
      h.last := e;
    }
    h.next := e;
  }

  /** The element lands at the end whatever the queue went through before. */
  method InsertTail(h: Link, e: Link, ghost c: seq<Link>)
    requires Chain(c) && c[0] == h && e !in c
    modifies h, e, c[|c| - 1]
    ensures Chain(c + [e])
  {
    e.next := null;
    h.last.next := e;
    h.last := e;
  }

  method InsertAfter(h: Link, x: Link, e: Link, ghost c: seq<Link>, ghost k: nat)
    requires Chain(c) && c[0] == h && e !in c
    requires 0 < k < |c| && c[k] == x
    modifies h, x, e
    ensures Chain(Inserted(c, k + 1, e))
  {
    e.next := x.next;
    if e.next == null {
      h.last := e;
    }
    x.next := e;
  }

  method RemoveHead(h: Link, ghost c: seq<Link>)
    requires Chain(c) && c[0] == h && |c| > 1
    modifies h
    ensures Chain(Without(c, 1))
  {
    h.next := h.next.next;
    if h.next == null {
      h.last := h;
    }
  }

  /** Finds the predecessor by a linear search, which ends because the element is listed. */
  method Remove(h: Link, e: Link, ghost c: seq<Link>, ghost k: nat)
    requires Chain(c) && c[0] == h
    requires 0 < k < |c| && c[k] == e
    modifies h, c[k - 1]
    ensures Chain(Without(c, k))
    ensures e.next == old(e.next)
  {
    if h.next == e {
      assert k == 1;
      RemoveHead(h, c);
    } else {
      var cur := h.next;
      ghost var i := 1;
      while cur.next != e
        invariant 1 <= i < k && cur == c[i]
        decreases k - i
      {
        cur := cur.next;
        i := i + 1;
      }
      assert i == k - 1;
      cur.next := cur.next.next;
      if cur.next == null {
        h.last := cur;
      }
    }
  }

  method Concat(h1: Link, h2: Link, ghost c1: seq<Link>, ghost c2: seq<Link>)
    requires Chain(c1) && c1[0] == h1 && Chain(c2) && c2[0] == h2
    requires forall x :: x in c1 ==> x !in c2
    modifies h1, h2, c1[|c1| - 1]
    ensures Chain(c1 + c2[1..]) && Chain([h2])
  {
    assert forall i :: 0 <= i < |c1| ==> c1[i] !in c2;
    if h2.next != null {
      h1.last.next := h2.next;
      h1.last := h2.last;
      Init(h2);
      ghost var c := c1 + c2[1..];
      assert forall i :: |c1| <= i < |c| ==> c[i] == c2[i - |c1| + 1];
    } else {
      assert c1 + c2[1..] == c1 && c2 == [h2];
    }
  }

  // ---------- Any number of queues, any run of operations ----------

  ghost predicate WellShaped(w: World<Link>)
    reads Footprint(w)
  {
    && Headed(w)
    && Disjoint(w)
    && forall h :: h in w ==> Chain(w[h])
  }

  /** The operations that these queues have. */
  predicate Supported(cmd: Command<Link>) {
    !cmd.DoInsertBefore?
  }

  method DispatchInsert(cmd: Command<Link>, ghost w: World<Link>)
    requires WellShaped(w) && Legal(w, cmd) && Supported(cmd) && Inserts(cmd)
    modifies Touched(w, cmd)
    ensures Chain(Effect(w, cmd)[cmd.h])
  {
    match cmd {
      case DoInsertHead(h, e) => InsertHead(h, e, w[h]);
      case DoInsertTail(h, e) => InsertTail(h, e, w[h]);
      case DoInsertAfter(h, x, e) => InsertAfter(h, x, e, w[h], Position(w[h], x));
    }
  }

  method Dispatch(cmd: Command<Link>, ghost w: World<Link>)
    requires WellShaped(w) && Legal(w, cmd) && Supported(cmd)
    modifies Touched(w, cmd)
    ensures Chain(Effect(w, cmd)[cmd.h])
    ensures cmd.DoConcat? ==> Chain(Effect(w, cmd)[cmd.h2])
  {
    if cmd.DoRemove? {
      Remove(cmd.h, cmd.x, w[cmd.h], Position(w[cmd.h], cmd.x));
    } else if cmd.DoRemoveHead? {
      RemoveHead(cmd.h, w[cmd.h]);
    } else if cmd.DoConcat? {
      Concat(cmd.h, cmd.h2, w[cmd.h], w[cmd.h2]);
    } else {
      DispatchInsert(cmd, w);
    }
  }

  /** One operation keeps every queue well shaped, whether the operation names it or not. */
  method Execute(cmd: Command<Link>, ghost w: World<Link>)
    requires WellShaped(w) && Legal(w, cmd) && Supported(cmd)
    modifies Touched(w, cmd)
    ensures WellShaped(Effect(w, cmd))
  {
    EffectSafe(w, cmd);
    forall g | Bystander(w, cmd, g)
      ensures forall i :: 0 <= i < |w[g]| ==> w[g][i] !in Touched(w, cmd)
    {
      BystanderApart(w, cmd, g);
    }
    Dispatch(cmd, w);
    assert forall g :: Bystander(w, cmd, g) ==> Chain(w[g]);
  }

  /** Any legal run over any number of queues keeps every queue well shaped and does to the
      element sequences what the pointer-free semantics says. */
  method Run(cmds: seq<Command<Link>>, ghost w: World<Link>)
    requires WellShaped(w) && LegalRun(w, cmds) && forall i :: 0 <= i < |cmds| ==> Supported(cmds[i])
    modifies Footprint(w) + Operands(cmds)
    ensures WellShaped(EffectRun(w, cmds))
    decreases cmds
  {
    if cmds != [] {
      EffectSafe(w, cmds[0]);
      EffectWithin(w, cmds[0]);
      Execute(cmds[0], w);
      Run(cmds[1..], Effect(w, cmds[0]));
    }
  }
}
