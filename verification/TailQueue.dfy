/** Doubly linked tail queues with pointer-to-pointer links (the TAILQ macros).

    A queue is described by its chain: the sequence of links that starts with the head and
    goes on with the elements in order. */
module TailQueue {
  import opened Sequences
  import opened QueueWorld

  /** A queue head or an entry field: the two C structures have the same layout, and
      TAILQ_LAST and TAILQ_PREV depend on that.  `fwd` is `tqh_first` or `tqe_next`.
      `back` is `tqh_last` or `tqe_prev`, the address of some link's `fwd` cell; as that
      cell comes first in its link, the address is modelled by the link itself. */
  class Link {
    var fwd: Link?
    var back: Link

    constructor ()
      ensures fwd == null && back == this
    {
      fwd := null;
      back := this;
    }
  }

  /** The shape invariant: the forward links run through `c` and end in null, each `back`
      addresses the cell that points at its owner, and the head's addresses the last cell. */
  ghost predicate Chain(c: seq<Link>)
    reads c
  {
    && c != []
    && Distinct(c)
    && (forall i {:trigger c[i].fwd} :: 0 <= i < |c| - 1 ==> c[i].fwd == c[i + 1])
    && (forall i {:trigger c[i].back} :: 0 < i < |c| ==> c[i].back == c[i - 1])
    && c[|c| - 1].fwd == null
    && c[0].back == c[|c| - 1]
  }

  /** The link after position `k`, if there is one, as a set for `modifies` clauses. */
  ghost function Successor(c: seq<Link>, k: nat): (links: set<Link>) {
    if k + 1 < |c| then {c[k + 1]} else {}
  }

  // ---------- The macros, each with the cells it writes as its frame ----------

  method Init(h: Link)
    modifies h
    ensures Chain([h])
  {
    h.fwd := null;
    h.back := h;
  }

  method InsertHead(h: Link, e: Link, ghost c: seq<Link>)
    requires Chain(c) && c[0] == h && e !in c
    modifies e, h, Successor(c, 0)
    ensures Chain(Inserted(c, 1, e))
  {
    e.fwd := h.fwd;
    if e.fwd != null {
      h.fwd.back := e;
    } else {
      h.back := e;
    }
    h.fwd := e;
    e.back := h;
  }

  method InsertTail(h: Link, e: Link, ghost c: seq<Link>)
    requires Chain(c) && c[0] == h && e !in c
    modifies h, e, c[|c| - 1]
    ensures Chain(c + [e])
  {
    e.fwd := null;
    e.back := h.back;
    h.back.fwd := e;
    h.back := e;
  }

  method InsertAfter(h: Link, x: Link, e: Link, ghost c: seq<Link>, ghost k: nat)
    requires Chain(c) && c[0] == h && e !in c
    requires 0 < k < |c| && c[k] == x
    modifies h, x, e, Successor(c, k)
    ensures Chain(Inserted(c, k + 1, e))
  {
    e.fwd := x.fwd;
    if e.fwd != null {
      e.fwd.back := e;
    } else {
      h.back := e;
    }
    x.fwd := e;
    e.back := x;
  }

  /** The macro is given the listed element but not the head of its queue. */
  method InsertBefore(x: Link, e: Link, ghost c: seq<Link>, ghost k: nat)
    requires Chain(c) && e !in c
    requires 0 < k < |c| && c[k] == x
    modifies x, e, c[k - 1]
    ensures Chain(Inserted(c, k, e))
  {
    e.back := x.back;
    e.fwd := x;
    x.back.fwd := e;
    x.back := e;
  }

  /** The removed element is outside the frame, so it keeps its own links. */
  method Remove(h: Link, e: Link, ghost c: seq<Link>, ghost k: nat)
    requires Chain(c) && c[0] == h
    requires 0 < k < |c| && c[k] == e
    modifies h, c[k - 1], Successor(c, k)
    ensures Chain(Without(c, k))
    ensures e.fwd == old(e.fwd) && e.back == old(e.back)
  {
    if e.fwd != null {
      e.fwd.back := e.back;
    } else {
      h.back := e.back;
    }
    e.back.fwd := e.fwd;
  }

  method Concat(h1: Link, h2: Link, ghost c1: seq<Link>, ghost c2: seq<Link>)
    requires Chain(c1) && c1[0] == h1 && Chain(c2) && c2[0] == h2
    requires forall x :: x in c1 ==> x !in c2
    modifies h1, h2, c1[|c1| - 1], Successor(c2, 0)
    ensures Chain(c1 + c2[1..]) && Chain([h2])
  {
    assert forall i :: 0 <= i < |c1| ==> c1[i] !in c2;
    if h2.fwd != null {
      h1.back.fwd := h2.fwd;
      h2.fwd.back := h1.back;
      h1.back := h2.back;
      Init(h2);
      ghost var c := c1 + c2[1..];
      assert forall i :: |c1| <= i < |c| ==> c[i] == c2[i - |c1| + 1];
    } else {
      assert c1 + c2[1..] == c1 && c2 == [h2];
    }
  }

  // ---------- Access and traversal ----------

  /** Reads the head's last cell as if it belonged to a head, then follows its `back`. */
  method Last(h: Link, ghost c: seq<Link>) returns (e: Link?)
    requires Chain(c) && c[0] == h
    ensures e == if |c| == 1 then null else c[|c| - 1]
  {
    e := h.back.back.fwd;
  }

  method Prev(x: Link, ghost c: seq<Link>, ghost k: nat) returns (e: Link?)
    requires Chain(c) && 0 < k < |c| && c[k] == x
    ensures e == if k == 1 then null else c[k - 1]
  {
    e := x.back.back.fwd;
  }

  ghost function Reversed<T>(s: seq<T>): (r: seq<T>)
    ensures |r| == |s|
    ensures forall i :: 0 <= i < |s| ==> r[i] == s[|s| - 1 - i]
  {
    if s == [] then [] else Reversed(s[1..]) + [s[0]]
  }

  method ForEachReverse(h: Link, ghost c: seq<Link>) returns (visited: seq<Link>)
    requires Chain(c) && c[0] == h
    ensures visited == Reversed(c[1..])
  {
    visited := [];
    var v := Last(h, c);
    ghost var k := |c| - 1;
    while v != null
      invariant 0 <= k < |c|
      invariant v == if k == 0 then null else c[k]
      invariant |visited| == |c| - 1 - k
      invariant forall i :: 0 <= i < |visited| ==> visited[i] == c[|c| - 1 - i]
      decreases k
    {
      visited := visited + [v];
      v := Prev(v, c, k);
      k := k - 1;
    }
  }

  ghost function Filtered<T>(s: seq<T>, p: T -> bool): (kept: seq<T>) {
    if s == [] then []
    else Filtered(s[..|s| - 1], p) + if p(s[|s| - 1]) then [s[|s| - 1]] else []
  }

  /** Exactly the elements that are to be kept are there. */
  lemma {:induction false} FilteredMembers<T>(s: seq<T>, p: T -> bool, x: T)
    ensures x in Filtered(s, p) <==> x in s && p(x)
  {
    if s != [] {
      FilteredMembers(s[..|s| - 1], p, x);
      assert s == s[..|s| - 1] + [s[|s| - 1]];
    }
  }

  lemma AppendAssoc<T>(a: seq<T>, b: seq<T>, c: seq<T>)
    ensures a + (b + c) == (a + b) + c
  {
  }

  /** They stay in their order. */
  lemma {:induction false} FilteredAppend<T>(s: seq<T>, t: seq<T>, p: T -> bool)
    ensures Filtered(s + t, p) == Filtered(s, p) + Filtered(t, p)
  {
    if t == [] {
      assert s + t == s;
    } else {
      var n := |t| - 1;
      assert (s + t)[..|s + t| - 1] == s + t[..n];
      FilteredAppend(s, t[..n], p);
      AppendAssoc(Filtered(s, p), Filtered(t[..n], p), if p(t[n]) then [t[n]] else []);
    }
  }

  /** The chain when the first `n` elements have been filtered. */
  ghost function Partly(c: seq<Link>, n: nat, keep: Link -> bool): (d: seq<Link>)
    requires n < |c|
  {
    [c[0]] + Filtered(c[1..1 + n], keep) + c[1 + n..]
  }

  lemma {:induction false} FilteredWithin<T>(s: seq<T>, p: T -> bool)
    ensures forall i :: 0 <= i < |Filtered(s, p)| ==> Filtered(s, p)[i] in s
  {
    if s != [] {
      FilteredWithin(s[..|s| - 1], p);
    }
  }

  lemma AtCursor<T>(h: T, kept: seq<T>, rest: seq<T>)
    requires rest != []
    ensures var now, k := [h] + kept + rest, 1 + |kept|;
      && now[0] == h && now[k] == rest[0]
      && (if |rest| == 1 then k + 1 == |now| else k + 1 < |now| && now[k + 1] == rest[1])
      && Without(now, k) == [h] + kept + rest[1..]
      && now == [h] + (kept + [rest[0]]) + rest[1..]
  {
  }

  lemma PartlyStep(c: seq<Link>, n: nat, keep: Link -> bool)
    requires 1 + n < |c|
    ensures var now, k := Partly(c, n, keep), 1 + |Filtered(c[1..1 + n], keep)|;
      && k < |now| && now[0] == c[0] && now[k] == c[1 + n]
      && (if 2 + n == |c| then k + 1 == |now| else k + 1 < |now| && now[k + 1] == c[2 + n])
      && Partly(c, n + 1, keep) == (if keep(c[1 + n]) then now else Without(now, k))
  {
    assert c[1..2 + n][..n] == c[1..1 + n];
    AtCursor(c[0], Filtered(c[1..1 + n], keep), c[1 + n..]);
    assert c[1 + n..][1..] == c[2 + n..];
  }

  lemma PartlyWithin(c: seq<Link>, n: nat, keep: Link -> bool)
    requires n < |c|
    ensures forall i :: 0 <= i < |Partly(c, n, keep)| ==> Partly(c, n, keep)[i] in c
  {
    FilteredWithin(c[1..1 + n], keep);
  }

  /** The body of the traversal below: removes the current element unless `keep` holds of it. */
  method RemoveIf(h: Link, v: Link, keep: Link -> bool, ghost c: seq<Link>, ghost n: nat)
    requires 1 + n < |c| && c[0] == h && c[1 + n] == v
    requires Chain(Partly(c, n, keep))
    modifies c
    ensures Chain(Partly(c, n + 1, keep))
    ensures v.fwd == if 2 + n == |c| then null else c[2 + n]
  {
    PartlyStep(c, n, keep);
    PartlyWithin(c, n, keep);
    if !keep(v) {
      Remove(h, v, Partly(c, n, keep), 1 + |Filtered(c[1..1 + n], keep)|);
    }
  }

  /** A forward traversal that removes elements on the way visits each original element once,
      in order, and leaves the others queued in their order. */
  method ForEachRemoving(h: Link, keep: Link -> bool, ghost c: seq<Link>) returns (visited: seq<Link>)
    requires Chain(c) && c[0] == h
    modifies c
    ensures visited == c[1..]
    ensures Chain([h] + Filtered(c[1..], keep))
  {
    visited := [];
    var v := h.fwd;
    assert Partly(c, 0, keep) == c;
    while v != null
      invariant |visited| < |c| && visited == c[1..1 + |visited|]
      invariant Chain(Partly(c, |visited|, keep))
      invariant v == if 1 + |visited| < |c| then c[1 + |visited|] else null
      decreases |c| - |visited|
    {
      RemoveIf(h, v, keep, c, |visited|);
      visited := visited + [v];
      v := v.fwd;
    }
    assert c[1..] == visited;
    assert Partly(c, |visited|, keep) == [h] + Filtered(visited, keep);
  }

  // ---------- Any number of queues, any run of operations ----------

  ghost predicate WellShaped(w: World<Link>)
    reads Footprint(w)
  {
    && Headed(w)
    && Disjoint(w)
    && forall h :: h in w ==> Chain(w[h])
  }

  /** The operations that these queues have. */
  predicate Supported(cmd: Command<Link>) {
    !cmd.DoRemoveHead?
  }

  method DispatchInsert(cmd: Command<Link>, ghost w: World<Link>)
    requires WellShaped(w) && Legal(w, cmd) && Supported(cmd) && Inserts(cmd)
    modifies Touched(w, cmd)
    ensures Chain(Effect(w, cmd)[cmd.h])
  {
    match cmd {
      case DoInsertHead(h, e) => InsertHead(h, e, w[h]);
      case DoInsertTail(h, e) => InsertTail(h, e, w[h]);
      case DoInsertAfter(h, x, e) => InsertAfter(h, x, e, w[h], Position(w[h], x));
      case DoInsertBefore(h, x, e) => InsertBefore(x, e, w[h], Position(w[h], x));
    }
  }

  method Dispatch(cmd: Command<Link>, ghost w: World<Link>)
    requires WellShaped(w) && Legal(w, cmd) && Supported(cmd)
    modifies Touched(w, cmd)
    ensures Chain(Effect(w, cmd)[cmd.h])
    ensures cmd.DoConcat? ==> Chain(Effect(w, cmd)[cmd.h2])
  {
    if cmd.DoRemove? {
      Remove(cmd.h, cmd.x, w[cmd.h], Position(w[cmd.h], cmd.x));
    } else if cmd.DoConcat? {
      Concat(cmd.h, cmd.h2, w[cmd.h], w[cmd.h2]);
    } else {
      DispatchInsert(cmd, w);
    }
  }

  /** One operation keeps every queue well shaped, whether the operation names it or not. */
  method Execute(cmd: Command<Link>, ghost w: World<Link>)
    requires WellShaped(w) && Legal(w, cmd) && Supported(cmd)
    modifies Touched(w, cmd)
    ensures WellShaped(Effect(w, cmd))
  {
    EffectSafe(w, cmd);
    forall g | Bystander(w, cmd, g)
      ensures forall i :: 0 <= i < |w[g]| ==> w[g][i] !in Touched(w, cmd)
    {
      BystanderApart(w, cmd, g);
    }
    Dispatch(cmd, w);
    assert forall g :: Bystander(w, cmd, g) ==> Chain(w[g]);
  }

  /** Any legal run over any number of queues keeps every queue well shaped and does to the
      element sequences what the pointer-free semantics says. */
  method Run(cmds: seq<Command<Link>>, ghost w: World<Link>)
    requires WellShaped(w) && LegalRun(w, cmds) && forall i :: 0 <= i < |cmds| ==> Supported(cmds[i])
    modifies Footprint(w) + Operands(cmds)
    ensures WellShaped(EffectRun(w, cmds))
    decreases cmds
  {
    if cmds != [] {
      EffectSafe(w, cmds[0]);
      EffectWithin(w, cmds[0]);
      Execute(cmds[0], w);
      Run(cmds[1..], Effect(w, cmds[0]));
    }
  }
}
