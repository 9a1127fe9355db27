/** Sequence operations that the queue modules share. */
module Sequences {

  ghost predicate Distinct<T>(c: seq<T>) {
    forall i, j :: 0 <= i < j < |c| ==> c[i] != c[j]
  }

  ghost function Inserted<T>(c: seq<T>, k: nat, e: T): (d: seq<T>)
    requires k <= |c|
  {
    c[..k] + [e] + c[k..]
  }

  ghost function Without<T>(c: seq<T>, k: nat): (d: seq<T>)
    requires k < |c|
  {
    c[..k] + c[k + 1..]
  }

  lemma InsertedDistinct<T>(c: seq<T>, k: nat, e: T)
    requires Distinct(c) && e !in c && k <= |c|
    ensures Distinct(Inserted(c, k, e))
    ensures forall x :: x in Inserted(c, k, e) <==> x == e || x in c
  {
    assert c == c[..k] + c[k..];
  }
}
