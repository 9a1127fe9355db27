/** The receive-side-scaling indirection table that `ethtool --rxfh` builds. */
module IndirectionTable {
  import opened MachineIntegers
  import opened Wrappers
  import opened Arithmetic

  const NO_CHANGE := 0xffff_ffff

  /** `BadArgs` is the exit taken when a weight is read past the last one: the argument there
      is either missing or an option name, and neither is a number. */
  datatype Outcome = Done | NoWeight | TooHeavy | BadArgs

  ghost function Sum(w: seq<uint32>): (n: nat) {
    if w == [] then 0 else Sum(w[..|w| - 1]) + w[|w| - 1]
  }

  /** The first slot that is not given to the first `j` queues: their exact share of the
      table, rounded down. */
  ghost function Cut(w: seq<uint32>, size: nat, j: nat): (slot: nat)
    requires j <= |w| && Sum(w) > 0
  {
    ProductMonotone(0, Sum(w[..j]), size);
    QuotientBounds(size * Sum(w[..j]), Sum(w));
    size * Sum(w[..j]) / Sum(w)
  }

  /** The bounds of all queue ranges: slot i belongs to queue j when Cut(j) <= i < Cut(j + 1). */
  ghost function Cuts(w: seq<uint32>, size: nat): (cuts: seq<nat>)
    requires Sum(w) > 0
    ensures |cuts| == |w| + 1
  {
    seq(|w| + 1, j requires 0 <= j <= |w| => Cut(w, size, j))
  }

  ghost predicate InRange(cuts: seq<nat>, j: int, i: nat) {
    0 <= j < |cuts| - 1 && cuts[j] <= i < cuts[j + 1]
  }

  /** The first `done` slots hold the queues that the ranges say. */
  ghost predicate Weighted(table: seq<uint32>, done: nat, cuts: seq<nat>, start: nat)
    requires done <= |table|
  {
    forall i, j :: 0 <= i < done && InRange(cuts, j, i) ==> table[i] == start + j
  }

  /** The ranges tile a table: they start at zero, end at its size and do not go back. */
  ghost predicate Tiles(cuts: seq<nat>, size: nat) {
    && cuts != [] && cuts[0] == 0 && cuts[|cuts| - 1] == size
    && forall i, j :: 0 <= i <= j < |cuts| ==> cuts[i] <= cuts[j]
  }

  lemma SumStep(w: seq<uint32>, j: nat)
    requires j < |w|
    ensures Sum(w[..j + 1]) == Sum(w[..j]) + w[j]
  {
    assert w[..j + 1][..j] == w[..j];
  }

  lemma {:induction false} SumMonotone(w: seq<uint32>, i: nat, j: nat)
    requires i <= j <= |w|
    ensures Sum(w[..i]) <= Sum(w[..j])
    decreases j
  {
    if i < j {
      SumStep(w, j - 1);
      SumMonotone(w, i, j - 1);
    }
  }

  lemma SumPrefix(w: seq<uint32>, j: nat)
    requires j <= |w|
    ensures Sum(w[..j]) <= Sum(w)
  {
    assert w[..|w|] == w;
    SumMonotone(w, j, |w|);
  }

  lemma CutMonotone(w: seq<uint32>, size: nat, i: nat, j: nat)
    requires i <= j <= |w| && Sum(w) > 0
    ensures Cut(w, size, i) <= Cut(w, size, j)
  {
    SumMonotone(w, i, j);
    ProductMonotone(Sum(w[..i]), Sum(w[..j]), size);
    QuotientMonotone(size * Sum(w[..i]), size * Sum(w[..j]), Sum(w));
  }

  lemma CutEnds(w: seq<uint32>, size: nat)
    requires Sum(w) > 0
    ensures Cut(w, size, 0) == 0 && Cut(w, size, |w|) == size
  {
    assert w[..|w|] == w;
    DivModUnique(size * Sum(w), Sum(w), size, 0);
    DivModUnique(0, Sum(w), 0, 0);
  }

  lemma CutsTile(w: seq<uint32>, size: nat)
    requires Sum(w) > 0
    ensures Tiles(Cuts(w, size), size)
  {
    CutEnds(w, size);
    forall i, j | 0 <= i <= j <= |w| ensures Cut(w, size, i) <= Cut(w, size, j) {
      CutMonotone(w, size, i, j);
    }
  }

  // ---------- The builder ----------

  /** The bound of the inner loop, in 32-bit arithmetic. */
  function Threshold(size: uint32, partial: uint32, sum: uint32): (n: nat)
    requires sum > 0
  {
    size * partial % U32 / sum
  }

  lemma ThresholdSmall(size: uint32, partial: uint32, sum: uint32)
    requires sum > 0 && size * partial < U32
    ensures Threshold(size, partial, sum) == size * partial / sum
  {
    ProductMonotone(0, partial, size);
  }

  lemma ThresholdExact(w: seq<uint32>, size: uint32, j: nat)
    requires j <= |w| && 0 < Sum(w) < U32
    requires size * Sum(w) < U32
    ensures Sum(w[..j]) < U32
    ensures Threshold(size, Sum(w[..j]), Sum(w)) == Cut(w, size, j)
  {
    SumPrefix(w, j);
    ProductMonotone(Sum(w[..j]), Sum(w), size);
    ThresholdSmall(size, Sum(w[..j]), Sum(w));
  }

  /** Where the largest product wraps, no prefix of the weights reaches the last slot. */
  lemma ThresholdTooLow(w: seq<uint32>, size: uint32, j: nat)
    requires j <= |w| && 0 < Sum(w) <= size
    requires size * Sum(w) >= U32
    ensures Sum(w[..j]) < U32
    ensures Threshold(size, Sum(w[..j]), Sum(w)) < size
    ensures size - 1 >= Threshold(size, Sum(w[..j]), Sum(w))
  {
    SumPrefix(w, j);
    QuotientBelow(size * Sum(w[..j]) % U32, size, Sum(w));
  }

  /** Neither the sum of the weights nor the largest product leaves 32 bits. */
  ghost predicate Fits(w: seq<uint32>, size: nat) {
    0 < Sum(w) < U32 && size * Sum(w) < U32
  }

  /** What the weighted form comes to.  The weights are checked by their 32-bit sum. */
  ghost predicate Filled(outcome: Outcome, table: seq<uint32>, w: seq<uint32>, start: nat) {
    && (outcome == NoWeight <==> Sum(w) % U32 == 0)
    && (outcome == TooHeavy <==> Sum(w) % U32 > |table|)
    && (0 < Sum(w) <= |table| ==> (outcome == Done <==> Fits(w, |table|)))
    && (outcome == Done && 0 < Sum(w) < U32 ==> Weighted(table, |table|, Cuts(w, |table|), start))
  }

  /** `equal` is zero when the option was not given; `size` comes back changed only when no
      table is to be written. */
  method Fill(size: uint32, table: array<uint32>, reset: bool, start: nat, equal: nat,
              weights: Option<seq<uint32>>) returns (outcome: Outcome, newSize: uint32)
    requires table.Length == size && start <= INT_MAX && equal <= INT_MAX
    requires weights.Some? ==> |weights.value| <= INT_MAX
    modifies table
    ensures equal > 0 ==> outcome == Done && newSize == size
    ensures equal > 0 ==> forall i :: 0 <= i < size ==> table[i] == start + i % equal
    ensures equal == 0 && weights.None? ==> outcome == Done && table[..] == old(table[..])
    ensures equal == 0 && weights.None? ==> newSize == if reset then 0 else NO_CHANGE
    ensures equal == 0 && weights.Some? ==> newSize == size && Filled(outcome, table[..], weights.value, start)
  {
    newSize := size;
    if equal > 0 {
      var i := 0;
      while i < size
        invariant 0 <= i <= size
        invariant forall l :: 0 <= l < i ==> table[l] == start + l % equal
      {
        table[i] := start + i % equal;
        i := i + 1;
      }
      return Done, newSize;
    } else if weights.Some? {
      outcome := FillWeighted(size, table, start, weights.value);
    } else if reset {
      return Done, 0;
    } else {
      return Done, NO_CHANGE;
    }
  }

  method SumWeights(w: seq<uint32>) returns (sum: uint32)
    ensures sum == Sum(w) % U32
  {
    sum := 0;
    var j := 0;
    while j < |w|
      invariant 0 <= j <= |w| && sum == Sum(w[..j]) % U32
    {
      SumStep(w, j);
      sum := (sum + w[j]) % U32;
      j := j + 1;
    }
    assert w[..j] == w;
  }

  /** What the comparison of the inner loop decides, by whether the products fit. */
  lemma ThresholdMeans(w: seq<uint32>, size: uint32, taken: nat)
    requires taken <= |w| && 0 < Sum(w) < U32 && Sum(w) <= size
    ensures Sum(w[..taken]) < U32
    ensures Fits(w, size) ==> Threshold(size, Sum(w[..taken]), Sum(w)) == Cuts(w, size)[taken]
    ensures !Fits(w, size) ==> Threshold(size, Sum(w[..taken]), Sum(w)) < size
  {
    SumPrefix(w, taken);
    if Fits(w, size) {
      ThresholdExact(w, size, taken);
    } else {
      ThresholdTooLow(w, size, taken);
    }
  }

  /** The loop counter after `taken` weights: it starts at -1, in 32 bits. */
  ghost function Counter(taken: nat): (n: int) {
    if taken == 0 then U32 - 1 else taken - 1
  }

  /** What a proof needs to know of the weights: whether their sum and the products fit, and
      the ranges. */
  datatype Plan = Plan(sumFits: bool, fits: bool, cuts: seq<nat>)

  ghost predicate PlanOf(p: Plan, w: seq<uint32>, size: nat) {
    && p.sumFits == (0 < Sum(w) < U32)
    && p.fits == (Fits(w, size) && Sum(w) <= size)
    && |p.cuts| == |w| + 1
    && (p.sumFits ==> p.cuts == Cuts(w, size) && Tiles(p.cuts, size))
  }

  lemma MakePlan(w: seq<uint32>, size: nat) returns (p: Plan)
    ensures PlanOf(p, w, size) && (p.fits ==> p.sumFits)
  {
    var none: seq<nat> := seq(|w| + 1, _ => 0);
    p := Plan(0 < Sum(w) < U32, Fits(w, size) && Sum(w) <= size, if 0 < Sum(w) < U32 then Cuts(w, size) else none);
    if p.sumFits {
      CutsTile(w, size);
    }
  }

  /** Takes the next weight; fails past the last one. */
  method TakeWeight(size: uint32, w: seq<uint32>, sum: uint32, j: uint32, partial: uint32,
                    ghost taken: nat, ghost p: Plan)
    returns (found: bool, j': uint32, partial': uint32)
    requires |w| <= INT_MAX && 0 < sum <= size && sum == Sum(w) % U32 && PlanOf(p, w, size)
    requires taken <= |w| && j == Counter(taken) && (p.sumFits ==> partial == Sum(w[..taken]))
    ensures found <==> taken < |w|
    ensures found ==> j' == Counter(taken + 1) && (p.sumFits ==> partial' == Sum(w[..taken + 1]))
    ensures found && p.sumFits ==> BoundMeans(Threshold(size, partial', sum), size, taken + 1, p)
  {
    j' := if j == U32 - 1 then 0 else j + 1;
    partial' := partial;
    found := j' < |w|;
    if found {
      SumStep(w, taken);
      SumPrefix(w, taken + 1);
      partial' := (partial + w[j']) % U32;
      if p.sumFits {
        ThresholdMeans(w, size, taken + 1);
      }
    }
  }

  /** The bound of the inner loop after `taken` weights: the end of a range where the products
      fit, short of the table where they do not. */
  ghost predicate BoundMeans(bound: nat, size: nat, taken: nat, p: Plan) {
    if p.fits then taken < |p.cuts| && bound == p.cuts[taken] else bound < size
  }

  /** The inner loop: goes on to the queue that slot `i` belongs to, or runs out of weights. */
  method NextQueue(size: uint32, w: seq<uint32>, sum: uint32, i: nat, j: uint32, partial: uint32,
                    ghost taken: nat, ghost p: Plan)
    returns (found: bool, j': uint32, partial': uint32, ghost taken': nat)
    requires |w| <= INT_MAX && i < size && 0 < sum <= size && sum == Sum(w) % U32 && PlanOf(p, w, size)
    requires taken <= |w| && j == Counter(taken) && (p.sumFits ==> partial == Sum(w[..taken]))
    requires p.sumFits ==> BoundMeans(Threshold(size, partial, sum), size, taken, p)
    requires p.fits ==> p.sumFits && (taken > 0 ==> p.cuts[taken - 1] <= i)
    ensures found ==> taken' <= |w| && j' == Counter(taken') && (p.sumFits ==> partial' == Sum(w[..taken']))
    ensures found && p.sumFits ==> BoundMeans(Threshold(size, partial', sum), size, taken', p)
    ensures p.fits ==> found && 0 < taken' && InRange(p.cuts, taken' - 1, i)
    ensures found && p.sumFits && !p.fits ==> i < size - 1
  {
    found, j', partial', taken' := true, j, partial, taken;
    var bound := Threshold(size, partial', sum);
    while i >= bound
      invariant taken' <= |w| && j' == Counter(taken') && (p.sumFits ==> partial' == Sum(w[..taken']))
      invariant bound == Threshold(size, partial', sum) && (p.sumFits ==> BoundMeans(bound, size, taken', p))
      invariant p.fits && taken' > 0 ==> p.cuts[taken' - 1] <= i
      decreases |w| - taken'
    {
      found, j', partial' := TakeWeight(size, w, sum, j', partial', taken', p);
      if !found {
        return;
      }
      taken' := taken' + 1;
      bound := Threshold(size, partial', sum);
    }
  }

  lemma WeightedStep(before: seq<uint32>, i: nat, cuts: seq<nat>, size: nat, start: nat, j: nat)
    requires i < |before| && start + j < U32 && Tiles(cuts, size)
    requires Weighted(before, i, cuts, start) && InRange(cuts, j, i)
    ensures Weighted(before[i := start + j], i + 1, cuts, start)
  {
  }

  lemma FilledEarly(table: seq<uint32>, w: seq<uint32>, start: nat)
    ensures Sum(w) % U32 == 0 ==> Filled(NoWeight, table, w, start)
    ensures Sum(w) % U32 > |table| ==> Filled(TooHeavy, table, w, start)
  {
  }

  lemma FilledLate(table: seq<uint32>, w: seq<uint32>, start: nat, p: Plan)
    requires |table| < U32 && 0 < Sum(w) % U32 <= |table| && PlanOf(p, w, |table|)
    ensures !p.fits ==> Filled(BadArgs, table, w, start)
    ensures (p.sumFits ==> p.fits && Weighted(table, |table|, p.cuts, start)) ==> Filled(Done, table, w, start)
  {
  }

  method FillWeighted(size: uint32, table: array<uint32>, start: nat, w: seq<uint32>)
    returns (outcome: Outcome)
    requires table.Length == size && start <= INT_MAX && |w| <= INT_MAX
    modifies table
    ensures Filled(outcome, table[..], w, start)
  {
    var sum := SumWeights(w);
    FilledEarly(table[..], w, start);
    if sum == 0 {
      return NoWeight;
    }
    if sum > size {
      return TooHeavy;
    }
    ghost var p := MakePlan(w, size);
    outcome := FillSlots(size, table, start, w, sum, p);
    FilledLate(table[..], w, start, p);
  }

  method PutSlot(table: array<uint32>, i: nat, start: nat, j: uint32, ghost p: Plan)
    requires i < table.Length && start <= INT_MAX
    requires p.fits ==> j <= INT_MAX && Tiles(p.cuts, table.Length) && InRange(p.cuts, j, i)
    requires p.fits ==> Weighted(table[..], i, p.cuts, start)
    modifies table
    ensures p.fits ==> Weighted(table[..], i + 1, p.cuts, start)
  {
    if p.fits {
      WeightedStep(table[..], i, p.cuts, table.Length, start, j);
    }
    table[i] := (start + j) % U32;
  }

  /** The outer loop. */
  method FillSlots(size: uint32, table: array<uint32>, start: nat, w: seq<uint32>, sum: uint32, ghost p: Plan)
    returns (outcome: Outcome)
    requires table.Length == size && start <= INT_MAX && |w| <= INT_MAX
    requires 0 < sum <= size && sum == Sum(w) % U32 && PlanOf(p, w, size) && (p.fits ==> p.sumFits)
    modifies table
    ensures outcome == Done || outcome == BadArgs
    ensures outcome == BadArgs ==> !p.fits
    ensures outcome == Done && p.sumFits ==> p.fits && Weighted(table[..], size, p.cuts, start)
  {
    var j: uint32, partial: uint32, found := U32 - 1, 0, true;
    ghost var taken: nat := 0;
    if p.sumFits {
      ThresholdMeans(w, size, 0);
    }
    var i: nat := 0;
    while i < size
      invariant i <= size && taken <= |w| && j == Counter(taken) && (p.sumFits ==> partial == Sum(w[..taken]))
      invariant p.sumFits ==> BoundMeans(Threshold(size, partial, sum), size, taken, p)
      invariant p.sumFits && !p.fits ==> i < size
      invariant p.fits && taken > 0 ==> p.cuts[taken - 1] <= i
      invariant p.fits ==> Weighted(table[..], i, p.cuts, start)
    {
      found, j, partial, taken := NextQueue(size, w, sum, i, j, partial, taken, p);
      if !found {
        return BadArgs;
      }
      PutSlot(table, i, start, j, p);
      i := i + 1;
    }
    outcome := Done;
  }

  // ---------- What the table means ----------

  lemma MultipleAtLeast(share: int, d: nat, weight: nat)
    requires share * d > (weight - 1) * d
    ensures share >= weight
  {
    assert share <= weight - 1 ==> share * d <= (weight - 1) * d;
  }

  lemma DifferenceOfMultiples(hi: int, lo: int, d: int)
    ensures (hi - lo) * d == hi * d - lo * d
  {
  }

  /** Rounding both ends of a range down moves its length by less than one. */
  lemma RoundedDifference(a: nat, b: nat, d: nat, weight: nat) returns (share: int)
    requires d > 0 && d * weight <= b
    ensures share == (a + b) / d - a / d
    ensures share * d - b < d && b - share * d < d
    ensures b == 0 ==> share == 0
    ensures share >= weight
  {
    var lo, hi := a / d, (a + b) / d;
    QuotientBounds(a, d);
    QuotientBounds(a + b, d);
    share := hi - lo;
    DifferenceOfMultiples(hi, lo, d);
    DifferenceOfMultiples(weight, 1, d);
    MultipleAtLeast(share, d, weight);
  }

  lemma RoundedShare(size: nat, p: nat, weight: nat, total: nat) returns (share: int)
    requires 0 < total <= size
    ensures share == size * (p + weight) / total - size * p / total
    ensures share * total - size * weight < total && size * weight - share * total < total
    ensures weight == 0 ==> share == 0
    ensures share >= weight
  {
    var a, b := size * p, size * weight;
    assert size * (p + weight) == a + b;
    assert total * weight <= b;
    share := RoundedDifference(a, b, total, weight);
  }

  /** Each queue's share is within one slot of the exact proportion; a weight of zero gets
      nothing and a weight of n gets at least n slots. */
  lemma ShareIsFair(w: seq<uint32>, size: nat, j: nat) returns (share: int)
    requires j < |w| && 0 < Sum(w) <= size
    ensures share == Cut(w, size, j + 1) - Cut(w, size, j)
    ensures share * Sum(w) - size * w[j] < Sum(w) && size * w[j] - share * Sum(w) < Sum(w)
    ensures w[j] == 0 ==> share == 0
    ensures share >= w[j]
  {
    SumStep(w, j);
    share := RoundedShare(size, Sum(w[..j]), w[j], Sum(w));
  }

  /** Every slot belongs to some queue. */
  lemma {:induction false} SlotOwned(cuts: seq<nat>, i: nat, n: nat) returns (j: nat)
    requires 0 < n <= |cuts| && cuts[0] == 0 && i < cuts[n - 1]
    ensures j < n - 1 && InRange(cuts, j, i)
    decreases n
  {
    if cuts[n - 2] <= i {
      j := n - 2;
    } else {
      j := SlotOwned(cuts, i, n - 1);
    }
  }

  lemma {:induction false} CountAll<T>(s: seq<T>, x: T)
    requires forall i :: 0 <= i < |s| ==> s[i] == x
    ensures multiset(s)[x] == |s|
  {
    if s != [] {
      assert s == [s[0]] + s[1..];
      CountAll(s[1..], x);
    }
  }

  lemma {:induction false} CountNone<T>(s: seq<T>, x: T)
    requires forall i :: 0 <= i < |s| ==> s[i] != x
    ensures multiset(s)[x] == 0
  {
    if s != [] {
      assert s == [s[0]] + s[1..];
      CountNone(s[1..], x);
    }
  }

  lemma CountBlock<T>(s: seq<T>, x: T, lo: nat, hi: nat)
    requires lo <= hi <= |s|
    requires forall i :: 0 <= i < |s| ==> (s[i] == x <==> lo <= i < hi)
    ensures multiset(s)[x] == hi - lo
  {
    assert s == s[..lo] + s[lo..hi] + s[hi..];
    CountNone(s[..lo], x);
    CountAll(s[lo..hi], x);
    CountNone(s[hi..], x);
  }

  /** The table never decreases and names the queues from `start` on. */
  lemma TableNondecreasing(table: seq<uint32>, cuts: seq<nat>, start: nat, i: nat, k: nat)
    requires Tiles(cuts, |table|) && Weighted(table, |table|, cuts, start) && i <= k < |table|
    ensures start <= table[i] <= table[k] < start + |cuts| - 1
  {
    var p := SlotOwned(cuts, i, |cuts|);
    var q := SlotOwned(cuts, k, |cuts|);
    var after, from := cuts[q + 1], cuts[p];
    assert q + 1 <= p ==> after <= from;
  }

  /** Queue j gets exactly as many slots as its range holds. */
  lemma TableCounts(table: seq<uint32>, cuts: seq<nat>, start: nat, j: nat)
    requires Tiles(cuts, |table|) && j + 1 < |cuts| && Weighted(table, |table|, cuts, start)
    ensures multiset(table)[start + j] == cuts[j + 1] - cuts[j]
  {
    var lo, hi := cuts[j], cuts[j + 1];
    assert hi <= cuts[|cuts| - 1];
    forall i | 0 <= i < |table| ensures table[i] == start + j <==> lo <= i < hi {
      var p := SlotOwned(cuts, i, |cuts|);
      if lo <= i < hi {
        assert InRange(cuts, j, i);
      }
    }
    CountBlock(table, start + j, lo, hi);
  }

  /** Tables of at most 65535 slots never meet the wrapped product. */
  lemma SmallTablesFit(w: seq<uint32>, size: nat)
    requires 0 < Sum(w) <= size <= 0xffff
    ensures Fits(w, size)
  {
    ProductMonotone(Sum(w), 0xffff, size);
  }

  /** The total is checked after it has wrapped.  Rejection is right (a true total of zero or
      more than the table) exactly when no total of 2^32 or more wraps into 1..size. */
  lemma RejectionExact(outcome: Outcome, table: seq<uint32>, w: seq<uint32>, start: nat)
    requires |table| < U32 && Filled(outcome, table, w, start)
    ensures ((outcome == NoWeight || outcome == TooHeavy) <==> (Sum(w) == 0 || Sum(w) > |table|))
      <==> !(Sum(w) >= U32 && 1 <= Sum(w) % U32 <= |table|)
  {
    WrappedTotal(Sum(w), |table|);
  }

  lemma WrappedTotal(total: nat, size: nat)
    requires size < U32
    ensures ((total % U32 == 0 || total % U32 > size) <==> (total == 0 || total > size))
      <==> !(total >= U32 && 1 <= total % U32 <= size)
  {
    if total < U32 {
      assert total % U32 == total;
    }
  }

  /** One full-sized weight on 65536 slots: the product wraps to zero and a weight is read
      past the last. */
  lemma LargeTableFails(outcome: Outcome, table: seq<uint32>, start: nat)
    requires |table| == 0x1_0000 && Filled(outcome, table, [0x1_0000], start)
    ensures outcome == BadArgs
  {
    assert Sum([0x1_0000]) == 0x1_0000;
  }

  /** A total of 2^32 + 1 passes the check on four slots. */
  lemma WrappedTotalAccepted(outcome: Outcome, table: seq<uint32>, start: nat)
    requires |table| == 4 && Filled(outcome, table, [0xffff_ffff, 2], start)
    ensures outcome == Done || outcome == BadArgs
  {
    var w: seq<uint32> := [0xffff_ffff, 2];
    assert w[..1] == [0xffff_ffff];
    assert Sum(w) == U32 + 1;
  }
}
