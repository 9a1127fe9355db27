/** Per-queue settings: which queues a mask selects, and the records that go with them. */
module QueueMask {
  import opened MachineIntegers
  import opened Wrappers
  import opened Arithmetic
  import opened Numerals
  import opened Bits
  import HexBitmap

  const MAX_QUEUES := 4096
  const MASK_WORDS := 128

  /** The positions of the set bits of a word, counted from `base`. */
  function WordBits(mask: nat, base: nat): (queues: seq<nat>) {
    if mask == 0 then [] else (if mask % 2 == 1 then [base] else []) + WordBits(mask / 2, base + 1)
  }

  /** The queues that a mask selects, in the order of a walk over its words. */
  function Selected(words: seq<uint32>): (queues: seq<nat>) {
    if words == [] then [] else Selected(words[..|words| - 1]) + WordBits(words[|words| - 1], 32 * (|words| - 1))
  }

  // ---------- What a mask selects ----------

  lemma {:induction false} WordBitsAre(mask: nat, base: nat, q: nat)
    ensures q in WordBits(mask, base) <==> q >= base && Bit(mask, q - base)
    decreases mask
  {
    if mask == 0 {
      if q >= base {
        ZeroBit(q - base);
      }
    } else {
      WordBitsAre(mask / 2, base + 1, q);
    }
  }

  lemma {:induction false} WordBitsSorted(mask: nat, base: nat, w: nat)
    requires mask < Pow2(w)
    ensures forall i :: 0 <= i < |WordBits(mask, base)| ==> base <= WordBits(mask, base)[i] < base + w
    ensures forall i, j :: 0 <= i < j < |WordBits(mask, base)| ==> WordBits(mask, base)[i] < WordBits(mask, base)[j]
    decreases mask
  {
    if mask > 0 {
      WordBitsSorted(mask / 2, base + 1, w - 1);
    }
  }

  lemma {:induction false} SelectedSorted(words: seq<uint32>)
    ensures forall i :: 0 <= i < |Selected(words)| ==> Selected(words)[i] < 32 * |words|
    ensures forall i, j :: 0 <= i < j < |Selected(words)| ==> Selected(words)[i] < Selected(words)[j]
  {
    if words != [] {
      var n := |words| - 1;
      SelectedSorted(words[..n]);
      Pow2Of32();
      WordBitsSorted(words[n], 32 * n, 32);
    }
  }

  lemma WordSelects(word: uint32, n: nat, q: nat)
    ensures q in WordBits(word, 32 * n) <==> q / 32 == n && Bit(word, q % 32)
  {
    WordBitsAre(word, 32 * n, q);
    if q >= 32 * n + 32 {
      Pow2Of32();
      HighBit(word, 32, q - 32 * n);
    }
  }

  lemma {:induction false} SelectedMembers(words: seq<uint32>, q: nat)
    ensures q in Selected(words) <==> q / 32 < |words| && Bit(words[q / 32], q % 32)
  {
    if words != [] {
      var n := |words| - 1;
      SelectedMembers(words[..n], q);
      WordSelects(words[n], n, q);
    }
  }

  /** Each queue whose bit is set is selected once, in increasing order, and no other is. */
  lemma SelectedAre(words: seq<uint32>, q: nat)
    ensures q in Selected(words) <==> q / 32 < |words| && Bit(words[q / 32], q % 32)
    ensures forall i, j :: 0 <= i < j < |Selected(words)| ==> Selected(words)[i] < Selected(words)[j]
  {
    SelectedSorted(words);
    SelectedMembers(words, q);
  }

  /** The bits of the words are the bits of the number they stand for. */
  lemma {:induction false} NumberBits(words: seq<uint32>, q: nat)
    ensures Bit(HexBitmap.NumberOf(words), q) == (q / 32 < |words| && Bit(words[q / 32], q % 32))
  {
    if words == [] {
      ZeroBit(q);
    } else {
      Pow2Of32();
      BitSplit(words[0], HexBitmap.NumberOf(words[1..]), 32, q);
      if q >= 32 {
        NumberBits(words[1..], q - 32);
        assert (q - 32) / 32 == q / 32 - 1 && (q - 32) % 32 == q % 32;
      }
    }
  }

  lemma {:induction false} OnesBits(k: nat, base: nat)
    ensures WordBits(Pow2(k) - 1, base) == seq(k, i requires i >= 0 => base + i)
  {
    if k > 0 {
      OnesBits(k - 1, base + 1);
      var ones := Pow2(k) - 1;
      assert ones > 0 && ones % 2 == 1 && ones / 2 == Pow2(k - 1) - 1;
      assert WordBits(ones, base) == [base] + WordBits(Pow2(k - 1) - 1, base + 1);
    }
  }

  function FirstQueues(n: nat): (qs: seq<nat>)
    ensures |qs| == n && forall q :: 0 <= q < n ==> qs[q] == q
  {
    seq(n, q requires q >= 0 => q)
  }

  lemma {:induction false} ZeroWords(words: seq<uint32>, n: nat)
    requires n <= |words| && forall i :: n <= i < |words| ==> words[i] == 0
    ensures Selected(words) == Selected(words[..n])
  {
    if n < |words| {
      ZeroWords(words[..|words| - 1], n);
      assert words[..|words| - 1][..n] == words[..n];
    } else {
      assert words[..n] == words;
    }
  }

  lemma SelectedSnoc(words: seq<uint32>, i: nat)
    requires i < |words|
    ensures Selected(words[..i + 1]) == Selected(words[..i]) + WordBits(words[i], 32 * i)
  {
    assert words[..i + 1][..i] == words[..i];
  }

  /** Full words followed by a word of `k` ones select the first queues. */
  lemma OnesSelected(words: seq<uint32>, i: nat, k: nat)
    requires i < |words| && k <= 32 && words[i] == Pow2(k) - 1
    requires Selected(words[..i]) == FirstQueues(32 * i)
    ensures Selected(words[..i + 1]) == FirstQueues(32 * i + k)
  {
    SelectedSnoc(words, i);
    OnesBits(k, 32 * i);
  }

  lemma OnesFit(k: nat)
    requires k <= 32
    ensures Pow2(k) - 1 < U32
  {
    Pow2Of32();
    Pow2Add(k, 32 - k);
    ProductMonotone(1, Pow2(32 - k), Pow2(k));
  }

  // ---------- The command ----------

  /** Stores a word of `k` ones after full words. */
  method PutOnes(i: nat, k: nat, masks: array<uint32>)
    requires i < masks.Length && 0 < k <= 32
    requires Selected(masks[..][..i]) == FirstQueues(32 * i)
    modifies masks
    ensures Selected(masks[..][..i + 1]) == FirstQueues(32 * i + k)
    ensures forall j :: 0 <= j < masks.Length && j != i ==> masks[j] == old(masks[j])
  {
    ghost var before := masks[..];
    OnesFit(k);
    masks[i] := Pow2(k) - 1;
    assert masks[..][..i] == before[..i];
    OnesSelected(masks[..], i, k);
  }

  /** The mask of the first queues, when no mask is given. */
  method MaskOfCount(n: nat, masks: array<uint32>)
    requires n <= MAX_QUEUES && masks.Length == MASK_WORDS
    requires forall i :: 0 <= i < MASK_WORDS ==> masks[i] == 0
    modifies masks
    ensures Selected(masks[..]) == FirstQueues(n)
  {
    var i := 0;
    while i < n / 32
      invariant 0 <= i <= n / 32
      invariant forall k :: i <= k < MASK_WORDS ==> masks[k] == 0
      invariant Selected(masks[..][..i]) == FirstQueues(32 * i)
    {
      PutOnes(i, 32, masks);
      i := i + 1;
    }
    if n % 32 != 0 {
      PutOnes(i, n - i * 32, masks);
      i := i + 1;
    }
    ZeroWords(masks[..], i);
  }

  /** The number of queues in a mask. */
  method CountQueues(masks: seq<uint32>) returns (n: nat)
    ensures n == |Selected(masks)|
  {
    n := 0;
    var i := 0;
    while i < |masks|
      invariant 0 <= i <= |masks| && n == |Selected(masks[..i])|
    {
      SelectedSnoc(masks, i);
      var mask := masks[i];
      ghost var queue := 32 * i;
      while mask > 0
        invariant mask >= 0 && queue >= 0
        invariant n + |WordBits(mask, queue)| == |Selected(masks[..i + 1])|
        decreases mask
      {
        if mask % 2 == 1 {
          n := n + 1;
        }
        mask := mask / 2;
        queue := queue + 1;
      }
      i := i + 1;
    }
    assert masks[..i] == masks;
  }

  lemma {:induction false} SelectedPrefix(masks: seq<uint32>, i: nat)
    requires i <= |masks|
    ensures Selected(masks[..i]) <= Selected(masks)
  {
    if i == |masks| {
      assert masks[..i] == masks;
    } else {
      SelectedPrefix(masks[..|masks| - 1], i);
      assert masks[..|masks| - 1][..i] == masks[..i];
    }
  }

  /** The step of the inner loops: an odd word has its lowest queue next. */
  lemma NextBit(seen: seq<nat>, mask: nat, queue: nat)
    requires mask > 0
    ensures mask % 2 == 1 ==> WordBits(mask, queue) != []
    ensures seen + WordBits(mask, queue)
         == (if mask % 2 == 1 then seen + [queue] else seen) + WordBits(mask / 2, queue + 1)
  {
    var rest := WordBits(mask / 2, queue + 1);
    if mask % 2 == 1 {
      assert seen + ([queue] + rest) == (seen + [queue]) + rest;
    } else {
      assert [] + rest == rest;
    }
  }

  /** Queues with their records: the k-th queue has the k-th record. */
  function Paired<T>(queues: seq<nat>, records: seq<T>): (pairs: seq<(nat, T)>)
    requires |queues| <= |records|
    ensures |pairs| == |queues| && forall k :: 0 <= k < |queues| ==> pairs[k].0 == queues[k] && pairs[k].1 == records[k]
  {
    seq(|queues|, k requires 0 <= k < |queues| => (queues[k], records[k]))
  }

  lemma PairedSnoc<T>(queues: seq<nat>, q: nat, records: seq<T>)
    requires |queues| < |records|
    ensures Paired(queues + [q], records) == Paired(queues, records) + [(q, records[|queues|])]
  {
  }

  /** Shows the record of each selected queue.  The early exit never drops a queue. */
  method Show<T>(records: seq<T>, masks: seq<uint32>, n: nat) returns (lines: seq<(nat, T)>)
    requires |masks| == MASK_WORDS && n == |Selected(masks)| && |records| == n
    ensures lines == Paired(Selected(masks), records)
    ensures |lines| == n && forall k :: 0 <= k < n ==> lines[k].0 == Selected(masks)[k] && lines[k].1 == records[k]
  {
    assert masks[..MASK_WORDS] == masks;
    lines := [];
    ghost var seen: seq<nat> := [];
    var i := 0;
    while i < MASK_WORDS
      invariant 0 <= i <= MASK_WORDS && seen == Selected(masks[..i]) && |seen| <= n
      invariant lines == Paired(seen, records)
    {
      var queue: nat, mask: nat := i * 32, masks[i];
      SelectedSnoc(masks, i);
      SelectedPrefix(masks, i + 1);
      while mask > 0
        invariant seen + WordBits(mask, queue) == Selected(masks[..i + 1])
        invariant |seen| <= n && lines == Paired(seen, records)
        decreases mask
      {
        NextBit(seen, mask, queue);
        if mask % 2 == 1 {
          PairedSnoc(seen, queue, records);
          lines := lines + [(queue, records[|lines|])];
          seen := seen + [queue];
        }
        mask, queue := mask / 2, queue + 1;
      }
      i := i + 1;
      if |lines| == n {
        break;
      }
    }
    AllSelected(masks, i);
  }

  /** The queues whose record the update reports as unchanged. */
  function Unchanged<T>(queues: seq<nat>, records: seq<T>, update: T -> (T, bool)): (same: seq<nat>)
    requires |queues| <= |records|
  {
    if queues == [] then []
    else
      var n := |queues| - 1;
      Unchanged(queues[..n], records, update) + if update(records[n]).1 then [] else [queues[n]]
  }

  /** The queues so reported are those whose record the update leaves. */
  lemma {:induction false} UnchangedAre<T>(queues: seq<nat>, records: seq<T>, update: T -> (T, bool), q: nat)
    requires |queues| <= |records|
    ensures q in Unchanged(queues, records, update) <==>
      exists k :: 0 <= k < |queues| && queues[k] == q && !update(records[k]).1
  {
    if queues != [] {
      var n := |queues| - 1;
      UnchangedAre(queues[..n], records, update, q);
      assert forall k :: 0 <= k < n ==> queues[..n][k] == queues[k];
    }
  }

  /** They are reported in their order. */
  lemma {:induction false} UnchangedSorted<T>(queues: seq<nat>, records: seq<T>, update: T -> (T, bool))
    requires |queues| <= |records| && forall i, j :: 0 <= i < j < |queues| ==> queues[i] < queues[j]
    ensures forall i :: 0 <= i < |Unchanged(queues, records, update)| ==>
      Unchanged(queues, records, update)[i] <= queues[|queues| - 1]
    ensures forall i, j :: 0 <= i < j < |Unchanged(queues, records, update)| ==>
      Unchanged(queues, records, update)[i] < Unchanged(queues, records, update)[j]
  {
    if queues != [] {
      UnchangedSorted(queues[..|queues| - 1], records, update);
    }
  }

  lemma UnchangedSnoc<T>(queues: seq<nat>, q: nat, records: seq<T>, update: T -> (T, bool))
    requires |queues| < |records|
    ensures Unchanged(queues + [q], records, update)
         == Unchanged(queues, records, update) + if update(records[|queues|]).1 then [] else [q]
  {
    assert (queues + [q])[..|queues|] == queues;
  }

  /** The first `m` records are updated, each once, and the others are as they were. */
  ghost predicate UpdatedUpTo<T>(now: seq<T>, was: seq<T>, update: T -> (T, bool), m: nat) {
    |now| == |was| && forall k :: 0 <= k < |was| ==> now[k] == if k < m then update(was[k]).0 else was[k]
  }

  /** The body of the innermost loop: takes out record `idx`, updates it and puts it back. */
  method UpdateOne<T>(records: array<T>, update: T -> (T, bool), idx: nat, ghost was: seq<T>) returns (changed: bool)
    requires idx < records.Length && UpdatedUpTo(records[..], was, update, idx)
    modifies records
    ensures UpdatedUpTo(records[..], was, update, idx + 1) && changed == update(was[idx]).1
  {
    assert records[idx] == records[..][idx] == was[idx];
    var (record, differs) := update(records[idx]);
    records[idx], changed := record, differs;
  }

  lemma AllSelected(masks: seq<uint32>, i: nat)
    requires i <= |masks| && (i == |masks| || |Selected(masks[..i])| == |Selected(masks)|)
    ensures Selected(masks[..i]) == Selected(masks)
  {
    SelectedPrefix(masks, i);
    assert masks[..|masks|] == masks;
  }

  /** What has been done when the queues in `seen` have been visited. */
  ghost predicate Visited<T>(seen: seq<nat>, now: seq<T>, same: seq<nat>, was: seq<T>, update: T -> (T, bool)) {
    && |seen| <= |was|
    && UpdatedUpTo(now, was, update, |seen|)
    && same == Unchanged(seen, was, update)
  }

  /** The inner loop: the queues of one word. */
  method UpdateWord<T>(records: array<T>, update: T -> (T, bool), word: nat, base: nat, idx: nat, same: seq<nat>,
                       ghost seen: seq<nat>, ghost was: seq<T>) returns (idx': nat, same': seq<nat>)
    requires idx == |seen| && |seen| + |WordBits(word, base)| <= |was| == records.Length
    requires Visited(seen, records[..], same, was, update)
    modifies records
    ensures idx' == |seen + WordBits(word, base)|
    ensures Visited(seen + WordBits(word, base), records[..], same', was, update)
  {
    ghost var visited := seen;
    var queue, mask := base, word;
    idx', same' := idx, same;
    while mask > 0
      invariant visited + WordBits(mask, queue) == seen + WordBits(word, base) && idx' == |visited|
      invariant Visited(visited, records[..], same', was, update)
      decreases mask
    {
      NextBit(visited, mask, queue);
      if mask % 2 == 1 {
        UnchangedSnoc(visited, queue, was, update);
        var changed := UpdateOne(records, update, idx', was);
        if !changed {
          same' := same' + [queue];
        }
        idx', visited := idx' + 1, visited + [queue];
      }
      mask, queue := mask / 2, queue + 1;
    }
    assert visited + [] == visited;
  }

  /** Updates the record of each selected queue, each exactly once, and lists the selected
      queues whose record stays as it was. */
  method Update<T>(records: array<T>, update: T -> (T, bool), masks: seq<uint32>, n: nat) returns (same: seq<nat>)
    requires |masks| == MASK_WORDS && n == |Selected(masks)| == records.Length
    modifies records
    ensures UpdatedUpTo(records[..], old(records[..]), update, n)
    ensures forall k :: 0 <= k < records.Length ==> records[k] == update(old(records[k])).0
    ensures same == Unchanged(Selected(masks), old(records[..]), update)
  {
    same := [];
    var i, idx := 0, 0;
    while i < MASK_WORDS
      invariant 0 <= i <= MASK_WORDS && idx == |Selected(masks[..i])|
      invariant Visited(Selected(masks[..i]), records[..], same, old(records[..]), update)
    {
      SelectedSnoc(masks, i);
      SelectedPrefix(masks, i + 1);
      idx, same := UpdateWord(records, update, masks[i], i * 32, idx, same, Selected(masks[..i]), old(records[..]));
      i := i + 1;
      if idx == n {
        break;
      }
    }
    AllSelected(masks, i);
  }

  lemma SelectedByNumber(masks: seq<uint32>, q: nat)
    ensures q in Selected(masks) <==> Bit(HexBitmap.NumberOf(masks), q)
  {
    SelectedMembers(masks, q);
    NumberBits(masks, q);
  }

  const EFAULT := 14

  /** What a mask with the digits `t` selects: the queues whose bits the number has. */
  ghost predicate ChosenBy(err: int, masks: seq<uint32>, t: string) {
    && err == (if AllDigits(16, t) && |t| <= 1024 then 0 else -1)
    && (err == 0 ==> forall q: nat :: q in Selected(masks) <==> Bit(Value(16, t), q))
  }

  /** The queues a command is applied to: those of the given mask, or the first ones, as many as
      the device has channels but no more than fit.  `n` is always their number, as Show and
      Update ask. */
  method Choose(mask: Option<string>, channels: int) returns (err: int, masks: array<uint32>, n: nat)
    ensures fresh(masks) && masks.Length == MASK_WORDS
    ensures err == 0 ==> n == |Selected(masks[..])|
    ensures mask.None? ==> err == if channels < 0 then -EFAULT else 0
    ensures mask.None? && err == 0 ==>
      Selected(masks[..]) == FirstQueues(if channels > MAX_QUEUES then MAX_QUEUES else channels)
    ensures mask.Some? && ("0x" < mask.value || "0X" < mask.value) ==> ChosenBy(err, masks[..], mask.value[2..])
    ensures mask.Some? && !("0x" < mask.value || "0X" < mask.value) ==> ChosenBy(err, masks[..], mask.value)
  {
    err, n := 0, 0;
    masks := new uint32[MASK_WORDS](_ => 0);
    if mask.None? {
      if channels < 0 {
        return -EFAULT, masks, 0;
      }
      n := if channels > MAX_QUEUES then MAX_QUEUES else channels;
      MaskOfCount(n, masks);
    } else {
      var r := HexBitmap.Parse(mask.value, MAX_QUEUES, masks);
      if r != 0 {
        return -1, masks, 0;
      }
      n := CountQueues(masks[..]);
      assert masks[..HexBitmap.WordCount(MAX_QUEUES)] == masks[..];
      forall q: nat ensures q in Selected(masks[..]) <==> Bit(HexBitmap.NumberOf(masks[..]), q) {
        SelectedByNumber(masks[..], q);
      }
    }
  }
}
