/**
 Mini-batching of cells: `chunk`, which cuts an index list into full
 batches, and the batch sampler that only puts cells of one perturbation
 into a batch. `names[i]` is the perturbation label of cell `i`; random
 shuffles are arbitrary permutations and the iteration order of a Python
 set is an arbitrary order of its elements.
 */
module Batching {
  import opened Failures
  import opened NatArith
  import opened Seqs

  // ---------------------------------------------------------------------
  // torch.split and chunk
  // ---------------------------------------------------------------------

  /**
   `torch.split(t, size)` along the only dimension: pieces of `size`
   elements, the last one possibly shorter; an empty tensor still yields
   one (empty) piece.
   */
  function TorchSplit<T>(s: seq<T>, size: nat): (r: seq<seq<T>>)
    requires size > 0
    ensures |r| >= 1 && Flatten(r) == s
    ensures forall k | 0 <= k < |r| - 1 :: |r[k]| == size
    ensures 0 < |r[|r| - 1]| <= size || s == []
    decreases |s|
  {
    if |s| <= size then
      assert Flatten([s]) == Flatten([s][..0]) + s;
      [s]
    else
      var rest := TorchSplit(s[size..], size);
      FlattenCons(s[..size], rest);
      assert s == s[..size] + s[size..];
      [s[..size]] + rest
  }

  /** The full batches of `s`, front to back; a shorter tail is dropped. */
  function FullChunks<T>(s: seq<T>, size: nat): (r: seq<seq<T>>)
    requires size > 0
    ensures |r| == |s| / size
    ensures forall k | 0 <= k < |r| :: |r[k]| == size
    ensures Flatten(r) == s[..|r| * size]
    decreases |s|
  {
    if |s| < size then
      DivModUnique(|s|, size, 0, |s|);
      []
    else
      var rest := FullChunks(s[size..], size);
      ChunkStep(s, size, rest);
      [s[..size]] + rest
  }

  lemma ChunkStep<T>(s: seq<T>, size: nat, rest: seq<seq<T>>)
    requires 0 < size <= |s|
    requires |rest| == (|s| - size) / size && Flatten(rest) == s[size..][..|rest| * size]
    ensures |s| / size == |rest| + 1
    ensures Flatten([s[..size]] + rest) == s[..(|rest| + 1) * size]
  {
    var m := |rest|;
    QuotientStep(|s|, size);
    QuotientBound(|s| - size, size);
    FlattenCons(s[..size], rest);
    PrefixStep(s, size, m);
  }

  /** Removing one divisor from the dividend lowers the quotient by one. */
  lemma QuotientStep(n: nat, d: nat)
    requires 0 < d <= n
    ensures n / d == (n - d) / d + 1
  {
    var m := (n - d) / d;
    var r := (n - d) % d;
    assert n == (m + 1) * d + r;
    DivModUnique(n, d, m + 1, r);
  }

  lemma QuotientBound(n: nat, d: nat)
    requires d > 0
    ensures 0 <= n / d * d <= n
  {
    assert n == n / d * d + n % d;
  }

  lemma PrefixStep<T>(s: seq<T>, size: nat, m: nat)
    requires size <= |s| && size + m * size <= |s|
    ensures s[..size] + s[size..][..m * size] == s[..(m + 1) * size]
  {
    assert (m + 1) * size == size + m * size;
  }

  /**
   chunk: split into batches and drop the short tail if there is one. A
   zero size is rejected by `torch.split` unless the list is empty, in
   which case the modulo by zero raises.
   */
  function Chunk<T>(s: seq<T>, size: nat): (r: Result<seq<seq<T>>>)
    ensures r.Failure? <==> size == 0
    ensures r.Failure? ==> r.error == (if s == [] then ZeroDivisionError else RuntimeError)
  {
    if size == 0 then
      if s == [] then Failure(ZeroDivisionError) else Failure(RuntimeError)
    else
      var split := TorchSplit(s, size);
      if |s| % size == 0 then Success(split) else Success(split[..|split| - 1])
  }

  lemma {:induction false} TorchSplitFull<T>(s: seq<T>, size: nat)
    requires size > 0 && |s| > 0 && |s| % size == 0
    ensures TorchSplit(s, size) == FullChunks(s, size)
    decreases |s|
  {
    if |s| > size {
      DivModUnique(|s| - size, size, |s| / size - 1, 0);
      TorchSplitFull(s[size..], size);
    } else {
      assert |s| == size;
      assert s[size..] == [] && s[..size] == s;
    }
  }

  lemma {:induction false} TorchSplitPartial<T>(s: seq<T>, size: nat)
    requires size > 0 && |s| % size != 0
    ensures TorchSplit(s, size)[..|TorchSplit(s, size)| - 1] == FullChunks(s, size)
    decreases |s|
  {
    if |s| > size {
      DivModUnique(|s|, size, (|s| - size) / size + 1, (|s| - size) % size);
      TorchSplitPartial(s[size..], size);
      var rest := TorchSplit(s[size..], size);
      assert ([s[..size]] + rest)[..|rest|] == [s[..size]] + rest[..|rest| - 1];
    } else if |s| == size {
      DivModUnique(|s|, size, 1, 0);
    }
  }

  /**
   For a non-empty list and a positive size, `chunk` returns `len // size`
   batches of exactly `size` elements whose concatenation is the list
   without its last `len % size` elements; an empty list gives a single
   empty batch.
   */
  lemma ChunkSpec<T>(s: seq<T>, size: nat)
    requires size > 0
    ensures |s| > 0 ==> Chunk(s, size) == Success(FullChunks(s, size))
    ensures |s| > 0 ==>
      && |Chunk(s, size).value| == |s| / size
      && (forall k | 0 <= k < |s| / size :: |Chunk(s, size).value[k]| == size)
      && Flatten(Chunk(s, size).value) <= s
      && |Flatten(Chunk(s, size).value)| == |s| / size * size
    ensures s == [] ==> Chunk(s, size) == Success([[]])
  {
    var split := TorchSplit(s, size);
    if |s| > 0 {
      var full := FullChunks(s, size);
      if |s| % size == 0 {
        TorchSplitFull(s, size);
        assert split == full;
      } else {
        TorchSplitPartial(s, size);
        assert split[..|split| - 1] == full;
      }
      assert Chunk(s, size) == Success(full);
      QuotientBound(|s|, size);
      PrefixOf(s, |full| * size);
    } else {
      assert split == [s];
    }
  }

  lemma PrefixOf<T>(s: seq<T>, m: nat)
    requires m <= |s|
    ensures s[..m] <= s && |s[..m]| == m
  {
  }

  // ---------------------------------------------------------------------
  // SCDATA_sampler
  // ---------------------------------------------------------------------

  /** The sampler's state: one index group per label, the advertised length, the batch size. */
  datatype Sampler = Sampler(groups: seq<seq<nat>>, len: nat, batchSize: nat)

  /** `len(idx) // batchsize` summed over the labels, in the given order. */
  function LenOf(names: seq<string>, labels: seq<string>, bs: nat): nat
    requires bs > 0
  {
    if |labels| == 0 then 0
    else LenOf(names, labels[..|labels| - 1], bs) + multiset(names)[labels[|labels| - 1]] / bs
  }

  lemma LenOfStep(names: seq<string>, labels: seq<string>, j: nat, bs: nat)
    requires bs > 0 && j < |labels|
    ensures LenOf(names, labels[..j + 1], bs) == LenOf(names, labels[..j], bs) + multiset(names)[labels[j]] / bs
  {
    assert labels[..j + 1][..j] == labels[..j];
  }

  lemma {:induction false} LenOfConcat(names: seq<string>, a: seq<string>, b: seq<string>, bs: nat)
    requires bs > 0
    ensures LenOf(names, a + b, bs) == LenOf(names, a, bs) + LenOf(names, b, bs)
    decreases |b|
  {
    if |b| == 0 {
      assert a + b == a;
    } else {
      var b' := b[..|b| - 1];
      assert (a + b)[..|a + b| - 1] == a + b';
      LenOfConcat(names, a, b', bs);
    }
  }

  /** The length does not depend on the order the labels are visited in. */
  lemma {:induction false} LenOfPermutation(names: seq<string>, a: seq<string>, b: seq<string>, bs: nat)
    requires bs > 0 && multiset(a) == multiset(b)
    ensures LenOf(names, a, bs) == LenOf(names, b, bs)
    decreases |a|
  {
    if |a| == 0 {
      assert |b| == |multiset(b)| == 0;
    } else {
      var x := a[|a| - 1];
      var a' := a[..|a| - 1];
      MultisetLast(a);
      assert x in multiset(b);
      var j :| 0 <= j < |b| && b[j] == x;
      var left, right := b[..j], b[j + 1..];
      MultisetAt(b, j);
      SplitAt(b, j);
      LenOfPermutation(names, a', left + right, bs);
      LenOfAround(names, left, x, right, bs);
    }
  }

  lemma LenOfAround(names: seq<string>, left: seq<string>, x: string, right: seq<string>, bs: nat)
    requires bs > 0
    ensures LenOf(names, left + [x] + right, bs) == LenOf(names, left + right, bs) + multiset(names)[x] / bs
  {
    LenOfConcat(names, left, right, bs);
    LenOfConcat(names, left + [x], right, bs);
    LenOfConcat(names, left, [x], bs);
    assert LenOf(names, [x], bs) == LenOf(names, [x][..0], bs) + multiset(names)[x] / bs;
  }

  /** A possible iteration order of `set(names)`: every label exactly once. */
  predicate LabelOrder(names: seq<string>, labels: seq<string>)
  {
    NoDup(labels) && (forall x | x in labels :: x in names) && (forall x | x in names :: x in labels)
  }

  lemma LabelOrderEmpty(names: seq<string>, labels: seq<string>)
    requires LabelOrder(names, labels)
    ensures |labels| == 0 <==> |names| == 0
  {
    if |names| > 0 {
      assert names[0] in names;
    }
    if |labels| > 0 {
      assert labels[0] in labels;
    }
  }

  /** Two visiting orders of the same labels are permutations of each other. */
  lemma LabelOrdersPermute(names: seq<string>, a: seq<string>, b: seq<string>)
    requires LabelOrder(names, a) && LabelOrder(names, b)
    ensures multiset(a) == multiset(b)
  {
    forall x ensures multiset(a)[x] == multiset(b)[x] {
      if x in a {
        assert x in b;
      } else {
        assert x !in b;
      }
    }
  }

  /** The sampler built from `names` visiting the labels in order `labels`. */
  predicate BuiltFrom(names: seq<string>, bs: nat, labels: seq<string>, s: Sampler)
  {
    && LabelOrder(names, labels)
    && s.batchSize == bs
    && GroupsOf(names, labels, s.groups)
  }

  /**
   `SCDATA_sampler.__init__`: one index group per distinct label, visited
   in set order, and the length summed as `len(idx) // batchsize`; the
   floor division raises for a zero batch size as soon as there is a label.
   */
  method NewSampler(names: seq<string>, bs: nat) returns (r: Result<Sampler>)
    ensures r.Failure? <==> bs == 0 && |names| > 0
    ensures r.Failure? ==> r.error == ZeroDivisionError
    ensures r.Success? ==> exists labels :: BuiltFrom(names, bs, labels, r.value)
    ensures r.Success? && bs > 0 ==> r.value.len == LenOf(names, Dedup(names), bs)
    ensures r.Success? && bs == 0 ==> r.value.len == 0 && r.value.groups == []
  {
    assert LabelOrder(names, Dedup(names));
    var labels: seq<string> :| LabelOrder(names, labels);
    LabelOrderEmpty(names, labels);
    if bs == 0 && |labels| > 0 {
      return Failure(ZeroDivisionError);
    }
    var groups, len := GroupLabels(names, labels, bs);
    var sampler := Sampler(groups, len, bs);
    assert BuiltFrom(names, bs, labels, sampler);
    if bs > 0 {
      LabelOrdersPermute(names, labels, Dedup(names));
      LenOfPermutation(names, labels, Dedup(names), bs);
    }
    return Success(sampler);
  }

  /** `groups[q]` lists the cells of `labels[q]`, for every `q`. */
  predicate GroupsOf(names: seq<string>, labels: seq<string>, groups: seq<seq<nat>>)
  {
    |groups| == |labels| && forall q | 0 <= q < |labels| :: groups[q] == Positions(names, labels[q])
  }

  /** The loop of `__init__`: one `np.where` group per label, and the running length. */
  method GroupLabels(names: seq<string>, labels: seq<string>, bs: nat) returns (groups: seq<seq<nat>>, len: nat)
    requires bs > 0 || labels == []
    ensures GroupsOf(names, labels, groups)
    ensures bs > 0 ==> len == LenOf(names, labels, bs)
    ensures labels == [] ==> len == 0
  {
    groups := [];
    len := 0;
    var j := 0;
    while j < |labels|
      invariant 0 <= j <= |labels|
      invariant GroupsOf(names, labels[..j], groups)
      invariant bs > 0 ==> len == LenOf(names, labels[..j], bs)
      invariant j == 0 ==> len == 0
    {
      var idx := Positions(names, labels[j]);
      GroupsOfStep(names, labels, j, groups);
      LenOfStep(names, labels, j, bs);
      assert |idx| == multiset(names)[labels[j]];
      groups := groups + [idx];
      len := len + |idx| / bs;
      j := j + 1;
    }
    assert labels[..j] == labels;
  }

  lemma GroupsOfStep(names: seq<string>, labels: seq<string>, j: nat, groups: seq<seq<nat>>)
    requires j < |labels| && GroupsOf(names, labels[..j], groups)
    ensures GroupsOf(names, labels[..j + 1], groups + [Positions(names, labels[j])])
  {
  }

  /** Every cell of `b` carries the label of its first cell. */
  predicate OneLabel(names: seq<string>, b: seq<nat>)
  {
    forall k | 0 <= k < |b| :: b[k] < |names| && b[0] < |names| && names[b[k]] == names[b[0]]
  }

  /** Every batch has `bs` cells and they all carry one label. */
  predicate UniformBatches(names: seq<string>, batches: seq<seq<nat>>, bs: nat)
  {
    forall j | 0 <= j < |batches| :: |batches[j]| == bs && OneLabel(names, batches[j])
  }

  /** Every cell listed is a cell of the dataset whose label is one of `ls`. */
  predicate LabelledIn(names: seq<string>, cells: seq<nat>, ls: seq<string>)
  {
    forall k | 0 <= k < |cells| :: cells[k] < |names| && names[cells[k]] in ls
  }

  /**
   `SCDATA_sampler.__iter__`: shuffle each group, cut it into full batches,
   collect the batches of all groups and shuffle them. It yields exactly
   `__len__` batches, each of `batchsize` cells sharing one label, and no
   cell twice. A zero batch size survives `__init__` only without cells, and
   then there is nothing to yield.
   */
  method Iter(names: seq<string>, labels: seq<string>, s: Sampler) returns (batches: seq<seq<nat>>)
    requires BuiltFrom(names, s.batchSize, labels, s)
    requires s.batchSize > 0 ==> s.len == LenOf(names, labels, s.batchSize)
    requires s.batchSize == 0 ==> s.len == 0 && |names| == 0
    ensures |batches| == s.len
    ensures UniformBatches(names, batches, s.batchSize)
    ensures NoDup(Flatten(batches))
  {
    var bs := s.batchSize;
    if bs == 0 {
      LabelOrderEmpty(names, labels);
      return [];
    }
    var comb: seq<seq<nat>> := [];
    var i := 0;
    while i < |s.groups|
      invariant 0 <= i <= |s.groups|
      invariant |comb| == LenOf(names, labels[..i], bs)
      invariant UniformBatches(names, comb, bs)
      invariant NoDup(Flatten(comb))
      invariant LabelledIn(names, Flatten(comb), labels[..i])
    {
      var group := s.groups[i];
      var shuffled: seq<nat> :| multiset(shuffled) == multiset(group);
      var more := GroupBatches(names, labels[i], group, shuffled, bs);
      AppendGroup(names, labels, i, comb, more, bs);
      comb := comb + more;
      i := i + 1;
    }
    assert labels[..i] == labels;
    var combined: seq<seq<nat>> :| multiset(combined) == multiset(comb);
    batches := combined;
    ShuffledBatches(names, comb, batches, bs);
  }

  /** Shuffling the batches keeps their number, their shape and the cells they hold. */
  lemma ShuffledBatches(names: seq<string>, comb: seq<seq<nat>>, batches: seq<seq<nat>>, bs: nat)
    requires multiset(batches) == multiset(comb)
    requires UniformBatches(names, comb, bs) && NoDup(Flatten(comb))
    ensures |batches| == |comb|
    ensures UniformBatches(names, batches, bs) && NoDup(Flatten(batches))
  {
    assert |batches| == |multiset(batches)| == |multiset(comb)| == |comb|;
    forall j | 0 <= j < |batches| ensures |batches[j]| == bs && OneLabel(names, batches[j]) {
      assert batches[j] in multiset(comb);
      var q :| 0 <= q < |comb| && comb[q] == batches[j];
    }
    FlattenPermutation(comb, batches);
    NoDupPermutation(Flatten(comb), Flatten(batches));
  }

  /**
   The batches of one shuffled group: `group // bs` batches of `bs` cells of
   `ptb`, no cell twice.
   */
  method GroupBatches(names: seq<string>, ptb: string, group: seq<nat>, shuffled: seq<nat>, bs: nat)
    returns (r: seq<seq<nat>>)
    requires bs > 0 && group == Positions(names, ptb) && multiset(shuffled) == multiset(group)
    ensures |r| == multiset(names)[ptb] / bs
    ensures UniformBatches(names, r, bs)
    ensures NoDup(Flatten(r))
    ensures LabelledIn(names, Flatten(r), [ptb])
  {
    ShuffledGroup(names, ptb, group, shuffled);
    if |shuffled| == 0 {
      DivModUnique(0, bs, 0, 0);
      return [];
    }
    ChunkSpec(shuffled, bs);
    r := Chunk(shuffled, bs).value;
    ChunksOfOneLabel(names, ptb, shuffled, bs);
  }

  /** A shuffled group still lists every cell of its label once. */
  lemma ShuffledGroup(names: seq<string>, ptb: string, group: seq<nat>, shuffled: seq<nat>)
    requires group == Positions(names, ptb) && multiset(shuffled) == multiset(group)
    ensures |shuffled| == multiset(names)[ptb]
    ensures NoDup(shuffled)
    ensures forall k | 0 <= k < |shuffled| :: shuffled[k] < |names| && names[shuffled[k]] == ptb
  {
    assert |shuffled| == |multiset(shuffled)| == |group|;
    forall k | 0 <= k < |shuffled| ensures shuffled[k] < |names| && names[shuffled[k]] == ptb {
      assert shuffled[k] in multiset(group);
      var q :| 0 <= q < |group| && group[q] == shuffled[k];
    }
    PositionsIncreasing(names, ptb);
    IncreasingNoDup(group);
    NoDupPermutation(group, shuffled);
  }

  /** Full batches cut from distinct cells of one label. */
  lemma ChunksOfOneLabel(names: seq<string>, ptb: string, cells: seq<nat>, bs: nat)
    requires bs > 0 && NoDup(cells)
    requires forall k | 0 <= k < |cells| :: cells[k] < |names| && names[cells[k]] == ptb
    ensures UniformBatches(names, FullChunks(cells, bs), bs)
    ensures NoDup(Flatten(FullChunks(cells, bs)))
    ensures LabelledIn(names, Flatten(FullChunks(cells, bs)), [ptb])
  {
    var r := FullChunks(cells, bs);
    QuotientBound(|cells|, bs);
    var prefix := cells[..|r| * bs];
    NoDupPrefix(cells, |r| * bs);
    forall k | 0 <= k < |prefix| ensures prefix[k] < |names| && names[prefix[k]] == ptb {
      assert prefix[k] == cells[k];
    }
    PartsLabelled(names, ptb, r, prefix);
  }

  /** The parts of a list of cells of one label hold only cells of that label. */
  lemma PartsLabelled(names: seq<string>, ptb: string, parts: seq<seq<nat>>, s: seq<nat>)
    requires Flatten(parts) == s
    requires forall k | 0 <= k < |s| :: s[k] < |names| && names[s[k]] == ptb
    ensures forall j, k | 0 <= j < |parts| && 0 <= k < |parts[j]| :: parts[j][k] < |names| && names[parts[j][k]] == ptb
  {
    forall j, k | 0 <= j < |parts| && 0 <= k < |parts[j]| ensures parts[j][k] < |names| && names[parts[j][k]] == ptb {
      FlattenMember(parts, parts[j][k]);
    }
  }

  lemma AppendGroup(names: seq<string>, labels: seq<string>, i: nat, comb: seq<seq<nat>>,
                    more: seq<seq<nat>>, bs: nat)
    requires bs > 0 && i < |labels| && NoDup(labels)
    requires |comb| == LenOf(names, labels[..i], bs)
    requires UniformBatches(names, comb, bs) && NoDup(Flatten(comb))
    requires LabelledIn(names, Flatten(comb), labels[..i])
    requires |more| == multiset(names)[labels[i]] / bs
    requires UniformBatches(names, more, bs) && NoDup(Flatten(more))
    requires LabelledIn(names, Flatten(more), [labels[i]])
    ensures |comb + more| == LenOf(names, labels[..i + 1], bs)
    ensures UniformBatches(names, comb + more, bs)
    ensures NoDup(Flatten(comb + more))
    ensures LabelledIn(names, Flatten(comb + more), labels[..i + 1])
  {
    LenOfStep(names, labels, i, bs);
    var before := labels[..i];
    assert labels[..i + 1] == before + [labels[i]];
    NoDupPrefix(labels, i + 1);
    NoDupConcat(before, [labels[i]]);
    assert labels[i] !in before;
    FlattenConcat(comb, more);
    DisjointLabels(names, Flatten(comb), before, Flatten(more), labels[i]);
    LabelledConcat(names, Flatten(comb), before, Flatten(more), [labels[i]]);
    UniformConcat(names, comb, more, bs);
  }

  lemma UniformConcat(names: seq<string>, a: seq<seq<nat>>, b: seq<seq<nat>>, bs: nat)
    requires UniformBatches(names, a, bs) && UniformBatches(names, b, bs)
    ensures UniformBatches(names, a + b, bs)
  {
    forall j | 0 <= j < |a + b| ensures |(a + b)[j]| == bs && OneLabel(names, (a + b)[j]) {
      if j < |a| {
        assert (a + b)[j] == a[j];
      } else {
        assert (a + b)[j] == b[j - |a|];
      }
    }
  }

  /** Cells labelled outside `ls` share no cell with cells labelled `l`, which is not in `ls`. */
  lemma DisjointLabels(names: seq<string>, a: seq<nat>, ls: seq<string>, b: seq<nat>, l: string)
    requires NoDup(a) && NoDup(b) && l !in ls
    requires LabelledIn(names, a, ls) && LabelledIn(names, b, [l])
    ensures NoDup(a + b)
  {
    forall x | x in a ensures x !in b {
      var k :| 0 <= k < |a| && a[k] == x;
      assert names[x] != l;
      forall k' | 0 <= k' < |b| ensures b[k'] != x {
        assert names[b[k']] == l;
      }
    }
    NoDupConcat(a, b);
  }

  lemma LabelledConcat(names: seq<string>, a: seq<nat>, la: seq<string>, b: seq<nat>, lb: seq<string>)
    requires LabelledIn(names, a, la) && LabelledIn(names, b, lb)
    ensures LabelledIn(names, a + b, la + lb)
  {
    forall k | 0 <= k < |a + b| ensures (a + b)[k] < |names| && names[(a + b)[k]] in la + lb {
      if k < |a| {
        assert (a + b)[k] == a[k];
      } else {
        assert (a + b)[k] == b[k - |a|];
      }
    }
  }
}
