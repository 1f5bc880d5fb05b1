/**
 The two train/test splitters of the data utilities. Cells are identified
 by their index in the dataset; `names[i]` is the perturbation label of
 cell `i` (the dataset's `ptb_names` column).
 */
module Splits {
  import opened Failures
  import opened Seqs

  /** Index lists in the order the splitters return them: train first, then test. */
  datatype Split = Split(train: seq<nat>, test: seq<nat>)

  /** Cells per perturbation and per side in the simulated-data split. */
  const NumSample: nat := 1024

  /**
   Position `i` lies in the slice `Positions(names, x)[a:b]` exactly when it
   is a cell of `x` whose rank among the cells of `x` lies in `[a, b)`.
   Python clamps both slice bounds to the length.
   */
  lemma SliceWindow<T>(names: seq<T>, x: T, a: nat, b: nat, i: nat)
    requires a <= b
    ensures i in PySlice(Positions(names, x), a, b) <==> i < |names| && names[i] == x && a <= Rank(names, i) < b
  {
    var p := Positions(names, x);
    var lo := if a < |p| then a else |p|;
    var hi := if b < |p| then b else |p|;
    PositionsWindow(names, x, lo, hi, i);
    if i < |names| && names[i] == x {
      PositionsComplete(names, i);
    }
  }

  // ---------------------------------------------------------------------
  // split_simudata
  // ---------------------------------------------------------------------

  /** The per-perturbation index slices `idx[a:b]`, one per listed perturbation. */
  function Windows(names: seq<string>, targets: seq<string>, a: nat, b: nat): (w: seq<seq<nat>>)
    requires a <= b
    ensures |w| == |targets|
  {
    seq(|targets|, j requires 0 <= j < |targets| => PySlice(Positions(names, targets[j]), a, b))
  }

  /**
   split_simudata: for every perturbation target, its first 1024 cells go
   to test and the next 1024 to train; the lists are stacked with
   `np.hstack`, which rejects an empty list of arrays.
   */
  function SplitSimu(names: seq<string>, targets: seq<string>): (r: Result<Split>)
    ensures r.Failure? <==> |targets| == 0
    ensures r.Failure? ==> r.error == ValueError
  {
    if |targets| == 0 then Failure(ValueError)
    else
      Success(Split(Flatten(Windows(names, targets, NumSample, 2 * NumSample)),
                    Flatten(Windows(names, targets, 0, NumSample))))
  }

  lemma WindowsMember(names: seq<string>, targets: seq<string>, a: nat, b: nat, i: nat)
    requires a <= b
    ensures i in Flatten(Windows(names, targets, a, b))
        <==> i < |names| && names[i] in targets && a <= Rank(names, i) < b
  {
    var w := Windows(names, targets, a, b);
    FlattenMember(w, i);
    if i in Flatten(w) {
      var j :| 0 <= j < |w| && i in w[j];
      SliceWindow(names, targets[j], a, b, i);
    }
    if i < |names| && names[i] in targets && a <= Rank(names, i) < b {
      var j :| 0 <= j < |targets| && targets[j] == names[i];
      SliceWindow(names, targets[j], a, b, i);
      assert i in w[j];
    }
  }

  /**
   A cell is in the simulated test set iff its label is a target and fewer
   than 1024 earlier cells share that label; it is in the train set iff
   between 1024 and 2047 earlier cells do. So no cell is in both.
   */
  lemma SimuSplitMembers(names: seq<string>, targets: seq<string>, i: nat)
    requires SplitSimu(names, targets).Success?
    ensures var sp := SplitSimu(names, targets).value;
      && (i in sp.test <==> i < |names| && names[i] in targets && Rank(names, i) < NumSample)
      && (i in sp.train <==> i < |names| && names[i] in targets && NumSample <= Rank(names, i) < 2 * NumSample)
      && !(i in sp.test && i in sp.train)
  {
    WindowsMember(names, targets, 0, NumSample, i);
    WindowsMember(names, targets, NumSample, 2 * NumSample, i);
  }

  // ---------------------------------------------------------------------
  // split_scdata
  // ---------------------------------------------------------------------

  /** `int(n * 0.2)`: the test share of a group of `n` cells. */
  function TestShare(n: nat): (k: nat)
    ensures 5 * k <= n < 5 * k + 5
  {
    n / 5
  }

  /**
   A possible outcome of `np.random.choice(idx, int(len(idx) * 0.2),
   replace=False)` for the cells labelled `ptb`: that many distinct cells
   of the label, in any order.
   */
  predicate ValidPick(names: seq<string>, ptb: string, pick: seq<nat>)
  {
    && |pick| == TestShare(multiset(names)[ptb])
    && NoDup(pick)
    && forall k | 0 <= k < |pick| :: pick[k] < |names| && names[pick[k]] == ptb
  }

  lemma FirstCellsArePick(names: seq<string>, ptb: string)
    ensures ValidPick(names, ptb, Positions(names, ptb)[..TestShare(multiset(names)[ptb])])
  {
    var p := Positions(names, ptb);
    var k := TestShare(multiset(names)[ptb]);
    PositionsIncreasing(names, ptb);
    IncreasingNoDup(p);
    NoDupPrefix(p, k);
  }

  /** `test` stacks one valid draw per listed perturbation, in list order. */
  predicate DrawnTest(names: seq<string>, ptbs: seq<string>, picks: seq<seq<nat>>, test: seq<nat>)
  {
    && |picks| == |ptbs|
    && test == Flatten(picks)
    && forall j | 0 <= j < |picks| :: ValidPick(names, ptbs[j], picks[j])
  }

  /**
   split_scdata: for each listed perturbation, a random fifth of its cells
   (rounded down) goes to test; train is every other cell index, ascending.
   An empty list of perturbations makes `np.hstack` raise.
   */
  method SplitSc(names: seq<string>, splitPtbs: seq<string>) returns (r: Result<Split>)
    ensures r.Failure? <==> |splitPtbs| == 0
    ensures r.Failure? ==> r.error == ValueError
    ensures r.Success? ==>
      && (exists picks :: DrawnTest(names, splitPtbs, picks, r.value.test))
      && (forall i :: i in r.value.train <==> 0 <= i < |names| && i !in r.value.test)
      && (forall i: nat | i in r.value.test :: i < |names| && names[i] in splitPtbs)
      && Increasing(r.value.train)
  {
    if |splitPtbs| == 0 {
      return Failure(ValueError);
    }
    var picks: seq<seq<nat>> := [];
    var j := 0;
    while j < |splitPtbs|
      invariant 0 <= j <= |splitPtbs| && |picks| == j
      invariant forall q | 0 <= q < j :: ValidPick(names, splitPtbs[q], picks[q])
    {
      FirstCellsArePick(names, splitPtbs[j]);
      var pick :| ValidPick(names, splitPtbs[j], pick);
      picks := picks + [pick];
      j := j + 1;
    }
    var test := Flatten(picks);
    PicksLabels(names, splitPtbs, picks);
    var train := Complement(|names|, test);
    assert DrawnTest(names, splitPtbs, picks, test);
    return Success(Split(train, test));
  }

  /** The picks of pairwise different labels never share a cell. */
  lemma {:induction false} PicksNoDup(names: seq<string>, ptbs: seq<string>, picks: seq<seq<nat>>)
    requires |picks| == |ptbs| && NoDup(ptbs)
    requires forall j | 0 <= j < |picks| :: ValidPick(names, ptbs[j], picks[j])
    ensures NoDup(Flatten(picks))
    decreases |picks|
  {
    if |picks| > 0 {
      var n := |picks| - 1;
      var before := picks[..n];
      NoDupPrefix(ptbs, n);
      PicksNoDup(names, ptbs[..n], before);
      var last := picks[n];
      assert ptbs == ptbs[..n] + [ptbs[n]];
      NoDupConcat(ptbs[..n], [ptbs[n]]);
      PicksLabels(names, ptbs[..n], before);
      assert forall k | 0 <= k < |last| :: names[last[k]] == ptbs[n];
      forall i: nat | i in Flatten(before) ensures i !in last {
        assert names[i] in ptbs[..n];
        assert names[i] != ptbs[n];
      }
      NoDupConcat(Flatten(before), last);
    }
  }

  /** Every picked cell is a cell of the dataset carrying one of the listed labels. */
  lemma {:induction false} PicksLabels(names: seq<string>, ptbs: seq<string>, picks: seq<seq<nat>>)
    requires |picks| == |ptbs|
    requires forall j | 0 <= j < |picks| :: ValidPick(names, ptbs[j], picks[j])
    ensures forall i: nat | i in Flatten(picks) :: i < |names| && names[i] in ptbs
    decreases |picks|
  {
    if |picks| > 0 {
      var n := |picks| - 1;
      PicksLabels(names, ptbs[..n], picks[..n]);
      forall i: nat | i in Flatten(picks) ensures i < |names| && names[i] in ptbs {
        if i in picks[n] {
          var k :| 0 <= k < |picks[n]| && picks[n][k] == i;
        } else {
          assert i in Flatten(picks[..n]);
          assert names[i] in ptbs[..n];
        }
      }
    }
  }

  /**
   With distinct listed perturbations the sc test set has no repeated cell
   and holds exactly a fifth (rounded down) of each listed group; train and
   test partition the cell indices.
   */
  lemma ScSplitPartition(names: seq<string>, splitPtbs: seq<string>, sp: Split, picks: seq<seq<nat>>)
    requires NoDup(splitPtbs) && DrawnTest(names, splitPtbs, picks, sp.test)
    requires forall i :: i in sp.train <==> 0 <= i < |names| && i !in sp.test
    requires Increasing(sp.train)
    ensures NoDup(sp.test) && NoDup(sp.train)
    ensures forall i :: 0 <= i < |names| <==> i in sp.train || i in sp.test
    ensures forall i | i in sp.train :: i !in sp.test
  {
    PicksNoDup(names, splitPtbs, picks);
    PicksLabels(names, splitPtbs, picks);
    IncreasingNoDup(sp.train);
  }
}
