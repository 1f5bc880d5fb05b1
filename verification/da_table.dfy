/**
 `compute_activation_df`: the differential-activation table of one network
 layer. The layer's activity matrix has one row per cell, indexed by the
 cell's perturbation label (`ctrl` for control cells), and `width` columns,
 one per latent unit. For every knockout of the target list that has an
 Ensembl identifier, and every geneset of `gos`, the table gets one row
 carrying the geneset, the score `|mean(ctrl) - mean(knockout)|` of the
 geneset's column, and whether the knockout's gene belongs to the geneset.
 Column means are exact reals; the mean of no cells is NaN, as in numpy.
 */
module DaTable {
  import opened Failures
  import opened NatArith
  import opened Seqs

  /** One row of the activity matrix: the cell's perturbation label and its activity per unit. */
  datatype Cell = Cell(ptb: string, activity: seq<real>)

  /** A score; NaN is what numpy's mean yields for an empty column. */
  datatype Score = Value(v: real) | NaN

  /** One table row, with the five columns `knockout, geneset, scoretype, score, affected`. */
  datatype Row = Row(knockout: string, geneset: string, scoretype: string, score: Score, affected: bool)

  /**
   The arguments of `compute_activation_df`: the activity matrix and its
   width, the score type, the geneset list, the model mode, the gene-to-GO
   dictionary (Ensembl identifier to GO terms) and the gene-name-to-Ensembl
   dictionary.
   */
  datatype Inputs = Inputs(
    cells: seq<Cell>,
    width: nat,
    scoretype: string,
    gos: seq<string>,
    mode: string,
    geneGo: map<string, seq<string>>,
    ensembl: map<string, string>)

  const Control: string := "ctrl"
  const MuDiff: string := "mu_diff"

  /** A data frame is rectangular: every cell has one value per column. */
  predicate Rectangular(cells: seq<Cell>, width: nat)
  {
    forall k | 0 <= k < |cells| :: |cells[k].activity| == width
  }

  predicate Wide(m: seq<seq<real>>, width: nat)
  {
    forall k | 0 <= k < |m| :: |m[k]| == width
  }

  /** `mode[:4] == 'sena'`. */
  predicate Sena(mode: string)
  {
    "sena" <= mode
  }

  /** `mode[:7] == 'regular' or mode[:2] == 'l1'`. */
  predicate RegularOrL1(mode: string)
  {
    "regular" <= mode || "l1" <= mode
  }

  // ---------------------------------------------------------------------
  // Scores
  // ---------------------------------------------------------------------

  /** `df[df.index == l].to_numpy()`: the activity rows labelled `l`, in table order. */
  function CellsOf(cells: seq<Cell>, l: string, width: nat): (m: seq<seq<real>>)
    requires Rectangular(cells, width)
    ensures Wide(m, width)
    ensures |m| <= |cells|
    ensures forall a | a in m :: Cell(l, a) in cells
    ensures forall j | 0 <= j < |cells| && cells[j].ptb == l :: cells[j].activity in m
  {
    if |cells| == 0 then []
    else
      var last := cells[|cells| - 1];
      assert cells == cells[..|cells| - 1] + [last];
      var m := CellsOf(cells[..|cells| - 1], l, width);
      if last.ptb == l then m + [last.activity] else m
  }

  /** The index column of the activity frame: each cell's perturbation label. */
  function Labels(cells: seq<Cell>): (ls: seq<string>)
    ensures |ls| == |cells|
  {
    seq(|cells|, j requires 0 <= j < |cells| => cells[j].ptb)
  }

  /**
   The selection keeps every row labelled `l`, once per occurrence and in
   table order: the i-th selected row is the activity row at the i-th
   position of `l` in the index column.
   */
  lemma {:induction false} CellsOfPositions(cells: seq<Cell>, l: string, width: nat)
    requires Rectangular(cells, width)
    ensures var p := Positions(Labels(cells), l);
      var m := CellsOf(cells, l, width);
      && |m| == |p|
      && forall i | 0 <= i < |m| :: m[i] == cells[p[i]].activity
    decreases |cells|
  {
    if |cells| > 0 {
      var n := |cells| - 1;
      var front := cells[..n];
      CellsOfPositions(front, l, width);
      assert Labels(cells)[..n] == Labels(front);
    }
  }

  /** `m[:, i]`. */
  function Column(m: seq<seq<real>>, width: nat, i: nat): (c: seq<real>)
    requires Wide(m, width) && i < width
    ensures |c| == |m|
  {
    seq(|m|, k requires 0 <= k < |m| => m[k][i])
  }

  function RSum(xs: seq<real>): real
  {
    if |xs| == 0 then 0.0 else RSum(xs[..|xs| - 1]) + xs[|xs| - 1]
  }

  /** numpy's mean: NaN for an empty array. */
  function Mean(xs: seq<real>): Score
  {
    if |xs| == 0 then NaN else Value(RSum(xs) / (|xs| as real))
  }

  function Abs(x: real): real
  {
    if x < 0.0 then -x else x
  }

  /**
   `abs(ctrl_cells[:, i].mean() - knockout_cells[:, i].mean())`: never
   negative, and NaN exactly when one of the two groups has no cell.
   */
  function ScoreAt(ctrl: seq<seq<real>>, ko: seq<seq<real>>, width: nat, i: nat): (s: Score)
    requires Wide(ctrl, width) && Wide(ko, width) && i < width
    ensures s.Value? ==> s.v >= 0.0
    ensures s.NaN? <==> |ctrl| == 0 || |ko| == 0
  {
    match (Mean(Column(ctrl, width, i)), Mean(Column(ko, width, i)))
    case (Value(a), Value(b)) => Value(Abs(a - b))
    case _ => NaN
  }

  /** The score does not depend on which group is the control. */
  lemma ScoreSymmetric(ctrl: seq<seq<real>>, ko: seq<seq<real>>, width: nat, i: nat)
    requires Wide(ctrl, width) && Wide(ko, width) && i < width
    ensures ScoreAt(ctrl, ko, width, i) == ScoreAt(ko, ctrl, width, i)
  {
  }

  /** A group compared with itself scores zero (or NaN when it is empty). */
  lemma ScoreSelf(m: seq<seq<real>>, width: nat, i: nat)
    requires Wide(m, width) && i < width
    ensures ScoreAt(m, m, width, i) == if |m| == 0 then NaN else Value(0.0)
  {
  }

  // ---------------------------------------------------------------------
  // The loops of compute_activation_df
  // ---------------------------------------------------------------------

  /** `[g for g in gos if g in genesets]`. */
  function Belonging(gos: seq<string>, genesets: seq<string>): (r: seq<string>)
    ensures forall g :: g in r <==> g in gos && g in genesets
  {
    if |gos| == 0 then []
    else
      var r := Belonging(gos[..|gos| - 1], genesets);
      var g := gos[|gos| - 1];
      assert gos == gos[..|gos| - 1] + [g];
      if g in genesets then r + [g] else r
  }

  /**
   `belonging_genesets` for knockout `k`, bound only in a sena mode; the
   lookup `gene_go_dict[genename_ensemble_dict[k]]` raises KeyError when
   the gene has no GO entry.
   */
  function Belongs(inp: Inputs, k: string): Result<Option<seq<string>>>
    requires k in inp.ensembl
  {
    if !Sena(inp.mode) then Success(None)
    else if inp.ensembl[k] in inp.geneGo then Success(Some(Belonging(inp.gos, inp.geneGo[inp.ensembl[k]])))
    else Failure(KeyError)
  }

  /**
   `score` for geneset `i`: assigned only for `mu_diff`, where a column past
   the matrix raises IndexError.
   */
  function ScoreStep(inp: Inputs, ctrl: seq<seq<real>>, ko: seq<seq<real>>, i: nat): Result<Option<Score>>
    requires Wide(ctrl, inp.width) && Wide(ko, inp.width)
  {
    if inp.scoretype != MuDiff then Success(None)
    else if i < inp.width then Success(Some(ScoreAt(ctrl, ko, inp.width, i)))
    else Failure(IndexError)
  }

  /**
   The row appended for geneset `i`: a sena mode appends the geneset's row,
   reading `score` and `belonging_genesets`, either of which may be unbound;
   the regular and l1 branch reads `belonging_genesets`, which is never bound
   in those modes; any other mode appends nothing.
   */
  function RowStep(inp: Inputs, k: string, score: Option<Score>, bel: Option<seq<string>>, i: nat): Result<seq<Row>>
    requires i < |inp.gos|
  {
    if Sena(inp.mode) then
      if score.None? || bel.None? then Failure(NameError)
      else Success([Row(k, inp.gos[i], inp.scoretype, score.value, inp.gos[i] in bel.value)])
    else if RegularOrL1(inp.mode) then Failure(NameError)
    else Success([])
  }

  /** The inner loop over `enumerate(gos)`, from geneset `i` on. */
  function GenesetRows(inp: Inputs, k: string, ctrl: seq<seq<real>>, ko: seq<seq<real>>,
                       bel: Option<seq<string>>, i: nat): (r: Result<seq<Row>>)
    requires i <= |inp.gos| && Wide(ctrl, inp.width) && Wide(ko, inp.width)
    ensures r.Success? ==> forall row | row in r.value :: row.knockout == k && row.geneset in inp.gos[i..]
    decreases |inp.gos| - i
  {
    if i == |inp.gos| then Success([])
    else
      var score :- ScoreStep(inp, ctrl, ko, i);
      var row :- RowStep(inp, k, score, bel, i);
      var rest :- GenesetRows(inp, k, ctrl, ko, bel, i + 1);
      Success(row + rest)
  }

  /** The body of the outer loop for a knockout with an Ensembl identifier. */
  function KnockoutRows(inp: Inputs, k: string): (r: Result<seq<Row>>)
    requires k in inp.ensembl && Rectangular(inp.cells, inp.width)
    ensures r.Success? ==> forall row | row in r.value :: row.knockout == k && row.geneset in inp.gos
  {
    var bel :- Belongs(inp, k);
    GenesetRows(inp, k, CellsOf(inp.cells, Control, inp.width), CellsOf(inp.cells, k, inp.width), bel, 0)
  }

  /** The outer loop over the targets; a target without an Ensembl identifier is skipped. */
  function Table(inp: Inputs, targets: seq<string>): (r: Result<seq<Row>>)
    requires Rectangular(inp.cells, inp.width)
    ensures r.Success? ==> forall row | row in r.value :: row.knockout in targets && row.knockout in inp.ensembl
  {
    if |targets| == 0 then Success([])
    else
      var rows :- Table(inp, targets[..|targets| - 1]);
      var k := targets[|targets| - 1];
      assert targets == targets[..|targets| - 1] + [k];
      if k !in inp.ensembl then Success(rows)
      else
        var more :- KnockoutRows(inp, k);
        Success(rows + more)
  }

  /**
   `compute_activation_df`: the rows of the loops, as a data frame whose five
   column names are then assigned; a frame without rows has no columns, and
   naming five of them raises ValueError.
   */
  function ComputeActivation(inp: Inputs, targets: seq<string>): (r: Result<seq<Row>>)
    requires Rectangular(inp.cells, inp.width)
    ensures r.Success? ==> |r.value| > 0
  {
    var rows :- Table(inp, targets);
    if |rows| == 0 then Failure(ValueError) else Success(rows)
  }

  // ---------------------------------------------------------------------
  // Reference description of the table
  // ---------------------------------------------------------------------

  /** The targets that have an Ensembl identifier, in target order, repeats kept. */
  function Retained(ensembl: map<string, string>, targets: seq<string>): (r: seq<string>)
    ensures forall k :: k in r <==> k in targets && k in ensembl
    ensures |r| <= |targets|
  {
    if |targets| == 0 then []
    else
      var k := targets[|targets| - 1];
      assert targets == targets[..|targets| - 1] + [k];
      var r := Retained(ensembl, targets[..|targets| - 1]);
      if k in ensembl then r + [k] else r
  }

  /** Every retained knockout's gene has a GO entry. */
  predicate AllAnnotated(inp: Inputs, ks: seq<string>)
  {
    forall k | k in ks && k in inp.ensembl :: inp.ensembl[k] in inp.geneGo
  }

  /**
   The configuration in which the loops append a row for every geneset: a
   sena mode, the `mu_diff` score, every geneset a column of the matrix and
   every retained gene annotated.
   */
  predicate Clean(inp: Inputs, targets: seq<string>)
  {
    && Sena(inp.mode)
    && inp.scoretype == MuDiff
    && |inp.gos| <= inp.width
    && AllAnnotated(inp, targets)
  }

  /**
   The block of knockout `k`, stated directly: one row per geneset in `gos`
   order, scored against the control cells, affected exactly when the
   geneset is one of the gene's GO terms.
   */
  function Block(inp: Inputs, k: string): (b: seq<Row>)
    requires Rectangular(inp.cells, inp.width) && |inp.gos| <= inp.width
    requires k in inp.ensembl && inp.ensembl[k] in inp.geneGo
    ensures |b| == |inp.gos|
  {
    var ctrl := CellsOf(inp.cells, Control, inp.width);
    var ko := CellsOf(inp.cells, k, inp.width);
    seq(|inp.gos|, i requires 0 <= i < |inp.gos| =>
      Row(k, inp.gos[i], inp.scoretype, ScoreAt(ctrl, ko, inp.width, i), inp.gos[i] in inp.geneGo[inp.ensembl[k]]))
  }

  function Blocks(inp: Inputs, ks: seq<string>): (bs: seq<seq<Row>>)
    requires Rectangular(inp.cells, inp.width) && |inp.gos| <= inp.width
    requires forall k | k in ks :: k in inp.ensembl && inp.ensembl[k] in inp.geneGo
    ensures |bs| == |ks|
  {
    seq(|ks|, b requires 0 <= b < |ks| => Block(inp, ks[b]))
  }

  // ---------------------------------------------------------------------
  // The loops against the reference description
  // ---------------------------------------------------------------------

  /**
   The inner loop runs through every geneset: `score` is bound whenever a
   row reads it, every column it reads exists, and the mode is not the
   regular or l1 branch that reads the never-bound `belonging_genesets`.
   */
  predicate RunsThrough(inp: Inputs)
  {
    && (inp.scoretype == MuDiff ==> |inp.gos| <= inp.width)
    && (Sena(inp.mode) ==> inp.scoretype == MuDiff)
    && (!Sena(inp.mode) ==> !RegularOrL1(inp.mode))
  }

  /**
   The exception the inner loop raises when it does not run through: the
   missing column when `mu_diff` reaches one before anything else fails,
   else the unbound local.
   */
  function LoopError(inp: Inputs, i: nat): Error
  {
    if inp.scoretype == MuDiff && inp.width < |inp.gos| && (Sena(inp.mode) || !RegularOrL1(inp.mode) || inp.width <= i)
    then IndexError
    else NameError
  }

  lemma {:induction false} GenesetRowsOutcome(inp: Inputs, k: string, ctrl: seq<seq<real>>, ko: seq<seq<real>>,
                                             bel: Option<seq<string>>, i: nat)
    requires i <= |inp.gos| && Wide(ctrl, inp.width) && Wide(ko, inp.width)
    requires Sena(inp.mode) ==> bel.Some?
    ensures var r := GenesetRows(inp, k, ctrl, ko, bel, i);
      && (r.Success? <==> i == |inp.gos| || RunsThrough(inp))
      && (r.Success? ==> |r.value| == if Sena(inp.mode) then |inp.gos| - i else 0)
      && (r.Failure? ==> r.error == LoopError(inp, i))
    decreases |inp.gos| - i
  {
    if i < |inp.gos| {
      GenesetRowsOutcome(inp, k, ctrl, ko, bel, i + 1);
    }
  }

  /** In the clean configuration the inner loop yields the rest of the reference block. */
  lemma {:induction false} GenesetRowsBlock(inp: Inputs, k: string, i: nat)
    requires Rectangular(inp.cells, inp.width) && |inp.gos| <= inp.width
    requires Sena(inp.mode) && inp.scoretype == MuDiff
    requires k in inp.ensembl && inp.ensembl[k] in inp.geneGo && i <= |inp.gos|
    ensures GenesetRows(inp, k, CellsOf(inp.cells, Control, inp.width), CellsOf(inp.cells, k, inp.width),
                        Some(Belonging(inp.gos, inp.geneGo[inp.ensembl[k]])), i)
         == Success(Block(inp, k)[i..])
    decreases |inp.gos| - i
  {
    if i < |inp.gos| {
      GenesetRowsBlock(inp, k, i + 1);
      var b := Block(inp, k);
      assert b[i..] == [b[i]] + b[i + 1..];
    }
  }

  /**
   One knockout's rows: they exist exactly when the gene is annotated (in a
   sena mode) and the inner loop runs through; a sena mode yields one row
   per geneset and any other mode none; the exception is the missing GO
   entry first, else the inner loop's.
   */
  lemma KnockoutOutcome(inp: Inputs, k: string)
    requires k in inp.ensembl && Rectangular(inp.cells, inp.width)
    ensures var r := KnockoutRows(inp, k);
      && (r.Success? <==> (Sena(inp.mode) ==> inp.ensembl[k] in inp.geneGo) && (|inp.gos| == 0 || RunsThrough(inp)))
      && (r.Success? ==> |r.value| == if Sena(inp.mode) then |inp.gos| else 0)
      && (r.Failure? ==> r.error == if Sena(inp.mode) && inp.ensembl[k] !in inp.geneGo then KeyError else LoopError(inp, 0))
  {
    var bel := Belongs(inp, k);
    if bel.Success? {
      GenesetRowsOutcome(inp, k, CellsOf(inp.cells, Control, inp.width), CellsOf(inp.cells, k, inp.width), bel.value, 0);
    }
  }

  /** An annotated knockout in the clean configuration yields exactly its reference block. */
  lemma KnockoutBlock(inp: Inputs, k: string)
    requires Rectangular(inp.cells, inp.width) && |inp.gos| <= inp.width
    requires Sena(inp.mode) && inp.scoretype == MuDiff
    requires k in inp.ensembl && inp.ensembl[k] in inp.geneGo
    ensures KnockoutRows(inp, k) == Success(Block(inp, k))
  {
    GenesetRowsBlock(inp, k, 0);
    assert Block(inp, k)[0..] == Block(inp, k);
  }

  /**
   The outer loop finishes exactly when no knockout is retained, or the
   inner loop runs through and (in a sena mode) every retained gene is
   annotated; it then holds one row per retained knockout and geneset in a
   sena mode and no row in any other mode.
   */
  lemma {:induction false} TableOutcome(inp: Inputs, targets: seq<string>)
    requires Rectangular(inp.cells, inp.width)
    ensures var r := Table(inp, targets);
      var kept := Retained(inp.ensembl, targets);
      && (r.Success? <==> |kept| == 0 || ((|inp.gos| == 0 || RunsThrough(inp)) && (Sena(inp.mode) ==> AllAnnotated(inp, targets))))
      && (r.Success? ==> |r.value| == if Sena(inp.mode) then |kept| * |inp.gos| else 0)
    decreases |targets|
  {
    if |targets| > 0 {
      TableOutcome(inp, targets[..|targets| - 1]);
      TableOutcomeStep(inp, targets);
    }
    assert Outcome(inp, targets, Table(inp, targets));
  }

  /** What `TableOutcome` states about the outer loop's result `r` on the knockouts `ks`. */
  predicate Outcome(inp: Inputs, ks: seq<string>, r: Result<seq<Row>>)
  {
    var kept := Retained(inp.ensembl, ks);
    && (r.Success? <==> |kept| == 0 || ((|inp.gos| == 0 || RunsThrough(inp)) && (Sena(inp.mode) ==> AllAnnotated(inp, ks))))
    && (r.Success? ==> |r.value| == if Sena(inp.mode) then |kept| * |inp.gos| else 0)
  }

  /** One knockout more: the outer loop's step for `TableOutcome`. */
  lemma TableOutcomeStep(inp: Inputs, targets: seq<string>)
    requires Rectangular(inp.cells, inp.width) && |targets| > 0
    requires Outcome(inp, targets[..|targets| - 1], Table(inp, targets[..|targets| - 1]))
    ensures Outcome(inp, targets, Table(inp, targets))
  {
    var before, k := targets[..|targets| - 1], targets[|targets| - 1];
    SplitLast(targets);
    if k in inp.ensembl {
      TableStepKept(inp, before, k);
    } else {
      TableStepSkipped(inp, before, k);
    }
  }

  lemma TableStepSkipped(inp: Inputs, before: seq<string>, k: string)
    requires Rectangular(inp.cells, inp.width) && k !in inp.ensembl
    requires Outcome(inp, before, Table(inp, before))
    ensures Outcome(inp, before + [k], Table(inp, before + [k]))
  {
    var targets := before + [k];
    assert targets[..|targets| - 1] == before;
    AllAnnotatedSnoc(inp, before, k);
    assert Table(inp, targets) == Table(inp, before);
    assert Retained(inp.ensembl, targets) == Retained(inp.ensembl, before);
  }

  lemma TableStepKept(inp: Inputs, before: seq<string>, k: string)
    requires Rectangular(inp.cells, inp.width) && k in inp.ensembl
    requires Outcome(inp, before, Table(inp, before))
    ensures Outcome(inp, before + [k], Table(inp, before + [k]))
  {
    var targets := before + [k];
    assert targets[..|targets| - 1] == before;
    AllAnnotatedSnoc(inp, before, k);
    var kept := Retained(inp.ensembl, before);
    NoneRetained(inp.ensembl, before);
    var r, more := Table(inp, before), KnockoutRows(inp, k);
    var t := Table(inp, targets);
    assert t == if r.Failure? then Failure(r.error) else if more.Failure? then Failure(more.error) else Success(r.value + more.value);
    assert Retained(inp.ensembl, targets) == kept + [k];
    KnockoutOutcome(inp, k);
    KeptStepLogic(r.Success?, |kept|, |inp.gos| == 0 || RunsThrough(inp), Sena(inp.mode), AllAnnotated(inp, before),
                  inp.ensembl[k] in inp.geneGo, more.Success?,
                  if r.Success? then |r.value| else 0, if more.Success? then |more.value| else 0, |inp.gos|);
  }

  /**
   The bookkeeping of a step that retains one more knockout, on the truth
   values and lengths involved: the table before it (`okBefore`, `n`
   knockouts, `lenBefore` rows) and the new knockout's rows (`okMore`,
   `lenMore` rows).
   */
  lemma KeptStepLogic(okBefore: bool, n: nat, runs: bool, sena: bool, annotated: bool, annotatedK: bool, okMore: bool,
                      lenBefore: nat, lenMore: nat, g: nat)
    requires okBefore <==> n == 0 || (runs && (sena ==> annotated))
    requires n == 0 ==> annotated
    requires okBefore ==> lenBefore == if sena then n * g else 0
    requires okMore <==> (sena ==> annotatedK) && runs
    requires okMore ==> lenMore == if sena then g else 0
    ensures okBefore && okMore <==> runs && (sena ==> annotated && annotatedK)
    ensures okBefore && okMore ==> lenBefore + lenMore == if sena then (n + 1) * g else 0
  {
    MulSucc(n, g);
  }

  lemma {:induction false} NoneRetained(ensembl: map<string, string>, ks: seq<string>)
    ensures |Retained(ensembl, ks)| == 0 <==> forall k | k in ks :: k !in ensembl
    decreases |ks|
  {
    if |ks| > 0 {
      var front, x := ks[..|ks| - 1], ks[|ks| - 1];
      assert ks == front + [x];
      NoneRetained(ensembl, front);
      assert forall k :: k in ks <==> k in front || k == x;
    }
  }

  lemma AllAnnotatedSnoc(inp: Inputs, ks: seq<string>, k: string)
    ensures AllAnnotated(inp, ks + [k]) <==> AllAnnotated(inp, ks) && (k in inp.ensembl ==> inp.ensembl[k] in inp.geneGo)
  {
    if AllAnnotated(inp, ks) && (k in inp.ensembl ==> inp.ensembl[k] in inp.geneGo) {
      forall x | x in ks + [k] && x in inp.ensembl ensures inp.ensembl[x] in inp.geneGo {
        if x != k {
          assert x in ks;
        }
      }
    }
  }

  /**
   The exception of a failing outer loop: the first retained knockout's
   missing GO entry, or the inner loop's exception, or, when the inner loop
   would run through, the missing GO entry of a later knockout.
   */
  lemma {:induction false} TableError(inp: Inputs, targets: seq<string>)
    requires Rectangular(inp.cells, inp.width)
    requires Table(inp, targets).Failure?
    ensures var kept := Retained(inp.ensembl, targets);
      && |kept| > 0
      && Table(inp, targets).error ==
           if Sena(inp.mode) && (inp.ensembl[kept[0]] !in inp.geneGo || |inp.gos| == 0 || RunsThrough(inp))
           then KeyError else LoopError(inp, 0)
    decreases |targets|
  {
    var before := targets[..|targets| - 1];
    var k := targets[|targets| - 1];
    assert targets == before + [k];
    TableOutcome(inp, before);
    if Table(inp, before).Failure? {
      TableError(inp, before);
    } else {
      KnockoutOutcome(inp, k);
    }
  }

  /** In the clean configuration the table is the retained knockouts' reference blocks, in order. */
  lemma {:induction false} TableBlocks(inp: Inputs, targets: seq<string>)
    requires Rectangular(inp.cells, inp.width) && Clean(inp, targets)
    ensures Table(inp, targets) == Success(Flatten(Blocks(inp, Retained(inp.ensembl, targets))))
    decreases |targets|
  {
    if |targets| > 0 {
      var before := targets[..|targets| - 1];
      var k := targets[|targets| - 1];
      assert targets == before + [k];
      TableBlocks(inp, before);
      var kept := Retained(inp.ensembl, before);
      if k in inp.ensembl {
        KnockoutBlock(inp, k);
        var bs := Blocks(inp, kept + [k]);
        assert bs[..|kept|] == Blocks(inp, kept);
      }
    }
  }

  /**
   compute_activation_df returns a table exactly in the clean configuration
   with at least one geneset and one retained knockout; the table is then
   the retained knockouts' reference blocks, `|retained| * |gos|` rows.
   */
  lemma ActivationOutcome(inp: Inputs, targets: seq<string>)
    requires Rectangular(inp.cells, inp.width)
    ensures var r := ComputeActivation(inp, targets);
      var kept := Retained(inp.ensembl, targets);
      && (r.Success? <==> Clean(inp, targets) && |inp.gos| > 0 && |kept| > 0)
      && (r.Success? ==> r.value == Flatten(Blocks(inp, kept)) && |r.value| == |kept| * |inp.gos|)
  {
    TableOutcome(inp, targets);
    var kept := Retained(inp.ensembl, targets);
    if Clean(inp, targets) {
      TableBlocks(inp, targets);
      if |inp.gos| > 0 && |kept| > 0 {
        assert |kept| * |inp.gos| >= |inp.gos|;
      }
    }
  }

  /**
   The exception compute_activation_df raises: ValueError exactly when the
   loops finish without a row (in particular when no knockout is retained),
   otherwise the outer loop's.
   */
  lemma ActivationError(inp: Inputs, targets: seq<string>)
    requires Rectangular(inp.cells, inp.width)
    requires ComputeActivation(inp, targets).Failure?
    ensures var e := ComputeActivation(inp, targets).error;
      && (e == ValueError <==> Table(inp, targets).Success?)
      && (|Retained(inp.ensembl, targets)| == 0 ==> e == ValueError)
  {
    TableOutcome(inp, targets);
    if Table(inp, targets).Failure? {
      TableError(inp, targets);
    }
  }
}
