/**
 The ablation driver: which autoencoder a configuration builds and with what
 latent size, the layer chain of each variant, the loss with its optional L1
 term, the reporting schedule over the fixed epoch budget, and the
 seed-tagged results table. The tensor arithmetic itself is abstract: the
 trainable values and the diagnostics computed at each report are
 parameters.
 */
module Experiment {
  import opened Failures
  import opened Modes
  import opened NatArith
  import opened Seqs

  // ---------------------------------------------------------------------
  // Command-line configuration
  // ---------------------------------------------------------------------

  datatype Analysis = Interpretability | Efficiency | LatentCorrelation | OtherAnalysis(name: string)

  /** The second command-line argument. */
  function ParseAnalysis(s: string): (a: Analysis)
    ensures a.OtherAnalysis? <==> s != "interpretability" && s != "efficiency" && s != "lcorr"
  {
    if s == "interpretability" then Interpretability
    else if s == "efficiency" then Efficiency
    else if s == "lcorr" then LatentCorrelation
    else OtherAnalysis(s)
  }

  /**
   `nlayers`: the integer 1 when no fourth argument is given, otherwise the
   argument's text, which stays a string.
   */
  datatype LayerCount = DefaultOne | Given(text: string)

  function LayerCountOf(argv: seq<string>): LayerCount
  {
    if |argv| < 5 then DefaultOne else Given(argv[4])
  }

  /** `nlayers == 1`: a string never compares equal to the integer 1. */
  predicate EqualsOne(n: LayerCount)
  {
    n.DefaultOne?
  }

  // ---------------------------------------------------------------------
  // Architectures and their layer chains
  // ---------------------------------------------------------------------

  datatype Architecture =
    | Autoencoder                // dense encoder, dense decoder
    | Autoencoder2Layers         // dense encoder, dense delta, dense decoder
    | SenaNet(sp: real)          // masked encoder, dense decoder
    | SenaDeltaNet(sp: real)     // masked encoder, dense delta, dense decoder

  datatype ModelSpec = ModelSpec(arch: Architecture, inputSize: nat, latentSize: nat)

  /**
   What the dataset fixes: the number of genes (input width), the number of
   gene sets, and the number of ones in the SENA encoder mask, which is built
   outside this model.
   */
  datatype DataShape = DataShape(inputSize: nat, numGenesets: nat, maskOnes: nat)

  datatype Layer = Dense(inDim: nat, outDim: nat) | Masked(inDim: nat, outDim: nat, sp: real) | LeakyRelu

  /** The layers `forward` applies, in order. */
  function Layers(m: ModelSpec): seq<Layer>
  {
    var i := m.inputSize;
    var l := m.latentSize;
    match m.arch
    case Autoencoder => [Dense(i, l), LeakyRelu, Dense(l, i)]
    case Autoencoder2Layers => [Dense(i, l), Dense(l, l), LeakyRelu, Dense(l, i)]
    case SenaNet(sp) => [Masked(i, l, sp), LeakyRelu, Dense(l, i)]
    case SenaDeltaNet(sp) => [Masked(i, l, sp), Dense(l, l), LeakyRelu, Dense(l, i)]
  }

  /** The width a layer produces from a vector of width `w`, if it accepts that width. */
  function Apply(layer: Layer, w: nat): Option<nat>
  {
    match layer
    case Dense(i, o) => if i == w then Some(o) else None
    case Masked(i, o, _) => if i == w then Some(o) else None
    case LeakyRelu => Some(w)
  }

  /** The widths a chain of layers passes through, starting from `w`; activations keep the width. */
  function Widths(ls: seq<Layer>, w: nat): Option<seq<nat>>
  {
    if |ls| == 0 then Some([w])
    else
      match Apply(ls[0], w)
      case None => None
      case Some(w') =>
        match Widths(ls[1..], w')
        case None => None
        case Some(rest) => Some(if ls[0].LeakyRelu? then rest else [w] + rest)
  }

  predicate IsTwoLayer(a: Architecture)
  {
    a.Autoencoder2Layers? || a.SenaDeltaNet?
  }

  /** A non-activation layer that accepts width `w` prepends `w` to the rest of the chain. */
  lemma {:induction false} WidthsCons(x: Layer, rest: seq<Layer>, w: nat, r: seq<nat>)
    requires !x.LeakyRelu? && Apply(x, w).Some?
    requires Widths(rest, Apply(x, w).value) == Some(r)
    ensures Widths([x] + rest, w) == Some([w] + r)
  {
    assert ([x] + rest)[1..] == rest;
  }

  /** The decoder end shared by every variant: LeakyReLU, then latent -> input. */
  lemma DecoderWidths(l: nat, i: nat)
    ensures Widths([LeakyRelu, Dense(l, i)], l) == Some([l, i])
  {
    var last: seq<Layer> := [Dense(l, i)];
    var none: seq<Layer> := [];
    assert Widths(none, i) == Some([i]);
    WidthsCons(Dense(l, i), none, l, [i]);
    assert [Dense(l, i)] + none == last;
    assert [l] + [i] == [l, i];
    var tail := [LeakyRelu] + last;
    assert tail[1..] == last;
    assert Apply(LeakyRelu, l) == Some(l);
    assert tail == [LeakyRelu, Dense(l, i)];
  }

  /** Every variant maps input -> latent (-> latent) -> input. */
  lemma LayerWidths(m: ModelSpec)
    ensures Widths(Layers(m), m.inputSize)
         == Some(if IsTwoLayer(m.arch) then [m.inputSize, m.latentSize, m.latentSize, m.inputSize]
                 else [m.inputSize, m.latentSize, m.inputSize])
  {
    var i := m.inputSize;
    var l := m.latentSize;
    var ls := Layers(m);
    var tail := [LeakyRelu, Dense(l, i)];
    DecoderWidths(l, i);
    if IsTwoLayer(m.arch) {
      WidthsCons(Dense(l, l), tail, l, [l, i]);
      assert [Dense(l, l)] + tail == ls[1..];
      assert [l] + [l, i] == [l, l, i];
      WidthsCons(ls[0], ls[1..], i, [l, l, i]);
      assert [ls[0]] + ls[1..] == ls;
      assert [i] + [l, l, i] == [i, l, l, i];
    } else {
      WidthsCons(ls[0], tail, i, [l, i]);
      assert [ls[0]] + tail == ls;
      assert [i] + [l, i] == [i, l, i];
    }
  }

  /**
   Each variant has exactly one nonlinearity, right before the decoder, so
   none between the encoder and the delta layer; the encoder is masked
   exactly in the SENA variants and the delta layer is latent -> latent.
   */
  lemma LayerShape(m: ModelSpec)
    ensures var ls := Layers(m);
      && ls[|ls| - 2] == LeakyRelu
      && (forall k | 0 <= k < |ls| && k != |ls| - 2 :: !ls[k].LeakyRelu?)
      && (ls[0].Masked? <==> m.arch.SenaNet? || m.arch.SenaDeltaNet?)
      && (IsTwoLayer(m.arch) ==> |ls| == 4 && ls[1] == Dense(m.latentSize, m.latentSize))
      && (!IsTwoLayer(m.arch) ==> |ls| == 3)
  {
  }

  // ---------------------------------------------------------------------
  // Capacity matching and model selection
  // ---------------------------------------------------------------------

  /**
   The latent size that gives a dense one-layer autoencoder the budget of
   the SENA model: mask ones plus decoder weights (gene sets x inputs) plus
   decoder biases (inputs), divided by 2*inputs + 2 and rounded up.
   */
  function MatchedLatentSize(s: DataShape): nat
  {
    CeilDiv(s.maskOnes + s.numGenesets * s.inputSize + s.inputSize, 2 * s.inputSize + 2)
  }

  /**
   The matched size is the least L with L * (2I + 2) covering the SENA
   budget, and it is at least 1 whenever there is an input.
   */
  lemma MatchedLatentSizeIsLeast(s: DataShape)
    ensures var budget := s.maskOnes + s.numGenesets * s.inputSize + s.inputSize;
      var l := MatchedLatentSize(s);
      && l * (2 * s.inputSize + 2) >= budget
      && (l == 0 || (l - 1) * (2 * s.inputSize + 2) < budget)
      && (s.inputSize >= 1 ==> l >= 1)
  {
  }

  /** More mask ones never shrink the matched latent size. */
  lemma MatchedLatentSizeMonotone(s: DataShape, moreOnes: nat)
    requires s.maskOnes <= moreOnes
    ensures MatchedLatentSize(s) <= MatchedLatentSize(s.(maskOnes := moreOnes))
  {
    CeilDivMonotone(s.maskOnes + s.numGenesets * s.inputSize + s.inputSize,
                    moreOnes + s.numGenesets * s.inputSize + s.inputSize,
                    2 * s.inputSize + 2);
  }

  /**
   The model branch of run_model. `regular` depends on the analysis: the
   interpretability run uses one latent per gene set, the efficiency run the
   capacity-matched size, and any other analysis binds no model at all.
   */
  function SelectModel(mode: Mode, analysis: Analysis, nlayers: LayerCount, s: DataShape): Result<ModelSpec>
  {
    var plain := if EqualsOne(nlayers) then Autoencoder else Autoencoder2Layers;
    match mode
    case Regular =>
      if analysis == Interpretability then Success(ModelSpec(Autoencoder, s.inputSize, s.numGenesets))
      else if analysis == Efficiency then Success(ModelSpec(Autoencoder, s.inputSize, MatchedLatentSize(s)))
      else Failure(NameError)
    case RegularOrig => Success(ModelSpec(plain, s.inputSize, s.numGenesets))
    case Sena(sp) => Success(ModelSpec(SenaNet(sp), s.inputSize, s.numGenesets))
    case SenaDelta(sp) => Success(ModelSpec(SenaDeltaNet(sp), s.inputSize, s.numGenesets))
    case L1(_) => Success(ModelSpec(plain, s.inputSize, s.numGenesets))
  }

  /**
   The model a mode text builds. A sena mode without `delta` builds SENA and
   one with `delta` builds SENA-Delta, both with one latent per gene set and
   the parsed relaxation probability; `regular_orig` and `l1` modes build the
   one-layer autoencoder exactly when `nlayers` is the integer 1.
   */
  lemma SelectedModelByText(mode: string, analysis: Analysis, nlayers: LayerCount, s: DataShape)
    requires ParseMode(mode).Success?
    ensures var m := ParseMode(mode).value;
      var r := SelectModel(m, analysis, nlayers, s);
      && ("sena" <= mode && !Contains(mode, "delta") ==>
            m.Sena? && r == Success(ModelSpec(SenaNet(m.sp), s.inputSize, s.numGenesets)))
      && ("sena" <= mode && Contains(mode, "delta") ==>
            m.SenaDelta? && r == Success(ModelSpec(SenaDeltaNet(m.sp), s.inputSize, s.numGenesets)))
      && (mode == "regular_orig" || "l1" <= mode ==>
            r.Success? && r.value.latentSize == s.numGenesets
            && (r.value.arch == Autoencoder <==> EqualsOne(nlayers))
            && (r.value.arch == Autoencoder2Layers <==> !EqualsOne(nlayers)))
      && (mode == "regular" ==> (r.Success? <==> analysis == Interpretability || analysis == Efficiency))
  {
    ModeVariantByText(mode);
  }

  /** Passing a fourth argument, even the text "1", always selects the two-layer plain model. */
  lemma GivenLayerCountIsNeverOne(argv: seq<string>, mode: Mode, analysis: Analysis, s: DataShape)
    requires |argv| >= 5 && (mode == RegularOrig || mode.L1?)
    ensures SelectModel(mode, analysis, LayerCountOf(argv), s).value.arch == Autoencoder2Layers
  {
  }

  // ---------------------------------------------------------------------
  // Loss
  // ---------------------------------------------------------------------

  /** The minimised loss: the MSE, plus lambda times the encoder's L1 norm in l1 modes. */
  function TotalLoss(mode: Mode, mse: real, encoderL1: real): real
  {
    if mode.L1? then mse + mode.lambda * encoderL1 else mse
  }

  /**
   The L1 term changes the loss exactly for the modes whose text starts with
   `l1`, and it can only raise it.
   */
  lemma L1TermOnlyInL1Modes(mode: string, mse: real, encoderL1: real)
    requires ParseMode(mode).Success? && encoderL1 > 0.0
    ensures TotalLoss(ParseMode(mode).value, mse, encoderL1) != mse <==> "l1" <= mode
    ensures TotalLoss(ParseMode(mode).value, mse, encoderL1) >= mse
  {
    ModeVariantByText(mode);
    L1TermRaises(ParseMode(mode).value, mse, encoderL1);
  }

  lemma L1TermRaises(m: Mode, mse: real, encoderL1: real)
    requires m.L1? ==> m.lambda > 0.0
    requires encoderL1 > 0.0
    ensures TotalLoss(m, mse, encoderL1) != mse <==> m.L1?
    ensures TotalLoss(m, mse, encoderL1) >= mse
  {
    if m.L1? {
      PositiveProduct(m.lambda, encoderL1);
    }
  }

  lemma PositiveProduct(a: real, b: real)
    requires a > 0.0 && b > 0.0
    ensures a * b > 0.0
  {
  }

  // ---------------------------------------------------------------------
  // Reporting schedule and results
  // ---------------------------------------------------------------------

  const Epochs: nat := 250

  /** Reports happen every second epoch for the efficiency analysis, every fifth otherwise. */
  function ReportInterval(a: Analysis): (r: nat)
    ensures r > 0
  {
    if a == Efficiency then 2 else 5
  }

  /** The reporting epochs below `epochs`, ascending: 0, interval, 2 * interval, ... */
  function ReportEpochs(epochs: nat, interval: nat): seq<nat>
    requires interval > 0
  {
    seq(CeilDiv(epochs, interval), k => k * interval)
  }

  /**
   The loop `for epoch in range(epochs): if not epoch % interval: report`
   reports exactly these epochs: an epoch is reported iff it is below the
   budget and a multiple of the interval.
   */
  lemma ReportEpochsMembers(epochs: nat, interval: nat, e: int)
    requires interval > 0
    ensures e in ReportEpochs(epochs, interval) <==> 0 <= e < epochs && e % interval == 0
  {
    var rs := ReportEpochs(epochs, interval);
    if e in rs {
      var k :| 0 <= k < |rs| && rs[k] == e;
      DivModUnique(e, interval, k, 0);
      MulMonotone(k, |rs| - 1, interval);
    }
    if 0 <= e < epochs && e % interval == 0 {
      var k := e / interval;
      assert e == k * interval;
      assert rs[k] == e;
    }
  }

  /**
   Over the 250 epochs there are 125 efficiency reports and 50 of any other
   kind, the first at epoch 0; with no epochs there would be none.
   */
  lemma ReportCounts()
    ensures |ReportEpochs(Epochs, ReportInterval(Efficiency))| == 125
    ensures |ReportEpochs(Epochs, ReportInterval(Interpretability))| == 50
    ensures ReportEpochs(Epochs, 2)[0] == 0 && ReportEpochs(Epochs, 5)[0] == 0
    ensures ReportEpochs(0, 2) == [] && ReportEpochs(0, 5) == []
  {
    assert CeilDiv(Epochs, 2) == 125;
    assert CeilDiv(Epochs, 5) == 50;
  }

  /** One row of the results table, with the epoch and seed columns it is tagged with. */
  datatype Record<S> = Record(epoch: nat, seed: nat, row: S)

  /**
   The rows one report contributes: the efficiency branch builds a one-row
   frame itself; the other analyses return whatever table the external
   diagnostics compute, whose rows all get the epoch column.
   */
  function ReportRows<S>(analysis: Analysis, seed: nat, epoch: nat,
                         diagnostics: (nat, nat) -> seq<S>, efficiencyRow: (nat, nat) -> S): (rs: seq<Record<S>>)
    ensures forall k | 0 <= k < |rs| :: rs[k].seed == seed && rs[k].epoch == epoch
    ensures analysis == Efficiency ==> |rs| == 1
  {
    if analysis == Efficiency then [Record(epoch, seed, efficiencyRow(seed, epoch))]
    else DiagnosticRows(seed, epoch, diagnostics)
  }

  /** The diagnostics frame of one report, every row tagged with its epoch and the seed. */
  function DiagnosticRows<S>(seed: nat, epoch: nat, diagnostics: (nat, nat) -> seq<S>): seq<Record<S>>
  {
    seq(|diagnostics(seed, epoch)|, k requires 0 <= k < |diagnostics(seed, epoch)| =>
          Record(epoch, seed, diagnostics(seed, epoch)[k]))
  }

  /** The frames `results` holds after the listed reports, one per epoch, in order. */
  function ReportFrames<S>(epochs: seq<nat>, analysis: Analysis, seed: nat,
                           diagnostics: (nat, nat) -> seq<S>, efficiencyRow: (nat, nat) -> S): (fs: seq<seq<Record<S>>>)
    ensures |fs| == |epochs|
  {
    seq(|epochs|, i requires 0 <= i < |epochs| => ReportRows(analysis, seed, epochs[i], diagnostics, efficiencyRow))
  }

  /** The reports of the listed epochs, concatenated in order: `pd.concat(results)`. */
  function CollectReports<S>(epochs: seq<nat>, analysis: Analysis, seed: nat,
                             diagnostics: (nat, nat) -> seq<S>, efficiencyRow: (nat, nat) -> S): (rs: seq<Record<S>>)
    ensures forall k | 0 <= k < |rs| :: rs[k].seed == seed && rs[k].epoch in epochs
    ensures analysis == Efficiency ==> |rs| == |epochs| && forall k | 0 <= k < |rs| :: rs[k].epoch == epochs[k]
  {
    if |epochs| == 0 then []
    else
      var prefix := epochs[..|epochs| - 1];
      var rs' := CollectReports(prefix, analysis, seed, diagnostics, efficiencyRow);
      assert forall k | 0 <= k < |prefix| :: prefix[k] == epochs[k];
      rs' + ReportRows(analysis, seed, epochs[|epochs| - 1], diagnostics, efficiencyRow)
  }

  /** `pd.concat(results)`: the collected rows are the per-epoch frames, concatenated in epoch order. */
  lemma {:induction false} CollectReportsFrames<S>(epochs: seq<nat>, analysis: Analysis, seed: nat,
                                                  diagnostics: (nat, nat) -> seq<S>, efficiencyRow: (nat, nat) -> S)
    ensures CollectReports(epochs, analysis, seed, diagnostics, efficiencyRow)
         == Flatten(ReportFrames(epochs, analysis, seed, diagnostics, efficiencyRow))
    decreases |epochs|
  {
    if |epochs| > 0 {
      CollectReportsFrames(epochs[..|epochs| - 1], analysis, seed, diagnostics, efficiencyRow);
      ReportFramesSnoc(epochs, analysis, seed, diagnostics, efficiencyRow);
    }
  }

  /** One report more appends its frame to the concatenation. */
  lemma ReportFramesSnoc<S>(epochs: seq<nat>, analysis: Analysis, seed: nat,
                            diagnostics: (nat, nat) -> seq<S>, efficiencyRow: (nat, nat) -> S)
    requires |epochs| > 0
    ensures Flatten(ReportFrames(epochs, analysis, seed, diagnostics, efficiencyRow))
         == Flatten(ReportFrames(epochs[..|epochs| - 1], analysis, seed, diagnostics, efficiencyRow))
            + ReportRows(analysis, seed, epochs[|epochs| - 1], diagnostics, efficiencyRow)
  {
    var fs := ReportFrames(epochs, analysis, seed, diagnostics, efficiencyRow);
    assert fs[..|fs| - 1] == ReportFrames(epochs[..|epochs| - 1], analysis, seed, diagnostics, efficiencyRow);
  }

  /**
   run_model: parse the mode, build the model, train for the fixed budget and
   append one report per reporting epoch, then tag every row with the seed.
   An analysis no branch handles leaves the epoch-0 summary unbound; with no
   report at all, concatenating an empty list of frames fails.
   */
  function RunModel<S>(mode: string, seed: nat, analysis: Analysis, nlayers: LayerCount, s: DataShape,
                       diagnostics: (nat, nat) -> seq<S>, efficiencyRow: (nat, nat) -> S): (r: Result<seq<Record<S>>>)
    ensures r.Success? <==>
      ParseMode(mode).Success? && SelectModel(ParseMode(mode).value, analysis, nlayers, s).Success?
      && !analysis.OtherAnalysis?
    ensures r.Success? ==> forall k | 0 <= k < |r.value| ::
      r.value[k].seed == seed && r.value[k].epoch < Epochs && r.value[k].epoch % ReportInterval(analysis) == 0
    ensures r.Success? && analysis == Efficiency ==>
      |r.value| == 125 && forall k | 0 <= k < 125 :: r.value[k] == Record(2 * k, seed, efficiencyRow(seed, 2 * k))
  {
    var m :- ParseMode(mode);
    var model :- SelectModel(m, analysis, nlayers, s);
    if analysis.OtherAnalysis? then Failure(NameError)
    else
      var epochs := ReportEpochs(Epochs, ReportInterval(analysis));
      assert forall e | e in epochs :: e < Epochs && e % ReportInterval(analysis) == 0 by {
        forall e | e in epochs ensures e < Epochs && e % ReportInterval(analysis) == 0 {
          ReportEpochsMembers(Epochs, ReportInterval(analysis), e);
        }
      }
      if |epochs| == 0 then Failure(ValueError)
      else
        var rs := CollectReports(epochs, analysis, seed, diagnostics, efficiencyRow);
        assert analysis == Efficiency ==> forall k | 0 <= k < |rs| :: rs[k] == Record(2 * k, seed, efficiencyRow(seed, 2 * k)) by {
          if analysis == Efficiency {
            EfficiencyRecords(epochs, seed, diagnostics, efficiencyRow);
          }
        }
        Success(rs)
  }

  /**
   For interpretability and lcorr, a run's rows are the diagnostics frames
   of the 50 reports at epochs 0, 5, ..., 245, concatenated in epoch order,
   each row tagged with its epoch and the seed.
   */
  lemma DiagnosticReports<S>(mode: string, seed: nat, analysis: Analysis, nlayers: LayerCount, s: DataShape,
                             diagnostics: (nat, nat) -> seq<S>, efficiencyRow: (nat, nat) -> S)
    requires RunModel(mode, seed, analysis, nlayers, s, diagnostics, efficiencyRow).Success?
    requires analysis != Efficiency
    ensures RunModel(mode, seed, analysis, nlayers, s, diagnostics, efficiencyRow).value
         == Flatten(seq(50, i requires 0 <= i < 50 => DiagnosticRows(seed, 5 * i, diagnostics)))
  {
    DiagnosticFrames(analysis, seed, diagnostics, efficiencyRow);
  }

  /** The diagnostics frames of the 50 reports, collected in epoch order. */
  lemma DiagnosticFrames<S>(analysis: Analysis, seed: nat, diagnostics: (nat, nat) -> seq<S>, efficiencyRow: (nat, nat) -> S)
    requires analysis != Efficiency
    ensures CollectReports(ReportEpochs(Epochs, ReportInterval(analysis)), analysis, seed, diagnostics, efficiencyRow)
         == Flatten(seq(50, i requires 0 <= i < 50 => DiagnosticRows(seed, 5 * i, diagnostics)))
  {
    var epochs := ReportEpochs(Epochs, ReportInterval(analysis));
    ReportCounts();
    CollectReportsFrames(epochs, analysis, seed, diagnostics, efficiencyRow);
    var fs := ReportFrames(epochs, analysis, seed, diagnostics, efficiencyRow);
    assert fs == seq(50, i requires 0 <= i < 50 => DiagnosticRows(seed, 5 * i, diagnostics));
  }

  lemma {:induction false} EfficiencyRecords<S>(epochs: seq<nat>, seed: nat,
                                                diagnostics: (nat, nat) -> seq<S>, efficiencyRow: (nat, nat) -> S)
    ensures var rs := CollectReports(epochs, Efficiency, seed, diagnostics, efficiencyRow);
      forall k | 0 <= k < |rs| :: rs[k] == Record(epochs[k], seed, efficiencyRow(seed, epochs[k]))
    decreases |epochs|
  {
    if |epochs| > 0 {
      var prefix := epochs[..|epochs| - 1];
      EfficiencyRecords(prefix, seed, diagnostics, efficiencyRow);
    }
  }

  /** Three independent repetitions for the efficiency analysis, five otherwise. */
  function NumSeeds(a: Analysis): nat
  {
    if a == Efficiency then 3 else 5
  }

  /** The seeds 0 .. n-1 run one after another, results concatenated; the first failure stops the script. */
  function RunSeeds<S>(n: nat, mode: string, analysis: Analysis, nlayers: LayerCount, s: DataShape,
                       diagnostics: (nat, nat) -> seq<S>, efficiencyRow: (nat, nat) -> S): (r: Result<seq<Record<S>>>)
    ensures r.Success? ==> forall k | 0 <= k < |r.value| :: r.value[k].seed < n
  {
    if n == 0 then Success([])
    else
      var before :- RunSeeds(n - 1, mode, analysis, nlayers, s, diagnostics, efficiencyRow);
      var last :- RunModel(mode, n - 1, analysis, nlayers, s, diagnostics, efficiencyRow);
      Success(before + last)
  }

  /**
   The list `results` of per-seed frames, in seed order; the first failure
   stops the script.
   */
  function SeedFrames<S>(n: nat, mode: string, analysis: Analysis, nlayers: LayerCount, s: DataShape,
                         diagnostics: (nat, nat) -> seq<S>, efficiencyRow: (nat, nat) -> S): (r: Result<seq<seq<Record<S>>>>)
    ensures r.Success? ==> |r.value| == n
    ensures r.Success? ==> forall i, k | 0 <= i < |r.value| && 0 <= k < |r.value[i]| :: r.value[i][k].seed == i
  {
    if n == 0 then Success([])
    else
      var before :- SeedFrames(n - 1, mode, analysis, nlayers, s, diagnostics, efficiencyRow);
      var last :- RunModel(mode, n - 1, analysis, nlayers, s, diagnostics, efficiencyRow);
      Success(before + [last])
  }

  /** The list of per-seed frames is saved exactly when the concatenated table would be. */
  lemma {:induction false} SeedFramesOutcome<S>(n: nat, mode: string, analysis: Analysis, nlayers: LayerCount, s: DataShape,
                                               diagnostics: (nat, nat) -> seq<S>, efficiencyRow: (nat, nat) -> S)
    ensures SeedFrames(n, mode, analysis, nlayers, s, diagnostics, efficiencyRow).Success?
        <==> RunSeeds(n, mode, analysis, nlayers, s, diagnostics, efficiencyRow).Success?
    decreases n
  {
    if n > 0 {
      SeedFramesOutcome(n - 1, mode, analysis, nlayers, s, diagnostics, efficiencyRow);
    }
  }

  /** The concatenated table is the list of per-seed frames, flattened. */
  lemma {:induction false} SeedFramesFlatten<S>(n: nat, mode: string, analysis: Analysis, nlayers: LayerCount, s: DataShape,
                                               diagnostics: (nat, nat) -> seq<S>, efficiencyRow: (nat, nat) -> S)
    requires SeedFrames(n, mode, analysis, nlayers, s, diagnostics, efficiencyRow).Success?
    ensures RunSeeds(n, mode, analysis, nlayers, s, diagnostics, efficiencyRow).Success?
    ensures Flatten(SeedFrames(n, mode, analysis, nlayers, s, diagnostics, efficiencyRow).value)
         == RunSeeds(n, mode, analysis, nlayers, s, diagnostics, efficiencyRow).value
    decreases n
  {
    if n > 0 {
      SeedFramesFlatten(n - 1, mode, analysis, nlayers, s, diagnostics, efficiencyRow);
      var before := SeedFrames(n - 1, mode, analysis, nlayers, s, diagnostics, efficiencyRow).value;
      var last := RunModel(mode, n - 1, analysis, nlayers, s, diagnostics, efficiencyRow).value;
      FlattenSnoc(before, last);
    }
  }

  /** What the script saves: a concatenated table, or for lcorr the pickled list of per-seed frames. */
  datatype Output<S> = Table(rows: seq<Record<S>>) | Frames(frames: seq<seq<Record<S>>>)

  /** The main block: every seed the analysis asks for, in order. */
  function RunAll<S>(mode: string, analysis: Analysis, nlayers: LayerCount, s: DataShape,
                     diagnostics: (nat, nat) -> seq<S>, efficiencyRow: (nat, nat) -> S): (r: Result<Output<S>>)
    ensures r.Success? ==> (r.value.Frames? <==> analysis == LatentCorrelation)
  {
    if analysis == LatentCorrelation then
      var frames :- SeedFrames(NumSeeds(analysis), mode, analysis, nlayers, s, diagnostics, efficiencyRow);
      Success(Frames(frames))
    else
      var rows :- RunSeeds(NumSeeds(analysis), mode, analysis, nlayers, s, diagnostics, efficiencyRow);
      Success(Table(rows))
  }

  /** The seeds' runs succeed or fail together: the outcome does not depend on the seed. */
  lemma {:induction false} RunSeedsOutcome<S>(n: nat, mode: string, analysis: Analysis, nlayers: LayerCount, s: DataShape,
                                            diagnostics: (nat, nat) -> seq<S>, efficiencyRow: (nat, nat) -> S)
    requires n > 0
    ensures RunSeeds(n, mode, analysis, nlayers, s, diagnostics, efficiencyRow).Success?
        <==> RunModel(mode, 0, analysis, nlayers, s, diagnostics, efficiencyRow).Success?
    decreases n
  {
    if n > 1 {
      RunSeedsOutcome(n - 1, mode, analysis, nlayers, s, diagnostics, efficiencyRow);
    }
  }

  /**
   The efficiency table has 125 rows per seed; row seed * 125 + k holds the
   k-th report, at epoch 2k, of that seed.
   */
  lemma EfficiencyTable<S>(n: nat, mode: string, nlayers: LayerCount, s: DataShape,
                           diagnostics: (nat, nat) -> seq<S>, efficiencyRow: (nat, nat) -> S)
    requires RunSeeds(n, mode, Efficiency, nlayers, s, diagnostics, efficiencyRow).Success?
    ensures var rows := RunSeeds(n, mode, Efficiency, nlayers, s, diagnostics, efficiencyRow).value;
      && |rows| == 125 * n
      && forall seed, k | 0 <= seed < n && 0 <= k < 125 ::
           rows[seed * 125 + k] == Record(2 * k, seed, efficiencyRow(seed, 2 * k))
  {
    EfficiencyBlocks(n, mode, nlayers, s, diagnostics, efficiencyRow);
    EfficiencyCells(RunSeeds(n, mode, Efficiency, nlayers, s, diagnostics, efficiencyRow).value, n, efficiencyRow);
  }

  /** Reading a seed-major table of efficiency blocks cell by cell. */
  lemma EfficiencyCells<S>(rows: seq<Record<S>>, n: nat, efficiencyRow: (nat, nat) -> S)
    requires Blocked(rows, n, 125, EfficiencyCell(efficiencyRow))
    ensures |rows| == 125 * n
    ensures forall seed, k | 0 <= seed < n && 0 <= k < 125 ::
      rows[seed * 125 + k] == Record(2 * k, seed, efficiencyRow(seed, 2 * k))
  {
    var f := EfficiencyCell(efficiencyRow);
    forall seed, k | 0 <= seed < n && 0 <= k < 125
      ensures rows[seed * 125 + k] == Record(2 * k, seed, efficiencyRow(seed, 2 * k))
    {
      assert BlockIndex(seed, k, 125) == seed * 125 + k;
      assert rows[BlockIndex(seed, k, 125)] == f(seed, k);
    }
  }

  /** Row k of seed b's block of the efficiency table. */
  function EfficiencyCell<S>(efficiencyRow: (nat, nat) -> S): (nat, nat) -> Record<S>
  {
    (seed: nat, k: nat) => Record(2 * k, seed, efficiencyRow(seed, 2 * k))
  }

  lemma {:induction false} EfficiencyBlocks<S>(n: nat, mode: string, nlayers: LayerCount, s: DataShape,
                                              diagnostics: (nat, nat) -> seq<S>, efficiencyRow: (nat, nat) -> S)
    requires RunSeeds(n, mode, Efficiency, nlayers, s, diagnostics, efficiencyRow).Success?
    ensures Blocked(RunSeeds(n, mode, Efficiency, nlayers, s, diagnostics, efficiencyRow).value, n, 125,
                    EfficiencyCell(efficiencyRow))
    decreases n
  {
    if n > 0 {
      RunSeedsStep(n, mode, Efficiency, nlayers, s, diagnostics, efficiencyRow);
      EfficiencyBlocks(n - 1, mode, nlayers, s, diagnostics, efficiencyRow);
      EfficiencyStep(n, mode, nlayers, s, diagnostics, efficiencyRow);
    }
  }

  /** The table of n seeds adds seed n - 1's block to the table of the first n - 1. */
  lemma EfficiencyStep<S>(n: nat, mode: string, nlayers: LayerCount, s: DataShape,
                          diagnostics: (nat, nat) -> seq<S>, efficiencyRow: (nat, nat) -> S)
    requires n > 0 && RunSeeds(n, mode, Efficiency, nlayers, s, diagnostics, efficiencyRow).Success?
    requires RunSeeds(n - 1, mode, Efficiency, nlayers, s, diagnostics, efficiencyRow).Success?
    requires Blocked(RunSeeds(n - 1, mode, Efficiency, nlayers, s, diagnostics, efficiencyRow).value, n - 1, 125,
                     EfficiencyCell(efficiencyRow))
    ensures Blocked(RunSeeds(n, mode, Efficiency, nlayers, s, diagnostics, efficiencyRow).value, n, 125,
                    EfficiencyCell(efficiencyRow))
  {
    RunSeedsStep(n, mode, Efficiency, nlayers, s, diagnostics, efficiencyRow);
    EfficiencyRun(mode, n - 1, nlayers, s, diagnostics, efficiencyRow);
    EfficiencyAppend(RunSeeds(n - 1, mode, Efficiency, nlayers, s, diagnostics, efficiencyRow).value,
                     RunModel(mode, n - 1, Efficiency, nlayers, s, diagnostics, efficiencyRow).value,
                     n - 1, efficiencyRow);
  }

  /** One more seed's 125 reports extend the seed-major table by one block. */
  lemma EfficiencyAppend<S>(before: seq<Record<S>>, last: seq<Record<S>>, n: nat, efficiencyRow: (nat, nat) -> S)
    requires Blocked(before, n, 125, EfficiencyCell(efficiencyRow))
    requires |last| == 125 && forall k | 0 <= k < 125 :: last[k] == Record(2 * k, n, efficiencyRow(n, 2 * k))
    ensures Blocked(before + last, n + 1, 125, EfficiencyCell(efficiencyRow))
  {
    var f := EfficiencyCell(efficiencyRow);
    forall k | 0 <= k < 125 ensures last[k] == f(n, k) {
    }
    BlockedAppend(before, n, 125, f, last);
  }

  /** One seed's efficiency run: 125 one-row reports, at epochs 0, 2, ..., 248. */
  lemma EfficiencyRun<S>(mode: string, seed: nat, nlayers: LayerCount, s: DataShape,
                         diagnostics: (nat, nat) -> seq<S>, efficiencyRow: (nat, nat) -> S)
    requires RunModel(mode, seed, Efficiency, nlayers, s, diagnostics, efficiencyRow).Success?
    ensures var rs := RunModel(mode, seed, Efficiency, nlayers, s, diagnostics, efficiencyRow).value;
      |rs| == 125 && forall k | 0 <= k < 125 :: rs[k] == Record(2 * k, seed, efficiencyRow(seed, 2 * k))
  {
  }

  /** A successful run of n seeds is the run of the first n - 1 followed by seed n - 1's run. */
  lemma RunSeedsStep<S>(n: nat, mode: string, analysis: Analysis, nlayers: LayerCount, s: DataShape,
                        diagnostics: (nat, nat) -> seq<S>, efficiencyRow: (nat, nat) -> S)
    requires n > 0 && RunSeeds(n, mode, analysis, nlayers, s, diagnostics, efficiencyRow).Success?
    ensures RunSeeds(n - 1, mode, analysis, nlayers, s, diagnostics, efficiencyRow).Success?
    ensures RunModel(mode, n - 1, analysis, nlayers, s, diagnostics, efficiencyRow).Success?
    ensures RunSeeds(n, mode, analysis, nlayers, s, diagnostics, efficiencyRow).value
         == RunSeeds(n - 1, mode, analysis, nlayers, s, diagnostics, efficiencyRow).value
          + RunModel(mode, n - 1, analysis, nlayers, s, diagnostics, efficiencyRow).value
  {
  }

  /** With the script's seed count, the efficiency table has 3 * 125 = 375 rows. */
  lemma EfficiencyTableSize<S>(mode: string, nlayers: LayerCount, s: DataShape,
                               diagnostics: (nat, nat) -> seq<S>, efficiencyRow: (nat, nat) -> S)
    requires RunAll(mode, Efficiency, nlayers, s, diagnostics, efficiencyRow).Success?
    ensures |RunAll(mode, Efficiency, nlayers, s, diagnostics, efficiencyRow).value.rows| == 375
  {
    EfficiencyTable(3, mode, nlayers, s, diagnostics, efficiencyRow);
  }
}
