/**
 * The layer lists that the constructors of BridgeVortexNN and
 * BridgeVortexMultiTaskNN build in src/models/bridge_vortex_model.py. A layer
 * is kept only as its kind and widths; weights, initialisation and the tensor
 * arithmetic of `forward` are not modelled. `Propagate` is the shape-level
 * reading of `forward`: it threads a feature width through a layer list and
 * fails on the first width mismatch, as the framework would.
 */
module Network {
  import opened Wrappers

  datatype Layer =
    | Linear(inWidth: nat, outWidth: nat)
    | ReLU
    | BatchNorm(width: nat)
    | Dropout(rate: real)

  /** `prev_dim` after a hidden-width loop that started from `input`. */
  function LastWidth(input: nat, widths: seq<nat>): nat {
    if widths == [] then input else widths[|widths| - 1]
  }

  /** The modules one hidden width adds: trunk blocks carry a batch norm, branch blocks do not. */
  function Block(prev: nat, width: nat, rate: real, norm: bool): seq<Layer> {
    if norm then [Linear(prev, width), ReLU, BatchNorm(width), Dropout(rate)]
    else [Linear(prev, width), ReLU, Dropout(rate)]
  }

  /** Number of modules in one block. */
  function BlockSize(norm: bool): nat {
    if norm then 4 else 3
  }

  /** The list a hidden-width loop has built after visiting `widths`, in order. */
  function Blocks(input: nat, widths: seq<nat>, rate: real, norm: bool): seq<Layer>
    decreases |widths|
  {
    if widths == [] then []
    else
      var init := widths[..|widths| - 1];
      Blocks(input, init, rate, norm) + Block(LastWidth(input, init), widths[|widths| - 1], rate, norm)
  }

  /** Shape-level forward pass: the width coming out of `layers`, or None on a mismatch. */
  function Propagate(layers: seq<Layer>, width: nat): Option<nat>
    decreases |layers|
  {
    if layers == [] then Some(width)
    else
      match layers[0]
      case Linear(i, o) => if i == width then Propagate(layers[1..], o) else None
      case BatchNorm(n) => if n == width then Propagate(layers[1..], width) else None
      case ReLU => Propagate(layers[1..], width)
      case Dropout(_) => Propagate(layers[1..], width)
  }

  /** Running two lists one after the other is running their concatenation. */
  lemma {:induction false} PropagateAppend(a: seq<Layer>, b: seq<Layer>, width: nat)
    ensures Propagate(a + b, width) ==
              match Propagate(a, width)
              case None => None
              case Some(w) => Propagate(b, w)
    decreases |a|
  {
    if a == [] {
      assert a + b == b;
    } else {
      assert (a + b)[0] == a[0];
      assert (a + b)[1..] == a[1..] + b;
      match a[0]
      case Linear(i, o) => PropagateAppend(a[1..], b, o);
      case BatchNorm(n) => PropagateAppend(a[1..], b, width);
      case ReLU => PropagateAppend(a[1..], b, width);
      case Dropout(_) => PropagateAppend(a[1..], b, width);
    }
  }

  /** One block passes its input width through to its hidden width. */
  lemma BlockChain(prev: nat, width: nat, rate: real, norm: bool)
    ensures Propagate(Block(prev, width, rate, norm), prev) == Some(width)
  {
    var b := Block(prev, width, rate, norm);
    assert Propagate([Dropout(rate)], width) == Some(width);
    if norm {
      assert b[1..][1..][1..] == [Dropout(rate)];
      assert Propagate(b[1..][1..], width) == Some(width);
    } else {
      assert b[1..][1..] == [Dropout(rate)];
    }
  }

  /**
   * The widths of a hidden stack chain: fed `input`, it yields the last hidden
   * width (or `input` itself when there are no hidden widths).
   */
  lemma {:induction false} BlocksChain(input: nat, widths: seq<nat>, rate: real, norm: bool)
    ensures Propagate(Blocks(input, widths, rate, norm), input) == Some(LastWidth(input, widths))
    decreases |widths|
  {
    if widths != [] {
      var init := widths[..|widths| - 1];
      BlocksChain(input, init, rate, norm);
      BlockChain(LastWidth(input, init), widths[|widths| - 1], rate, norm);
      PropagateAppend(Blocks(input, init, rate, norm), Block(LastWidth(input, init), widths[|widths| - 1], rate, norm), input);
    }
  }

  /** Each hidden width contributes one whole block. */
  lemma {:induction false} BlocksLength(input: nat, widths: seq<nat>, rate: real, norm: bool)
    ensures |Blocks(input, widths, rate, norm)| == BlockSize(norm) * |widths|
    decreases |widths|
  {
    if widths != [] {
      BlocksLength(input, widths[..|widths| - 1], rate, norm);
    }
  }

  /** The list built after the first j widths is a prefix of the whole list. */
  lemma {:induction false} BlocksPrefix(input: nat, widths: seq<nat>, rate: real, norm: bool, j: nat)
    requires j <= |widths|
    ensures Blocks(input, widths[..j], rate, norm) <= Blocks(input, widths, rate, norm)
    decreases |widths|
  {
    if j == |widths| {
      assert widths[..j] == widths;
    } else {
      var init := widths[..|widths| - 1];
      assert widths[..j] == init[..j];
      BlocksPrefix(input, init, rate, norm, j);
    }
  }

  /** Visiting width k extends the list built so far by one block. */
  lemma BlocksStep(input: nat, widths: seq<nat>, rate: real, norm: bool, k: nat)
    requires k < |widths|
    ensures Blocks(input, widths[..k + 1], rate, norm)
            == Blocks(input, widths[..k], rate, norm) + Block(LastWidth(input, widths[..k]), widths[k], rate, norm)
  {
    assert widths[..k + 1][..k] == widths[..k];
  }

  /** Block k + 1 starts one block after block k. */
  lemma BlocksAfter(size: nat, k: nat)
    ensures size * (k + 1) == size * k + size
  {
  }

  /** A part of a prefix of `s` sits in `s` at the same place. */
  lemma SliceOfPrefix<T>(s: seq<T>, front: seq<T>, part: seq<T>)
    requires front + part <= s
    ensures |front| + |part| <= |s| && s[|front|..|front| + |part|] == part
  {
    assert s[|front|..|front| + |part|] == (front + part)[|front|..];
  }

  /**
   * Block k of a hidden stack follows the blocks of the first k widths: a
   * Linear from the previous width to widths[k], a ReLU, the batch norm of the
   * trunk and a Dropout.
   */
  lemma BlockAt(input: nat, widths: seq<nat>, rate: real, norm: bool, k: nat)
    requires k < |widths|
    ensures var s := Blocks(input, widths, rate, norm);
      && BlockSize(norm) * (k + 1) <= |s|
      && s[BlockSize(norm) * k..BlockSize(norm) * (k + 1)] == Block(LastWidth(input, widths[..k]), widths[k], rate, norm)
  {
    var front := Blocks(input, widths[..k], rate, norm);
    var block := Block(LastWidth(input, widths[..k]), widths[k], rate, norm);
    BlocksStep(input, widths, rate, norm, k);
    BlocksPrefix(input, widths, rate, norm, k + 1);
    SliceOfPrefix(Blocks(input, widths, rate, norm), front, block);
    BlocksLength(input, widths[..k], rate, norm);
    assert |block| == BlockSize(norm);
    BlocksAfter(BlockSize(norm), k);
  }

  /** The module list of BridgeVortexNN: one block per hidden width, then the output Linear. */
  function SingleTaskLayers(input: nat, hidden: seq<nat>, output: nat, rate: real): seq<Layer> {
    Blocks(input, hidden, rate, true) + [Linear(LastWidth(input, hidden), output)]
  }

  /** BridgeVortexNN: four modules per hidden width plus one Linear, widths chaining from input to output. */
  lemma SingleTaskShape(input: nat, hidden: seq<nat>, output: nat, rate: real)
    ensures var layers := SingleTaskLayers(input, hidden, output, rate);
      && |layers| == 4 * |hidden| + 1
      && layers[|layers| - 1] == Linear(LastWidth(input, hidden), output)
      && (forall k :: 0 <= k < |hidden| ==>
            layers[4 * k..4 * (k + 1)] == [Linear(LastWidth(input, hidden[..k]), hidden[k]), ReLU, BatchNorm(hidden[k]), Dropout(rate)])
      && layers[0].Linear? && layers[0].inWidth == input
      && Propagate(layers, input) == Some(output)
  {
    var blocks := Blocks(input, hidden, rate, true);
    var layers := SingleTaskLayers(input, hidden, output, rate);
    BlocksLength(input, hidden, rate, true);
    BlocksChain(input, hidden, rate, true);
    PropagateAppend(blocks, [Linear(LastWidth(input, hidden), output)], input);
    forall k | 0 <= k < |hidden|
      ensures layers[4 * k..4 * (k + 1)] == [Linear(LastWidth(input, hidden[..k]), hidden[k]), ReLU, BatchNorm(hidden[k]), Dropout(rate)]
    {
      SingleTaskBlock(input, hidden, output, rate, k);
    }
    if hidden != [] {
      SingleTaskBlock(input, hidden, output, rate, 0);
      assert hidden[..0] == [];
      assert layers[0] == layers[0..4][0];
    }
  }

  /** Modules 4k to 4k + 3 of BridgeVortexNN are the block of hidden width k. */
  lemma SingleTaskBlock(input: nat, hidden: seq<nat>, output: nat, rate: real, k: nat)
    requires k < |hidden|
    ensures var layers := SingleTaskLayers(input, hidden, output, rate);
      && 4 * (k + 1) <= |layers|
      && layers[4 * k..4 * (k + 1)] == [Linear(LastWidth(input, hidden[..k]), hidden[k]), ReLU, BatchNorm(hidden[k]), Dropout(rate)]
  {
    var blocks := Blocks(input, hidden, rate, true);
    BlockAt(input, hidden, rate, true, k);
    assert SingleTaskLayers(input, hidden, output, rate)[4 * k..4 * (k + 1)] == blocks[4 * k..4 * (k + 1)];
  }

  /** `BridgeVortexNN.__init__`'s default arguments. */
  const DefaultHidden: seq<nat> := [64, 32, 16]
  const DefaultOutput: nat := 1
  const DefaultDropout: real := 0.2

  /** `BridgeVortexNN.__init__`: the loop over hidden widths that threads `prev_dim`. */
  method BuildSingleTask(inputDim: nat, hiddenDims: seq<nat>, outputDim: nat, dropoutRate: real)
    returns (layers: seq<Layer>)
    ensures layers == SingleTaskLayers(inputDim, hiddenDims, outputDim, dropoutRate)
  {
    layers := [];
    var prevDim := inputDim;
    for i := 0 to |hiddenDims|
      invariant layers == Blocks(inputDim, hiddenDims[..i], dropoutRate, true)
      invariant prevDim == LastWidth(inputDim, hiddenDims[..i])
    {
      var hiddenDim := hiddenDims[i];
      layers := layers + [Linear(prevDim, hiddenDim)];
      layers := layers + [ReLU];
      layers := layers + [BatchNorm(hiddenDim)];
      layers := layers + [Dropout(dropoutRate)];
      prevDim := hiddenDim;
      assert hiddenDims[..i + 1][..i] == hiddenDims[..i];
    }
    assert hiddenDims[..|hiddenDims|] == hiddenDims;
    layers := layers + [Linear(prevDim, outputDim)];
  }

  /** The three module lists and the shared trunk of BridgeVortexMultiTaskNN. */
  datatype MultiTaskNet = MultiTaskNet(
    shared: seq<Layer>,
    amplitude: seq<Layer>,
    occurrence: seq<Layer>,
    risk: seq<Layer>)

  /** A branch: one block without batch norm per hidden width, then a Linear to `outWidth`. */
  function Branch(trunk: nat, hidden: seq<nat>, outWidth: nat, rate: real): seq<Layer> {
    Blocks(trunk, hidden, rate, false) + [Linear(LastWidth(trunk, hidden), outWidth)]
  }

  function MultiTaskLayers(input: nat, shared: seq<nat>, amplitudeHidden: seq<nat>,
                           classificationHidden: seq<nat>, numRiskClasses: nat, rate: real): MultiTaskNet
  {
    var trunk := LastWidth(input, shared);
    MultiTaskNet(
      Blocks(input, shared, rate, true),
      Branch(trunk, amplitudeHidden, 1, rate),
      Branch(trunk, classificationHidden, 2, rate),
      Branch(trunk, classificationHidden, numRiskClasses, rate))
  }

  /**
   * Shape-level `forward` of the multi-task network: the output width under
   * each key of the returned dictionary, or None on a width mismatch.
   */
  function Forward(net: MultiTaskNet, inputDim: nat): Option<map<string, nat>> {
    match Propagate(net.shared, inputDim)
    case None => None
    case Some(w) =>
      match (Propagate(net.amplitude, w), Propagate(net.occurrence, w), Propagate(net.risk, w))
      case (Some(a), Some(o), Some(r)) => Some(map["amplitude" := a, "occurrence" := o, "risk" := r])
      case _ => None
  }

  /** A branch fed the trunk width starts with a Linear that takes it and ends at `outWidth`. */
  lemma BranchShape(trunk: nat, hidden: seq<nat>, outWidth: nat, rate: real)
    ensures var b := Branch(trunk, hidden, outWidth, rate);
      && |b| == 3 * |hidden| + 1
      && b[0].Linear? && b[0].inWidth == trunk
      && Propagate(b, trunk) == Some(outWidth)
  {
    var blocks := Blocks(trunk, hidden, rate, false);
    BlocksLength(trunk, hidden, rate, false);
    BlocksChain(trunk, hidden, rate, false);
    PropagateAppend(blocks, [Linear(LastWidth(trunk, hidden), outWidth)], trunk);
    if hidden != [] {
      BlockAt(trunk, hidden, rate, false, 0);
      assert hidden[..0] == [];
      assert blocks[0] == blocks[0..3][0];
    }
  }

  /**
   * The multi-task trunk ends at the last shared width (or the input width),
   * every branch starts from that width, and `forward` yields exactly the keys
   * amplitude, occurrence and risk with widths 1, 2 and `numRiskClasses`.
   */
  lemma MultiTaskHeads(input: nat, shared: seq<nat>, amplitudeHidden: seq<nat>,
                       classificationHidden: seq<nat>, numRiskClasses: nat, rate: real)
    ensures var net := MultiTaskLayers(input, shared, amplitudeHidden, classificationHidden, numRiskClasses, rate);
      && Propagate(net.shared, input) == Some(if shared == [] then input else shared[|shared| - 1])
      && |net.shared| == 4 * |shared|
      && net.amplitude[0].Linear? && net.amplitude[0].inWidth == LastWidth(input, shared)
      && net.occurrence[0].Linear? && net.occurrence[0].inWidth == LastWidth(input, shared)
      && net.risk[0].Linear? && net.risk[0].inWidth == LastWidth(input, shared)
      && Forward(net, input) == Some(map["amplitude" := 1, "occurrence" := 2, "risk" := numRiskClasses])
      && Forward(net, input).value.Keys == {"amplitude", "occurrence", "risk"}
  {
    var trunk := LastWidth(input, shared);
    BlocksChain(input, shared, rate, true);
    BlocksLength(input, shared, rate, true);
    BranchShape(trunk, amplitudeHidden, 1, rate);
    BranchShape(trunk, classificationHidden, 2, rate);
    BranchShape(trunk, classificationHidden, numRiskClasses, rate);
  }

  /** `BridgeVortexMultiTaskNN.__init__`'s default arguments. */
  const DefaultShared: seq<nat> := [64, 32]
  const DefaultAmplitudeHidden: seq<nat> := [16]
  const DefaultClassificationHidden: seq<nat> := [16]
  const DefaultRiskClasses: nat := 3

  /**
   * Both networks at their default arguments: BridgeVortexNN has 13 modules and
   * maps the input width to 1; the multi-task trunk has 8 modules ending at
   * width 32, each branch 4, and `forward` yields widths 1, 2 and 3.
   */
  lemma DefaultShapes(input: nat)
    ensures var layers := SingleTaskLayers(input, DefaultHidden, DefaultOutput, DefaultDropout);
      |layers| == 13 && Propagate(layers, input) == Some(1)
    ensures var net := MultiTaskLayers(input, DefaultShared, DefaultAmplitudeHidden,
                                       DefaultClassificationHidden, DefaultRiskClasses, DefaultDropout);
      && |net.shared| == 8 && |net.amplitude| == 4 && |net.occurrence| == 4 && |net.risk| == 4
      && Propagate(net.shared, input) == Some(32)
      && Forward(net, input) == Some(map["amplitude" := 1, "occurrence" := 2, "risk" := 3])
  {
    SingleTaskShape(input, DefaultHidden, DefaultOutput, DefaultDropout);
    MultiTaskHeads(input, DefaultShared, DefaultAmplitudeHidden, DefaultClassificationHidden, DefaultRiskClasses, DefaultDropout);
    BranchShape(32, DefaultAmplitudeHidden, 1, DefaultDropout);
    BranchShape(32, DefaultClassificationHidden, 2, DefaultDropout);
    BranchShape(32, DefaultClassificationHidden, DefaultRiskClasses, DefaultDropout);
  }

  /** `BridgeVortexMultiTaskNN.__init__`: the trunk loop, then one loop per branch. */
  method BuildMultiTask(inputDim: nat, sharedHiddenDims: seq<nat>, amplitudeHiddenDims: seq<nat>,
                        classificationHiddenDims: seq<nat>, numRiskClasses: nat, dropoutRate: real)
    returns (net: MultiTaskNet)
    ensures net == MultiTaskLayers(inputDim, sharedHiddenDims, amplitudeHiddenDims,
                                   classificationHiddenDims, numRiskClasses, dropoutRate)
  {
    var sharedLayers: seq<Layer> := [];
    var prevDim := inputDim;
    for i := 0 to |sharedHiddenDims|
      invariant sharedLayers == Blocks(inputDim, sharedHiddenDims[..i], dropoutRate, true)
      invariant prevDim == LastWidth(inputDim, sharedHiddenDims[..i])
    {
      var hiddenDim := sharedHiddenDims[i];
      sharedLayers := sharedLayers + [Linear(prevDim, hiddenDim), ReLU, BatchNorm(hiddenDim), Dropout(dropoutRate)];
      prevDim := hiddenDim;
      assert sharedHiddenDims[..i + 1][..i] == sharedHiddenDims[..i];
    }
    assert sharedHiddenDims[..|sharedHiddenDims|] == sharedHiddenDims;

    var amplitudeLayers: seq<Layer> := [];
    var amplitudePrevDim := prevDim;
    for i := 0 to |amplitudeHiddenDims|
      invariant amplitudeLayers == Blocks(prevDim, amplitudeHiddenDims[..i], dropoutRate, false)
      invariant amplitudePrevDim == LastWidth(prevDim, amplitudeHiddenDims[..i])
    {
      var hiddenDim := amplitudeHiddenDims[i];
      amplitudeLayers := amplitudeLayers + [Linear(amplitudePrevDim, hiddenDim), ReLU, Dropout(dropoutRate)];
      amplitudePrevDim := hiddenDim;
      assert amplitudeHiddenDims[..i + 1][..i] == amplitudeHiddenDims[..i];
    }
    assert amplitudeHiddenDims[..|amplitudeHiddenDims|] == amplitudeHiddenDims;
    amplitudeLayers := amplitudeLayers + [Linear(amplitudePrevDim, 1)];

    var occurrenceLayers: seq<Layer> := [];
    var occurrencePrevDim := prevDim;
    for i := 0 to |classificationHiddenDims|
      invariant occurrenceLayers == Blocks(prevDim, classificationHiddenDims[..i], dropoutRate, false)
      invariant occurrencePrevDim == LastWidth(prevDim, classificationHiddenDims[..i])
    {
      var hiddenDim := classificationHiddenDims[i];
      occurrenceLayers := occurrenceLayers + [Linear(occurrencePrevDim, hiddenDim), ReLU, Dropout(dropoutRate)];
      occurrencePrevDim := hiddenDim;
      assert classificationHiddenDims[..i + 1][..i] == classificationHiddenDims[..i];
    }
    assert classificationHiddenDims[..|classificationHiddenDims|] == classificationHiddenDims;
    occurrenceLayers := occurrenceLayers + [Linear(occurrencePrevDim, 2)];

    var riskLayers: seq<Layer> := [];
    var riskPrevDim := prevDim;
    for i := 0 to |classificationHiddenDims|
      invariant riskLayers == Blocks(prevDim, classificationHiddenDims[..i], dropoutRate, false)
      invariant riskPrevDim == LastWidth(prevDim, classificationHiddenDims[..i])
    {
      var hiddenDim := classificationHiddenDims[i];
      riskLayers := riskLayers + [Linear(riskPrevDim, hiddenDim), ReLU, Dropout(dropoutRate)];
      riskPrevDim := hiddenDim;
      assert classificationHiddenDims[..i + 1][..i] == classificationHiddenDims[..i];
    }
    riskLayers := riskLayers + [Linear(riskPrevDim, numRiskClasses)];

    net := MultiTaskNet(sharedLayers, amplitudeLayers, occurrenceLayers, riskLayers);
  }
}
