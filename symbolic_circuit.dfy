/** `SymbolicCircuit`: lowers a region graph into one symbolic layer per node, in the region
    graph's node order, and exposes filtered views of those layers.

    Nodes and layers are identified by their position in the region graph's node list: the
    layer built for node `i` is the `i`-th layer, and a layer's inputs are node positions. */
module SymbolicCircuits {
  import opened Wrappers
  import opened Reparams
  import Kronecker

  /** A region-graph node: a region (with or without outgoing edges) or a partition. */
  datatype RGNode =
    | Region(inputs: seq<nat>, hasOutputs: bool)
    | Partition(inputs: seq<nat>)

  /** The region graph as the circuit sees it: its nodes and the structural properties it
      has already computed (and that the circuit only copies). */
  datatype RegionGraph = RegionGraph(
    nodes: seq<RGNode>,
    scope: set<nat>,
    numVars: nat,
    isSmooth: bool,
    isDecomposable: bool,
    isStructuredDecomposable: bool,
    isOmniCompatible: bool)

  /** Every node's inputs come before it in the node list. */
  predicate Topological(nodes: seq<RGNode>) {
    forall i, k :: 0 <= i < |nodes| && 0 <= k < |nodes[i].inputs| ==> nodes[i].inputs[k] < i
  }

  datatype LayerKind = InputKind | SumKind | ProductKind

  /** A symbolic layer: the node it was built for, its kind, its unit count, the layers it
      reads from, and the reparameterization handed to its layer class. */
  datatype SymbolicLayer = SymbolicLayer(
    node: nat,
    kind: LayerKind,
    numUnits: int,
    inputs: seq<nat>,
    reparam: Option<Reparameterization>)

  predicate IsInput(l: SymbolicLayer) { l.kind == InputKind }
  predicate IsSum(l: SymbolicLayer) { l.kind == SumKind }
  predicate IsProduct(l: SymbolicLayer) { l.kind == ProductKind }
  /** A layer that reads from at least one layer. */
  predicate IsInner(l: SymbolicLayer) { l.inputs != [] }

  /** The order-preserving sub-sequence of `ls` whose elements satisfy `keep`. */
  function Filter(ls: seq<SymbolicLayer>, keep: SymbolicLayer -> bool): (r: seq<SymbolicLayer>)
    ensures |r| <= |ls|
    ensures forall l :: l in r <==> l in ls && keep(l)
  {
    if ls == [] then []
    else (if keep(ls[0]) then [ls[0]] else []) + Filter(ls[1..], keep)
  }

  /** Layers listed in strictly increasing node order. */
  predicate InNodeOrder(ls: seq<SymbolicLayer>) {
    forall i, j :: 0 <= i < j < |ls| ==> ls[i].node < ls[j].node
  }

  /** Filtering keeps the relative order of the layers it keeps. */
  lemma {:induction false} FilterKeepsOrder(ls: seq<SymbolicLayer>, keep: SymbolicLayer -> bool)
    requires InNodeOrder(ls)
    ensures InNodeOrder(Filter(ls, keep))
  {
    if ls != [] {
      var tail := ls[1..];
      assert InNodeOrder(tail);
      FilterKeepsOrder(tail, keep);
      var rest := Filter(tail, keep);
      if keep(ls[0]) {
        forall i | 0 <= i < |rest| ensures ls[0].node < rest[i].node {
          assert rest[i] in tail;
          var k :| 0 <= k < |tail| && tail[k] == rest[i];
          assert tail[k] == ls[k + 1];
        }
        var r := [ls[0]] + rest;
        assert Filter(ls, keep) == r;
        forall i, j | 0 <= i < j < |r| ensures r[i].node < r[j].node {
          assert r[j] == rest[j - 1];
          if i > 0 { assert r[i] == rest[i - 1]; }
        }
      } else {
        assert Filter(ls, keep) == rest;
      }
    }
  }

  /** The three kind views split a sequence of layers: their sizes add up. */
  lemma {:induction false} KindFiltersPartition(ls: seq<SymbolicLayer>)
    ensures |Filter(ls, IsInput)| + |Filter(ls, IsSum)|
      + |Filter(ls, IsProduct)| == |ls|
  {
    if ls != [] {
      KindFiltersPartition(ls[1..]);
    }
  }

  /** Some layer of `ls` reads from node `n`'s layer. */
  predicate HasConsumer(ls: seq<SymbolicLayer>, n: nat) {
    exists j :: 0 <= j < |ls| && n in ls[j].inputs
  }

  /** Node `n` is listed as an input of some node. */
  predicate NodeHasConsumer(nodes: seq<RGNode>, n: nat) {
    exists j :: 0 <= j < |nodes| && n in nodes[j].inputs
  }

  /** A region's `hasOutputs` flag agrees with the edges of the node list. */
  predicate OutputFlagsAgree(nodes: seq<RGNode>) {
    forall i :: 0 <= i < |nodes| && nodes[i].Region? ==>
      (nodes[i].hasOutputs <==> NodeHasConsumer(nodes, i))
  }

  class SymbolicCircuit {
    const regionGraph: RegionGraph
    const scope: set<nat>
    const numVars: nat
    const isSmooth: bool
    const isDecomposable: bool
    const isStructuredDecomposable: bool
    const isOmniCompatible: bool
    /** The node-to-layer dict, in insertion order: the layer of node `i` is at position `i`. */
    const nodeLayer: seq<SymbolicLayer>

    /** The layer policy of `__init__`, as it shapes every layer. */
    ghost predicate Valid() {
      var nodes := regionGraph.nodes;
      |nodeLayer| == |nodes| &&
      forall i :: 0 <= i < |nodes| ==>
        var n, l := nodes[i], nodeLayer[i];
        l.node == i && l.inputs == n.inputs &&
        (l.kind == InputKind <==> n.Region? && n.inputs == []) &&
        (l.kind == SumKind <==> n.Region? && n.inputs != []) &&
        (l.kind == ProductKind <==> n.Partition?)
    }

    /** Builds one layer per node, in node order: a region without inputs becomes an input
        layer, a region with inputs a sum layer (with `numClasses` units when nothing reads
        from it), and a partition a product layer whose units come from the product layer
        class's rule `inferProdUnits(numSumUnits, arity)`. */
    constructor (rg: RegionGraph, numInputUnits: int, numSumUnits: int, numClasses: int := 1,
                 inputReparam: Option<Reparameterization> := None, sumReparam: Reparameterization,
                 inferProdUnits: (int, nat) -> int)
      requires Topological(rg.nodes)
      ensures Valid() && regionGraph == rg
      ensures scope == rg.scope && numVars == rg.numVars && isSmooth == rg.isSmooth
      ensures isDecomposable == rg.isDecomposable
      ensures isStructuredDecomposable == rg.isStructuredDecomposable
      ensures isOmniCompatible == rg.isOmniCompatible
      ensures forall i :: 0 <= i < |rg.nodes| && nodeLayer[i].kind == InputKind ==>
        nodeLayer[i].numUnits == numInputUnits && nodeLayer[i].reparam == inputReparam
      ensures forall i :: 0 <= i < |rg.nodes| && nodeLayer[i].kind == SumKind ==>
        nodeLayer[i].numUnits == (if rg.nodes[i].hasOutputs then numSumUnits else numClasses) &&
        nodeLayer[i].reparam == Some(sumReparam)
      ensures forall i :: 0 <= i < |rg.nodes| && nodeLayer[i].kind == ProductKind ==>
        nodeLayer[i].numUnits == inferProdUnits(numSumUnits, |rg.nodes[i].inputs|) &&
        nodeLayer[i].reparam == None
    {
      regionGraph := rg;
      scope := rg.scope;
      numVars := rg.numVars;
      isSmooth := rg.isSmooth;
      isDecomposable := rg.isDecomposable;
      isStructuredDecomposable := rg.isStructuredDecomposable;
      isOmniCompatible := rg.isOmniCompatible;
      var nodes := rg.nodes;
      var built: seq<SymbolicLayer> := [];
      for i := 0 to |nodes|
        invariant |built| == i
        invariant forall j :: 0 <= j < i ==>
          var n, l := nodes[j], built[j];
          l.node == j && l.inputs == n.inputs &&
          (l.kind == InputKind <==> n.Region? && n.inputs == []) &&
          (l.kind == SumKind <==> n.Region? && n.inputs != []) &&
          (l.kind == ProductKind <==> n.Partition?) &&
          (l.kind == InputKind ==> l.numUnits == numInputUnits && l.reparam == inputReparam) &&
          (l.kind == SumKind ==>
            l.numUnits == (if n.hasOutputs then numSumUnits else numClasses) &&
            l.reparam == Some(sumReparam)) &&
          (l.kind == ProductKind ==>
            l.numUnits == inferProdUnits(numSumUnits, |n.inputs|) && l.reparam == None)
      {
        var n := nodes[i];
        // The layers of the node's inputs, looked up among those already built.
        var layersIn := seq(|n.inputs|, k requires 0 <= k < |n.inputs| => built[n.inputs[k]].node);
        assert layersIn == n.inputs;
        var layer: SymbolicLayer;
        match n {
        case Region(ins, hasOutputs) =>
          if ins == [] {
            layer := SymbolicLayer(i, InputKind, numInputUnits, layersIn, inputReparam);
          } else {
            layer := SymbolicLayer(i, SumKind, if hasOutputs then numSumUnits else numClasses,
                                   layersIn, Some(sumReparam));
          }
        case Partition(ins) =>
          layer := SymbolicLayer(i, ProductKind, inferProdUnits(numSumUnits, |ins|), layersIn, None);
        }
        built := built + [layer];
      }
      nodeLayer := built;
    }

    /** All layers, one per node, in node order. */
    function Layers(): (r: seq<SymbolicLayer>)
      requires Valid()
      ensures |r| == |regionGraph.nodes| && InNodeOrder(r)
      ensures forall i :: 0 <= i < |r| ==> r[i].node == i
    {
      nodeLayer
    }

    /** The sum layers, in layer order. */
    function SumLayers(): (r: seq<SymbolicLayer>)
      requires Valid()
      ensures InNodeOrder(r)
      ensures forall l :: l in r <==> l in Layers() && l.kind == SumKind
    {
      FilterKeepsOrder(Layers(), IsSum);
      Filter(Layers(), IsSum)
    }

    /** The product layers, in layer order. */
    function ProductLayers(): (r: seq<SymbolicLayer>)
      requires Valid()
      ensures InNodeOrder(r)
      ensures forall l :: l in r <==> l in Layers() && l.kind == ProductKind
    {
      FilterKeepsOrder(Layers(), IsProduct);
      Filter(Layers(), IsProduct)
    }

    /** The input layers, in layer order. */
    function InputLayers(): (r: seq<SymbolicLayer>)
      requires Valid()
      ensures InNodeOrder(r)
      ensures forall l :: l in r <==> l in Layers() && l.kind == InputKind
    {
      FilterKeepsOrder(Layers(), IsInput);
      Filter(Layers(), IsInput)
    }

    /** The sum layers that no layer reads from, in layer order. */
    function OutputLayers(): (r: seq<SymbolicLayer>)
      requires Valid()
      ensures InNodeOrder(r)
      ensures forall l :: l in r <==> l in SumLayers() && !HasConsumer(nodeLayer, l.node)
    {
      FilterKeepsOrder(SumLayers(), (l: SymbolicLayer) => !HasConsumer(nodeLayer, l.node));
      Filter(SumLayers(), (l: SymbolicLayer) => !HasConsumer(nodeLayer, l.node))
    }

    /** The layers with at least one input, in layer order. */
    function InnerLayers(): (r: seq<SymbolicLayer>)
      requires Valid()
      ensures InNodeOrder(r)
      ensures forall l :: l in r <==> l in Layers() && l.inputs != []
    {
      FilterKeepsOrder(Layers(), IsInner);
      Filter(Layers(), IsInner)
    }
  }

  /** A circuit built without `num_classes` and `input_reparam`: output sum layers get one
      unit, and input layers get no reparameterization. */
  method NewWithDefaults(rg: RegionGraph, numInputUnits: int, numSumUnits: int,
                         sumReparam: Reparameterization, inferProdUnits: (int, nat) -> int)
    returns (c: SymbolicCircuit)
    requires Topological(rg.nodes)
    ensures c.Valid() && c.regionGraph == rg
    ensures forall i :: 0 <= i < |rg.nodes| && c.nodeLayer[i].kind == SumKind ==>
      c.nodeLayer[i].numUnits == (if rg.nodes[i].hasOutputs then numSumUnits else 1)
    ensures forall i :: 0 <= i < |rg.nodes| && c.nodeLayer[i].kind == InputKind ==>
      c.nodeLayer[i].reparam == None
  {
    c := new SymbolicCircuit(rg, numInputUnits, numSumUnits, sumReparam := sumReparam,
                             inferProdUnits := inferProdUnits);
  }

  /** Every layer falls in exactly one of the input, sum and product views. */
  lemma KindViewsPartitionLayers(c: SymbolicCircuit)
    requires c.Valid()
    ensures |c.InputLayers()| + |c.SumLayers()| + |c.ProductLayers()| == |c.regionGraph.nodes|
    ensures forall l :: l in c.Layers() ==>
      l in c.InputLayers() || l in c.SumLayers() || l in c.ProductLayers()
    ensures forall l :: !(l in c.InputLayers() && l in c.SumLayers())
    ensures forall l :: !(l in c.InputLayers() && l in c.ProductLayers())
    ensures forall l :: !(l in c.SumLayers() && l in c.ProductLayers())
  {
    KindFiltersPartition(c.Layers());
  }

  /** Inner layers are never input layers, and every sum layer is an inner layer. */
  lemma InnerLayersAreSumsAndProducts(c: SymbolicCircuit)
    requires c.Valid()
    ensures forall l :: l in c.InnerLayers() ==> l.kind != InputKind
    ensures forall l :: l in c.SumLayers() ==> l in c.InnerLayers()
    ensures forall l :: l in c.ProductLayers() && l.inputs != [] ==> l in c.InnerLayers()
  {
    forall l | l in c.Layers()
      ensures l.kind == InputKind ==> l.inputs == []
      ensures l.kind == SumKind ==> l.inputs != []
    {
      var i :| 0 <= i < |c.nodeLayer| && c.nodeLayer[i] == l;
    }
  }

  /** A layer reads from node `n`'s layer exactly when its node lists `n` as an input. */
  lemma ConsumersAgree(c: SymbolicCircuit, n: nat)
    requires c.Valid()
    ensures HasConsumer(c.nodeLayer, n) <==> NodeHasConsumer(c.regionGraph.nodes, n)
  {
    var nodes, ls := c.regionGraph.nodes, c.nodeLayer;
    if HasConsumer(ls, n) {
      var j :| 0 <= j < |ls| && n in ls[j].inputs;
      assert n in nodes[j].inputs;
    }
    if NodeHasConsumer(nodes, n) {
      var j :| 0 <= j < |nodes| && n in nodes[j].inputs;
      assert n in ls[j].inputs;
    }
  }

  /** When the region graph's output flags agree with its edges, a sum layer is an output
      layer exactly when its region has no outputs. */
  lemma OutputLayersAreRootRegions(c: SymbolicCircuit)
    requires c.Valid() && OutputFlagsAgree(c.regionGraph.nodes)
    ensures forall l :: l in c.OutputLayers() <==>
      l in c.SumLayers() && !c.regionGraph.nodes[l.node].hasOutputs
  {
    var nodes, ls := c.regionGraph.nodes, c.nodeLayer;
    forall l | l in c.SumLayers()
      ensures l.node < |nodes| && nodes[l.node].Region? &&
        (HasConsumer(ls, l.node) <==> nodes[l.node].hasOutputs)
    {
      var i :| 0 <= i < |ls| && ls[i] == l;
      ConsumersAgree(c, i);
    }
  }

  /** With the Kronecker unit rule, a binary partition's product layer has `K * K` units for
      `K` sum units, and a Kronecker layer with those counts is accepted. */
  lemma KroneckerProductUnits(c: SymbolicCircuit, numSumUnits: int)
    requires c.Valid()
    requires forall i :: 0 <= i < |c.nodeLayer| && c.nodeLayer[i].kind == ProductKind ==>
      c.nodeLayer[i].numUnits == Kronecker.InferNumProdUnits(numSumUnits, |c.nodeLayer[i].inputs|)
    ensures forall l :: l in c.ProductLayers() && |l.inputs| == 2 ==>
      l.numUnits == numSumUnits * numSumUnits &&
      Kronecker.NewKroneckerLayer(numSumUnits, l.numUnits, |l.inputs|).Ok?
  {
    forall l | l in c.ProductLayers() && |l.inputs| == 2
      ensures l.numUnits == numSumUnits * numSumUnits
    {
      var i :| 0 <= i < |c.nodeLayer| && c.nodeLayer[i] == l;
    }
  }
}
