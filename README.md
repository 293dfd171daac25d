# cirkit graph core, modelled in Dafny

This project models the structural core of cirkit, a library for probabilistic circuits.
It covers five components:

- **`OrderedSet`** (`ordered_set.dfy`). A mutable set that remembers insertion order and
  can be sorted in place, stably.
- **`HypercubeToScope`** (`hypercube.dfy`). It maps a hyper-rectangle of a variable
  grid, given as two corner points, to the set of row-major variable indices inside it.
  It raises a `ValueError` for keys of the wrong dimension and for empty boxes.
- **`tree2rg`** (`tree2rg.dfy`). It turns a tree, given as a parent array, into a region
  graph. Every variable with children gets a partition over its subtree. Every variable
  gets a leaf region `{v}`. A variable with children also gets a composite region over
  its subtree, which takes the partition as its single input. That composite region is
  the region standing for the variable; a childless variable's leaf stands for it. A
  partition's inputs are its own variable's leaf region and the standing region of each
  child. The outputs are the standing regions of the roots.
- **`SymbolicCircuit.__init__` and its layer views** (`symbolic_circuit.dfy`). One
  symbolic layer is built per region-graph node, in node order:
  - a region without inputs becomes an input layer;
  - a region with inputs becomes a sum layer, with `num_classes` units when nothing
    reads from it;
  - a partition becomes a product layer, whose unit count comes from the product layer
    class.

  The views filter the layers by kind.
- **`KroneckerLayer`** (`kronecker.dfy`). Its unit rule is `K ** arity`. Its constructor
  checks the unit count and then the arity.

Shared datatypes: `Option` and `Result` are in `wrappers.dfy`. `Reparameterization` is an
opaque handle, in `reparams.dfy`.

Modelling choices:

- **Integers** are unbounded, like Python's.
- **Node identity.** In `tree2rg`, a node is identified by its position in the returned
  node list. The edge dictionary maps node positions to lists of node positions.
- **Acyclicity.** That a parent array is a forest is stated as a ghost `rank` that
  strictly decreases from child to parent. The source leaves this check as a TODO.
- **The ancestor walk** keeps the source's tuple assignment,
  `cur_v, prev_v = prev_v, tree[cur_v]`. Its right-hand side reads the old `cur_v`, so
  every ancestor is visited twice. The termination measure of `WalkAncestors` accounts
  for that.
- **Sort order.** `OrderedSet.sort` compares with `<`. Here the comparison is an
  integer-valued `key`, where `a < b` stands for `key(a) < key(b)`. Python's `sorted` is
  specified by a stable insertion sort on that key.

## Model

| member | source | states |
|---|---|---|
| OrderedSets.OrderedSet.constructor | cirkit/new/utils/ordered_set.py:34-45 | the items are the first occurrences of the concatenated iterables, in order; the contents are exactly those elements, without duplicates |
| OrderedSets.FirstOccurrencesElements | cirkit/new/utils/ordered_set.py:43-45 | deduplication keeps every element of the input and repeats none |
| OrderedSets.FirstOccurrencesOrder | cirkit/new/utils/ordered_set.py:43-45 | deduplication keeps the elements in the order of their first appearance |
| OrderedSets.OrderedSet.Contains | cirkit/new/utils/ordered_set.py:48-57 | membership is membership in the set's contents |
| OrderedSets.OrderedSet.Iterate | cirkit/new/utils/ordered_set.py:59-65 | iteration yields every element exactly once, in insertion order |
| OrderedSets.OrderedSet.Length | cirkit/new/utils/ordered_set.py:67-73 | the length is the number of distinct elements |
| OrderedSets.DistinctCount | cirkit/new/utils/ordered_set.py:67-73 | a duplicate-free sequence has as many elements as its set |
| OrderedSets.OrderedSet.Append | cirkit/new/utils/ordered_set.py:75-91 | returns true iff the element was absent; only then it is added at the end; otherwise nothing changes |
| OrderedSets.AppendIsIdempotent | cirkit/new/utils/ordered_set.py:87-91 | appending the same element twice: the second append always reports false and changes nothing |
| OrderedSets.OrderedSet.Sort | cirkit/new/utils/ordered_set.py:93-105 | reorders the items in place into the stable sort of the old items and returns the same object; the contents are unchanged |
| OrderedSets.SortByKeyIsSortedPermutation | cirkit/new/utils/ordered_set.py:103-104 | the sorted sequence is a permutation of the input, is non-decreasing in the key, and an element with a smaller key comes earlier |
| OrderedSets.SortByKeyIsStable | cirkit/new/utils/ordered_set.py:103-104 | elements with equal keys keep their relative order (stability of `sorted`) |
| OrderedSets.SortByKeyElements | cirkit/new/utils/ordered_set.py:103-105 | sorting a duplicate-free sequence keeps it duplicate-free with the same elements |
| Hypercubes.Missing | cirkit/templates/region_graph/algorithms/utils.py:40-65 | a dimension error iff the corners' lengths differ from the number of dimensions; an empty-box error iff the dimensions match but some `0 <= x1 < x2 <= shape` fails; otherwise the scope holds exactly the row-major indices whose coordinates lie in the box, and it has as many members as the box has cells |
| Hypercubes.UnravelRoundTrip | cirkit/templates/region_graph/algorithms/utils.py:38 | the row-major index of the unravelled coordinates of an index is that index |
| Hypercubes.UnravelInGrid | cirkit/templates/region_graph/algorithms/utils.py:38 | the unravelled coordinates of every index below the cell count lie inside the array |
| Hypercubes.LinearIndexRoundTrip | cirkit/templates/region_graph/algorithms/utils.py:38 | every cell's row-major index lies below the cell count and unravels back to that cell; with the two rows above, cells and indices of the `arange` grid correspond one to one |
| Hypercubes.MissingByCell | cirkit/templates/region_graph/algorithms/utils.py:59-65 | a cell's number is in a key's scope exactly when the cell lies in the key's box, and every member of the scope is the number of a cell of the array |
| Hypercubes.FirstRowScope | cirkit/templates/region_graph/algorithms/utils.py:59-65 | on shape (1, 2, 2), the box from (0, 0, 0) to (1, 1, 2) has scope {0, 1} |
| Hypercubes.HypercubeToScope.constructor | cirkit/templates/region_graph/algorithms/utils.py:26-38 | records the shape and its number of dimensions, and starts with no stored scope |
| Hypercubes.HypercubeToScope.Get | cirkit/templates/region_graph/algorithms/utils.py:40-65 | a lookup returns exactly what `__missing__` computes for the key, including its errors, and changes no state |
| TreeToRegionGraph.HasDescendantsIffParent | cirkit/templates/region_graph/algorithms/utils.py:85-94 | a variable collects descendants in the ancestor walk iff some variable's parent is it |
| TreeToRegionGraph.FinalPartition | cirkit/templates/region_graph/algorithms/utils.py:85-94 | after the walks, a slot holds the variable's whole subtree iff the variable is a parent, and `None` otherwise |
| TreeToRegionGraph.WalkAncestors | cirkit/templates/region_graph/algorithms/utils.py:86-94 | the walk from `v`, with its tuple assignment, adds `v` to the partition scope of each proper ancestor of `v`, turns a `None` slot into `{v, ancestor}`, and changes no other slot |
| TreeToRegionGraph.AccumulatePartitions | cirkit/templates/region_graph/algorithms/utils.py:83-94 | the slot of `p` is `Some(subtree of p)` when `p` has a child and `None` otherwise |
| TreeToRegionGraph.PartIndexOrder | cirkit/templates/region_graph/algorithms/utils.py:96-98 | partitions are listed in variable order, at positions below the number of partitions |
| TreeToRegionGraph.ListPartitions | cirkit/templates/region_graph/algorithms/utils.py:96-98 | the node list starts with the existing partitions, in variable order, and each parent knows its partition's position |
| TreeToRegionGraph.AddLeafRegion | cirkit/templates/region_graph/algorithms/utils.py:102-108 | a childless variable adds its leaf `{v}`, which stands for it and feeds the parent's partition |
| TreeToRegionGraph.AddBranchRegions | cirkit/templates/region_graph/algorithms/utils.py:102-117 | a parent adds its leaf, which feeds its own partition, and a composite region over the partition's scope, which has the partition as its only input and feeds the parent's partition |
| TreeToRegionGraph.AddRegions | cirkit/templates/region_graph/algorithms/utils.py:100-117 | after the third loop, the nodes, edges and standing regions are those of the whole tree: every partition's inputs, every composite's single input, and edge keys that are listed nodes |
| TreeToRegionGraph.CollectOutputs | cirkit/templates/region_graph/algorithms/utils.py:119 | the outputs are the standing regions of the roots, in variable order |
| TreeToRegionGraph.TreeToRG | cirkit/templates/region_graph/algorithms/utils.py:68-120 | the node list; each partition's inputs; each composite region's single partition input; every edge key is a partition or a composite region; the outputs |
| TreeToRegionGraph.NodesLayout | cirkit/templates/region_graph/algorithms/utils.py:96-114 | there are `2P + n` nodes and the first `P` are partitions; the positions and scopes of each partition (its variable's subtree), leaf (`{v}`) and composite region (the subtree) |
| TreeToRegionGraph.RegionScope | cirkit/templates/region_graph/algorithms/utils.py:103-113 | the region standing for a variable covers exactly its subtree |
| TreeToRegionGraph.PartitionInputsSplitScope | cirkit/templates/region_graph/algorithms/utils.py:101-117 | a partition's inputs are regions with pairwise disjoint scopes whose union is the partition's scope |
| TreeToRegionGraph.SiblingsDisjoint | cirkit/templates/region_graph/algorithms/utils.py:116-117 | two children of one parent have disjoint subtrees |
| TreeToRegionGraph.CompositeMirrorsPartition | cirkit/templates/region_graph/algorithms/utils.py:111-115 | a composite region has the scope of the partition that is its input |
| TreeToRegionGraph.OutputsAreRootRegions | cirkit/templates/region_graph/algorithms/utils.py:105-119 | the outputs are exactly the regions standing for roots; each covers its root's subtree; a childless root is output through its leaf |
| TreeToRegionGraph.RootSubtreesSplitVariables | cirkit/templates/region_graph/algorithms/utils.py:119 | every variable lies in its root's subtree, and distinct roots have disjoint subtrees, so the output scopes split the variables |
| TreeToRegionGraph.ChainOfThree | cirkit/templates/region_graph/algorithms/utils.py:68-120 | the chain `[-1, 0, 1]` gives partitions {0,1,2} and {1,2}, regions {0}, {0,1,2}, {1}, {1,2} and {2}, and the single output {0,1,2} |
| SymbolicCircuits.SymbolicCircuit.constructor | cirkit/new/symbolic/symbolic_circuit.py:24-107 | copies the region graph's flags; `numClasses` defaults to 1 and `inputReparam` to none; one layer per node, in node order, with the node's inputs; the kind follows the node (input, sum or product); the unit count and reparameterization follow the kind |
| SymbolicCircuits.NewWithDefaults | cirkit/new/symbolic/symbolic_circuit.py:24-33 | built without `num_classes` and `input_reparam`, output sum layers have one unit and input layers no reparameterization |
| SymbolicCircuits.SymbolicCircuit.Layers | cirkit/new/symbolic/symbolic_circuit.py:153-156 | one layer per node, in node order |
| SymbolicCircuits.SymbolicCircuit.SumLayers | cirkit/new/symbolic/symbolic_circuit.py:158-166 | exactly the sum layers, in layer order |
| SymbolicCircuits.SymbolicCircuit.ProductLayers | cirkit/new/symbolic/symbolic_circuit.py:168-176 | exactly the product layers, in layer order |
| SymbolicCircuits.SymbolicCircuit.InputLayers | cirkit/new/symbolic/symbolic_circuit.py:178-186 | exactly the input layers, in layer order |
| SymbolicCircuits.SymbolicCircuit.OutputLayers | cirkit/new/symbolic/symbolic_circuit.py:188-191 | exactly the sum layers that no layer reads from, in layer order |
| SymbolicCircuits.SymbolicCircuit.InnerLayers | cirkit/new/symbolic/symbolic_circuit.py:193-196 | exactly the layers with at least one input, in layer order |
| SymbolicCircuits.FilterKeepsOrder | cirkit/new/symbolic/symbolic_circuit.py:158-196 | filtering a node-ordered list of layers leaves it node-ordered, so every view lists layers in layer order |
| SymbolicCircuits.KindViewsPartitionLayers | cirkit/new/symbolic/symbolic_circuit.py:158-186 | the input, sum and product views are disjoint, cover every layer, and their sizes add up to the number of nodes |
| SymbolicCircuits.InnerLayersAreSumsAndProducts | cirkit/new/symbolic/symbolic_circuit.py:74-102 | no inner layer is an input layer, and every sum layer is inner |
| SymbolicCircuits.OutputLayersAreRootRegions | cirkit/new/symbolic/symbolic_circuit.py:83-91 | when the region graph's output flags agree with its edges, a sum layer is an output layer iff its region has no outputs |
| SymbolicCircuits.KroneckerProductUnits | cirkit/new/symbolic/symbolic_circuit.py:92-102 | under the Kronecker unit rule, a binary product layer has `K * K` units, which the Kronecker constructor accepts |
| Kronecker.InferNumProdUnits | cirkit/new/layers/inner/product/kronecker.py:41-53 | arity 0 gives 1; arity 2 gives `K * K`; non-negative `K` gives a non-negative count |
| Kronecker.InferMatchesForwardWidth | cirkit/new/layers/inner/product/kronecker.py:53-66 | the inferred count equals the width of the flattened outer product of `arity` inputs of `K` units each |
| Kronecker.InferAdditive | cirkit/new/layers/inner/product/kronecker.py:53 | `K ** (a + b) == K ** a * K ** b` |
| Kronecker.NewKroneckerLayer | cirkit/new/layers/inner/product/kronecker.py:12-39 | a unit error iff the output units differ from `K ** arity`; an arity error iff the units match but the arity is not 2; on success the counts and arity 2 are kept and the reparameterization is dropped |

## Left out

- Forward passes and tensor arithmetic of the layers, and the mixing layer, are not part
  of this model. `InferMatchesForwardWidth` covers only the output width of the Kronecker
  forward pass.
- The `RegionGraph` class and its algorithms are not part of this model. Nodes are plain
  datatypes, and region graph flags are given values.
- `SymbolicLayer` construction keyword arguments, layer classes as values, and
  `is_compatible` (a delegation to the region graph) are left out. The product layer
  class is represented only by its unit rule, passed to the constructor.
- `SymbolicCircuits.SymbolicCircuit.constructor`: it requires the nodes to be in
  topological order. The source looks up each input's layer in a dictionary, and that
  lookup would raise a `KeyError` for a forward reference. The source's unreachable
  `assert False` branch has no counterpart, because the node datatype has only two
  variants.
- The source's serialization TODO has no behaviour to model.
- Generators are modelled as sequences, and their laziness is not captured.
- `Hypercubes.HypercubeToScope.Get`: the class docstring promises caching, but the code's
  `__missing__` returns the scope without storing it. The model follows the code, so the
  stored map stays empty and every lookup recomputes.
- `Hypercubes.Missing`: `numpy` slicing and reshaping are modelled by their result, a
  set of row-major indices. The `int64` dtype is not modelled.
- `TreeToRegionGraph.TreeToRG`: it requires a forest (ghost `rank`) and parent entries in
  `[-1, n)`. The source does not check this; see its TODO. On a cyclic input the source
  loops forever, and that is not modelled. Python object identity is replaced by node
  positions. The `defaultdict` is a map read through `InputsOf`.
- `Kronecker.InferNumProdUnits`: the arity is a `nat`. A negative arity would make Python
  return a float, and that is not modelled.
- `OrderedSets.OrderedSet.Sort`: the comparison is an integer-valued key rather than an
  arbitrary `__lt__`, so only total preorders induced by a key are covered.
