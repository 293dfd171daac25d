/** `tree2rg`: turns a parent-pointer tree over variables `0 .. n-1` into a region graph.

    Every variable `p` that is some variable's parent gets a partition whose scope is `p`
    together with all its descendants; every variable gets a leaf region `{v}`; every
    variable with a partition also gets a composite region with the partition's scope.
    Nodes are identified by their position in the returned node list, and the edge map
    sends a node's position to the positions of its inputs, in insertion order. */
module TreeToRegionGraph {
  import opened Wrappers

  /** A region-graph node, as `tree2rg` creates it: a region or a partition over a scope. */
  datatype Node = RegionNode(scope: set<nat>) | PartitionNode(scope: set<nat>)

  /** `tree[v]` is the parent of `v`, or `-1` for a root. The source leaves acyclicity
      unchecked; here it is witnessed by a `rank` that strictly grows from parent to child. */
  ghost predicate WellFormed(tree: seq<int>, rank: seq<nat>) {
    IsParentArray(tree) && |rank| == |tree| &&
    forall v :: 0 <= v < |tree| && tree[v] != -1 ==> rank[tree[v]] < rank[v]
  }

  /** Every entry is `-1` or a variable. */
  predicate IsParentArray(tree: seq<int>) {
    forall v :: 0 <= v < |tree| ==> -1 <= tree[v] < |tree|
  }

  /** `x` and all its ancestors (empty for `-1`). */
  ghost function Up(tree: seq<int>, rank: seq<nat>, x: int): (r: set<nat>)
    requires WellFormed(tree, rank) && -1 <= x < |tree|
    ensures forall a :: a in r ==> a < |tree|
    decreases if x == -1 then 0 else rank[x] + 1
  {
    if x == -1 then {} else {x} + Up(tree, rank, tree[x])
  }

  /** The variables at or below `u`: `u` and all its descendants. */
  ghost function Subtree(tree: seq<int>, rank: seq<nat>, u: nat): set<nat>
    requires WellFormed(tree, rank)
  {
    set w: nat | w < |tree| && u in Up(tree, rank, w)
  }

  /** The variables below `m` that strictly descend from `p`. */
  ghost function Contrib(tree: seq<int>, rank: seq<nat>, p: nat, m: nat): set<nat>
    requires WellFormed(tree, rank) && m <= |tree|
  {
    set u: nat | u < m && p in Up(tree, rank, tree[u])
  }

  /** The partition slot of `p` once the variables in `c` have added themselves to it. */
  function Grown(p: nat, c: set<nat>): Option<set<nat>> {
    if c == {} then None else Some({p} + c)
  }

  /** `p` is the parent of some variable. */
  predicate HasPart(tree: seq<int>, p: nat) {
    p in tree
  }

  /** The number of variables below `m` that have a partition. */
  function CountParts(tree: seq<int>, m: nat): (r: nat)
    requires m <= |tree|
    ensures r <= m
  {
    if m == 0 then 0 else CountParts(tree, m - 1) + (if HasPart(tree, m - 1) then 1 else 0)
  }

  /** Position of `p`'s partition: partitions come first, in variable order. */
  function PartIndex(tree: seq<int>, p: nat): nat
    requires p <= |tree|
  {
    CountParts(tree, p)
  }

  /** Position of `v`'s leaf region: after all partitions and after the leaf and composite
      regions of the variables before `v`. */
  function LeafIndex(tree: seq<int>, v: nat): nat
    requires v <= |tree|
  {
    CountParts(tree, |tree|) + v + CountParts(tree, v)
  }

  /** Position of `v`'s composite region, right after its leaf. */
  function CompositeIndex(tree: seq<int>, v: nat): nat
    requires v <= |tree|
  {
    LeafIndex(tree, v) + 1
  }

  /** The region that stands for `v` towards its parent and among the outputs. */
  function RegionIndex(tree: seq<int>, v: nat): nat
    requires v <= |tree|
  {
    if HasPart(tree, v) then CompositeIndex(tree, v) else LeafIndex(tree, v)
  }

  /** The partitions of the variables below `m`, in variable order. */
  ghost function PartitionNodes(tree: seq<int>, rank: seq<nat>, m: nat): (r: seq<Node>)
    requires WellFormed(tree, rank) && m <= |tree|
    ensures |r| == CountParts(tree, m)
    ensures forall k :: 0 <= k < |r| ==> r[k].PartitionNode?
  {
    if m == 0 then []
    else
      var part := if HasPart(tree, m - 1) then [PartitionNode(Subtree(tree, rank, m - 1))] else [];
      PartitionNodes(tree, rank, m - 1) + part
  }

  /** For each variable below `m`, in order, its leaf region and then its composite region
      if it has a partition. */
  ghost function RegionNodes(tree: seq<int>, rank: seq<nat>, m: nat): (r: seq<Node>)
    requires WellFormed(tree, rank) && m <= |tree|
    ensures |r| == m + CountParts(tree, m)
    ensures forall k :: 0 <= k < |r| ==> r[k].RegionNode?
  {
    if m == 0 then []
    else
      var composite := if HasPart(tree, m - 1) then [RegionNode(Subtree(tree, rank, m - 1))] else [];
      RegionNodes(tree, rank, m - 1) + [RegionNode({m - 1})] + composite
  }

  /** The whole node list. */
  ghost function Nodes(tree: seq<int>, rank: seq<nat>): seq<Node>
    requires WellFormed(tree, rank)
  {
    PartitionNodes(tree, rank, |tree|) + RegionNodes(tree, rank, |tree|)
  }

  /** The variables below `m` that feed `p`'s partition, in order: `p` itself (through its
      leaf) and each child of `p`. */
  function Sources(tree: seq<int>, p: nat, m: nat): (r: seq<nat>)
    requires m <= |tree|
    ensures forall i :: 0 <= i < |r| ==> r[i] < m
  {
    if m == 0 then []
    else Sources(tree, p, m - 1) + (if m - 1 == p || tree[m - 1] == p then [m - 1] else [])
  }

  /** The inputs of `p`'s partition contributed by the variables below `m`, in order. */
  function PartInputs(tree: seq<int>, p: nat, m: nat): (r: seq<nat>)
    requires m <= |tree|
    ensures p < m ==> r != []
  {
    if m == 0 then []
    else
      var input :=
        if m - 1 == p then [LeafIndex(tree, p)]
        else if tree[m - 1] == p then [RegionIndex(tree, m - 1)]
        else [];
      PartInputs(tree, p, m - 1) + input
  }

  /** The regions of the roots below `m`, in variable order. */
  function Outputs(tree: seq<int>, m: nat): seq<nat>
    requires m <= |tree|
  {
    if m == 0 then []
    else Outputs(tree, m - 1) + (if tree[m - 1] == -1 then [RegionIndex(tree, m - 1)] else [])
  }

  /** The edge map as a `defaultdict(list)`: the inputs recorded for `k`, or none. */
  function InputsOf(inNodes: map<nat, seq<nat>>, k: nat): seq<nat> {
    if k in inNodes then inNodes[k] else []
  }

  /** `in_nodes[k].append(x)` on a `defaultdict(list)`. */
  function AddEdge(inNodes: map<nat, seq<nat>>, k: nat, x: nat): (r: map<nat, seq<nat>>)
    ensures k in r && r[k] == InputsOf(inNodes, k) + [x]
    ensures forall j :: j != k ==> InputsOf(r, j) == InputsOf(inNodes, j)
    ensures r.Keys == inNodes.Keys + {k}
  {
    inNodes[k := InputsOf(inNodes, k) + [x]]
  }

  // ---------------------------------------------------------------------------------------
  // Ancestor chains

  lemma {:induction false} UpRank(tree: seq<int>, rank: seq<nat>, x: nat, a: nat)
    requires WellFormed(tree, rank) && x < |tree| && a in Up(tree, rank, x)
    ensures rank[a] <= rank[x]
    decreases rank[x]
  {
    if a != x {
      UpRank(tree, rank, tree[x], a);
    }
  }

  /** A variable is never its own strict ancestor. */
  lemma NotOwnAncestor(tree: seq<int>, rank: seq<nat>, x: nat)
    requires WellFormed(tree, rank) && x < |tree|
    ensures x !in Up(tree, rank, tree[x])
  {
    if x in Up(tree, rank, tree[x]) {
      UpRank(tree, rank, tree[x], x);
    }
  }

  /** The ancestors of an ancestor are ancestors. */
  lemma {:induction false} UpClosed(tree: seq<int>, rank: seq<nat>, y: nat, x: nat)
    requires WellFormed(tree, rank) && y < |tree| && x in Up(tree, rank, y)
    ensures Up(tree, rank, x) <= Up(tree, rank, y)
    decreases rank[y]
  {
    if x != y {
      UpClosed(tree, rank, tree[y], x);
    }
  }

  /** Any two ancestors of `w` are ordered: one is an ancestor of the other. */
  lemma {:induction false} UpChain(tree: seq<int>, rank: seq<nat>, w: nat, a: nat, b: nat)
    requires WellFormed(tree, rank) && w < |tree|
    requires a in Up(tree, rank, w) && b in Up(tree, rank, w)
    ensures a in Up(tree, rank, b) || b in Up(tree, rank, a)
    decreases rank[w]
  {
    if a != w && b != w {
      UpChain(tree, rank, tree[w], a, b);
    }
  }

  /** A strict ancestor `p` of `w` has a child on the path from `w` up to `p`. */
  lemma {:induction false} ChildOnPath(tree: seq<int>, rank: seq<nat>, w: nat, p: nat)
    returns (u: nat)
    requires WellFormed(tree, rank) && w < |tree| && p in Up(tree, rank, tree[w])
    ensures u < |tree| && u in Up(tree, rank, w) && tree[u] == p
    decreases rank[w]
  {
    if tree[w] == p {
      u := w;
    } else {
      u := ChildOnPath(tree, rank, tree[w], p);
    }
  }

  /** Walking variable `m` adds `m` to exactly the partitions of its strict ancestors. */
  lemma ContribStep(tree: seq<int>, rank: seq<nat>, p: nat, m: nat)
    requires WellFormed(tree, rank) && m < |tree|
    ensures Contrib(tree, rank, p, m + 1) ==
      Contrib(tree, rank, p, m) + (if p in Up(tree, rank, tree[m]) then {m} else {})
  {
  }

  /** A subtree is its root together with the root's strict descendants. */
  lemma SubtreeSplit(tree: seq<int>, rank: seq<nat>, p: nat)
    requires WellFormed(tree, rank) && p < |tree|
    ensures Subtree(tree, rank, p) == {p} + Contrib(tree, rank, p, |tree|)
  {
  }

  /** `p` has strict descendants exactly when it is some variable's parent. */
  lemma HasDescendantsIffParent(tree: seq<int>, rank: seq<nat>, p: nat)
    requires WellFormed(tree, rank) && p < |tree|
    ensures Contrib(tree, rank, p, |tree|) != {} <==> HasPart(tree, p)
  {
    if HasPart(tree, p) {
      var u :| 0 <= u < |tree| && tree[u] == p;
      assert u in Contrib(tree, rank, p, |tree|);
    }
    if Contrib(tree, rank, p, |tree|) != {} {
      var w :| w in Contrib(tree, rank, p, |tree|);
      var u := ChildOnPath(tree, rank, w, p);
    }
  }

  /** After every variable has walked its ancestors, the partition slot of `p` holds the
      subtree of `p` exactly when `p` is a parent. */
  lemma FinalPartition(tree: seq<int>, rank: seq<nat>, p: nat)
    requires WellFormed(tree, rank) && p < |tree|
    ensures Grown(p, Contrib(tree, rank, p, |tree|)) ==
      (if HasPart(tree, p) then Some(Subtree(tree, rank, p)) else None)
  {
    HasDescendantsIffParent(tree, rank, p);
    SubtreeSplit(tree, rank, p);
  }

  // ---------------------------------------------------------------------------------------
  // Phase 0: every variable adds itself to the partitions of its ancestors

  /** The partition slot of `p` while variable `v` is walking at `cur`: `v` has been added
      to the ancestors of `v` that are not ancestors of `cur`'s parent. */
  ghost function WalkSlot(tree: seq<int>, rank: seq<nat>, v: nat, cur: nat, p: nat): Option<set<nat>>
    requires WellFormed(tree, rank) && v < |tree| && cur < |tree|
  {
    var done := Up(tree, rank, tree[v]) - Up(tree, rank, tree[cur]);
    Grown(p, Contrib(tree, rank, p, v) + (if p in done then {v} else {}))
  }

  /** Before the walk of `v`, the slots are those left by the variables before `v`. */
  lemma WalkStart(tree: seq<int>, rank: seq<nat>, v: nat, p: nat)
    requires WellFormed(tree, rank) && v < |tree|
    ensures WalkSlot(tree, rank, v, v, p) == Grown(p, Contrib(tree, rank, p, v))
  {
    assert Contrib(tree, rank, p, v) + {} == Contrib(tree, rank, p, v);
  }

  /** One step `(cur, prev) := (prev, tree[cur])` of the walk: `prev` is an ancestor of `v`,
      it becomes done, and no other slot changes its target. */
  lemma WalkStep(tree: seq<int>, rank: seq<nat>, v: nat, cur: nat, prev: nat)
    requires WellFormed(tree, rank) && v < |tree| && cur < |tree| && prev < |tree|
    requires prev == tree[cur] || prev == cur
    requires cur == v ==> prev == tree[v]
    requires cur == v || cur in Up(tree, rank, tree[v])
    ensures prev in Up(tree, rank, tree[v]) && prev != v
    ensures WalkSlot(tree, rank, v, prev, prev) ==
      Grown(prev, Contrib(tree, rank, prev, v) + {v})
    ensures WalkSlot(tree, rank, v, cur, prev) == Grown(prev, Contrib(tree, rank, prev, v)) ||
      WalkSlot(tree, rank, v, cur, prev) == Grown(prev, Contrib(tree, rank, prev, v) + {v})
    ensures forall p :: p != prev ==>
      WalkSlot(tree, rank, v, prev, p) == WalkSlot(tree, rank, v, cur, p)
  {
    NotOwnAncestor(tree, rank, v);
    NotOwnAncestor(tree, rank, prev);
    if cur != v {
      UpClosed(tree, rank, tree[v], cur);
    }
    var upV := Up(tree, rank, tree[v]);
    if prev == tree[cur] {
      assert Up(tree, rank, tree[cur]) == {prev} + Up(tree, rank, tree[prev]);
      assert upV - Up(tree, rank, tree[prev]) == (upV - Up(tree, rank, tree[cur])) + {prev};
    }
    var c := Contrib(tree, rank, prev, v);
    assert c + {} == c;
  }

  /** Adding `v` to a slot, as the two branches of the walk's `if` do. */
  lemma AddToSlot(p: nat, v: nat, c: set<nat>, slot: Option<set<nat>>)
    requires slot == Grown(p, c) || slot == Grown(p, c + {v})
    ensures (if slot == None then Some({v, p}) else Some({v} + slot.value)) == Grown(p, c + {v})
  {
    if slot == None {
      assert c == {};
      assert {v, p} == {p} + (c + {v});
    } else {
      assert {v} + slot.value == {p} + (c + {v});
    }
  }

  /** The inner `while` loop for variable `v`. The pair `(cur, prev)` is updated by a tuple
      assignment that reads the old `cur`, so the walk goes `(v, p1), (p1, p1), (p1, p2),
      (p2, p2), ...` and touches every ancestor twice; the second touch adds `v` again. */
  method WalkAncestors(tree: seq<int>, ghost rank: seq<nat>, partitions: seq<Option<set<nat>>>,
                       v: nat)
    returns (parts: seq<Option<set<nat>>>)
    requires WellFormed(tree, rank) && v < |tree| && |partitions| == |tree|
    requires forall p :: 0 <= p < |tree| ==>
      partitions[p] == Grown(p, Contrib(tree, rank, p, v))
    ensures |parts| == |tree|
    ensures forall p :: 0 <= p < |tree| ==>
      parts[p] == Grown(p, Contrib(tree, rank, p, v + 1))
  {
    parts := partitions;
    var cur: int, prev := v, tree[v];
    forall p | 0 <= p < |tree| ensures parts[p] == WalkSlot(tree, rank, v, cur, p) {
      WalkStart(tree, rank, v, p);
    }
    while prev != -1
      invariant |parts| == |tree|
      invariant 0 <= cur < |tree| && (prev == tree[cur] || prev == cur)
      invariant cur == v ==> prev == tree[v]
      invariant cur == v || cur in Up(tree, rank, tree[v])
      invariant forall p :: 0 <= p < |tree| ==> parts[p] == WalkSlot(tree, rank, v, cur, p)
      decreases 2 * (if prev == -1 then 0 else rank[prev] + 1) + (if prev == cur then 0 else 1)
    {
      WalkStep(tree, rank, v, cur, prev);
      AddToSlot(prev, v, Contrib(tree, rank, prev, v), parts[prev]);
      if parts[prev] == None {
        parts := parts[prev := Some({v, prev})];
      } else {
        parts := parts[prev := Some({v} + parts[prev].value)];
      }
      cur, prev := prev, tree[cur];
    }
    forall p | 0 <= p < |tree|
      ensures parts[p] == Grown(p, Contrib(tree, rank, p, v + 1))
    {
      ContribStep(tree, rank, p, v);
    }
  }

  /** The first loop of `tree2rg`: the partition slots, filled by walking every variable. */
  method AccumulatePartitions(tree: seq<int>, ghost rank: seq<nat>)
    returns (partitions: seq<Option<set<nat>>>)
    requires WellFormed(tree, rank)
    ensures |partitions| == |tree|
    ensures forall p :: 0 <= p < |tree| ==>
      partitions[p] == (if HasPart(tree, p) then Some(Subtree(tree, rank, p)) else None)
  {
    partitions := seq(|tree|, _ => None);
    forall p | 0 <= p < |tree| ensures partitions[p] == Grown(p, Contrib(tree, rank, p, 0)) {
      assert Contrib(tree, rank, p, 0) == {};
    }
    for v := 0 to |tree|
      invariant |partitions| == |tree|
      invariant forall p :: 0 <= p < |tree| ==>
        partitions[p] == Grown(p, Contrib(tree, rank, p, v))
    {
      partitions := WalkAncestors(tree, rank, partitions, v);
    }
    forall p | 0 <= p < |tree|
      ensures partitions[p] == (if HasPart(tree, p) then Some(Subtree(tree, rank, p)) else None)
    {
      FinalPartition(tree, rank, p);
    }
  }

  // ---------------------------------------------------------------------------------------
  // Phases 1 and 2: the node list and the edge map

  /** Variables with a partition get strictly increasing partition positions. */
  lemma {:induction false} CountPartsGrows(tree: seq<int>, p: nat, q: nat)
    requires p < q <= |tree| && HasPart(tree, p)
    ensures CountParts(tree, p) < CountParts(tree, q)
    decreases q
  {
    if q > p + 1 {
      CountPartsGrows(tree, p, q - 1);
    }
  }

  /** Partition positions lie below the number of partitions, in variable order. */
  lemma PartIndexOrder(tree: seq<int>)
    ensures forall p :: 0 <= p < |tree| && HasPart(tree, p) ==>
      PartIndex(tree, p) < CountParts(tree, |tree|)
    ensures forall p, q :: 0 <= p < q < |tree| && HasPart(tree, p) ==>
      PartIndex(tree, p) < PartIndex(tree, q)
  {
    forall p | 0 <= p < |tree| && HasPart(tree, p)
      ensures PartIndex(tree, p) < CountParts(tree, |tree|)
    {
      CountPartsGrows(tree, p, |tree|);
    }
    forall p, q | 0 <= p < q < |tree| && HasPart(tree, p)
      ensures PartIndex(tree, p) < PartIndex(tree, q)
    {
      CountPartsGrows(tree, p, q);
    }
  }

  /** The second loop of `tree2rg`: the existing partitions, in variable order, start the node
      list. `partitionAt[p]` records where `p`'s partition was placed; the source uses the
      partition object itself, and the model identifies a node by its position. */
  method ListPartitions(tree: seq<int>, ghost rank: seq<nat>, partitions: seq<Option<set<nat>>>)
    returns (nodes: seq<Node>, partitionAt: seq<Option<nat>>)
    requires WellFormed(tree, rank) && |partitions| == |tree|
    requires forall p :: 0 <= p < |tree| ==>
      partitions[p] == (if HasPart(tree, p) then Some(Subtree(tree, rank, p)) else None)
    ensures nodes == PartitionNodes(tree, rank, |tree|)
    ensures |partitionAt| == |tree|
    ensures forall p :: 0 <= p < |tree| ==>
      partitionAt[p] == (if HasPart(tree, p) then Some(PartIndex(tree, p)) else None)
  {
    nodes, partitionAt := [], [];
    for p := 0 to |tree|
      invariant nodes == PartitionNodes(tree, rank, p)
      invariant |partitionAt| == p
      invariant forall q :: 0 <= q < p ==>
        partitionAt[q] == (if HasPart(tree, q) then Some(PartIndex(tree, q)) else None)
    {
      if partitions[p] != None {
        partitionAt := partitionAt + [Some(|nodes|)];
        nodes := nodes + [PartitionNode(partitions[p].value)];
      } else {
        partitionAt := partitionAt + [None];
      }
    }
  }

  /** The edges into partitions recorded so far: those of the variables below `i`. */
  ghost predicate PartEdges(tree: seq<int>, i: nat, inNodes: map<nat, seq<nat>>)
    requires i <= |tree|
  {
    forall p :: 0 <= p < |tree| && HasPart(tree, p) ==>
      InputsOf(inNodes, PartIndex(tree, p)) == PartInputs(tree, p, i)
  }

  /** The edges into composite regions recorded so far: those of the variables below `i`. */
  ghost predicate CompositeEdges(tree: seq<int>, i: nat, inNodes: map<nat, seq<nat>>)
    requires i <= |tree|
  {
    forall u :: 0 <= u < i && HasPart(tree, u) ==>
      InputsOf(inNodes, CompositeIndex(tree, u)) == [PartIndex(tree, u)]
  }

  /** Every key of the edge map is a listed node with at least one input: a partition, or
      the composite region of a variable below `i`. */
  ghost predicate EdgeKeys(tree: seq<int>, i: nat, size: nat, inNodes: map<nat, seq<nat>>)
    requires i <= |tree|
  {
    forall k :: k in inNodes ==>
      k < size && inNodes[k] != [] &&
      (k < CountParts(tree, |tree|) ||
       exists u :: 0 <= u < i && HasPart(tree, u) && k == CompositeIndex(tree, u))
  }

  /** The edge map after a variable without a partition: its leaf feeds its parent's
      partition, if it has a parent. */
  function LeafEdges(tree: seq<int>, v: nat, inNodes: map<nat, seq<nat>>): map<nat, seq<nat>>
    requires IsParentArray(tree) && v < |tree|
  {
    if tree[v] >= 0 then AddEdge(inNodes, PartIndex(tree, tree[v]), LeafIndex(tree, v))
    else inNodes
  }

  lemma LeafPartEdges(tree: seq<int>, v: nat, inNodes: map<nat, seq<nat>>)
    requires IsParentArray(tree) && v < |tree| && !HasPart(tree, v)
    requires PartEdges(tree, v, inNodes)
    ensures PartEdges(tree, v + 1, LeafEdges(tree, v, inNodes))
  {
    var next := LeafEdges(tree, v, inNodes);
    forall p | 0 <= p < |tree| && HasPart(tree, p)
      ensures InputsOf(next, PartIndex(tree, p)) == PartInputs(tree, p, v + 1)
    {
      assert p != v;
      assert PartInputs(tree, p, v + 1) ==
        PartInputs(tree, p, v) + (if tree[v] == p then [LeafIndex(tree, v)] else []);
      if p != tree[v] && tree[v] >= 0 {
        var q := tree[v];
        assert HasPart(tree, q);
        if p < q {
          CountPartsGrows(tree, p, q);
        } else {
          CountPartsGrows(tree, q, p);
        }
        assert PartIndex(tree, p) != PartIndex(tree, q);
      }
    }
  }

  lemma LeafCompositeEdges(tree: seq<int>, v: nat, inNodes: map<nat, seq<nat>>)
    requires IsParentArray(tree) && v < |tree| && !HasPart(tree, v)
    requires CompositeEdges(tree, v, inNodes)
    ensures CompositeEdges(tree, v + 1, LeafEdges(tree, v, inNodes))
  {
    PartIndexOrder(tree);
    var next := LeafEdges(tree, v, inNodes);
    if tree[v] >= 0 {
      assert HasPart(tree, tree[v]);
      forall u | 0 <= u < v + 1 && HasPart(tree, u)
        ensures InputsOf(next, CompositeIndex(tree, u)) == [PartIndex(tree, u)]
      {
        assert CompositeIndex(tree, u) != PartIndex(tree, tree[v]);
      }
    }
  }

  lemma LeafEdgeKeys(tree: seq<int>, v: nat, inNodes: map<nat, seq<nat>>)
    requires IsParentArray(tree) && v < |tree|
    requires EdgeKeys(tree, v, LeafIndex(tree, v), inNodes)
    ensures EdgeKeys(tree, v + 1, LeafIndex(tree, v) + 1, LeafEdges(tree, v, inNodes))
  {
    PartIndexOrder(tree);
    var next := LeafEdges(tree, v, inNodes);
    forall k | k in next
      ensures k < LeafIndex(tree, v) + 1 && next[k] != [] &&
        (k < CountParts(tree, |tree|) ||
         exists u :: 0 <= u < v + 1 && HasPart(tree, u) && k == CompositeIndex(tree, u))
    {
      if k !in inNodes {
        assert HasPart(tree, tree[v]);
      }
    }
  }

  /** The edge map after a variable with a partition: its leaf feeds its partition, the
      partition feeds its composite region, and the composite region feeds the parent's
      partition, if it has a parent. */
  function BranchEdges(tree: seq<int>, v: nat, inNodes: map<nat, seq<nat>>): map<nat, seq<nat>>
    requires IsParentArray(tree) && v < |tree|
  {
    var withLeaf := AddEdge(inNodes, PartIndex(tree, v), LeafIndex(tree, v));
    var withPart := AddEdge(withLeaf, CompositeIndex(tree, v), PartIndex(tree, v));
    if tree[v] >= 0 then AddEdge(withPart, PartIndex(tree, tree[v]), CompositeIndex(tree, v))
    else withPart
  }

  lemma BranchPartEdges(tree: seq<int>, v: nat, inNodes: map<nat, seq<nat>>)
    requires IsParentArray(tree) && v < |tree| && HasPart(tree, v) && tree[v] != v
    requires PartEdges(tree, v, inNodes)
    ensures PartEdges(tree, v + 1, BranchEdges(tree, v, inNodes))
  {
    PartIndexOrder(tree);
    var next := BranchEdges(tree, v, inNodes);
    forall p | 0 <= p < |tree| && HasPart(tree, p)
      ensures InputsOf(next, PartIndex(tree, p)) == PartInputs(tree, p, v + 1)
    {
      assert PartIndex(tree, p) != CompositeIndex(tree, v);
      if p != v {
        assert PartIndex(tree, p) != PartIndex(tree, v);
      }
      if p != tree[v] && tree[v] >= 0 {
        assert HasPart(tree, tree[v]);
        assert PartIndex(tree, p) != PartIndex(tree, tree[v]);
      }
    }
  }

  lemma BranchCompositeEdges(tree: seq<int>, v: nat, inNodes: map<nat, seq<nat>>)
    requires IsParentArray(tree) && v < |tree| && HasPart(tree, v)
    requires CompositeEdges(tree, v, inNodes) && EdgeKeys(tree, v, LeafIndex(tree, v), inNodes)
    ensures CompositeEdges(tree, v + 1, BranchEdges(tree, v, inNodes))
  {
    PartIndexOrder(tree);
    var next := BranchEdges(tree, v, inNodes);
    assert CompositeIndex(tree, v) !in inNodes;
    forall u | 0 <= u < v + 1 && HasPart(tree, u)
      ensures InputsOf(next, CompositeIndex(tree, u)) == [PartIndex(tree, u)]
    {
      assert CompositeIndex(tree, u) != PartIndex(tree, v);
      if tree[v] >= 0 {
        assert HasPart(tree, tree[v]);
        assert CompositeIndex(tree, u) != PartIndex(tree, tree[v]);
      }
      if u < v {
        assert CompositeIndex(tree, u) in inNodes;
      }
    }
  }

  lemma BranchEdgeKeys(tree: seq<int>, v: nat, inNodes: map<nat, seq<nat>>)
    requires IsParentArray(tree) && v < |tree| && HasPart(tree, v)
    requires EdgeKeys(tree, v, LeafIndex(tree, v), inNodes)
    ensures EdgeKeys(tree, v + 1, LeafIndex(tree, v) + 2, BranchEdges(tree, v, inNodes))
  {
    PartIndexOrder(tree);
    var next := BranchEdges(tree, v, inNodes);
    forall k | k in next
      ensures k < LeafIndex(tree, v) + 2 && next[k] != [] &&
        (k < CountParts(tree, |tree|) ||
         exists u :: 0 <= u < v + 1 && HasPart(tree, u) && k == CompositeIndex(tree, u))
    {
      if tree[v] >= 0 {
        assert HasPart(tree, tree[v]);
      }
    }
  }

  /** The state of the third loop of `tree2rg` once the variables below `v` are done. */
  ghost predicate RegionsBuilt(tree: seq<int>, rank: seq<nat>, listed: seq<Node>, v: nat,
                               nodes: seq<Node>, inNodes: map<nat, seq<nat>>,
                               regions: seq<Option<nat>>)
    requires WellFormed(tree, rank) && v <= |tree|
  {
    nodes == listed + RegionNodes(tree, rank, v) && RegionsRecorded(tree, v, regions) &&
    PartEdges(tree, v, inNodes) && CompositeEdges(tree, v, inNodes) &&
    EdgeKeys(tree, v, |nodes|, inNodes)
  }

  /** The variables below `v` have their standing region recorded, the others none. */
  ghost predicate RegionsRecorded(tree: seq<int>, v: nat, regions: seq<Option<nat>>)
    requires v <= |tree|
  {
    |regions| == |tree| &&
    (forall u :: 0 <= u < v ==> regions[u] == Some(RegionIndex(tree, u))) &&
    (forall u :: v <= u < |tree| ==> regions[u] == None)
  }

  lemma RecordRegion(tree: seq<int>, v: nat, regions: seq<Option<nat>>)
    requires v < |tree| && RegionsRecorded(tree, v, regions)
    ensures RegionsRecorded(tree, v + 1, regions[v := Some(RegionIndex(tree, v))])
  {
  }

  /** The loop state after a variable without a partition. */
  lemma LeafBuilt(tree: seq<int>, rank: seq<nat>, listed: seq<Node>, v: nat,
                  nodes: seq<Node>, inNodes: map<nat, seq<nat>>, regions: seq<Option<nat>>)
    requires WellFormed(tree, rank) && v < |tree| && !HasPart(tree, v)
    requires |listed| == CountParts(tree, |tree|)
    requires RegionsBuilt(tree, rank, listed, v, nodes, inNodes, regions)
    ensures RegionsBuilt(tree, rank, listed, v + 1, nodes + [RegionNode({v})],
                         LeafEdges(tree, v, inNodes), regions[v := Some(RegionIndex(tree, v))])
  {
    LeafPartEdges(tree, v, inNodes);
    LeafCompositeEdges(tree, v, inNodes);
    LeafEdgeKeys(tree, v, inNodes);
    RecordRegion(tree, v, regions);
    assert RegionNodes(tree, rank, v + 1) == RegionNodes(tree, rank, v) + [RegionNode({v})];
  }

  /** One pass of the third loop of `tree2rg` for a variable `v` without a partition: its
      leaf region stands for it and feeds its parent's partition, if any. */
  method AddLeafRegion(tree: seq<int>, ghost rank: seq<nat>, partitionAt: seq<Option<nat>>,
                       ghost listed: seq<Node>, v: nat,
                       nodes0: seq<Node>, inNodes0: map<nat, seq<nat>>, regions0: seq<Option<nat>>)
    returns (nodes: seq<Node>, inNodes: map<nat, seq<nat>>, regions: seq<Option<nat>>)
    requires WellFormed(tree, rank) && v < |tree| && !HasPart(tree, v)
    requires |partitionAt| == |tree|
    requires forall p :: 0 <= p < |tree| ==>
      partitionAt[p] == (if HasPart(tree, p) then Some(PartIndex(tree, p)) else None)
    requires |listed| == CountParts(tree, |tree|)
    requires RegionsBuilt(tree, rank, listed, v, nodes0, inNodes0, regions0)
    ensures RegionsBuilt(tree, rank, listed, v + 1, nodes, inNodes, regions)
  {
    nodes, inNodes, regions := nodes0, inNodes0, regions0;
    var parent := tree[v];
    var leaf := |nodes|;
    assert leaf == LeafIndex(tree, v) == RegionIndex(tree, v);
    nodes := nodes + [RegionNode({v})];
    if parent != -1 {
      assert HasPart(tree, parent);
      inNodes := AddEdge(inNodes, partitionAt[parent].value, leaf);
    }
    regions := regions[v := Some(leaf)];
    assert inNodes == LeafEdges(tree, v, inNodes0);
    LeafBuilt(tree, rank, listed, v, nodes0, inNodes0, regions0);
  }

  lemma BranchEdgesStep(tree: seq<int>, v: nat, inNodes: map<nat, seq<nat>>)
    requires IsParentArray(tree) && v < |tree| && HasPart(tree, v) && tree[v] != v
    requires PartEdges(tree, v, inNodes) && CompositeEdges(tree, v, inNodes)
    requires EdgeKeys(tree, v, LeafIndex(tree, v), inNodes)
    ensures var next := BranchEdges(tree, v, inNodes);
      PartEdges(tree, v + 1, next) && CompositeEdges(tree, v + 1, next) &&
      EdgeKeys(tree, v + 1, LeafIndex(tree, v) + 2, next)
  {
    BranchPartEdges(tree, v, inNodes);
    BranchCompositeEdges(tree, v, inNodes);
    BranchEdgeKeys(tree, v, inNodes);
  }

  lemma BranchNodes(tree: seq<int>, rank: seq<nat>, listed: seq<Node>, v: nat, nodes: seq<Node>)
    requires WellFormed(tree, rank) && v < |tree| && HasPart(tree, v)
    requires nodes == listed + RegionNodes(tree, rank, v)
    ensures nodes + [RegionNode({v}), RegionNode(Subtree(tree, rank, v))] ==
      listed + RegionNodes(tree, rank, v + 1)
  {
    assert RegionNodes(tree, rank, v + 1) ==
      RegionNodes(tree, rank, v) + [RegionNode({v})] + [RegionNode(Subtree(tree, rank, v))];
  }

  /** The loop state after a variable with a partition. */
  lemma BranchBuilt(tree: seq<int>, rank: seq<nat>, listed: seq<Node>, v: nat,
                    nodes: seq<Node>, inNodes: map<nat, seq<nat>>, regions: seq<Option<nat>>)
    requires WellFormed(tree, rank) && v < |tree| && HasPart(tree, v)
    requires |listed| == CountParts(tree, |tree|)
    requires RegionsBuilt(tree, rank, listed, v, nodes, inNodes, regions)
    ensures RegionsBuilt(tree, rank, listed, v + 1,
                         nodes + [RegionNode({v}), RegionNode(Subtree(tree, rank, v))],
                         BranchEdges(tree, v, inNodes),
                         regions[v := Some(RegionIndex(tree, v))])
  {
    assert tree[v] != v;
    assert |nodes| == LeafIndex(tree, v);
    BranchEdgesStep(tree, v, inNodes);
    BranchNodes(tree, rank, listed, v, nodes);
    RecordRegion(tree, v, regions);
  }

  /** In the third loop's state for `v`, the next node is `v`'s leaf and `v` has no region yet. */
  lemma BuiltSizes(tree: seq<int>, rank: seq<nat>, listed: seq<Node>, v: nat,
                   nodes: seq<Node>, inNodes: map<nat, seq<nat>>, regions: seq<Option<nat>>)
    requires WellFormed(tree, rank) && v < |tree|
    requires |listed| == CountParts(tree, |tree|)
    requires RegionsBuilt(tree, rank, listed, v, nodes, inNodes, regions)
    ensures |nodes| == LeafIndex(tree, v) && |regions| == |tree| && regions[v] == None
  {
  }

  /** One pass of the third loop of `tree2rg` for a variable `v` with a partition: its leaf
      feeds the partition, which feeds a new composite region with the partition's scope;
      the composite region stands for `v` and feeds its parent's partition, if any. The
      test `regions[v] is None` in the source always holds. */
  method AddBranchRegions(tree: seq<int>, ghost rank: seq<nat>, scope: set<nat>,
                          partitionAt: seq<Option<nat>>, ghost listed: seq<Node>, v: nat,
                          nodes0: seq<Node>, inNodes0: map<nat, seq<nat>>,
                          regions0: seq<Option<nat>>)
    returns (nodes: seq<Node>, inNodes: map<nat, seq<nat>>, regions: seq<Option<nat>>)
    requires WellFormed(tree, rank) && v < |tree| && HasPart(tree, v)
    requires scope == Subtree(tree, rank, v)
    requires |partitionAt| == |tree|
    requires forall p :: 0 <= p < |tree| ==>
      partitionAt[p] == (if HasPart(tree, p) then Some(PartIndex(tree, p)) else None)
    requires |listed| == CountParts(tree, |tree|)
    requires RegionsBuilt(tree, rank, listed, v, nodes0, inNodes0, regions0)
    ensures RegionsBuilt(tree, rank, listed, v + 1, nodes, inNodes, regions)
  {
    BuiltSizes(tree, rank, listed, v, nodes0, inNodes0, regions0);
    nodes, inNodes, regions := nodes0, inNodes0, regions0;
    var parent := tree[v];
    var part := partitionAt[v].value;
    var leaf := |nodes|;
    assert part == PartIndex(tree, v) && leaf == LeafIndex(tree, v);
    nodes := nodes + [RegionNode({v})];
    inNodes := AddEdge(inNodes, part, leaf);
    if regions[v] == None {
      regions := regions[v := Some(|nodes|)];
      nodes := nodes + [RegionNode(scope)];
    } else {
      // The source would reuse an existing region here; no variable's region exists yet.
      assert false;
    }
    var region := regions[v].value;
    assert region == CompositeIndex(tree, v) == RegionIndex(tree, v);
    inNodes := AddEdge(inNodes, region, part);
    if parent != -1 {
      assert HasPart(tree, parent);
      inNodes := AddEdge(inNodes, partitionAt[parent].value, region);
    }
    assert inNodes == BranchEdges(tree, v, inNodes0);
    assert nodes == nodes0 + [RegionNode({v}), RegionNode(scope)];
    assert regions == regions0[v := Some(RegionIndex(tree, v))];
    BranchBuilt(tree, rank, listed, v, nodes0, inNodes0, regions0);
  }

  /** The third loop of `tree2rg`: the regions and all edges. */
  method AddRegions(tree: seq<int>, ghost rank: seq<nat>, partitions: seq<Option<set<nat>>>,
                    partitionAt: seq<Option<nat>>, listed: seq<Node>)
    returns (nodes: seq<Node>, inNodes: map<nat, seq<nat>>, regions: seq<Option<nat>>)
    requires WellFormed(tree, rank) && |partitions| == |tree| && |partitionAt| == |tree|
    requires forall p :: 0 <= p < |tree| ==>
      partitions[p] == (if HasPart(tree, p) then Some(Subtree(tree, rank, p)) else None)
    requires forall p :: 0 <= p < |tree| ==>
      partitionAt[p] == (if HasPart(tree, p) then Some(PartIndex(tree, p)) else None)
    requires |listed| == CountParts(tree, |tree|)
    ensures RegionsBuilt(tree, rank, listed, |tree|, nodes, inNodes, regions)
  {
    nodes, inNodes, regions := listed, map[], seq(|tree|, _ => None);
    for v := 0 to |tree|
      invariant RegionsBuilt(tree, rank, listed, v, nodes, inNodes, regions)
    {
      if partitions[v] == None {
        nodes, inNodes, regions :=
          AddLeafRegion(tree, rank, partitionAt, listed, v, nodes, inNodes, regions);
      } else {
        nodes, inNodes, regions := AddBranchRegions(tree, rank, partitions[v].value, partitionAt,
                                                    listed, v, nodes, inNodes, regions);
      }
    }
  }

  /** The closing comprehension of `tree2rg`: the regions of the roots, in variable order. */
  method CollectOutputs(tree: seq<int>, regions: seq<Option<nat>>) returns (outputs: seq<nat>)
    requires |regions| == |tree|
    requires forall v :: 0 <= v < |tree| ==> regions[v] == Some(RegionIndex(tree, v))
    ensures outputs == Outputs(tree, |tree|)
  {
    outputs := [];
    for v := 0 to |tree|
      invariant outputs == Outputs(tree, v)
    {
      if tree[v] == -1 {
        outputs := outputs + [regions[v].value];
      }
    }
  }

  /** `tree2rg`: the node list, the edge map (a node's position to its inputs' positions) and
      the output regions. */
  method TreeToRG(tree: seq<int>, ghost rank: seq<nat>)
    returns (nodes: seq<Node>, inNodes: map<nat, seq<nat>>, outputs: seq<nat>)
    requires WellFormed(tree, rank)
    ensures nodes == Nodes(tree, rank)
    ensures forall p :: 0 <= p < |tree| && HasPart(tree, p) ==>
      PartIndex(tree, p) in inNodes && inNodes[PartIndex(tree, p)] == PartInputs(tree, p, |tree|)
    ensures forall v :: 0 <= v < |tree| && HasPart(tree, v) ==>
      CompositeIndex(tree, v) in inNodes && inNodes[CompositeIndex(tree, v)] == [PartIndex(tree, v)]
    ensures forall k :: k in inNodes ==>
      k < |nodes| &&
      (k < CountParts(tree, |tree|) ||
       exists v :: 0 <= v < |tree| && HasPart(tree, v) && k == CompositeIndex(tree, v))
    ensures outputs == Outputs(tree, |tree|)
  {
    var partitions := AccumulatePartitions(tree, rank);
    var listed, partitionAt := ListPartitions(tree, rank, partitions);
    var regions;
    nodes, inNodes, regions := AddRegions(tree, rank, partitions, partitionAt, listed);
    outputs := CollectOutputs(tree, regions);
    forall p | 0 <= p < |tree| && HasPart(tree, p)
      ensures PartIndex(tree, p) in inNodes
    {
      assert InputsOf(inNodes, PartIndex(tree, p)) != [];
    }
  }

  // ---------------------------------------------------------------------------------------
  // Properties of the region graph

  lemma {:induction false} PartitionNodesAt(tree: seq<int>, rank: seq<nat>, m: nat, p: nat)
    requires WellFormed(tree, rank) && p < m <= |tree| && HasPart(tree, p)
    ensures PartIndex(tree, p) < |PartitionNodes(tree, rank, m)|
    ensures PartitionNodes(tree, rank, m)[PartIndex(tree, p)] == PartitionNode(Subtree(tree, rank, p))
    decreases m
  {
    if p < m - 1 {
      PartitionNodesAt(tree, rank, m - 1, p);
    }
  }

  lemma {:induction false} RegionNodesAt(tree: seq<int>, rank: seq<nat>, m: nat, v: nat)
    requires WellFormed(tree, rank) && v < m <= |tree|
    ensures v + CountParts(tree, v) < |RegionNodes(tree, rank, m)|
    ensures RegionNodes(tree, rank, m)[v + CountParts(tree, v)] == RegionNode({v})
    ensures HasPart(tree, v) ==>
      v + CountParts(tree, v) + 1 < |RegionNodes(tree, rank, m)| &&
      RegionNodes(tree, rank, m)[v + CountParts(tree, v) + 1] == RegionNode(Subtree(tree, rank, v))
    decreases m
  {
    if v < m - 1 {
      RegionNodesAt(tree, rank, m - 1, v);
    }
  }

  /** The node list holds the partitions first, each at its partition position with the
      subtree of its variable as scope, then for each variable its leaf region `{v}` and, if
      it has a partition, its composite region over the same subtree. */
  lemma NodesLayout(tree: seq<int>, rank: seq<nat>)
    requires WellFormed(tree, rank)
    ensures var nodes, parts := Nodes(tree, rank), CountParts(tree, |tree|);
      |nodes| == 2 * parts + |tree| &&
      (forall k :: 0 <= k < |nodes| ==> (nodes[k].PartitionNode? <==> k < parts)) &&
      (forall p :: 0 <= p < |tree| && HasPart(tree, p) ==>
        PartIndex(tree, p) < parts &&
        nodes[PartIndex(tree, p)] == PartitionNode(Subtree(tree, rank, p))) &&
      (forall v :: 0 <= v < |tree| ==>
        LeafIndex(tree, v) < |nodes| && nodes[LeafIndex(tree, v)] == RegionNode({v})) &&
      (forall v :: 0 <= v < |tree| && HasPart(tree, v) ==>
        CompositeIndex(tree, v) < |nodes| &&
        nodes[CompositeIndex(tree, v)] == RegionNode(Subtree(tree, rank, v)))
  {
    var nodes, parts := Nodes(tree, rank), CountParts(tree, |tree|);
    var pn, rn := PartitionNodes(tree, rank, |tree|), RegionNodes(tree, rank, |tree|);
    forall k | 0 <= k < |nodes|
      ensures nodes[k].PartitionNode? <==> k < parts
    {
      if k >= parts {
        assert nodes[k] == rn[k - parts];
      }
    }
    forall p | 0 <= p < |tree| && HasPart(tree, p)
      ensures PartIndex(tree, p) < parts
      ensures nodes[PartIndex(tree, p)] == PartitionNode(Subtree(tree, rank, p))
    {
      PartitionNodesAt(tree, rank, |tree|, p);
    }
    forall v | 0 <= v < |tree|
      ensures LeafIndex(tree, v) < |nodes| && nodes[LeafIndex(tree, v)] == RegionNode({v})
      ensures HasPart(tree, v) ==>
        CompositeIndex(tree, v) < |nodes| &&
        nodes[CompositeIndex(tree, v)] == RegionNode(Subtree(tree, rank, v))
    {
      RegionNodesAt(tree, rank, |tree|, v);
      assert nodes[LeafIndex(tree, v)] == rn[v + CountParts(tree, v)];
      if HasPart(tree, v) {
        assert nodes[CompositeIndex(tree, v)] == rn[v + CountParts(tree, v) + 1];
      }
    }
  }

  /** A variable without children is its own whole subtree. */
  lemma ChildlessSubtree(tree: seq<int>, rank: seq<nat>, u: nat)
    requires WellFormed(tree, rank) && u < |tree| && !HasPart(tree, u)
    ensures Subtree(tree, rank, u) == {u}
  {
    forall w | w in Subtree(tree, rank, u) ensures w == u {
      if w != u {
        var c := ChildOnPath(tree, rank, w, u);
      }
    }
  }

  /** The region standing for `v` covers exactly the subtree of `v`. */
  lemma RegionScope(tree: seq<int>, rank: seq<nat>, v: nat)
    requires WellFormed(tree, rank) && v < |tree|
    ensures RegionIndex(tree, v) < |Nodes(tree, rank)|
    ensures Nodes(tree, rank)[RegionIndex(tree, v)] == RegionNode(Subtree(tree, rank, v))
  {
    NodesLayout(tree, rank);
    if !HasPart(tree, v) {
      ChildlessSubtree(tree, rank, v);
    }
  }

  /** A parent is not in its child's subtree. */
  lemma ParentOutsideChild(tree: seq<int>, rank: seq<nat>, u: nat)
    requires WellFormed(tree, rank) && u < |tree| && tree[u] != -1
    ensures tree[u] !in Subtree(tree, rank, u)
  {
    if tree[u] in Subtree(tree, rank, u) {
      UpRank(tree, rank, tree[u], u);
    }
  }

  /** Two distinct children of the same parent have disjoint subtrees. */
  lemma SiblingsDisjoint(tree: seq<int>, rank: seq<nat>, u1: nat, u2: nat)
    requires WellFormed(tree, rank) && u1 < |tree| && u2 < |tree| && u1 != u2
    requires tree[u1] != -1 && tree[u1] == tree[u2]
    ensures Subtree(tree, rank, u1) !! Subtree(tree, rank, u2)
  {
    forall w | w in Subtree(tree, rank, u1) && w in Subtree(tree, rank, u2)
      ensures false
    {
      UpChain(tree, rank, w, u1, u2);
      if u1 in Up(tree, rank, u2) {
        UpRank(tree, rank, tree[u2], u1);
      } else {
        UpRank(tree, rank, tree[u1], u2);
      }
    }
  }

  /** A subtree is its root plus the subtrees of the root's children. */
  lemma SubtreeByChildren(tree: seq<int>, rank: seq<nat>, p: nat, w: nat)
    requires WellFormed(tree, rank) && p < |tree|
    ensures w in Subtree(tree, rank, p) <==>
      w == p || exists u :: 0 <= u < |tree| && tree[u] == p && w in Subtree(tree, rank, u)
  {
    if w in Subtree(tree, rank, p) && w != p {
      var u := ChildOnPath(tree, rank, w, p);
      assert w in Subtree(tree, rank, u);
    }
    if exists u :: 0 <= u < |tree| && tree[u] == p && w in Subtree(tree, rank, u) {
      var u :| 0 <= u < |tree| && tree[u] == p && w in Subtree(tree, rank, u);
      UpClosed(tree, rank, w, u);
    }
  }

  /** The sources of a partition are increasing and are `p` and the children of `p`. */
  lemma {:induction false} SourcesMembers(tree: seq<int>, p: nat, m: nat)
    requires m <= |tree|
    ensures var src := Sources(tree, p, m);
      (forall i, j :: 0 <= i < j < |src| ==> src[i] < src[j]) &&
      (forall u: nat :: u in src <==> u < m && (u == p || tree[u] == p))
    decreases m
  {
    if m > 0 {
      SourcesMembers(tree, p, m - 1);
    }
  }

  /** Partition inputs are, source by source, `p`'s leaf or a child's standing region. */
  lemma {:induction false} InputsFromSources(tree: seq<int>, p: nat, m: nat)
    requires p < |tree| && m <= |tree|
    ensures |PartInputs(tree, p, m)| == |Sources(tree, p, m)|
    ensures forall i :: 0 <= i < |PartInputs(tree, p, m)| ==>
      var u := Sources(tree, p, m)[i];
      PartInputs(tree, p, m)[i] == (if u == p then LeafIndex(tree, p) else RegionIndex(tree, u))
    decreases m
  {
    if m > 0 {
      InputsFromSources(tree, p, m - 1);
    }
  }

  /** The scope covered by source `u` of `p`'s partition. */
  ghost function SourceScope(tree: seq<int>, rank: seq<nat>, p: nat, u: nat): set<nat>
    requires WellFormed(tree, rank)
  {
    if u == p then {p} else Subtree(tree, rank, u)
  }

  /** Each input of `p`'s partition is the region covering the scope of its source. */
  lemma InputScopes(tree: seq<int>, rank: seq<nat>, p: nat)
    requires WellFormed(tree, rank) && p < |tree|
    ensures var nodes, ins, src := Nodes(tree, rank), PartInputs(tree, p, |tree|), Sources(tree, p, |tree|);
      |ins| == |src| &&
      forall i :: 0 <= i < |ins| ==>
        ins[i] < |nodes| && nodes[ins[i]] == RegionNode(SourceScope(tree, rank, p, src[i]))
  {
    var nodes, ins, src := Nodes(tree, rank), PartInputs(tree, p, |tree|), Sources(tree, p, |tree|);
    NodesLayout(tree, rank);
    InputsFromSources(tree, p, |tree|);
    forall i | 0 <= i < |ins|
      ensures ins[i] < |nodes| && nodes[ins[i]] == RegionNode(SourceScope(tree, rank, p, src[i]))
    {
      if src[i] != p {
        RegionScope(tree, rank, src[i]);
      }
    }
  }

  /** The scopes of distinct sources of a partition are disjoint. */
  lemma SourceScopesDisjoint(tree: seq<int>, rank: seq<nat>, p: nat)
    requires WellFormed(tree, rank) && p < |tree|
    ensures var src := Sources(tree, p, |tree|);
      forall i, j :: 0 <= i < j < |src| ==>
        SourceScope(tree, rank, p, src[i]) !! SourceScope(tree, rank, p, src[j])
  {
    var src := Sources(tree, p, |tree|);
    SourcesMembers(tree, p, |tree|);
    forall i, j | 0 <= i < j < |src|
      ensures SourceScope(tree, rank, p, src[i]) !! SourceScope(tree, rank, p, src[j])
    {
      var a, b := src[i], src[j];
      assert a in src && b in src;
      if a == p {
        ParentOutsideChild(tree, rank, b);
      } else if b == p {
        ParentOutsideChild(tree, rank, a);
      } else {
        SiblingsDisjoint(tree, rank, a, b);
      }
    }
  }

  /** The scopes of the sources of a partition make up the subtree of its variable. */
  lemma SourceScopesCover(tree: seq<int>, rank: seq<nat>, p: nat)
    requires WellFormed(tree, rank) && p < |tree|
    ensures var src := Sources(tree, p, |tree|);
      forall w :: w in Subtree(tree, rank, p) <==>
        exists i :: 0 <= i < |src| && w in SourceScope(tree, rank, p, src[i])
  {
    var src := Sources(tree, p, |tree|);
    SourcesMembers(tree, p, |tree|);
    forall w
      ensures w in Subtree(tree, rank, p) <==>
        exists i :: 0 <= i < |src| && w in SourceScope(tree, rank, p, src[i])
    {
      if w >= 0 {
        SubtreeByChildren(tree, rank, p, w);
      }
      if w in Subtree(tree, rank, p) {
        var u := if w == p then p
                 else var c :| 0 <= c < |tree| && tree[c] == p && w in Subtree(tree, rank, c); c;
        assert u in src;
        var i :| 0 <= i < |src| && src[i] == u;
        assert w in SourceScope(tree, rank, p, src[i]);
      }
    }
  }

  /** The inputs of every partition are regions whose scopes are pairwise disjoint and
      together make up the partition's scope. */
  lemma PartitionInputsSplitScope(tree: seq<int>, rank: seq<nat>, p: nat)
    requires WellFormed(tree, rank) && p < |tree| && HasPart(tree, p)
    ensures forall i :: 0 <= i < |PartInputs(tree, p, |tree|)| ==>
      PartInputs(tree, p, |tree|)[i] < |Nodes(tree, rank)| &&
      Nodes(tree, rank)[PartInputs(tree, p, |tree|)[i]].RegionNode?
    ensures PartIndex(tree, p) < |Nodes(tree, rank)|
    ensures var nodes, ins := Nodes(tree, rank), PartInputs(tree, p, |tree|);
      forall i, j :: 0 <= i < j < |ins| ==> nodes[ins[i]].scope !! nodes[ins[j]].scope
    ensures var nodes, ins := Nodes(tree, rank), PartInputs(tree, p, |tree|);
      forall w :: w in nodes[PartIndex(tree, p)].scope <==>
        exists i :: 0 <= i < |ins| && w in nodes[ins[i]].scope
  {
    var nodes, ins, src := Nodes(tree, rank), PartInputs(tree, p, |tree|), Sources(tree, p, |tree|);
    NodesLayout(tree, rank);
    InputScopes(tree, rank, p);
    SourceScopesDisjoint(tree, rank, p);
    SourceScopesCover(tree, rank, p);
    forall w
      ensures w in nodes[PartIndex(tree, p)].scope <==>
        exists i :: 0 <= i < |ins| && w in nodes[ins[i]].scope
    {
      if exists i :: 0 <= i < |ins| && w in nodes[ins[i]].scope {
        var i :| 0 <= i < |ins| && w in nodes[ins[i]].scope;
        assert w in SourceScope(tree, rank, p, src[i]);
      }
      if exists i :: 0 <= i < |src| && w in SourceScope(tree, rank, p, src[i]) {
        var i :| 0 <= i < |src| && w in SourceScope(tree, rank, p, src[i]);
        assert w in nodes[ins[i]].scope;
      }
    }
  }

  /** Every partition node belongs to a variable with a partition. */
  lemma {:induction false} PartitionOwner(tree: seq<int>, rank: seq<nat>, m: nat, k: nat)
    returns (p: nat)
    requires WellFormed(tree, rank) && m <= |tree| && k < CountParts(tree, m)
    ensures p < m && HasPart(tree, p) && PartIndex(tree, p) == k
    decreases m
  {
    if k < CountParts(tree, m - 1) {
      p := PartitionOwner(tree, rank, m - 1, k);
    } else {
      p := m - 1;
    }
  }

  /** A composite region has the scope of the partition that is its single input. */
  lemma CompositeMirrorsPartition(tree: seq<int>, rank: seq<nat>, v: nat)
    requires WellFormed(tree, rank) && v < |tree| && HasPart(tree, v)
    ensures CompositeIndex(tree, v) < |Nodes(tree, rank)| && PartIndex(tree, v) < |Nodes(tree, rank)|
    ensures Nodes(tree, rank)[CompositeIndex(tree, v)].RegionNode?
    ensures Nodes(tree, rank)[PartIndex(tree, v)].PartitionNode?
    ensures Nodes(tree, rank)[CompositeIndex(tree, v)].scope ==
      Nodes(tree, rank)[PartIndex(tree, v)].scope
  {
    NodesLayout(tree, rank);
  }

  lemma {:induction false} OutputsMembers(tree: seq<int>, m: nat)
    requires m <= |tree|
    ensures forall x :: x in Outputs(tree, m) <==>
      exists v :: 0 <= v < m && tree[v] == -1 && x == RegionIndex(tree, v)
    decreases m
  {
    if m > 0 {
      OutputsMembers(tree, m - 1);
    }
  }

  /** The outputs are the regions standing for the roots, each covering its root's
      subtree; a root without children is output through its leaf region. */
  lemma OutputsAreRootRegions(tree: seq<int>, rank: seq<nat>)
    requires WellFormed(tree, rank)
    ensures forall x :: x in Outputs(tree, |tree|) <==>
      exists v :: 0 <= v < |tree| && tree[v] == -1 && x == RegionIndex(tree, v)
    ensures forall v :: 0 <= v < |tree| && tree[v] == -1 ==>
      RegionIndex(tree, v) < |Nodes(tree, rank)| &&
      Nodes(tree, rank)[RegionIndex(tree, v)] == RegionNode(Subtree(tree, rank, v))
    ensures forall v :: 0 <= v < |tree| && tree[v] == -1 && !HasPart(tree, v) ==>
      RegionIndex(tree, v) == LeafIndex(tree, v) &&
      Nodes(tree, rank)[LeafIndex(tree, v)] == RegionNode({v})
  {
    OutputsMembers(tree, |tree|);
    NodesLayout(tree, rank);
    forall v | 0 <= v < |tree| && tree[v] == -1
      ensures RegionIndex(tree, v) < |Nodes(tree, rank)| &&
        Nodes(tree, rank)[RegionIndex(tree, v)] == RegionNode(Subtree(tree, rank, v))
    {
      RegionScope(tree, rank, v);
    }
  }

  /** The root above `w`. */
  ghost function Root(tree: seq<int>, rank: seq<nat>, w: nat): (r: nat)
    requires WellFormed(tree, rank) && w < |tree|
    ensures r < |tree| && tree[r] == -1 && r in Up(tree, rank, w)
    decreases rank[w]
  {
    if tree[w] == -1 then w else Root(tree, rank, tree[w])
  }

  /** The subtrees of the roots split the variables: each variable lies under exactly one
      root, so the output regions' scopes are disjoint and cover every variable. */
  lemma RootSubtreesSplitVariables(tree: seq<int>, rank: seq<nat>)
    requires WellFormed(tree, rank)
    ensures forall w: nat :: w < |tree| ==> w in Subtree(tree, rank, Root(tree, rank, w))
    ensures forall r1, r2 :: 0 <= r1 < r2 < |tree| && tree[r1] == -1 && tree[r2] == -1 ==>
      Subtree(tree, rank, r1) !! Subtree(tree, rank, r2)
  {
    forall r1, r2, w | 0 <= r1 < r2 < |tree| && tree[r1] == -1 && tree[r2] == -1 &&
                       w in Subtree(tree, rank, r1) && w in Subtree(tree, rank, r2)
      ensures false
    {
      UpChain(tree, rank, w, r1, r2);
    }
  }

  /** A single variable: one leaf region, no partition, no edge; the leaf is the output. */
  lemma SingleVariable()
    ensures WellFormed([-1], [0])
    ensures Nodes([-1], [0]) == [RegionNode({0})]
    ensures Outputs([-1], 1) == [0]
  {
    assert !HasPart([-1], 0);
  }

  /** A chain `0 <- 1 <- 2`: partitions for 0 and 1, each fed by its own leaf and by the
      region of its child; the composite region of the root is the only output. */
  lemma ChainOfThree()
    ensures WellFormed([-1, 0, 1], [0, 1, 2])
    ensures Nodes([-1, 0, 1], [0, 1, 2]) ==
      [PartitionNode({0, 1, 2}), PartitionNode({1, 2}),
       RegionNode({0}), RegionNode({0, 1, 2}), RegionNode({1}), RegionNode({1, 2}),
       RegionNode({2})]
    ensures PartInputs([-1, 0, 1], 0, 3) == [2, 5]
    ensures PartInputs([-1, 0, 1], 1, 3) == [4, 6]
    ensures Outputs([-1, 0, 1], 3) == [3]
  {
    var tree, rank := [-1, 0, 1], [0, 1, 2];
    assert HasPart(tree, 0) && HasPart(tree, 1) && !HasPart(tree, 2) by {
      assert tree[1] == 0 && tree[2] == 1;
    }
    assert Up(tree, rank, 0) == {0};
    assert Up(tree, rank, 1) == {1, 0};
    assert Up(tree, rank, 2) == {2, 1, 0};
    assert Subtree(tree, rank, 0) == {0, 1, 2};
    assert Subtree(tree, rank, 1) == {1, 2};
    assert PartitionNodes(tree, rank, 2) == [PartitionNode({0, 1, 2}), PartitionNode({1, 2})];
    assert PartitionNodes(tree, rank, 3) == PartitionNodes(tree, rank, 2);
    assert RegionNodes(tree, rank, 1) == [RegionNode({0}), RegionNode({0, 1, 2})];
    assert RegionNodes(tree, rank, 2) == RegionNodes(tree, rank, 1) + [RegionNode({1}), RegionNode({1, 2})];
    assert RegionNodes(tree, rank, 3) == RegionNodes(tree, rank, 2) + [RegionNode({2})];
  }
}
