/** `HypercubeToScope`: maps a half-open box of coordinates over an array shape to the set
    of row-major (C-order) linear indices of the cells inside the box.

    The numpy array `arange(prod(shape)).reshape(shape)` is replaced by index arithmetic:
    the cell at coordinates `c` holds `LinearIndex(shape, c)`, and `Unravel` is its inverse. */
module Hypercubes {
  import opened Wrappers

  /** A box given by its "top-left" and "bottom-right" cut points. */
  datatype HyperCube = HyperCube(point1: seq<int>, point2: seq<int>)

  /** The two `ValueError`s of the lookup. */
  datatype ScopeError =
    | DimensionMismatch  // "The dimension of the HyperCube is not correct"
    | EmptyHyperCube     // "The HyperCube is empty"

  /** The number of cells of an array of the given shape. */
  function Prod(shape: seq<nat>): nat {
    if shape == [] then 1 else shape[0] * Prod(shape[1..])
  }

  /** The row-major linear index of the cell at coordinates `c`. */
  function LinearIndex(shape: seq<nat>, c: seq<int>): int
    requires |c| == |shape|
  {
    if c == [] then 0 else c[0] * Prod(shape[1..]) + LinearIndex(shape[1..], c[1..])
  }

  /** The coordinates of the cell with row-major linear index `i`. */
  function Unravel(shape: seq<nat>, i: nat): (c: seq<nat>)
    requires i < Prod(shape)
    ensures |c| == |shape|
  {
    if shape == [] then []
    else
      var p := Prod(shape[1..]);
      assert p > 0;
      QuotientBelow(i, shape[0], p);
      [i / p] + Unravel(shape[1..], i % p)
  }

  /** `c` lies in the half-open box from `p1` to `p2`. */
  predicate InBox(c: seq<int>, p1: seq<int>, p2: seq<int>)
    requires |c| == |p1| == |p2|
  {
    forall d :: 0 <= d < |c| ==> p1[d] <= c[d] < p2[d]
  }

  /** Both corners have one coordinate per dimension. */
  predicate DimsMatch(shape: seq<nat>, key: HyperCube) {
    |key.point1| == |key.point2| == |shape|
  }

  /** `0 <= x1 < x2 <= size` in every dimension: a non-empty box inside the array. */
  predicate NonEmptyBox(shape: seq<nat>, p1: seq<int>, p2: seq<int>)
    requires |p1| == |p2| == |shape|
  {
    forall d :: 0 <= d < |shape| ==> 0 <= p1[d] < p2[d] <= shape[d]
  }

  /** The number of cells of the box. */
  function Volume(p1: seq<int>, p2: seq<int>): int
    requires |p1| == |p2|
  {
    if p1 == [] then 1 else (p2[0] - p1[0]) * Volume(p1[1..], p2[1..])
  }

  /** Adds `k` to every element of `s`. */
  function Shift(k: nat, s: seq<nat>): (r: seq<nat>)
    ensures |r| == |s| && forall j :: 0 <= j < |s| ==> r[j] == k + s[j]
  {
    seq(|s|, j requires 0 <= j < |s| => k + s[j])
  }

  /** The rows `c` for `lo <= c < hi` of a block: row `c` is `block` shifted by `c * p`. */
  function Rows(block: seq<nat>, p: nat, lo: nat, hi: nat): seq<nat>
    decreases hi - lo
  {
    if lo >= hi then [] else Shift(lo * p, block) + Rows(block, p, lo + 1, hi)
  }

  /** The linear indices of the box, in the order numpy's flattening of the slice yields. */
  function BoxIndices(shape: seq<nat>, p1: seq<int>, p2: seq<int>): seq<nat>
    requires |p1| == |p2| == |shape| && NonEmptyBox(shape, p1, p2)
  {
    if shape == [] then [0]
    else Rows(BoxIndices(shape[1..], p1[1..], p2[1..]), Prod(shape[1..]), p1[0], p2[0])
  }

  /** `__missing__`: the scope of a hypercube key, or the `ValueError` it raises. */
  function Missing(shape: seq<nat>, key: HyperCube): (r: Result<set<nat>, ScopeError>)
    ensures r == Err(DimensionMismatch) <==> !DimsMatch(shape, key)
    ensures r == Err(EmptyHyperCube) <==>
      DimsMatch(shape, key) && !NonEmptyBox(shape, key.point1, key.point2)
    ensures r.Ok? ==> DimsMatch(shape, key) && NonEmptyBox(shape, key.point1, key.point2)
    ensures r.Ok? ==> forall i: nat :: i in r.value <==>
      i < Prod(shape) && InBox(Unravel(shape, i), key.point1, key.point2)
    ensures r.Ok? ==> |r.value| == Volume(key.point1, key.point2)
  {
    if !DimsMatch(shape, key) then Err(DimensionMismatch)
    else if !NonEmptyBox(shape, key.point1, key.point2) then Err(EmptyHyperCube)
    else
      BoxScope(shape, key.point1, key.point2);
      Ok(CellSet(BoxIndices(shape, key.point1, key.point2)))
  }

  /** The indices of a sequence of cells, as a set. */
  function CellSet(cells: seq<nat>): set<nat> {
    set i | i in cells
  }

  /** The scope of a valid box: its members are the cells whose coordinates lie in the box,
      and it has as many members as the box has cells. */
  lemma BoxScope(shape: seq<nat>, p1: seq<int>, p2: seq<int>)
    requires |p1| == |p2| == |shape| && NonEmptyBox(shape, p1, p2)
    ensures forall i: nat :: i in CellSet(BoxIndices(shape, p1, p2)) <==>
      i < Prod(shape) && InBox(Unravel(shape, i), p1, p2)
    ensures |CellSet(BoxIndices(shape, p1, p2))| == Volume(p1, p2)
  {
    var cells := BoxIndices(shape, p1, p2);
    BoxIndicesMembers(shape, p1, p2);
    BoxIndicesIncreasing(shape, p1, p2);
    BoxIndicesLength(shape, p1, p2);
    IncreasingCard(cells);
  }

  // ---------------------------------------------------------------- arithmetic

  lemma MulAtLeast(k: int, p: int)
    requires k >= 1 && p > 0
    ensures k * p >= p
  {
  }

  /** Division by `p` undoes `c * p + b` for `0 <= b < p`. */
  lemma DivModOf(c: int, p: int, b: int)
    requires p > 0 && 0 <= b < p
    ensures (c * p + b) / p == c && (c * p + b) % p == b
  {
    var q, r := (c * p + b) / p, (c * p + b) % p;
    assert q * p + r == c * p + b;
    assert (c - q) * p == r - b;
    if c - q >= 1 {
      MulAtLeast(c - q, p);
    } else if q - c >= 1 {
      MulAtLeast(q - c, p);
    }
  }

  /** A non-negative `i` is below `n * p` exactly when its quotient by `p` is below `n`. */
  lemma QuotientBelow(i: nat, n: nat, p: nat)
    requires p > 0
    ensures i < n * p <==> i / p < n
  {
    var q, r := i / p, i % p;
    assert i == q * p + r;
    if q < n {
      MulAtLeast(n - q, p);
      assert n * p == q * p + (n - q) * p;
    } else {
      assert q * p - n * p == (q - n) * p;
      if q > n { MulAtLeast(q - n, p); }
    }
  }

  lemma RowBounds(c: nat, hi: nat, p: nat, b: nat)
    requires c < hi && b < p
    ensures c * p + b < hi * p
  {
    MulAtLeast(hi - c, p);
    assert hi * p == c * p + (hi - c) * p;
  }

  lemma MulMonotone(a: nat, b: nat, p: nat)
    requires a <= b
    ensures a * p <= b * p
  {
    if a < b { assert b * p == a * p + (b - a) * p; }
  }

  // ---------------------------------------------------------------- Rows

  /** Strictly increasing. */
  predicate Increasing(s: seq<nat>) {
    forall i, j :: 0 <= i < j < |s| ==> s[i] < s[j]
  }

  lemma {:induction false} RowsLength(block: seq<nat>, p: nat, lo: nat, hi: nat)
    requires lo <= hi
    ensures |Rows(block, p, lo, hi)| == (hi - lo) * |block|
    decreases hi - lo
  {
    if lo < hi {
      RowsLength(block, p, lo + 1, hi);
      assert (hi - lo) * |block| == |block| + (hi - (lo + 1)) * |block|;
    }
  }

  /** Every element of a block shifted to row `lo` lies in that row. */
  lemma ShiftInRow(block: seq<nat>, p: nat, lo: nat)
    requires forall b :: b in block ==> b < p
    ensures forall j :: 0 <= j < |block| ==>
      lo * p <= Shift(lo * p, block)[j] < (lo + 1) * p
  {
    assert lo * p + p == (lo + 1) * p;
    forall j | 0 <= j < |block| ensures lo * p <= Shift(lo * p, block)[j] < (lo + 1) * p {
      assert block[j] in block;
    }
  }

  lemma {:induction false} RowsIncreasing(block: seq<nat>, p: nat, lo: nat, hi: nat)
    requires Increasing(block) && forall b :: b in block ==> b < p
    ensures Increasing(Rows(block, p, lo, hi))
    ensures forall k :: 0 <= k < |Rows(block, p, lo, hi)| ==>
      lo * p <= Rows(block, p, lo, hi)[k] < hi * p
    decreases hi - lo
  {
    if lo < hi {
      var head, tail := Shift(lo * p, block), Rows(block, p, lo + 1, hi);
      var rows := head + tail;
      assert Rows(block, p, lo, hi) == rows;
      RowsIncreasing(block, p, lo + 1, hi);
      ShiftInRow(block, p, lo);
      MulMonotone(lo, lo + 1, p);
      MulMonotone(lo + 1, hi, p);
      forall k | 0 <= k < |rows| ensures lo * p <= rows[k] < hi * p {
        if k >= |head| { assert rows[k] == tail[k - |head|]; }
      }
      forall i, j | 0 <= i < j < |rows| ensures rows[i] < rows[j] {
        if j >= |head| {
          assert rows[j] == tail[j - |head|];
          if i >= |head| { assert rows[i] == tail[i - |head|]; }
        }
      }
    }
  }

  lemma {:induction false} RowsMembers(block: seq<nat>, p: nat, lo: nat, hi: nat)
    requires p > 0 && forall b :: b in block ==> b < p
    ensures forall e: nat :: e in Rows(block, p, lo, hi) <==> lo <= e / p < hi && e % p in block
    decreases hi - lo
  {
    if lo < hi {
      var head, tail := Shift(lo * p, block), Rows(block, p, lo + 1, hi);
      assert Rows(block, p, lo, hi) == head + tail;
      RowsMembers(block, p, lo + 1, hi);
      forall e: nat ensures e in head <==> e / p == lo && e % p in block {
        if e in head {
          var j :| 0 <= j < |head| && head[j] == e;
          assert block[j] in block;
          DivModOf(lo, p, block[j]);
        }
      }
    }
  }

  // ---------------------------------------------------------------- the box

  lemma {:induction false} ProdPositive(shape: seq<nat>, p1: seq<int>, p2: seq<int>)
    requires |p1| == |p2| == |shape| && NonEmptyBox(shape, p1, p2)
    ensures Prod(shape) > 0
  {
    if shape != [] {
      ProdPositive(shape[1..], p1[1..], p2[1..]);
      MulAtLeast(shape[0], Prod(shape[1..]));
    }
  }

  lemma {:induction false} BoxIndicesIncreasing(shape: seq<nat>, p1: seq<int>, p2: seq<int>)
    requires |p1| == |p2| == |shape| && NonEmptyBox(shape, p1, p2)
    ensures Increasing(BoxIndices(shape, p1, p2))
    ensures forall e :: e in BoxIndices(shape, p1, p2) ==> e < Prod(shape)
  {
    if shape != [] {
      var tail := BoxIndices(shape[1..], p1[1..], p2[1..]);
      BoxIndicesIncreasing(shape[1..], p1[1..], p2[1..]);
      RowsIncreasing(tail, Prod(shape[1..]), p1[0], p2[0]);
      MulMonotone(p2[0], shape[0], Prod(shape[1..]));
      var rows := BoxIndices(shape, p1, p2);
      forall e | e in rows ensures e < Prod(shape) {
        var k :| 0 <= k < |rows| && rows[k] == e;
      }
    }
  }

  lemma {:induction false} BoxIndicesLength(shape: seq<nat>, p1: seq<int>, p2: seq<int>)
    requires |p1| == |p2| == |shape| && NonEmptyBox(shape, p1, p2)
    ensures |BoxIndices(shape, p1, p2)| == Volume(p1, p2)
  {
    if shape != [] {
      BoxIndicesLength(shape[1..], p1[1..], p2[1..]);
      BoxIndicesIncreasing(shape[1..], p1[1..], p2[1..]);
      RowsLength(BoxIndices(shape[1..], p1[1..], p2[1..]), Prod(shape[1..]), p1[0], p2[0]);
    }
  }

  /** A cell index belongs to the box exactly when its coordinates lie in the box. */
  lemma {:induction false} BoxIndicesMembers(shape: seq<nat>, p1: seq<int>, p2: seq<int>)
    requires |p1| == |p2| == |shape| && NonEmptyBox(shape, p1, p2)
    ensures forall i: nat :: i in BoxIndices(shape, p1, p2) <==>
      i < Prod(shape) && InBox(Unravel(shape, i), p1, p2)
  {
    if shape != [] {
      var p := Prod(shape[1..]);
      var tail := BoxIndices(shape[1..], p1[1..], p2[1..]);
      BoxIndicesMembers(shape[1..], p1[1..], p2[1..]);
      BoxIndicesIncreasing(shape[1..], p1[1..], p2[1..]);
      ProdPositive(shape[1..], p1[1..], p2[1..]);
      RowsMembers(tail, p, p1[0], p2[0]);
      forall i: nat
        ensures i in BoxIndices(shape, p1, p2) <==>
          i < Prod(shape) && InBox(Unravel(shape, i), p1, p2)
      {
        QuotientBelow(i, shape[0], p);
        if i < Prod(shape) {
          var c := Unravel(shape, i);
          assert c == [i / p] + Unravel(shape[1..], i % p);
          assert c[1..] == Unravel(shape[1..], i % p);
          assert InBox(c, p1, p2) <==>
            p1[0] <= c[0] < p2[0] && InBox(c[1..], p1[1..], p2[1..]) by {
            if p1[0] <= c[0] < p2[0] && InBox(c[1..], p1[1..], p2[1..]) {
              forall d | 0 <= d < |c| ensures p1[d] <= c[d] < p2[d] {
                if d > 0 { assert c[1..][d - 1] == c[d]; }
              }
            }
          }
        }
      }
    }
  }

  /** A strictly increasing sequence has as many distinct elements as entries. */
  lemma {:induction false} IncreasingCard(s: seq<nat>)
    requires Increasing(s)
    ensures |CellSet(s)| == |s|
  {
    if s != [] {
      var init, last := s[..|s| - 1], s[|s| - 1];
      assert Increasing(init) by {
        forall i, j | 0 <= i < j < |init| ensures init[i] < init[j] {
          assert init[i] == s[i] && init[j] == s[j];
        }
      }
      IncreasingCard(init);
      forall k | 0 <= k < |init| ensures init[k] != last {
        assert init[k] == s[k];
      }
      assert s == init + [last];
      assert CellSet(s) == CellSet(init) + {last};
    }
  }

  /** Row-major indexing and `Unravel` are inverse to each other. */
  lemma {:induction false} UnravelRoundTrip(shape: seq<nat>, i: nat)
    requires i < Prod(shape)
    ensures LinearIndex(shape, Unravel(shape, i)) == i
  {
    if shape != [] {
      var p := Prod(shape[1..]);
      var c := Unravel(shape, i);
      assert c[1..] == Unravel(shape[1..], i % p);
      UnravelRoundTrip(shape[1..], i % p);
    }
  }

  /** Coordinates of a cell of an array of the given shape. */
  predicate InGrid(shape: seq<nat>, c: seq<int>) {
    |c| == |shape| && forall d :: 0 <= d < |c| ==> 0 <= c[d] < shape[d]
  }

  /** `Unravel` yields the coordinates of a cell inside the array. */
  lemma {:induction false} UnravelInGrid(shape: seq<nat>, i: nat)
    requires i < Prod(shape)
    ensures InGrid(shape, Unravel(shape, i))
  {
    if shape != [] {
      var p := Prod(shape[1..]);
      QuotientBelow(i, shape[0], p);
      var c, rest := Unravel(shape, i), Unravel(shape[1..], i % p);
      assert c == [i / p] + rest;
      UnravelInGrid(shape[1..], i % p);
      forall d | 0 < d < |c| ensures c[d] < shape[d] {
        assert c[d] == rest[d - 1] && shape[d] == shape[1..][d - 1];
      }
    }
  }

  /** The row-major index of a cell lies below the number of cells. */
  lemma {:induction false} LinearIndexBelow(shape: seq<nat>, c: seq<int>)
    requires InGrid(shape, c)
    ensures 0 <= LinearIndex(shape, c) < Prod(shape)
  {
    if c != [] {
      assert InGrid(shape[1..], c[1..]) by {
        forall d | 0 <= d < |c[1..]| ensures 0 <= c[1..][d] < shape[1..][d] {
          assert c[1..][d] == c[d + 1] && shape[1..][d] == shape[d + 1];
        }
      }
      LinearIndexBelow(shape[1..], c[1..]);
      RowBounds(c[0], shape[0], Prod(shape[1..]), LinearIndex(shape[1..], c[1..]));
    }
  }

  /** Every cell's coordinates are recovered from its row-major index, so within the grid
      `LinearIndex` and `Unravel` are a bijection between cells and `[0, Prod(shape))`. */
  lemma {:induction false} LinearIndexRoundTrip(shape: seq<nat>, c: seq<int>)
    requires InGrid(shape, c)
    ensures 0 <= LinearIndex(shape, c) < Prod(shape)
    ensures Unravel(shape, LinearIndex(shape, c)) == c
  {
    LinearIndexBelow(shape, c);
    if c != [] {
      var p, tail := Prod(shape[1..]), c[1..];
      assert InGrid(shape[1..], tail) by {
        forall d | 0 <= d < |tail| ensures 0 <= tail[d] < shape[1..][d] {
          assert tail[d] == c[d + 1] && shape[1..][d] == shape[d + 1];
        }
      }
      LinearIndexRoundTrip(shape[1..], tail);
      var l := LinearIndex(shape[1..], tail);
      DivModOf(c[0], p, l);
      assert Unravel(shape, LinearIndex(shape, c)) == [c[0]] + Unravel(shape[1..], l);
      assert c == [c[0]] + tail;
    }
  }

  /** Read cell by cell: a cell of the array is in a key's scope exactly when it lies in
      the key's box, and the scope holds nothing but such cells' indices. */
  lemma MissingByCell(shape: seq<nat>, key: HyperCube)
    requires Missing(shape, key).Ok?
    ensures forall c :: InGrid(shape, c) ==>
      (LinearIndex(shape, c) in Missing(shape, key).value <==> InBox(c, key.point1, key.point2))
    ensures forall i :: i in Missing(shape, key).value ==>
      i < Prod(shape) && InGrid(shape, Unravel(shape, i))
  {
    forall c | InGrid(shape, c)
      ensures LinearIndex(shape, c) in Missing(shape, key).value <==> InBox(c, key.point1, key.point2)
    {
      LinearIndexRoundTrip(shape, c);
    }
    forall i | i in Missing(shape, key).value
      ensures i < Prod(shape) && InGrid(shape, Unravel(shape, i))
    {
      UnravelInGrid(shape, i);
    }
  }

  /** The dict of scopes: `cache` is its content. Lookups never store what they compute,
      so the cache stays as the constructor leaves it, empty. */
  class HypercubeToScope {
    const shape: seq<nat>
    const ndims: nat
    var cache: map<HyperCube, set<nat>>

    /** Every stored scope is the one `__missing__` would compute. */
    ghost predicate Valid()
      reads this
    {
      ndims == |shape| && forall k :: k in cache ==> Missing(shape, k) == Ok(cache[k])
    }

    constructor (shape: seq<nat>)
      ensures Valid()
      ensures this.shape == shape && ndims == |shape| && cache == map[]
    {
      this.shape := shape;
      ndims := |shape|;
      cache := map[];
    }

    /** `self[key]`: the stored scope if any, otherwise `__missing__`, which stores nothing. */
    method Get(key: HyperCube) returns (r: Result<set<nat>, ScopeError>)
      requires Valid()
      ensures r == Missing(shape, key)
    {
      if key in cache {
        r := Ok(cache[key]);
      } else {
        r := Missing(shape, key);
      }
    }
  }

  lemma FirstRowCells()
    ensures BoxIndices([1, 2, 2], [0, 0, 0], [1, 1, 2]) == [0, 1]
  {
    var shape, p1, p2 := [1, 2, 2], [0, 0, 0], [1, 1, 2];
    assert shape[1..] == [2, 2] && shape[1..][1..] == [2] && shape[1..][1..][1..] == [];
    assert p1[1..] == [0, 0] && p1[1..][1..] == [0] && p1[1..][1..][1..] == [];
    assert p2[1..] == [1, 2] && p2[1..][1..] == [2] && p2[1..][1..][1..] == [];
    assert BoxIndices([], [], []) == [0];
    assert Rows([0], 1, 0, 2) == [0, 1] by {
      assert Rows([0], 1, 2, 2) == [];
      assert Rows([0], 1, 1, 2) == [1];
    }
    assert BoxIndices([2], [0], [2]) == [0, 1];
    assert Prod([2]) == 2 && Prod([2, 2]) == 4;
    assert Rows([0, 1], 2, 0, 1) == [0, 1] by {
      assert Rows([0, 1], 2, 1, 1) == [];
    }
    assert BoxIndices([2, 2], [0, 0], [1, 2]) == [0, 1];
    assert Rows([0, 1], 4, 0, 1) == [0, 1] by {
      assert Rows([0, 1], 4, 1, 1) == [];
    }
  }

  /** On shape (1, 2, 2) the box from (0, 0, 0) to (1, 1, 2) is the first row: {0, 1}. */
  lemma FirstRowScope()
    ensures Missing([1, 2, 2], HyperCube([0, 0, 0], [1, 1, 2])) == Ok({0, 1})
  {
    FirstRowCells();
    assert CellSet([0, 1]) == {0, 1};
  }
}
