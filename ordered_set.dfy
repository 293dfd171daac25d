/** A mutable set that remembers insertion order and can be stably sorted in place
    (`OrderedSet` of the graph utilities).

    The order used by `sort` is Python's `__lt__` on the elements; here it is given as an
    integer-valued key, so that `a < b` stands for `key(a) < key(b)`. */
module OrderedSets {

  /** No element occurs twice. */
  ghost predicate NoDup<T>(s: seq<T>) {
    forall i, j :: 0 <= i < j < |s| ==> s[i] != s[j]
  }

  /** The elements of a sequence as a set. */
  ghost function Elements<T>(s: seq<T>): set<T> {
    set x | x in s
  }

  /** The left-to-right concatenation of several sources. */
  ghost function Concat<T>(ss: seq<seq<T>>): seq<T> {
    if ss == [] then [] else Concat(ss[..|ss| - 1]) + ss[|ss| - 1]
  }

  /** The sub-sequence of `s` made of the first occurrence of each element. */
  ghost function FirstOccurrences<T>(s: seq<T>): seq<T> {
    if s == [] then []
    else
      var init, x := s[..|s| - 1], s[|s| - 1];
      FirstOccurrences(init) + (if x in init then [] else [x])
  }

  /** The position at which `x` first occurs in `s`. */
  ghost function FirstIndex<T>(s: seq<T>, x: T): (i: nat)
    requires x in s
    ensures i < |s| && s[i] == x && x !in s[..i]
  {
    if s[0] == x then 0 else 1 + FirstIndex(s[1..], x)
  }

  lemma {:induction false} FirstIndexOfPrefix<T>(s: seq<T>, t: seq<T>, x: T)
    requires x in s
    ensures x in s + t && FirstIndex(s + t, x) == FirstIndex(s, x)
  {
    if s[0] != x {
      assert (s + t)[1..] == s[1..] + t;
      FirstIndexOfPrefix(s[1..], t, x);
    }
  }

  /** Deduplication keeps exactly the elements of the input, each once. */
  lemma {:induction false} FirstOccurrencesElements<T>(s: seq<T>)
    ensures NoDup(FirstOccurrences(s))
    ensures forall x :: x in FirstOccurrences(s) <==> x in s
    ensures forall k :: 0 <= k < |FirstOccurrences(s)| ==> FirstOccurrences(s)[k] in s
  {
    if s != [] {
      var init, x := s[..|s| - 1], s[|s| - 1];
      assert s == init + [x];
      FirstOccurrencesElements(init);
    }
    forall k | 0 <= k < |FirstOccurrences(s)| ensures FirstOccurrences(s)[k] in s {
      assert FirstOccurrences(s)[k] in FirstOccurrences(s);
    }
  }

  /** Deduplication keeps the order of first occurrence: an element listed earlier
      first occurred earlier in the input. */
  lemma {:induction false} FirstOccurrencesOrder<T>(s: seq<T>)
    ensures forall i, j :: 0 <= i < j < |FirstOccurrences(s)| ==>
      FirstOccurrences(s)[i] in s && FirstOccurrences(s)[j] in s &&
      FirstIndex(s, FirstOccurrences(s)[i]) < FirstIndex(s, FirstOccurrences(s)[j])
  {
    if s != [] {
      var init, x := s[..|s| - 1], s[|s| - 1];
      assert s == init + [x];
      FirstOccurrencesOrder(init);
      FirstOccurrencesElements(init);
      var r0, r := FirstOccurrences(init), FirstOccurrences(s);
      assert r == r0 + (if x in init then [] else [x]);
      forall i, j | 0 <= i < j < |r|
        ensures r[i] in s && r[j] in s && FirstIndex(s, r[i]) < FirstIndex(s, r[j])
      {
        assert i < |r0|;
        assert r[i] == r0[i];
        assert r[i] in init;
        FirstIndexOfPrefix(init, [x], r[i]);
        if j < |r0| {
          assert r[j] == r0[j];
          FirstIndexOfPrefix(init, [x], r[j]);
        } else {
          assert r[j] == x && x !in init;
          assert s[..|init|] == init;
          var m := FirstIndex(s, x);
          assert m >= |init|;
        }
      }
      assert forall i, j :: 0 <= i < j < |r| ==>
        r[i] in s && r[j] in s && FirstIndex(s, r[i]) < FirstIndex(s, r[j]);
    } else {
      assert FirstOccurrences(s) == [];
    }
  }

  /** Keys are non-decreasing along `s`. */
  predicate SortedByKey<T>(s: seq<T>, key: T -> int) {
    forall i, j :: 0 <= i < j < |s| ==> key(s[i]) <= key(s[j])
  }

  /** Inserts `x` into a sorted sequence after every element whose key is not greater. */
  function Insert<T>(r: seq<T>, x: T, key: T -> int): seq<T> {
    if r == [] then [x]
    else if key(x) < key(r[0]) then [x] + r
    else [r[0]] + Insert(r[1..], x, key)
  }

  /** The stable sort of `s` by `key` (what Python's `sorted` yields). */
  function SortByKey<T>(s: seq<T>, key: T -> int): seq<T> {
    if s == [] then []
    else Insert(SortByKey(s[..|s| - 1], key), s[|s| - 1], key)
  }

  /** The elements of `s` whose key is `k`, in the order of `s`. */
  function KeyClass<T>(s: seq<T>, key: T -> int, k: int): seq<T> {
    if s == [] then []
    else (if key(s[0]) == k then [s[0]] else []) + KeyClass(s[1..], key, k)
  }

  lemma {:induction false} KeyClassConcat<T>(s: seq<T>, t: seq<T>, key: T -> int, k: int)
    ensures KeyClass(s + t, key, k) == KeyClass(s, key, k) + KeyClass(t, key, k)
  {
    if s != [] {
      assert (s + t)[0] == s[0] && (s + t)[1..] == s[1..] + t;
      KeyClassConcat(s[1..], t, key, k);
    } else {
      assert s + t == t;
    }
  }

  lemma {:induction false} InsertPermutes<T>(r: seq<T>, x: T, key: T -> int)
    ensures multiset(Insert(r, x, key)) == multiset(r) + multiset{x}
  {
    if r != [] && key(x) >= key(r[0]) {
      assert r == [r[0]] + r[1..];
      InsertPermutes(r[1..], x, key);
    }
  }

  /** Inserting an element no smaller than a bound keeps every key at or above the bound. */
  lemma {:induction false} InsertLowerBound<T>(r: seq<T>, x: T, key: T -> int, b: int)
    requires key(x) >= b && forall i :: 0 <= i < |r| ==> key(r[i]) >= b
    ensures forall i :: 0 <= i < |Insert(r, x, key)| ==> key(Insert(r, x, key)[i]) >= b
  {
    if r != [] {
      var out := Insert(r, x, key);
      if key(x) < key(r[0]) {
        forall i | 0 <= i < |out| ensures key(out[i]) >= b {
          if i > 0 { assert out[i] == r[i - 1]; }
        }
      } else {
        var rest := Insert(r[1..], x, key);
        forall i | 0 <= i < |r[1..]| ensures key(r[1..][i]) >= b {
          assert r[1..][i] == r[i + 1];
        }
        InsertLowerBound(r[1..], x, key, b);
        forall i | 0 <= i < |out| ensures key(out[i]) >= b {
          if i > 0 { assert out[i] == rest[i - 1]; }
        }
      }
    }
  }

  lemma {:induction false} InsertSorted<T>(r: seq<T>, x: T, key: T -> int)
    requires SortedByKey(r, key)
    ensures SortedByKey(Insert(r, x, key), key)
  {
    if r != [] && key(x) >= key(r[0]) {
      var rest := Insert(r[1..], x, key);
      assert SortedByKey(r[1..], key);
      InsertSorted(r[1..], x, key);
      forall i | 0 <= i < |r[1..]| ensures key(r[1..][i]) >= key(r[0]) {
        assert r[1..][i] == r[i + 1];
      }
      InsertLowerBound(r[1..], x, key, key(r[0]));
      var out := [r[0]] + rest;
      forall i, j | 0 <= i < j < |out| ensures key(out[i]) <= key(out[j]) {
        assert out[j] == rest[j - 1];
        if i > 0 { assert out[i] == rest[i - 1]; }
      }
    }
  }

  /** Inserting into a sorted sequence appends `x` to the end of its key class. */
  lemma {:induction false} InsertKeyClass<T>(r: seq<T>, x: T, key: T -> int, k: int)
    requires SortedByKey(r, key)
    ensures KeyClass(Insert(r, x, key), key, k) ==
      KeyClass(r, key, k) + (if key(x) == k then [x] else [])
  {
    if r == [] {
      assert KeyClass([x], key, k) == (if key(x) == k then [x] else []) + KeyClass([], key, k);
    } else if key(x) < key(r[0]) {
      var xr := [x] + r;
      assert xr[0] == x && xr[1..] == r;
      assert KeyClass(xr, key, k) == (if key(x) == k then [x] else []) + KeyClass(r, key, k);
      if key(x) == k {
        KeyClassOfGreater(r, key, k);
      }
    } else {
      var rest := Insert(r[1..], x, key);
      var yr := [r[0]] + rest;
      assert yr[0] == r[0] && yr[1..] == rest;
      assert KeyClass(yr, key, k) == (if key(r[0]) == k then [r[0]] else []) + KeyClass(rest, key, k);
      assert SortedByKey(r[1..], key);
      InsertKeyClass(r[1..], x, key, k);
    }
  }

  /** A sorted sequence whose first key exceeds `k` has no element of key `k`. */
  lemma {:induction false} KeyClassOfGreater<T>(r: seq<T>, key: T -> int, k: int)
    requires SortedByKey(r, key)
    requires r != [] && k < key(r[0])
    ensures KeyClass(r, key, k) == []
  {
    if |r| > 1 {
      KeyClassOfGreater(r[1..], key, k);
    }
  }

  /** Putting an absent element in front of a duplicate-free sequence keeps it duplicate-free. */
  lemma ConsNoDup<T>(a: T, t: seq<T>)
    requires NoDup(t) && a !in t
    ensures NoDup([a] + t) && Elements([a] + t) == {a} + Elements(t)
  {
    var at := [a] + t;
    forall i, j | 0 <= i < j < |at| ensures at[i] != at[j] {
      assert at[j] == t[j - 1];
      if i > 0 { assert at[i] == t[i - 1]; }
    }
  }

  lemma {:induction false} InsertElements<T>(r: seq<T>, x: T, key: T -> int)
    requires NoDup(r) && x !in r
    ensures NoDup(Insert(r, x, key))
    ensures Elements(Insert(r, x, key)) == Elements(r) + {x}
  {
    if r == [] {
      assert Insert(r, x, key) == [x];
    } else if key(x) < key(r[0]) {
      ConsNoDup(x, r);
    } else {
      var rest := Insert(r[1..], x, key);
      assert r == [r[0]] + r[1..];
      assert NoDup(r[1..]) && r[0] !in r[1..];
      InsertElements(r[1..], x, key);
      assert r[0] !in Elements(rest);
      ConsNoDup(r[0], rest);
    }
  }

  /** Sorting yields a key-ordered permutation of its input: whenever `key(a) < key(b)`,
      `a` precedes `b`. */
  lemma {:induction false} SortByKeyIsSortedPermutation<T>(s: seq<T>, key: T -> int)
    ensures multiset(SortByKey(s, key)) == multiset(s)
    ensures SortedByKey(SortByKey(s, key), key)
    ensures forall i, j ::
      (0 <= i < |SortByKey(s, key)| && 0 <= j < |SortByKey(s, key)| &&
       key(SortByKey(s, key)[i]) < key(SortByKey(s, key)[j])) ==> i < j
  {
    if s != [] {
      var init, x := s[..|s| - 1], s[|s| - 1];
      assert s == init + [x];
      SortByKeyIsSortedPermutation(init, key);
      InsertPermutes(SortByKey(init, key), x, key);
      InsertSorted(SortByKey(init, key), x, key);
    }
  }

  /** Sorting is stable: the elements of each key class keep their relative order. */
  lemma {:induction false} SortByKeyIsStable<T>(s: seq<T>, key: T -> int, k: int)
    ensures KeyClass(SortByKey(s, key), key, k) == KeyClass(s, key, k)
  {
    if s != [] {
      var init, x := s[..|s| - 1], s[|s| - 1];
      assert s == init + [x];
      SortByKeyIsStable(init, key, k);
      SortByKeyIsSortedPermutation(init, key);
      InsertKeyClass(SortByKey(init, key), x, key, k);
      KeyClassConcat(init, [x], key, k);
    }
  }

  /** Sorting a duplicate-free sequence keeps it duplicate-free, with the same elements. */
  lemma {:induction false} SortByKeyElements<T>(s: seq<T>, key: T -> int)
    requires NoDup(s)
    ensures NoDup(SortByKey(s, key))
    ensures Elements(SortByKey(s, key)) == Elements(s)
  {
    if s != [] {
      var init, x := s[..|s| - 1], s[|s| - 1];
      assert s == init + [x];
      assert NoDup(init) && x !in init;
      SortByKeyElements(init, key);
      assert x !in Elements(SortByKey(init, key));
      InsertElements(SortByKey(init, key), x, key);
    }
  }

  /** A duplicate-free sequence has as many elements as its set. */
  lemma {:induction false} DistinctCount<T>(s: seq<T>)
    requires NoDup(s)
    ensures |Elements(s)| == |s|
  {
    if s != [] {
      var init, x := s[..|s| - 1], s[|s| - 1];
      assert s == init + [x];
      DistinctCount(init);
      assert Elements(s) == Elements(init) + {x};
    }
  }

  lemma FirstOccurrencesSnoc<T>(prefix: seq<T>, x: T)
    ensures FirstOccurrences(prefix + [x]) ==
      FirstOccurrences(prefix) + (if x in FirstOccurrences(prefix) then [] else [x])
  {
    FirstOccurrencesElements(prefix);
    assert (prefix + [x])[..|prefix|] == prefix;
  }

  lemma ConcatStep<T>(done: seq<T>, src: seq<T>, j: nat)
    requires j < |src|
    ensures done + src[..j + 1] == (done + src[..j]) + [src[j]]
  {
    assert src[..j + 1] == src[..j] + [src[j]];
  }

  lemma ConcatNext<T>(iterables: seq<seq<T>>, i: nat)
    requires i < |iterables|
    ensures Concat(iterables[..i + 1]) == Concat(iterables[..i]) + iterables[i][..|iterables[i]|]
  {
    assert iterables[i][..|iterables[i]|] == iterables[i];
    assert iterables[..i + 1][..i] == iterables[..i];
  }

  class OrderedSet<T(==)> {
    /** The keys of the underlying insertion-ordered dict, in order. */
    var items: seq<T>
    /** The membership view of the same dict. */
    ghost var elems: set<T>

    ghost predicate Valid()
      reads this
    {
      NoDup(items) && elems == Elements(items)
    }

    /** Builds the set from several sources: their concatenation with later duplicates dropped. */
    constructor (iterables: seq<seq<T>>)
      ensures Valid()
      ensures items == FirstOccurrences(Concat(iterables))
    {
      var acc: seq<T> := [];
      var i := 0;
      while i < |iterables|
        invariant 0 <= i <= |iterables|
        invariant acc == FirstOccurrences(Concat(iterables[..i]))
      {
        var src := iterables[i];
        var j := 0;
        assert Concat(iterables[..i]) + src[..0] == Concat(iterables[..i]);
        while j < |src|
          invariant 0 <= j <= |src|
          invariant acc == FirstOccurrences(Concat(iterables[..i]) + src[..j])
        {
          ConcatStep(Concat(iterables[..i]), src, j);
          FirstOccurrencesSnoc(Concat(iterables[..i]) + src[..j], src[j]);
          if src[j] !in acc {
            acc := acc + [src[j]];
          }
          j := j + 1;
        }
        ConcatNext(iterables, i);
        i := i + 1;
      }
      assert iterables[..|iterables|] == iterables;
      FirstOccurrencesElements(Concat(iterables));
      items := acc;
      elems := Elements(acc);
    }

    /** Membership test. */
    function Contains(x: T): (b: bool)
      reads this
      requires Valid()
      ensures b <==> x in elems
    {
      x in items
    }

    /** Iteration: every element exactly once, in insertion order. */
    function Iterate(): (s: seq<T>)
      reads this
      requires Valid()
      ensures NoDup(s) && Elements(s) == elems && |s| == |elems|
      ensures s == items
    {
      DistinctCount(items);
      items
    }

    /** The number of distinct elements. */
    function Length(): (n: nat)
      reads this
      requires Valid()
      ensures n == |elems|
    {
      DistinctCount(items);
      |items|
    }

    /** Adds `x` at the end unless present; reports whether it was added. */
    method Append(x: T) returns (added: bool)
      requires Valid()
      modifies this
      ensures Valid()
      ensures added <==> x !in old(elems)
      ensures items == if added then old(items) + [x] else old(items)
      ensures elems == old(elems) + {x}
    {
      if x in items {
        return false;
      }
      items := items + [x];
      elems := elems + {x};
      return true;
    }

    /** Stably sorts the elements by `key` in place and returns the same object. */
    method Sort(key: T -> int) returns (self: OrderedSet<T>)
      requires Valid()
      modifies this
      ensures Valid() && self == this
      ensures items == SortByKey(old(items), key)
      ensures elems == old(elems)
    {
      SortByKeyElements(items, key);
      items := SortByKey(items, key);
      return this;
    }
  }

  /** Appending an element that is already present changes nothing and reports false. */
  method AppendIsIdempotent<T(==)>(s: OrderedSet<T>, x: T) returns (first: bool, second: bool)
    requires s.Valid()
    modifies s
    ensures s.Valid()
    ensures !second
    ensures s.items == if first then old(s.items) + [x] else old(s.items)
  {
    first := s.Append(x);
    second := s.Append(x);
  }
}
