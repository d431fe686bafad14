/** Values shared by every part of the deduplicator: optional values, the
    Python exceptions the core can raise, and results that carry them. */
module Base {

  /** Python's `None` versus a present value. */
  datatype Option<+T> = None | Some(value: T)

  /** The exceptions the modelled code can let escape. */
  datatype Exception =
    | ValueError       // `list.remove(x)` with `x` not in the list
    | AttributeError   // `None.remove(...)`: the entry itself is empty

  /** A computation that either yields a value or raises. */
  datatype Result<+T> = Ok(value: T) | Err(error: Exception)

  /** Python truthiness of a reducer's return value: `None` and `False` are falsy. */
  predicate Truthy(flag: Option<bool>)
  {
    flag == Some(true)
  }
}

/** `itertools.combinations(range(n), 2)`: every index pair `(i, j)` with
    `i < j < n`, in lexicographic order. */
module Combinations {

  function Pairs(n: nat): (r: seq<(nat, nat)>)
    ensures forall k :: 0 <= k < |r| ==> r[k].0 < r[k].1 < n
  {
    PairsFrom(0, n)
  }

  /** The pairs whose first index is at least `i`. */
  function PairsFrom(i: nat, n: nat): (r: seq<(nat, nat)>)
    ensures forall k :: 0 <= k < |r| ==> i <= r[k].0 < r[k].1 < n
    decreases n - i
  {
    if i >= n then [] else Row(i, i + 1, n) + PairsFrom(i + 1, n)
  }

  /** The pairs `(i, j')` with `j <= j' < n`. */
  function Row(i: nat, j: nat, n: nat): (r: seq<(nat, nat)>)
    requires i < j
    ensures forall k :: 0 <= k < |r| ==> r[k].0 == i && j <= r[k].1 < n
    decreases n - j
  {
    if j >= n then [] else [(i, j)] + Row(i, j + 1, n)
  }

  lemma {:induction false} RowMember(i: nat, j: nat, n: nat, b: nat)
    requires i < j
    ensures (i, b) in Row(i, j, n) <==> j <= b < n
    decreases n - j
  {
    if j < n {
      RowMember(i, j + 1, n, b);
    }
  }

  lemma {:induction false} PairsFromMember(i: nat, n: nat, a: nat, b: nat)
    ensures (a, b) in PairsFrom(i, n) <==> i <= a < b < n
    decreases n - i
  {
    if i < n {
      PairsFromMember(i + 1, n, a, b);
      if a == i {
        RowMember(i, i + 1, n, b);
      }
    }
  }

  /** The order of `itertools.combinations`: by first index, then by second. */
  predicate Lexicographic(r: seq<(nat, nat)>)
  {
    forall a, b :: 0 <= a < b < |r| ==> r[a].0 < r[b].0 || (r[a].0 == r[b].0 && r[a].1 < r[b].1)
  }

  lemma {:induction false} RowOrdered(i: nat, j: nat, n: nat)
    requires i < j
    ensures Lexicographic(Row(i, j, n))
    decreases n - j
  {
    if j < n {
      RowOrdered(i, j + 1, n);
      var r := Row(i, j, n);
      assert forall b :: 1 <= b < |r| ==> r[b] == Row(i, j + 1, n)[b - 1];
    }
  }

  lemma {:induction false} PairsFromOrdered(i: nat, n: nat)
    ensures Lexicographic(PairsFrom(i, n))
    decreases n - i
  {
    if i < n {
      PairsFromOrdered(i + 1, n);
      RowOrdered(i, i + 1, n);
      var row, rest := Row(i, i + 1, n), PairsFrom(i + 1, n);
      var r := row + rest;
      assert forall b :: |row| <= b < |r| ==> r[b] == rest[b - |row|];
    }
  }

  /** The pairs come in the order `itertools.combinations` yields them. */
  lemma PairsOrdered(n: nat)
    ensures Lexicographic(Pairs(n))
  {
    PairsFromOrdered(0, n);
  }

  /** Every pair of distinct indices below `n` is compared, the smaller index first. */
  lemma PairsMember(n: nat, a: nat, b: nat)
    ensures (a, b) in Pairs(n) <==> a < b < n
  {
    PairsFromMember(0, n, a, b);
  }
}

/** Earlier equal elements of a sequence: the duplicate test both reducers
    apply, each to its own list of keys. */
module Dups {

  /** Element `j` equals one of the elements before it. */
  predicate DupAt<T(==)>(xs: seq<T>, j: nat)
    requires j < |xs|
  {
    exists i :: 0 <= i < j && xs[i] == xs[j]
  }

  /** The first element equal to element `j`, searching from `from`: the
      least index whose element equals `xs[j]`. */
  function FirstEqual<T(==)>(xs: seq<T>, j: nat, from: nat): (i: nat)
    requires from <= j < |xs|
    requires forall k :: 0 <= k < from ==> xs[k] != xs[j]
    ensures from <= i <= j && xs[i] == xs[j]
    ensures forall k :: 0 <= k < i ==> xs[k] != xs[j]
    ensures !DupAt(xs, i)
    decreases j - from
  {
    if xs[from] == xs[j] then from else FirstEqual(xs, j, from + 1)
  }
}
