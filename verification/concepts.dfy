/**
 * Compile-time helpers of libconvertible/convertible/concepts.hxx that shape
 * run-time behaviour: the filter that builds a mapping table's result types,
 * and the count of adapters that take an argument.
 */
module Concepts {
  import opened Common
  import opened Values
  import opened Adapters

  /** No element after position `i` is related to `xs[i]`. */
  predicate Kept<T>(xs: seq<T>, rel: (T, T) -> bool, i: nat)
    requires i < |xs|
  {
    forall j | i < j < |xs| :: !rel(xs[i], xs[j])
  }

  /** `traits::details::unique_types`: walks the list and keeps an element
      only when no later element is related to it by `rel`, preserving the
      order of the kept elements.  With `rel` being `std::is_same` this is
      `unique_types_t`, with `std::is_base_of` it is
      `unique_derived_types_t`. */
  function Unique<T>(xs: seq<T>, rel: (T, T) -> bool): (r: seq<T>)
    ensures |r| <= |xs|
    decreases |xs|
  {
    if |xs| == 0 then []
    else
      (if exists j | 1 <= j < |xs| :: rel(xs[0], xs[j]) then [] else [xs[0]])
      + Unique(xs[1..], rel)
  }

  /** Reference definition: the elements from position `i` on that have no
      related later element, in list order. */
  function KeptFrom<T>(xs: seq<T>, rel: (T, T) -> bool, i: nat): seq<T>
    requires i <= |xs|
    decreases |xs| - i
  {
    if i == |xs| then []
    else (if Kept(xs, rel, i) then [xs[i]] else []) + KeptFrom(xs, rel, i + 1)
  }

  lemma {:induction false} KeptFromShift<T>(xs: seq<T>, rel: (T, T) -> bool, i: nat)
    requires 1 <= i <= |xs|
    ensures KeptFrom(xs, rel, i) == KeptFrom(xs[1..], rel, i - 1)
    decreases |xs| - i
  {
    if i < |xs| {
      KeptFromShift(xs, rel, i + 1);
      assert Kept(xs, rel, i) == Kept(xs[1..], rel, i - 1) by {
        assert forall j | i < j < |xs| :: xs[j] == xs[1..][j - 1];
        assert forall j | i - 1 < j < |xs| - 1 :: xs[1..][j] == xs[j + 1];
      }
    }
  }

  /** The recursive filter of the source keeps exactly the elements with no
      related later element, in their original order. */
  lemma {:induction false} UniqueIsKeptInOrder<T>(xs: seq<T>, rel: (T, T) -> bool)
    ensures Unique(xs, rel) == KeptFrom(xs, rel, 0)
    decreases |xs|
  {
    if |xs| > 0 {
      UniqueIsKeptInOrder(xs[1..], rel);
      KeptFromShift(xs, rel, 1);
      assert Kept(xs, rel, 0) <==> !exists j | 1 <= j < |xs| :: rel(xs[0], xs[j]);
    }
  }

  lemma {:induction false} KeptFromMembers<T>(xs: seq<T>, rel: (T, T) -> bool, i: nat)
    requires i <= |xs|
    ensures forall k | i <= k < |xs| && Kept(xs, rel, k) :: xs[k] in KeptFrom(xs, rel, i)
    ensures forall y | y in KeptFrom(xs, rel, i) :: exists k | i <= k < |xs| :: xs[k] == y && Kept(xs, rel, k)
    decreases |xs| - i
  {
    if i < |xs| {
      KeptFromMembers(xs, rel, i + 1);
    }
  }

  lemma KeptHeadUnrelated<T>(xs: seq<T>, rel: (T, T) -> bool, i: nat)
    requires i < |xs| && Kept(xs, rel, i)
    ensures forall y | y in KeptFrom(xs, rel, i + 1) :: !rel(xs[i], y)
  {
    KeptFromMembers(xs, rel, i + 1);
    forall y | y in KeptFrom(xs, rel, i + 1) ensures !rel(xs[i], y) {
      var b :| i + 1 <= b < |xs| && xs[b] == y && Kept(xs, rel, b);
      assert i < b;
    }
  }

  predicate PairwiseUnrelated<T>(r: seq<T>, rel: (T, T) -> bool)
  {
    forall k, l | 0 <= k < l < |r| :: !rel(r[k], r[l])
  }

  lemma ConsUnrelated<T>(x: T, rest: seq<T>, rel: (T, T) -> bool)
    requires PairwiseUnrelated(rest, rel)
    requires forall y | y in rest :: !rel(x, y)
    ensures PairwiseUnrelated([x] + rest, rel)
  {
    var r := [x] + rest;
    forall k, l | 0 <= k < l < |r| ensures !rel(r[k], r[l]) {
      assert r[l] == rest[l - 1];
      if k > 0 {
        assert r[k] == rest[k - 1];
      }
    }
  }

  lemma {:induction false} KeptFromUnrelated<T>(xs: seq<T>, rel: (T, T) -> bool, i: nat)
    requires i <= |xs|
    ensures PairwiseUnrelated(KeptFrom(xs, rel, i), rel)
    decreases |xs| - i
  {
    if i < |xs| {
      KeptFromUnrelated(xs, rel, i + 1);
      if Kept(xs, rel, i) {
        KeptHeadUnrelated(xs, rel, i);
        ConsUnrelated(xs[i], KeptFrom(xs, rel, i + 1), rel);
      } else {
        assert KeptFrom(xs, rel, i) == [] + KeptFrom(xs, rel, i + 1);
      }
    }
  }

  /** Every element without a related later element is kept, and nothing
      else is; no kept element is related to a kept element after it. */
  lemma UniqueKeepsUnrelated<T>(xs: seq<T>, rel: (T, T) -> bool)
    ensures forall i | 0 <= i < |xs| && Kept(xs, rel, i) :: xs[i] in Unique(xs, rel)
    ensures forall y | y in Unique(xs, rel) :: exists i | 0 <= i < |xs| :: xs[i] == y && Kept(xs, rel, i)
    ensures PairwiseUnrelated(Unique(xs, rel), rel)
  {
    UniqueIsKeptInOrder(xs, rel);
    KeptFromMembers(xs, rel, 0);
    KeptFromUnrelated(xs, rel, 0);
  }

  lemma {:induction false} LastOccurrence<T>(xs: seq<T>, eq: (T, T) -> bool, i: nat)
    requires forall a, b :: eq(a, b) <==> a == b
    requires i < |xs|
    ensures exists j | i <= j < |xs| :: xs[j] == xs[i] && Kept(xs, eq, j)
    decreases |xs| - i
  {
    if !Kept(xs, eq, i) {
      var j :| i < j < |xs| && eq(xs[i], xs[j]);
      LastOccurrence(xs, eq, j);
    }
  }

  /** Under `std::is_same` the result has no duplicates and still contains
      every element of the list (each at its last occurrence). */
  lemma UniqueTypesDeduplicates<T>(xs: seq<T>, eq: (T, T) -> bool)
    requires forall a, b :: eq(a, b) <==> a == b
    ensures var r := Unique(xs, eq);
      && (forall k, l | 0 <= k < l < |r| :: r[k] != r[l])
      && (forall x | x in xs :: x in r)
  {
    UniqueKeepsUnrelated(xs, eq);
    forall x | x in xs ensures x in Unique(xs, eq) {
      var i :| 0 <= i < |xs| && xs[i] == x;
      LastOccurrence(xs, eq, i);
    }
  }

  /** A transitive relation (such as `std::is_base_of`) leaves every dropped
      element related to some kept element: the most derived types survive. */
  lemma {:induction false} DroppedHaveKeptSuccessor<T>(xs: seq<T>, rel: (T, T) -> bool, i: nat)
    requires forall a, b, c :: rel(a, b) && rel(b, c) ==> rel(a, c)
    requires i < |xs| && !Kept(xs, rel, i)
    ensures exists y | y in Unique(xs, rel) :: rel(xs[i], y)
    decreases |xs| - i
  {
    UniqueKeepsUnrelated(xs, rel);
    var j :| i < j < |xs| && rel(xs[i], xs[j]);
    if Kept(xs, rel, j) {
      assert xs[j] in Unique(xs, rel);
    } else {
      DroppedHaveKeptSuccessor(xs, rel, j);
      var y :| y in Unique(xs, rel) && rel(xs[j], y);
      assert rel(xs[i], y);
    }
  }

  /** `std::is_same` over the model's types. */
  function SameType(a: Type, b: Type): bool
  {
    a == b
  }

  /** `std::is_base_of` over `base` (0), `derived_a` (1), `derived_b` (2)
      and `derived_c` (3): every class is its own base. */
  function IsBaseOfExample(a: int, b: int): bool
  {
    a == b || (a == 0 && 1 <= b <= 3) || (a == 1 && b == 2)
  }

  /** The list `<int, float, float, int>` gives `<float, int>` and
      `<int, float, int, float>` gives `<int, float>` under `std::is_same`
      (a string type stands in for `float`). */
  lemma UniqueTypesExample()
    ensures Unique([TInt, TStr, TStr, TInt], SameType) == [TStr, TInt]
  {
    var xs := [TInt, TStr, TStr, TInt];
    assert xs[1..] == [TStr, TStr, TInt];
    assert Unique([TInt], SameType) == [TInt] by {
      assert [TInt][1..] == [];
    }
    assert Unique([TStr, TInt], SameType) == [TStr, TInt] by {
      assert [TStr, TInt][1..] == [TInt];
      assert !SameType(TStr, TInt);
    }
    assert Unique([TStr, TStr, TInt], SameType) == [TStr, TInt] by {
      assert [TStr, TStr, TInt][1..] == [TStr, TInt];
      assert SameType([TStr, TStr, TInt][0], [TStr, TStr, TInt][1]);
    }
    assert SameType(xs[0], xs[3]);
  }

  lemma UniqueTypesKeepsLastExample()
    ensures Unique([TInt, TStr, TInt, TStr], SameType) == [TInt, TStr]
  {
    var ys := [TInt, TStr, TInt, TStr];
    assert ys[1..] == [TStr, TInt, TStr];
    assert Unique([TStr], SameType) == [TStr] by {
      assert [TStr][1..] == [];
    }
    assert Unique([TInt, TStr], SameType) == [TInt, TStr] by {
      assert [TInt, TStr][1..] == [TStr];
      assert !SameType(TInt, TStr);
    }
    assert Unique([TStr, TInt, TStr], SameType) == [TInt, TStr] by {
      assert [TStr, TInt, TStr][1..] == [TInt, TStr];
      assert SameType([TStr, TInt, TStr][0], [TStr, TInt, TStr][2]);
    }
    assert SameType(ys[0], ys[2]);
  }

  /** Of `base`, `derived_a: base`, `derived_b: derived_a` and
      `derived_c: base`, only `derived_b` and `derived_c` remain under
      `std::is_base_of`. */
  lemma UniqueDerivedTypesExample()
    ensures Unique([0, 1, 2, 3], IsBaseOfExample) == [2, 3]
    ensures Unique([0, 1], IsBaseOfExample) == [1]
  {
    var xs := [0, 1, 2, 3];
    assert xs[1..] == [1, 2, 3] && xs[1..][1..] == [2, 3] && xs[1..][1..][1..] == [3];
    assert Unique([3], IsBaseOfExample) == [3];
    assert !IsBaseOfExample(2, 3);
    assert Unique([2, 3], IsBaseOfExample) == [2, 3];
    assert IsBaseOfExample(1, 2);
    assert Unique([1, 2, 3], IsBaseOfExample) == [2, 3];
    assert IsBaseOfExample(0, 1);
    assert [0, 1][1..] == [1];
    assert Unique([1], IsBaseOfExample) == [1];
  }

  /** `adaptable_count_v<arg, adapters...>`: how many adapters take `arg`. */
  function AdaptableCount(arg: Value, adapters: seq<Adapter>): (n: nat)
    ensures n <= |adapters|
    ensures n == 0 <==> forall i | 0 <= i < |adapters| :: !AdapterAccepts(adapters[i], arg)
    ensures n == |adapters| <==> forall i | 0 <= i < |adapters| :: AdapterAccepts(adapters[i], arg)
    decreases |adapters|
  {
    if |adapters| == 0 then 0
    else
      (if AdapterAccepts(adapters[0], arg) then 1 else 0) + AdaptableCount(arg, adapters[1..])
  }
}
