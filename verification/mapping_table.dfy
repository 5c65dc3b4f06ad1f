/**
 * A table of mappings (libconvertible/convertible/mapping_table.hxx): every
 * mapping that takes a pair of objects is applied to it in order, equality
 * is the conjunction of the mappings' comparisons, and a single argument is
 * converted into the tuple of distinct adaptee types of the other side.
 *
 * Whether a mapping takes a pair is a compile-time property of the types in
 * the library; here it is `Mappings.Applicable` on the objects at hand.
 */
module MappingTables {
  import opened Common
  import opened Values
  import opened Adapters
  import opened Mappings
  import Operators
  import Concepts

  datatype Table = Table(mappings: seq<Mapping>)

  /** `for_each(callback, pack)`: the callback on each element in order,
      joined by a short-circuiting `&&`.  Yields the result and the number
      of callbacks that ran. */
  function ForEach<T>(f: T -> bool, xs: seq<T>): (r: (bool, nat))
    ensures r.0 <==> forall i | 0 <= i < |xs| :: f(xs[i])
    ensures r.1 <= |xs| && (r.0 ==> r.1 == |xs|)
    ensures forall i | 0 <= i < r.1 - 1 :: f(xs[i])
    ensures !r.0 ==> 0 < r.1 && !f(xs[r.1 - 1])
    decreases |xs|
  {
    if |xs| == 0 then (true, 0)
    else if !f(xs[0]) then (false, 1)
    else
      var rest := ForEach(f, xs[1..]);
      assert forall i | 1 <= i < |xs| :: xs[i] == xs[1..][i - 1];
      (rest.0, rest.1 + 1)
  }

  /* ---------------------------------------------------------------------- */
  /* Assignment                                                              */

  /** One mapping's turn: it assigns when it takes the pair. */
  function Step(m: Mapping, dir: Direction, s: Operators.Sides): Operators.Sides
  {
    if Applicable(m, s) then Mappings.Assign(m, dir, s) else s
  }

  function AssignFrom(ms: seq<Mapping>, dir: Direction, s: Operators.Sides, k: nat): (r: Operators.Sides)
    requires k <= |ms|
    ensures Operators.Ordered(dir, r).1 == Operators.Ordered(dir, s).1
    ensures (forall i | k <= i < |ms| :: !Applicable(ms[i], s)) ==> r == s
    decreases |ms| - k
  {
    if k == |ms| then s
    else AssignFrom(ms, dir, Step(ms[k], dir, s), k + 1)
  }

  /** `mapping_table::assign<dir>(lhs, rhs)`: the mappings that take the
      pair assign in table order, each seeing the writes of those before
      it.  The source object is never modified, and a pair no mapping takes
      is left alone. */
  function Assign(t: Table, dir: Direction, s: Operators.Sides): (r: Operators.Sides)
    ensures Operators.Ordered(dir, r).1 == Operators.Ordered(dir, s).1
    ensures (forall i | 0 <= i < |t.mappings| :: !Applicable(t.mappings[i], s)) ==> r == s
  {
    AssignFrom(t.mappings, dir, s, 0)
  }

  /* ---------------------------------------------------------------------- */
  /* Equality                                                                */

  /** One mapping's verdict in `dir`; a mapping that does not take the pair
      does not object. */
  predicate Verdict(m: Mapping, dir: Direction, s: Operators.Sides)
  {
    Applicable(m, s) ==> Mappings.Equal(m, dir, s)
  }

  /** `mapping_table::equal<dir>(lhs, rhs)` as written: the direction
      parameter is not used, and every mapping compares in its default
      direction, `rhs_to_lhs`. */
  function EqualAsWritten(t: Table, dir: Direction, s: Operators.Sides): (b: bool)
    ensures b == Equal(t, RhsToLhs, s)
  {
    ForEach((m: Mapping) => Verdict(m, RhsToLhs, s), t.mappings).0
  }

  /** The comparison in the direction asked for: the table compares equal
      exactly when every mapping that takes the pair compares equal. */
  function Equal(t: Table, dir: Direction, s: Operators.Sides): (b: bool)
    ensures b <==>
      forall i | 0 <= i < |t.mappings| :: Applicable(t.mappings[i], s) ==> Mappings.Equal(t.mappings[i], dir, s)
  {
    var f := (m: Mapping) => Verdict(m, dir, s);
    assert forall i | 0 <= i < |t.mappings| :: f(t.mappings[i]) == Verdict(t.mappings[i], dir, s);
    ForEach(f, t.mappings).0
  }

  /* ---------------------------------------------------------------------- */
  /* Round trip                                                              */

  /** The mapping reads back whatever it writes in `dir`. */
  ghost predicate RoundTrips(m: Mapping, dir: Direction)
  {
    forall s {:trigger Mappings.Assign(m, dir, s)} | Applicable(m, s) && SourceEnabled(m, dir, s) ::
      Applicable(m, Mappings.Assign(m, dir, s)) && Mappings.Equal(m, dir, Mappings.Assign(m, dir, s))
  }

  /** The enabled states of a mapping's two adapters on a pair. */
  function Flags(m: Mapping, s: Operators.Sides): (bool, bool)
  {
    (AdapterEnabled(m.lhsAdapter, s.lhs), AdapterEnabled(m.rhsAdapter, s.rhs))
  }

  /** Assignments by `n` leave everything `m` looks at alone. */
  ghost predicate Undisturbed(m: Mapping, n: Mapping, dir: Direction)
  {
    forall s {:trigger Mappings.Assign(n, dir, s)} | Applicable(n, s) && Applicable(m, s) ::
      Applicable(m, Mappings.Assign(n, dir, s))
      && Views(m, Mappings.Assign(n, dir, s)) == Views(m, s)
      && Flags(m, Mappings.Assign(n, dir, s)) == Flags(m, s)
  }

  /** A mapping's comparison and its source's enabled state depend only on
      what its adapters see. */
  lemma SameViewsSameVerdict(m: Mapping, dir: Direction, s: Operators.Sides, s': Operators.Sides)
    requires Applicable(m, s) && Applicable(m, s')
    requires Views(m, s) == Views(m, s') && Flags(m, s) == Flags(m, s')
    ensures Mappings.Equal(m, dir, s) == Mappings.Equal(m, dir, s')
    ensures SourceEnabled(m, dir, s) == SourceEnabled(m, dir, s')
  {
  }

  lemma UseUndisturbed(m: Mapping, n: Mapping, dir: Direction, s: Operators.Sides)
    requires Undisturbed(m, n, dir) && Applicable(n, s) && Applicable(m, s)
    ensures Applicable(m, Mappings.Assign(n, dir, s))
    ensures Mappings.Equal(m, dir, Mappings.Assign(n, dir, s)) == Mappings.Equal(m, dir, s)
    ensures SourceEnabled(m, dir, Mappings.Assign(n, dir, s)) == SourceEnabled(m, dir, s)
  {
    SameViewsSameVerdict(m, dir, s, Mappings.Assign(n, dir, s));
  }

  /** Applying `step` for each element of `ms` from position `k` on, in
      order: the shape of the table's `for_each` over its mappings. */
  function Fold<M, S>(ms: seq<M>, step: (M, S) -> S, s: S, k: nat): S
    requires k <= |ms|
    decreases |ms| - k
  {
    if k == |ms| then s else Fold(ms, step, step(ms[k], s), k + 1)
  }

  /** A fold whose every step makes its own element `good`, and keeps every
      other element `good` or `ready` as it was, ends with every element
      `good` when it starts with the elements before `k` good and the rest
      ready. */
  lemma {:induction false} FoldSettles<M, S>(ms: seq<M>, step: (M, S) -> S, ready: (M, S) -> bool,
                                             good: (M, S) -> bool, s: S, k: nat)
    requires k <= |ms|
    requires forall i | k <= i < |ms| :: ready(ms[i], s)
    requires forall i | 0 <= i < k :: good(ms[i], s)
    requires forall j, x | 0 <= j < |ms| && ready(ms[j], x) :: good(ms[j], step(ms[j], x))
    requires forall i, j, x | 0 <= i < |ms| && 0 <= j < |ms| && i != j && ready(ms[j], x) ::
      && (good(ms[i], x) ==> good(ms[i], step(ms[j], x)))
      && (ready(ms[i], x) ==> ready(ms[i], step(ms[j], x)))
    ensures forall i | 0 <= i < |ms| :: good(ms[i], Fold(ms, step, s, k))
    decreases |ms| - k
  {
    if k < |ms| {
      var s' := step(ms[k], s);
      assert forall i | k + 1 <= i < |ms| :: ready(ms[i], s');
      assert forall i | 0 <= i < k + 1 :: good(ms[i], s');
      FoldSettles(ms, step, ready, good, s', k + 1);
    }
  }

  /** The table's assignment is the fold of `Step`. */
  lemma {:induction false} AssignFromIsFold(ms: seq<Mapping>, dir: Direction, step: (Mapping, Operators.Sides) -> Operators.Sides,
                                            s: Operators.Sides, k: nat)
    requires k <= |ms|
    requires forall m, x :: step(m, x) == Step(m, dir, x)
    ensures AssignFrom(ms, dir, s, k) == Fold(ms, step, s, k)
    decreases |ms| - k
  {
    if k < |ms| {
      AssignFromIsFold(ms, dir, step, step(ms[k], s), k + 1);
    }
  }

  /** A mapping that takes the pair with its source enabled and reads back
      what it writes compares equal after its own step. */
  lemma StepSettlesItself(m: Mapping, dir: Direction, s: Operators.Sides)
    requires RoundTrips(m, dir) && Applicable(m, s) && SourceEnabled(m, dir, s)
    ensures Applicable(m, Step(m, dir, s)) && Mappings.Equal(m, dir, Step(m, dir, s))
  {
    assert Step(m, dir, s) == Mappings.Assign(m, dir, s);
  }

  /** A step by `n` leaves a mapping it does not disturb as it was. */
  lemma StepLeavesOthers(m: Mapping, n: Mapping, dir: Direction, s: Operators.Sides)
    requires Undisturbed(m, n, dir) && Applicable(n, s) && Applicable(m, s)
    ensures Applicable(m, Step(n, dir, s))
    ensures Mappings.Equal(m, dir, Step(n, dir, s)) == Mappings.Equal(m, dir, s)
    ensures SourceEnabled(m, dir, Step(n, dir, s)) == SourceEnabled(m, dir, s)
  {
    assert Step(n, dir, s) == Mappings.Assign(n, dir, s);
    UseUndisturbed(m, n, dir, s);
  }

  lemma AssignFromRoundTrips(ms: seq<Mapping>, dir: Direction, s: Operators.Sides, k: nat)
    requires k <= |ms|
    requires forall i | 0 <= i < |ms| :: Applicable(ms[i], s) && RoundTrips(ms[i], dir)
    requires forall i | k <= i < |ms| :: SourceEnabled(ms[i], dir, s)
    requires forall i | 0 <= i < k :: Mappings.Equal(ms[i], dir, s)
    requires forall i, j | 0 <= i < |ms| && 0 <= j < |ms| && i != j :: Undisturbed(ms[i], ms[j], dir)
    ensures forall i | 0 <= i < |ms| ::
      Applicable(ms[i], AssignFrom(ms, dir, s, k)) && Mappings.Equal(ms[i], dir, AssignFrom(ms, dir, s, k))
  {
    var step := (m: Mapping, x: Operators.Sides) => Step(m, dir, x);
    var ready := (m: Mapping, x: Operators.Sides) => Applicable(m, x) && SourceEnabled(m, dir, x);
    var good := (m: Mapping, x: Operators.Sides) => Applicable(m, x) && Mappings.Equal(m, dir, x);
    forall j, x | 0 <= j < |ms| && ready(ms[j], x) ensures good(ms[j], step(ms[j], x)) {
      StepSettlesItself(ms[j], dir, x);
    }
    forall i, j, x | 0 <= i < |ms| && 0 <= j < |ms| && i != j && ready(ms[j], x)
      ensures good(ms[i], x) ==> good(ms[i], step(ms[j], x))
      ensures ready(ms[i], x) ==> ready(ms[i], step(ms[j], x))
    {
      if Applicable(ms[i], x) {
        StepLeavesOthers(ms[i], ms[j], dir, x);
      }
    }
    FoldSettles(ms, step, ready, good, s, k);
    AssignFromIsFold(ms, dir, step, s, k);
  }

  /** When every mapping takes the pair with its source enabled, reads back
      what it writes, and is not disturbed by the others' writes, the table
      compares equal in `dir` after assigning in `dir`. */
  lemma AssignThenEqual(t: Table, dir: Direction, s: Operators.Sides)
    requires forall i | 0 <= i < |t.mappings| ::
      Applicable(t.mappings[i], s) && SourceEnabled(t.mappings[i], dir, s) && RoundTrips(t.mappings[i], dir)
    requires forall i, j | 0 <= i < |t.mappings| && 0 <= j < |t.mappings| && i != j ::
      Undisturbed(t.mappings[i], t.mappings[j], dir)
    ensures Equal(t, dir, Assign(t, dir, s))
  {
    AssignFromRoundTrips(t.mappings, dir, s, 0);
  }

  /** A mapping of two `int` members converted by absolute value. */
  const AbsoluteValue: Mapping :=
    Mapping(FromReader(TInt, Identity(TInt), None), FromReader(TInt, Identity(TInt), None),
            Operators.Cast((v: Value) => if v.Int? && v.i < 0 then Int(-v.i) else v))

  /** The converter is not its own inverse, so after `assign<lhs_to_rhs>`
      of -1 over 0 the rhs holds 1: the comparison in `lhs_to_rhs` holds,
      while the one the table performs, `rhs_to_lhs`, compares -1 with 1. */
  lemma EqualIgnoresDirectionExample()
    ensures var s := Assign(Table([AbsoluteValue]), LhsToRhs, Operators.Sides(Int(-1), Int(0)));
      && s == Operators.Sides(Int(-1), Int(1))
      && Equal(Table([AbsoluteValue]), LhsToRhs, s)
      && !EqualAsWritten(Table([AbsoluteValue]), LhsToRhs, s)
  {
    var t := Table([AbsoluteValue]);
    var s := Operators.Sides(Int(-1), Int(0));
    assert Applicable(AbsoluteValue, s);
    var r := Operators.Sides(Int(-1), Int(1));
    assert Mappings.Assign(AbsoluteValue, LhsToRhs, s) == r;
    assert Step(AbsoluteValue, LhsToRhs, s) == r;
    assert AssignFrom(t.mappings, LhsToRhs, r, 1) == r;
    assert Applicable(AbsoluteValue, r);
    assert Mappings.Equal(AbsoluteValue, LhsToRhs, r);
    assert !Mappings.Equal(AbsoluteValue, RhsToLhs, r);
  }

  /* ---------------------------------------------------------------------- */
  /* Conversion of a single argument                                         */

  /** The adaptee types of the side `dir` writes, in table order. */
  function TargetTypes(ms: seq<Mapping>, dir: Direction): (ts: seq<Type>)
    ensures |ts| == |ms|
    ensures forall i | 0 <= i < |ms| :: ts[i] == TargetAdapter(ms[i], dir).adaptee
  {
    seq(|ms|, i requires 0 <= i < |ms| => TargetAdapter(ms[i], dir).adaptee)
  }

  /** The mapping can give a default for a slot of type `t`. */
  predicate Provides(m: Mapping, dir: Direction, t: Type)
  {
    t != TAny && TargetAdapter(m, dir).adaptee == t
  }

  /** The inner `for_each` of `defaulted_lhs`/`defaulted_rhs`: every mapping
      whose defaulted adaptee has the slot's type overwrites the slot. */
  function Overwrite(ms: seq<Mapping>, dir: Direction, t: Type, acc: Value, i: nat): Value
    requires i <= |ms|
    decreases |ms| - i
  {
    if i == |ms| then acc
    else
      var acc' := if Provides(ms[i], dir, t) then DefaultedAdaptee(TargetAdapter(ms[i], dir)) else acc;
      Overwrite(ms, dir, t, acc', i + 1)
  }

  /** Reference definition: the last mapping that provides the type. */
  function LastProvider(ms: seq<Mapping>, dir: Direction, t: Type): (r: Option<nat>)
    ensures r.Some? ==> r.value < |ms| && Provides(ms[r.value], dir, t)
    ensures r.Some? ==> forall j | r.value < j < |ms| :: !Provides(ms[j], dir, t)
    ensures r.None? ==> forall j | 0 <= j < |ms| :: !Provides(ms[j], dir, t)
    decreases |ms|
  {
    if |ms| == 0 then None
    else if Provides(ms[|ms| - 1], dir, t) then Some(|ms| - 1)
    else LastProvider(ms[..|ms| - 1], dir, t)
  }

  /** With no provider from `i` on, the slot keeps what it holds. */
  lemma {:induction false} OverwriteWithoutProvider(ms: seq<Mapping>, dir: Direction, t: Type, acc: Value, i: nat)
    requires i <= |ms|
    requires forall j | i <= j < |ms| :: !Provides(ms[j], dir, t)
    ensures Overwrite(ms, dir, t, acc, i) == acc
    decreases |ms| - i
  {
    if i < |ms| {
      OverwriteWithoutProvider(ms, dir, t, acc, i + 1);
    }
  }

  /** The provider at `j`, with none after it, decides the slot. */
  lemma {:induction false} OverwriteAtLastProvider(ms: seq<Mapping>, dir: Direction, t: Type, acc: Value, i: nat, j: nat)
    requires i <= j < |ms| && Provides(ms[j], dir, t)
    requires forall k | j < k < |ms| :: !Provides(ms[k], dir, t)
    ensures Overwrite(ms, dir, t, acc, i) == DefaultedAdaptee(TargetAdapter(ms[j], dir))
    decreases |ms| - i
  {
    var acc' := if Provides(ms[i], dir, t) then DefaultedAdaptee(TargetAdapter(ms[i], dir)) else acc;
    assert Overwrite(ms, dir, t, acc, i) == Overwrite(ms, dir, t, acc', i + 1);
    if i < j {
      OverwriteAtLastProvider(ms, dir, t, acc', i + 1, j);
    } else {
      OverwriteWithoutProvider(ms, dir, t, acc', i + 1);
    }
  }

  lemma OverwriteKeepsLast(ms: seq<Mapping>, dir: Direction, t: Type, acc: Value, i: nat)
    requires i <= |ms|
    ensures (forall j | i <= j < |ms| :: !Provides(ms[j], dir, t)) ==> Overwrite(ms, dir, t, acc, i) == acc
    ensures forall j | i <= j < |ms| && Provides(ms[j], dir, t) && (forall k | j < k < |ms| :: !Provides(ms[k], dir, t)) ::
      Overwrite(ms, dir, t, acc, i) == DefaultedAdaptee(TargetAdapter(ms[j], dir))
  {
    if forall j | i <= j < |ms| :: !Provides(ms[j], dir, t) {
      OverwriteWithoutProvider(ms, dir, t, acc, i);
    }
    forall j | i <= j < |ms| && Provides(ms[j], dir, t) && (forall k | j < k < |ms| :: !Provides(ms[k], dir, t))
      ensures Overwrite(ms, dir, t, acc, i) == DefaultedAdaptee(TargetAdapter(ms[j], dir))
    {
      OverwriteAtLastProvider(ms, dir, t, acc, i, j);
    }
  }

  /** The default of one result slot. */
  function SlotDefault(ms: seq<Mapping>, dir: Direction, t: Type): Value
  {
    Overwrite(ms, dir, t, Default(t), 0)
  }

  /** A slot takes the defaulted adaptee of the last mapping with exactly
      the slot's type, and is value-initialised when there is none. */
  lemma SlotDefaultIsLastProvider(ms: seq<Mapping>, dir: Direction, t: Type)
    ensures match LastProvider(ms, dir, t)
            case None => SlotDefault(ms, dir, t) == Default(t)
            case Some(j) => SlotDefault(ms, dir, t) == DefaultedAdaptee(TargetAdapter(ms[j], dir))
  {
    OverwriteKeepsLast(ms, dir, t, Default(t), 0);
  }

  /** The slot types of the result: `unique_derived_types_t` of the adaptee
      types, `derives` standing for `std::is_base_of`. */
  function ResultTypes(t: Table, dir: Direction, derives: (Type, Type) -> bool): seq<Type>
  {
    Concepts.Unique(TargetTypes(t.mappings, dir), derives)
  }

  /** `defaulted_lhs()` / `defaulted_rhs()` of the table. */
  function DefaultedTargets(t: Table, dir: Direction, derives: (Type, Type) -> bool): (r: seq<Value>)
    ensures |r| == |ResultTypes(t, dir, derives)| <= |t.mappings|
  {
    var ts := ResultTypes(t, dir, derives);
    seq(|ts|, k requires 0 <= k < |ts| => SlotDefault(t.mappings, dir, ts[k]))
  }

  /** The value in a result slot after the table has assigned the argument
      into it. */
  function Fill(t: Table, dir: Direction, slot: Value, arg: Value): Value
  {
    Operators.Ordered(dir, Assign(t, dir, Operators.Place(dir, slot, arg))).0
  }

  /** `mapping_table::operator()(arg)` converting in `dir`: each defaulted
      slot is assigned from the argument; a single slot is returned on its
      own, several as a tuple. */
  function Convert(t: Table, dir: Direction, arg: Value, derives: (Type, Type) -> bool): (r: Value)
    ensures var d := DefaultedTargets(t, dir, derives);
      |d| != 1 ==> r.Record? && r.name == TupleName && |r.fields| == |d|
                   && forall k | 0 <= k < |d| :: r.fields[k] == Fill(t, dir, d[k], arg)
    ensures var d := DefaultedTargets(t, dir, derives);
      |d| == 1 ==> r == Fill(t, dir, d[0], arg)
  {
    var d := DefaultedTargets(t, dir, derives);
    var slots := seq(|d|, k requires 0 <= k < |d| => Fill(t, dir, d[k], arg));
    if |slots| == 1 then slots[0] else Record(TupleName, slots)
  }

  /** The result's slot `k`: the value itself when there is one slot, the
      tuple's element otherwise. */
  function Slot(t: Table, dir: Direction, arg: Value, derives: (Type, Type) -> bool, k: nat): Value
    requires k < |DefaultedTargets(t, dir, derives)|
  {
    var r := Convert(t, dir, arg, derives);
    if |DefaultedTargets(t, dir, derives)| == 1 then r else r.fields[k]
  }

  /** Every slot of the converted result compares equal to the argument in
      the direction of the conversion, when the mappings taking the slot and
      the argument meet the conditions of the table's round trip. */
  lemma ConvertThenEqual(t: Table, dir: Direction, arg: Value, derives: (Type, Type) -> bool, k: nat)
    requires k < |DefaultedTargets(t, dir, derives)|
    requires var s := Operators.Place(dir, DefaultedTargets(t, dir, derives)[k], arg);
      forall i | 0 <= i < |t.mappings| ::
        Applicable(t.mappings[i], s) && SourceEnabled(t.mappings[i], dir, s) && RoundTrips(t.mappings[i], dir)
    requires forall i, j | 0 <= i < |t.mappings| && 0 <= j < |t.mappings| && i != j ::
      Undisturbed(t.mappings[i], t.mappings[j], dir)
    ensures Equal(t, dir, Operators.Place(dir, Slot(t, dir, arg, derives, k), arg))
  {
    var d := DefaultedTargets(t, dir, derives);
    var s := Operators.Place(dir, d[k], arg);
    AssignThenEqual(t, dir, s);
    var a := Assign(t, dir, s);
    Operators.OrderedIsBijection(dir, a, d[k], arg);
    Operators.OrderedIsBijection(dir, s, d[k], arg);
    assert Slot(t, dir, arg, derives, k) == Fill(t, dir, d[k], arg) == Operators.Ordered(dir, a).0;
    assert Operators.Place(dir, Slot(t, dir, arg, derives, k), arg) == a;
  }

  /** A slot no mapping takes together with the argument keeps its default. */
  lemma UntouchedSlotKeepsDefault(t: Table, dir: Direction, slot: Value, arg: Value)
    requires forall i | 0 <= i < |t.mappings| :: !Applicable(t.mappings[i], Operators.Place(dir, slot, arg))
    ensures Fill(t, dir, slot, arg) == slot
  {
    Operators.OrderedIsBijection(dir, Operators.Sides(slot, slot), slot, arg);
  }

  /** A table of one mapping converts like the mapping itself. */
  lemma SingleMappingConvertsAlone(m: Mapping, arg: Value, derives: (Type, Type) -> bool)
    requires m.rhsAdapter.adaptee != TAny
    requires Applicable(m, Operators.Sides(arg, DefaultedAdaptee(m.rhsAdapter)))
    ensures Convert(Table([m]), LhsToRhs, arg, derives) == Mappings.ConvertLhs(m, arg)
  {
    var t := Table([m]);
    var ts := TargetTypes(t.mappings, LhsToRhs);
    assert ts == [m.rhsAdapter.adaptee];
    assert ts[1..] == [];
    assert ResultTypes(t, LhsToRhs, derives) == ts;
    SlotDefaultIsLastProvider(t.mappings, LhsToRhs, m.rhsAdapter.adaptee);
    var d := DefaultedTargets(t, LhsToRhs, derives);
    assert d == [DefaultedAdaptee(m.rhsAdapter)];
    var s := Operators.Sides(arg, DefaultedAdaptee(m.rhsAdapter));
    var r := Mappings.Assign(m, LhsToRhs, s);
    assert Step(m, LhsToRhs, s) == r;
    assert AssignFrom(t.mappings, LhsToRhs, r, 1) == r;
  }

  /** Some mapping's adapter on the side `dir` writes has a known adaptee
      type (`adaptee_type_known`). */
  predicate KnownTarget(t: Table, dir: Direction)
  {
    exists i | 0 <= i < |t.mappings| :: TargetAdapter(t.mappings[i], dir).adaptee != TAny
  }

  function SideAdapters(t: Table, lhsSide: bool): (r: seq<Adapter>)
    ensures |r| == |t.mappings|
    ensures forall i | 0 <= i < |r| :: r[i] == (if lhsSide then t.mappings[i].lhsAdapter else t.mappings[i].rhsAdapter)
  {
    seq(|t.mappings|, i requires 0 <= i < |t.mappings| =>
      if lhsSide then t.mappings[i].lhsAdapter else t.mappings[i].rhsAdapter)
  }

  /** Which `operator()` overload takes the argument: the lhs one (converting
      `lhs_to_rhs`) when more lhs adapters than rhs adapters take it, the rhs
      one when fewer, none when the counts tie; an overload whose result
      types are all unknown does not exist. */
  function Overload(t: Table, arg: Value): (r: Option<Direction>)
    // the chosen source side takes the argument through strictly more
    // adapters than the other side, and the result type is known
    ensures r == Some(LhsToRhs) ==>
      Concepts.AdaptableCount(arg, SideAdapters(t, true)) > Concepts.AdaptableCount(arg, SideAdapters(t, false))
    ensures r == Some(RhsToLhs) ==>
      Concepts.AdaptableCount(arg, SideAdapters(t, true)) < Concepts.AdaptableCount(arg, SideAdapters(t, false))
    ensures r.Some? ==> KnownTarget(t, r.value)
    // a tie selects no overload
    ensures Concepts.AdaptableCount(arg, SideAdapters(t, true)) == Concepts.AdaptableCount(arg, SideAdapters(t, false))
            ==> r.None?
  {
    var nl := Concepts.AdaptableCount(arg, SideAdapters(t, true));
    var nr := Concepts.AdaptableCount(arg, SideAdapters(t, false));
    if nl > nr && KnownTarget(t, LhsToRhs) then Some(LhsToRhs)
    else if nl < nr && KnownTarget(t, RhsToLhs) then Some(RhsToLhs)
    else None
  }

  /** `mapping_table::operator()(arg)`. */
  function Call(t: Table, arg: Value, derives: (Type, Type) -> bool): (r: Option<Value>)
    ensures r.Some? <==> Overload(t, arg).Some?
    // the result has one slot per result type of the chosen direction: a
    // tuple of them, or the value itself when there is one
    ensures r.Some? ==> var d := DefaultedTargets(t, Overload(t, arg).value, derives);
      |d| != 1 ==> r.value.Record? && |r.value.fields| == |d|
  {
    match Overload(t, arg)
    case Some(dir) => Some(Convert(t, dir, arg, derives))
    case None => None
  }

  /** No adapter taking the argument makes the count zero. */
  lemma CountNone(arg: Value, adapters: seq<Adapter>)
    requires forall i | 0 <= i < |adapters| :: !AdapterAccepts(adapters[i], arg)
    ensures Concepts.AdaptableCount(arg, adapters) == 0
  {
  }

  /** One adapter taking the argument makes the count positive. */
  lemma CountSome(arg: Value, adapters: seq<Adapter>, i: nat)
    requires i < |adapters| && AdapterAccepts(adapters[i], arg)
    ensures Concepts.AdaptableCount(arg, adapters) > 0
  {
  }

  /** An argument that some lhs adapter and no rhs adapter takes selects the
      lhs overload, which converts to the rhs types. */
  lemma CallTakesLhs(t: Table, arg: Value)
    requires exists i | 0 <= i < |t.mappings| :: AdapterAccepts(t.mappings[i].lhsAdapter, arg)
    requires forall i | 0 <= i < |t.mappings| :: !AdapterAccepts(t.mappings[i].rhsAdapter, arg)
    requires KnownTarget(t, LhsToRhs)
    ensures Overload(t, arg) == Some(LhsToRhs)
  {
    var i :| 0 <= i < |t.mappings| && AdapterAccepts(t.mappings[i].lhsAdapter, arg);
    CountSome(arg, SideAdapters(t, true), i);
    CountNone(arg, SideAdapters(t, false));
  }

  /** An argument that some rhs adapter and no lhs adapter takes selects the
      rhs overload, which converts to the lhs types. */
  lemma CallTakesRhs(t: Table, arg: Value)
    requires exists i | 0 <= i < |t.mappings| :: AdapterAccepts(t.mappings[i].rhsAdapter, arg)
    requires forall i | 0 <= i < |t.mappings| :: !AdapterAccepts(t.mappings[i].lhsAdapter, arg)
    requires KnownTarget(t, RhsToLhs)
    ensures Overload(t, arg) == Some(RhsToLhs)
  {
    var i :| 0 <= i < |t.mappings| && AdapterAccepts(t.mappings[i].rhsAdapter, arg);
    CountSome(arg, SideAdapters(t, false), i);
    CountNone(arg, SideAdapters(t, true));
  }

  /** An argument every adapter on both sides takes is ambiguous: no
      overload is selected. */
  lemma CallRejectsTie(t: Table, arg: Value)
    requires forall i | 0 <= i < |t.mappings| ::
      AdapterAccepts(t.mappings[i].lhsAdapter, arg) && AdapterAccepts(t.mappings[i].rhsAdapter, arg)
    ensures Overload(t, arg).None?
  {
    var l := SideAdapters(t, true);
    var r := SideAdapters(t, false);
    assert forall j | 0 <= j < |l| :: AdapterAccepts(l[j], arg);
    assert forall j | 0 <= j < |r| :: AdapterAccepts(r[j], arg);
  }

  /** Overload selection respects the member's class: with `member(&A::x)`
      on the lhs and `member(&B::x)` on the rhs, where `A` and `B` have the
      same data members, an `A` takes only the lhs overload and a `B` only
      the rhs one. */
  lemma OverloadByClassExample()
    ensures var ta, tb := TRecord("A", [TInt]), TRecord("B", [TInt]);
      var t := Table([Mapping(FromReader(ta, Member(ta, 0), None), FromReader(tb, Member(tb, 0), None),
                              Operators.IdentityConverter)]);
      && Overload(t, Record("A", [Int(1)])) == Some(LhsToRhs)
      && Overload(t, Record("B", [Int(1)])) == Some(RhsToLhs)
  {
    var ta, tb := TRecord("A", [TInt]), TRecord("B", [TInt]);
    var t := Table([Mapping(FromReader(ta, Member(ta, 0), None), FromReader(tb, Member(tb, 0), None),
                            Operators.IdentityConverter)]);
    var x, y := Record("A", [Int(1)]), Record("B", [Int(1)]);
    assert OfClass(x, ta) && !OfClass(x, tb);
    assert OfClass(y, tb) && !OfClass(y, ta);
    assert t.mappings[0].rhsAdapter.adaptee != TAny;
    assert t.mappings[0].lhsAdapter.adaptee != TAny;
    CallTakesLhs(t, x);
    CallTakesRhs(t, y);
  }
}
