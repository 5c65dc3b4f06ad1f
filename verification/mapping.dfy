/**
 * A single mapping (libconvertible/convertible/mapping.hxx): an lhs adapter,
 * an rhs adapter and a converter.  Assignment in a direction writes the
 * target object's adapted part from the source object's adapted part;
 * equality compares the two adapted parts.  Adapters that report themselves
 * disabled (an empty `maybe`) suppress the assignment and take part in the
 * comparison only through their enabled state.
 */
module Mappings {
  import opened Common
  import opened Values
  import opened Adapters
  import Operators

  datatype Mapping = Mapping(lhsAdapter: Adapter, rhsAdapter: Adapter, conv: Operators.Converter)

  /** The adapter on the side a direction writes. */
  function TargetAdapter(m: Mapping, dir: Direction): Adapter
  {
    if dir == RhsToLhs then m.lhsAdapter else m.rhsAdapter
  }

  /** The adapter on the side a direction reads. */
  function SourceAdapter(m: Mapping, dir: Direction): Adapter
  {
    if dir == RhsToLhs then m.rhsAdapter else m.lhsAdapter
  }

  /** Both adapters take their objects (the mapping's `assign` and `equal`
      are viable for the pair). */
  predicate Applicable(m: Mapping, s: Operators.Sides)
  {
    View(m.lhsAdapter, s.lhs).Some? && View(m.rhsAdapter, s.rhs).Some?
  }

  /** The adapted parts of both objects. */
  function Views(m: Mapping, s: Operators.Sides): Operators.Sides
    requires Applicable(m, s)
  {
    Operators.Sides(View(m.lhsAdapter, s.lhs).value, View(m.rhsAdapter, s.rhs).value)
  }

  predicate SourceEnabled(m: Mapping, dir: Direction, s: Operators.Sides)
  {
    AdapterEnabled(SourceAdapter(m, dir), Operators.Ordered(dir, s).1)
  }

  predicate TargetEnabled(m: Mapping, dir: Direction, s: Operators.Sides)
  {
    AdapterEnabled(TargetAdapter(m, dir), Operators.Ordered(dir, s).0)
  }

  /** The target's adapted part after the operator-level assignment. */
  function Written(m: Mapping, dir: Direction, s: Operators.Sides): Value
    requires Applicable(m, s)
  {
    Operators.Ordered(dir, Operators.Assign(dir, Views(m, s), m.conv)).0
  }

  /** `mapping::assign<dir>(lhs, rhs)`: nothing happens when the source's
      adapter is disabled; otherwise the target's adapted part is assigned
      from the source's adapted part through the converter.  The source
      object is never modified. */
  function Assign(m: Mapping, dir: Direction, s: Operators.Sides): (r: Operators.Sides)
    requires Applicable(m, s)
    ensures Operators.Ordered(dir, r).1 == Operators.Ordered(dir, s).1
    ensures !SourceEnabled(m, dir, s) ==> r == s
    ensures SourceEnabled(m, dir, s) && Update(TargetAdapter(m, dir), Operators.Ordered(dir, s).0, Written(m, dir, s)).Some? ==>
              Operators.Ordered(dir, r).0 == Update(TargetAdapter(m, dir), Operators.Ordered(dir, s).0, Written(m, dir, s)).value
  {
    if !SourceEnabled(m, dir, s) then s
    else
      var (to, from) := Operators.Ordered(dir, s);
      var to' := Update(TargetAdapter(m, dir), to, Written(m, dir, s)).GetOr(to);
      Operators.Place(dir, to', from)
  }

  /** `mapping::equal<dir>(lhs, rhs)`: two sides whose adapters disagree on
      being enabled are unequal, two disabled sides are equal, and two
      enabled sides compare their adapted parts. */
  function Equal(m: Mapping, dir: Direction, s: Operators.Sides): (b: bool)
    requires Applicable(m, s)
    // equal sides are enabled alike, and, when enabled, their adapted parts
    // compare equal
    ensures b ==> AdapterEnabled(m.lhsAdapter, s.lhs) == AdapterEnabled(m.rhsAdapter, s.rhs)
    ensures b && AdapterEnabled(m.lhsAdapter, s.lhs) ==> Operators.Equal(dir, Views(m, s), m.conv)
    // two disabled sides are equal, whatever they hold
    ensures !AdapterEnabled(m.lhsAdapter, s.lhs) && !AdapterEnabled(m.rhsAdapter, s.rhs) ==> b
  {
    var le := AdapterEnabled(m.lhsAdapter, s.lhs);
    var re := AdapterEnabled(m.rhsAdapter, s.rhs);
    if le != re then false
    else if !le then true
    else Operators.Equal(dir, Views(m, s), m.conv)
  }

  /** The enabled states decide the comparison unless both sides are
      enabled. */
  lemma EqualFollowsEnabled(m: Mapping, dir: Direction, s: Operators.Sides)
    requires Applicable(m, s)
    ensures AdapterEnabled(m.lhsAdapter, s.lhs) != AdapterEnabled(m.rhsAdapter, s.rhs) ==> !Equal(m, dir, s)
    ensures !AdapterEnabled(m.lhsAdapter, s.lhs) && !AdapterEnabled(m.rhsAdapter, s.rhs) ==> Equal(m, dir, s)
    ensures AdapterEnabled(m.lhsAdapter, s.lhs) && AdapterEnabled(m.rhsAdapter, s.rhs) ==>
              (Equal(m, dir, s) <==> Operators.Equal(dir, Views(m, s), m.conv))
  {
  }

  /** After `assign<dir>` from an enabled source, the mapping compares equal
      in the same direction exactly when the written target is enabled,
      provided the operator-level round trip holds for the adapted parts and
      the target adapter reads back what it wrote. */
  lemma AssignThenEqual(m: Mapping, dir: Direction, s: Operators.Sides)
    requires Applicable(m, s) && SourceEnabled(m, dir, s)
    requires Operators.LeafRoundTrip(m.conv)
    requires Operators.Fits(dir, Operators.Ordered(dir, Views(m, s)).0, Operators.Ordered(dir, Views(m, s)).1, m.conv)
    requires ReadsBack(TargetAdapter(m, dir), Operators.Ordered(dir, s).0, Written(m, dir, s))
    ensures Applicable(m, Assign(m, dir, s))
    ensures Equal(m, dir, Assign(m, dir, s)) <==> TargetEnabled(m, dir, Assign(m, dir, s))
  {
    var r := Assign(m, dir, s);
    Operators.AssignThenEqual(dir, Views(m, s), m.conv);
    assert Views(m, r) == Operators.Assign(dir, Views(m, s), m.conv);
  }

  /** `mapping::operator()(lhs)`: an rhs made by assigning the lhs into the
      rhs adapter's defaulted adaptee. */
  function ConvertLhs(m: Mapping, lhs: Value): (rhs: Value)
    requires m.rhsAdapter.adaptee != TAny
    requires Applicable(m, Operators.Sides(lhs, DefaultedAdaptee(m.rhsAdapter)))
    ensures !AdapterEnabled(m.lhsAdapter, lhs) ==> rhs == DefaultedAdaptee(m.rhsAdapter)
    // from an enabled lhs, the rhs adapter then designates the converted part
    ensures var s := Operators.Sides(lhs, DefaultedAdaptee(m.rhsAdapter));
      SourceEnabled(m, LhsToRhs, s) && ReadsBack(m.rhsAdapter, s.rhs, Written(m, LhsToRhs, s)) ==>
        View(m.rhsAdapter, rhs) == Some(Written(m, LhsToRhs, s))
  {
    Assign(m, LhsToRhs, Operators.Sides(lhs, DefaultedAdaptee(m.rhsAdapter))).rhs
  }

  /** `mapping::operator()(rhs)`: an lhs made by assigning the rhs into the
      lhs adapter's defaulted adaptee. */
  function ConvertRhs(m: Mapping, rhs: Value): (lhs: Value)
    requires m.lhsAdapter.adaptee != TAny
    requires Applicable(m, Operators.Sides(DefaultedAdaptee(m.lhsAdapter), rhs))
    ensures !AdapterEnabled(m.rhsAdapter, rhs) ==> lhs == DefaultedAdaptee(m.lhsAdapter)
    // from an enabled rhs, the lhs adapter then designates the converted part
    ensures var s := Operators.Sides(DefaultedAdaptee(m.lhsAdapter), rhs);
      SourceEnabled(m, RhsToLhs, s) && ReadsBack(m.lhsAdapter, s.lhs, Written(m, RhsToLhs, s)) ==>
        View(m.lhsAdapter, lhs) == Some(Written(m, RhsToLhs, s))
  {
    Assign(m, RhsToLhs, Operators.Sides(DefaultedAdaptee(m.lhsAdapter), rhs)).lhs
  }

  /** What `ConvertLhs` produces compares equal to its argument, under the
      conditions of the round trip. */
  lemma ConvertLhsRoundTrip(m: Mapping, lhs: Value)
    requires m.rhsAdapter.adaptee != TAny
    requires var s := Operators.Sides(lhs, DefaultedAdaptee(m.rhsAdapter));
      && Applicable(m, s) && SourceEnabled(m, LhsToRhs, s)
      && Operators.LeafRoundTrip(m.conv)
      && Operators.Fits(LhsToRhs, Views(m, s).rhs, Views(m, s).lhs, m.conv)
      && ReadsBack(m.rhsAdapter, s.rhs, Written(m, LhsToRhs, s))
    requires AdapterEnabled(m.rhsAdapter, ConvertLhs(m, lhs))
    ensures Applicable(m, Operators.Sides(lhs, ConvertLhs(m, lhs)))
    ensures Equal(m, LhsToRhs, Operators.Sides(lhs, ConvertLhs(m, lhs)))
  {
    AssignThenEqual(m, LhsToRhs, Operators.Sides(lhs, DefaultedAdaptee(m.rhsAdapter)));
  }

  /** What `ConvertRhs` produces compares equal to its argument, under the
      conditions of the round trip. */
  lemma ConvertRhsRoundTrip(m: Mapping, rhs: Value)
    requires m.lhsAdapter.adaptee != TAny
    requires var s := Operators.Sides(DefaultedAdaptee(m.lhsAdapter), rhs);
      && Applicable(m, s) && SourceEnabled(m, RhsToLhs, s)
      && Operators.LeafRoundTrip(m.conv)
      && Operators.Fits(RhsToLhs, Views(m, s).lhs, Views(m, s).rhs, m.conv)
      && ReadsBack(m.lhsAdapter, s.lhs, Written(m, RhsToLhs, s))
    requires AdapterEnabled(m.lhsAdapter, ConvertRhs(m, rhs))
    ensures Applicable(m, Operators.Sides(ConvertRhs(m, rhs), rhs))
    ensures Equal(m, RhsToLhs, Operators.Sides(ConvertRhs(m, rhs), rhs))
  {
    AssignThenEqual(m, RhsToLhs, Operators.Sides(DefaultedAdaptee(m.lhsAdapter), rhs));
  }

  /* ---------------------------------------------------------------------- */
  /* A mapping used as the converter of another mapping                      */

  /** The new target when `m` is asked to assign in `dir` (unchanged when
      `m` does not take the objects). */
  function AssignedTarget(m: Mapping, dir: Direction, lhs: Value, rhs: Value): Value
  {
    var s := Operators.Sides(lhs, rhs);
    if Applicable(m, s) then Operators.Ordered(dir, Assign(m, dir, s)).0
    else Operators.Ordered(dir, s).0
  }

  function EqualWhereApplicable(m: Mapping, dir: Direction, lhs: Value, rhs: Value): bool
  {
    var s := Operators.Sides(lhs, rhs);
    Applicable(m, s) && Equal(m, dir, s)
  }

  /** `m` as a converter: leaf assignment and comparison are handed to `m`. */
  function AsConverter(m: Mapping): Operators.Converter
  {
    Operators.Delegate((dir, lhs, rhs) => AssignedTarget(m, dir, lhs, rhs),
                       (dir, lhs, rhs) => EqualWhereApplicable(m, dir, lhs, rhs))
  }

  /** The operators hand a leaf pair to a mapping converter, direction
      included: assignment yields the target `m.assign<dir>` writes, and
      equality is `m.equal<dir>`. */
  lemma NestedMappingDelegates(m: Mapping, dir: Direction, to: Value, from: Value)
    requires !Operators.Elementwise(to, from)
    requires Applicable(m, Operators.Place(dir, to, from))
    ensures Operators.AssignInto(dir, to, from, AsConverter(m))
         == Operators.Ordered(dir, Assign(m, dir, Operators.Place(dir, to, from))).0
    ensures Operators.Matches(dir, to, from, AsConverter(m)) == Equal(m, dir, Operators.Place(dir, to, from))
  {
  }
}
