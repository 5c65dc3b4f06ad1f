/**
 * The element-wise operators of the split headers
 * (libconvertible/convertible/operators.hxx): assignment and equality between
 * a target and a source object, recursing into sequence containers and
 * map-like containers and applying a converter at the leaves.
 *
 * Which side is the target is fixed by the direction: `RhsToLhs` writes the
 * lhs from the rhs, `LhsToRhs` writes the rhs from the lhs.  The operators
 * below work on the ordered (target, source) pair; the direction is kept only
 * to hand it on to a mapping used as a converter.
 */
module Operators {
  import opened Common
  import opened Values

  /** What a mapping is applied to: its left-hand and right-hand objects. */
  datatype Sides = Sides(lhs: Value, rhs: Value)

  /** The converter applied at the leaves.  `Cast` is an ordinary converter
      (`converter::identity` or a user callable, applied through
      `explicit_cast`); `Delegate` is a mapping used as a converter, to which
      leaf assignment and comparison are handed on together with the
      direction, as (direction, lhs, rhs). */
  datatype Converter =
    | Cast(f: Value -> Value)
    | Delegate(assign: (Direction, Value, Value) -> Value,
               equal: (Direction, Value, Value) -> bool)

  /** `converter::identity`. */
  const IdentityConverter: Converter := Cast(v => v)

  /** `ordered_lhs_rhs`: the (target, source) pair of `s` for `dir`. */
  function Ordered(dir: Direction, s: Sides): (Value, Value)
  {
    if dir == RhsToLhs then (s.lhs, s.rhs) else (s.rhs, s.lhs)
  }

  /** Puts a (target, source) pair back on its sides. */
  function Place(dir: Direction, to: Value, from: Value): Sides
  {
    if dir == RhsToLhs then Sides(to, from) else Sides(from, to)
  }

  /** Ordering is a bijection between the sides and the (target, source)
      pair, and the two directions order the same sides oppositely. */
  lemma OrderedIsBijection(dir: Direction, s: Sides, to: Value, from: Value)
    ensures Place(dir, Ordered(dir, s).0, Ordered(dir, s).1) == s
    ensures Ordered(dir, Place(dir, to, from)) == (to, from)
    ensures Ordered(dir.Reverse(), s) == (Ordered(dir, s).1, Ordered(dir, s).0)
  {
  }

  /* ---------------------------------------------------------------------- */
  /* Leaves                                                                  */

  /** The scalar `assign`: `to = cast(converter)(from)`, or, when the
      converter is a mapping, the mapping's own `assign<dir>`.  Yields the new
      target. */
  function AssignLeaf(dir: Direction, to: Value, from: Value, c: Converter): Value
  {
    match c
    case Cast(f) => f(from)
    case Delegate(a, _) =>
      var s := Place(dir, to, from);
      a(dir, s.lhs, s.rhs)
  }

  /** The scalar `equal`: `to == cast(converter)(from)`, or the mapping's own
      `equal<dir>`. */
  predicate MatchesLeaf(dir: Direction, to: Value, from: Value, c: Converter)
  {
    match c
    case Cast(f) => to == f(from)
    case Delegate(_, e) =>
      var s := Place(dir, to, from);
      e(dir, s.lhs, s.rhs)
  }

  /** A pair handled element by element rather than by the scalar overload. */
  predicate Elementwise(to: Value, from: Value)
  {
    (to.Seq? && from.Seq?) || (to.Dict? && from.Dict?)
  }

  /* ---------------------------------------------------------------------- */
  /* Assignment                                                              */

  /** The target of a sequence assignment once a resizable target has been
      resized to the source's length. */
  function Presized(to: Value, from: Value): (t: Value)
    requires to.Seq? && from.Seq?
    ensures t.Seq? && t.resizable == to.resizable && t.elem == to.elem
  {
    if to.resizable then Resize(to, |from.items|) else to
  }

  /** `operators::assign`, all three overloads: the new target after
      assigning `from` into `to`. */
  function AssignInto(dir: Direction, to: Value, from: Value, c: Converter): (r: Value)
    decreases from
    // a sequence target keeps its kind; a resizable one ends with the
    // source's length, a fixed one keeps its own
    ensures to.Seq? && from.Seq? ==>
      r.Seq? && r.resizable == to.resizable && r.elem == to.elem
      && |r.items| == (if to.resizable then |from.items| else |to.items|)
    // the positions both sides have are assigned element-wise, a new
    // position of a grown vector starting from a value-initialised element
    ensures to.Seq? && from.Seq? ==>
      forall i | 0 <= i < |r.items| && i < |from.items| ::
        r.items[i] == AssignInto(dir, if i < |to.items| then to.items[i] else Default(to.elem), from.items[i], c)
    // positions of a fixed target beyond the source's length are untouched
    ensures to.Seq? && from.Seq? && !to.resizable ==>
      forall i | |from.items| <= i < |to.items| :: r.items[i] == to.items[i]
    // a map target is cleared and receives exactly the source's keys, in
    // order, each with the source's value assigned into a value-initialised one
    ensures to.Dict? && from.Dict? ==>
      r.Dict? && r.mapped == to.mapped && Keys(r.entries) == Keys(from.entries)
      && forall i | 0 <= i < |r.entries| ::
           r.entries[i].val == AssignInto(dir, Default(to.mapped), from.entries[i].val, c)
    ensures !Elementwise(to, from) ==> r == AssignLeaf(dir, to, from, c)
  {
    if to.Seq? && from.Seq? then
      var t := Presized(to, from);
      var n := Min(|t.items|, |from.items|);
      t.(items := seq(|t.items|, i requires 0 <= i < |t.items| =>
                        if i < n then AssignInto(dir, t.items[i], from.items[i], c) else t.items[i]))
    else if to.Dict? && from.Dict? then
      to.(entries := seq(|from.entries|, i requires 0 <= i < |from.entries| =>
                           Entry(from.entries[i].key,
                                 AssignInto(dir, Default(to.mapped), from.entries[i].val, c))))
    else
      AssignLeaf(dir, to, from, c)
  }

  /** `operators::assign<dir>(lhs, rhs, converter)`: the target side is
      written from the source side; the source side is left as it was. */
  function Assign(dir: Direction, s: Sides, c: Converter): (r: Sides)
    ensures Ordered(dir, r).1 == Ordered(dir, s).1
    ensures Ordered(dir, r).0 == AssignInto(dir, Ordered(dir, s).0, Ordered(dir, s).1, c)
  {
    var (to, from) := Ordered(dir, s);
    Place(dir, AssignInto(dir, to, from, c), from)
  }

  /* ---------------------------------------------------------------------- */
  /* Equality                                                                */

  /** The size guards of the sequence `equal`: a fixed target longer than a
      resizable source, a resizable target shorter than a fixed source, and
      two resizable sides of different lengths compare unequal. */
  predicate SizesCompatible(to: Value, from: Value)
    requires to.Seq? && from.Seq?
  {
    && !(!to.resizable && from.resizable && |to.items| > |from.items|)
    && !(to.resizable && !from.resizable && |to.items| < |from.items|)
    && !(to.resizable && from.resizable && |to.items| != |from.items|)
  }

  /** A symmetric reading of the guards: a fixed-size side is never longer
      than a resizable side, and two resizable sides have the same length. */
  predicate Proportionate(a: Value, b: Value)
    requires a.Seq? && b.Seq?
  {
    && (a.resizable && b.resizable ==> |a.items| == |b.items|)
    && (!a.resizable && b.resizable ==> |a.items| <= |b.items|)
    && (a.resizable && !b.resizable ==> |b.items| <= |a.items|)
  }

  /** The guards do not depend on which side is the target. */
  lemma SizeGuardsIgnoreDirection(s: Sides)
    requires s.lhs.Seq? && s.rhs.Seq?
    ensures SizesCompatible(Ordered(LhsToRhs, s).0, Ordered(LhsToRhs, s).1)
        <==> Proportionate(s.lhs, s.rhs)
    ensures SizesCompatible(Ordered(RhsToLhs, s).0, Ordered(RhsToLhs, s).1)
        <==> Proportionate(s.lhs, s.rhs)
  {
  }

  /** `operators::equal`, corrected: after the size guards, sequences compare
      at the positions both sides have (the positions an assignment writes);
      map-like containers have the same keys in the same order and equal
      values under those keys. */
  function Matches(dir: Direction, to: Value, from: Value, c: Converter): (b: bool)
    decreases from
    ensures b && to.Seq? && from.Seq? ==> Proportionate(to, from)
    ensures b && to.Dict? && from.Dict? ==> Keys(to.entries) == Keys(from.entries)
  {
    if to.Seq? && from.Seq? then
      SizesCompatible(to, from)
      && forall i | 0 <= i < |to.items| && i < |from.items| ::
           Matches(dir, to.items[i], from.items[i], c)
    else if to.Dict? && from.Dict? then
      |to.entries| == |from.entries|
      && forall i | 0 <= i < |from.entries| ::
           to.entries[i].key == from.entries[i].key
           && Matches(dir, to.entries[i].val, from.entries[i].val, c)
    else
      MatchesLeaf(dir, to, from, c)
  }

  /** `operators::equal<dir>(lhs, rhs, converter)`, corrected. */
  function Equal(dir: Direction, s: Sides, c: Converter): (b: bool)
    ensures b && s.lhs.Seq? && s.rhs.Seq? ==> Proportionate(s.lhs, s.rhs)
    ensures b && s.lhs.Dict? && s.rhs.Dict? ==> Keys(s.lhs.entries) == Keys(s.rhs.entries)
  {
    Matches(dir, Ordered(dir, s).0, Ordered(dir, s).1, c)
  }

  /* ---------------------------------------------------------------------- */
  /* Equality as written                                                     */

  /** `operators::equal<dir>(lhs, rhs, converter)` as written: after the size
      guards, `std::equal` walks every element of the lhs against the rhs at
      the same position, stopping at the first mismatch.  `None` means the
      walk read past the end of the rhs (undefined behaviour). */
  function EqualAsWritten(dir: Direction, lhs: Value, rhs: Value, c: Converter): (r: Option<bool>)
    decreases lhs, 1, 0
    // only a walk over elements can read past the end of the rhs
    ensures r.None? ==> Elementwise(lhs, rhs)
    // sequences called equal passed the size guards
    ensures lhs.Seq? && rhs.Seq? && r == Some(true) ==> Proportionate(lhs, rhs)
    // an empty lhs map equals every map: there is no size check
    ensures lhs.Dict? && rhs.Dict? && |lhs.entries| == 0 ==> r == Some(true)
  {
    if lhs.Seq? && rhs.Seq? then
      var (to, from) := Ordered(dir, Sides(lhs, rhs));
      if !SizesCompatible(to, from) then Some(false)
      else WalkItems(dir, lhs, rhs, c, 0)
    else if lhs.Dict? && rhs.Dict? then
      WalkEntries(dir, lhs, rhs, c, 0)
    else
      var (to, from) := Ordered(dir, Sides(lhs, rhs));
      Some(MatchesLeaf(dir, to, from, c))
  }

  /** `std::equal` over sequence elements from position `i` on. */
  function WalkItems(dir: Direction, lhs: Value, rhs: Value, c: Converter, i: nat): (r: Option<bool>)
    requires lhs.Seq? && rhs.Seq? && i <= |lhs.items|
    decreases lhs, 0, |lhs.items| - i
    // a walk over an lhs longer than the rhs never answers "equal": it stops
    // at a mismatch or reads past the end
    ensures i <= |rhs.items| < |lhs.items| ==> r != Some(true)
  {
    if i == |lhs.items| then Some(true)
    else if i >= |rhs.items| then None
    else
      match EqualAsWritten(dir, lhs.items[i], rhs.items[i], c)
      case None => None
      case Some(b) => if b then WalkItems(dir, lhs, rhs, c, i + 1) else Some(false)
  }

  /** `std::equal` over map entries from position `i` on: keys compared with
      `==`, then the mapped values recursively. */
  function WalkEntries(dir: Direction, lhs: Value, rhs: Value, c: Converter, i: nat): (r: Option<bool>)
    requires lhs.Dict? && rhs.Dict? && i <= |lhs.entries|
    decreases lhs, 0, |lhs.entries| - i
    ensures i <= |rhs.entries| < |lhs.entries| ==> r != Some(true)
  {
    if i == |lhs.entries| then Some(true)
    else if i >= |rhs.entries| then None
    else if lhs.entries[i].key != rhs.entries[i].key then Some(false)
    else
      match EqualAsWritten(dir, lhs.entries[i].val, rhs.entries[i].val, c)
      case None => None
      case Some(b) => if b then WalkEntries(dir, lhs, rhs, c, i + 1) else Some(false)
  }

  /* ---------------------------------------------------------------------- */
  /* Assignment followed by equality                                         */

  /** Every mapping converter used as a leaf converter reads back what it
      writes.  Plain casts always do. */
  ghost predicate LeafRoundTrip(c: Converter)
  {
    forall dir, to, from :: MatchesLeaf(dir, AssignLeaf(dir, to, from, c), from, c)
  }

  /** A definitional check, used by the round-trip lemmas: a plain
      converter writes `f(from)` at a leaf and compares the leaf with
      `f(from)`, in either direction and whatever the old target. */
  lemma CastRoundTrips(f: Value -> Value)
    ensures forall dir, to, from :: AssignLeaf(dir, to, from, Cast(f)) == f(from)
    ensures LeafRoundTrip(Cast(f))
  {
  }

  /** An assignment of `from` into `to` can be read back: no fixed-size
      target is longer than the resizable source assigned into it (an
      assignment cannot remove the extra positions, and the guards then
      compare unequal), and a converted leaf is again a leaf (the converter
      yields the target's type), at any depth of the elements written. */
  predicate Fits(dir: Direction, to: Value, from: Value, c: Converter)
    decreases from
  {
    if to.Seq? && from.Seq? then
      (!to.resizable && from.resizable ==> |to.items| <= |from.items|)
      && var t := Presized(to, from);
         forall i | 0 <= i < |t.items| && i < |from.items| :: Fits(dir, t.items[i], from.items[i], c)
    else if to.Dict? && from.Dict? then
      forall i | 0 <= i < |from.entries| :: Fits(dir, Default(to.mapped), from.entries[i].val, c)
    else
      !Elementwise(AssignLeaf(dir, to, from, c), from)
  }

  lemma {:induction false} AssignThenMatches(dir: Direction, to: Value, from: Value, c: Converter)
    requires LeafRoundTrip(c) && Fits(dir, to, from, c)
    ensures Matches(dir, AssignInto(dir, to, from, c), from, c)
    decreases from
  {
    var r := AssignInto(dir, to, from, c);
    if to.Seq? && from.Seq? {
      var t := Presized(to, from);
      forall i | 0 <= i < |r.items| && i < |from.items|
        ensures Matches(dir, r.items[i], from.items[i], c)
      {
        AssignThenMatches(dir, t.items[i], from.items[i], c);
      }
    } else if to.Dict? && from.Dict? {
      forall i | 0 <= i < |from.entries|
        ensures r.entries[i].key == from.entries[i].key
        ensures Matches(dir, r.entries[i].val, from.entries[i].val, c)
      {
        assert Keys(r.entries)[i] == Keys(from.entries)[i];
        AssignThenMatches(dir, Default(to.mapped), from.entries[i].val, c);
      }
    }
  }

  /** After `assign<dir>` the two sides compare equal under `equal<dir>`,
      whenever the leaf converter reads back what it writes and the target
      fits the source. */
  lemma AssignThenEqual(dir: Direction, s: Sides, c: Converter)
    requires LeafRoundTrip(c) && Fits(dir, Ordered(dir, s).0, Ordered(dir, s).1, c)
    ensures Equal(dir, Assign(dir, s, c), c)
  {
    AssignThenMatches(dir, Ordered(dir, s).0, Ordered(dir, s).1, c);
  }

  /** Conversely, a fixed-size target longer than the resizable source
      assigned into it never compares equal afterwards. */
  lemma LongerFixedTargetNeverEqual(dir: Direction, s: Sides, c: Converter)
    requires Ordered(dir, s).0.Seq? && Ordered(dir, s).1.Seq?
    requires !Ordered(dir, s).0.resizable && Ordered(dir, s).1.resizable
    requires |Ordered(dir, s).0.items| > |Ordered(dir, s).1.items|
    ensures !Equal(dir, Assign(dir, s, c), c)
  {
  }

  /** With the identity converter, element-wise assignment between objects
      of the same type is plain copy assignment (the scalar overload the
      library selects for such pairs). */
  lemma {:induction false} AssignIdentityCopies(dir: Direction, to: Value, from: Value, t: Type)
    requires Concrete(t) && HasType(to, t) && HasType(from, t)
    ensures AssignInto(dir, to, from, IdentityConverter) == from
    decreases t
  {
    var r := AssignInto(dir, to, from, IdentityConverter);
    match t
    case TArray(n, e) =>
      forall i | 0 <= i < n ensures r.items[i] == from.items[i] {
        AssignIdentityCopies(dir, to.items[i], from.items[i], e);
      }
      assert r.items == from.items;
    case TVector(e) =>
      forall i | 0 <= i < |from.items| ensures r.items[i] == from.items[i] {
        var x := if i < |to.items| then to.items[i] else Default(e);
        AssignIdentityCopies(dir, x, from.items[i], e);
      }
      assert r.items == from.items;
    case TMap(m) =>
      forall i | 0 <= i < |from.entries| ensures r.entries[i] == from.entries[i] {
        assert Keys(r.entries)[i] == Keys(from.entries)[i];
        AssignIdentityCopies(dir, Default(m), from.entries[i].val, m);
      }
      assert r.entries == from.entries;
    case _ =>
  }

  /** With the identity converter, element-wise equality between objects of
      the same type is plain `==` (the scalar overload the library selects
      for such pairs). */
  lemma {:induction false} MatchesIdentityIsEquality(dir: Direction, to: Value, from: Value, t: Type)
    requires Concrete(t) && HasType(to, t) && HasType(from, t)
    ensures Matches(dir, to, from, IdentityConverter) <==> to == from
    decreases t
  {
    match t
    case TArray(_, e) =>
      forall i | 0 <= i < |from.items|
        ensures Matches(dir, to.items[i], from.items[i], IdentityConverter) <==> to.items[i] == from.items[i]
      {
        MatchesIdentityIsEquality(dir, to.items[i], from.items[i], e);
      }
      if Matches(dir, to, from, IdentityConverter) { assert to.items == from.items; }
    case TVector(e) =>
      forall i | 0 <= i < |from.items| && i < |to.items|
        ensures Matches(dir, to.items[i], from.items[i], IdentityConverter) <==> to.items[i] == from.items[i]
      {
        MatchesIdentityIsEquality(dir, to.items[i], from.items[i], e);
      }
      if Matches(dir, to, from, IdentityConverter) { assert to.items == from.items; }
    case TMap(m) =>
      forall i | 0 <= i < |from.entries| && i < |to.entries|
        ensures Matches(dir, to.entries[i].val, from.entries[i].val, IdentityConverter)
            <==> to.entries[i].val == from.entries[i].val
      {
        MatchesIdentityIsEquality(dir, to.entries[i].val, from.entries[i].val, m);
      }
      if Matches(dir, to, from, IdentityConverter) {
        forall i | 0 <= i < |from.entries| ensures to.entries[i] == from.entries[i] {
        }
        assert to.entries == from.entries;
      }
    case _ =>
  }

  /* ---------------------------------------------------------------------- */
  /* Equality as written, against the corrected equality                     */

  lemma {:induction false} WalkItemsFalseFindsMismatch(dir: Direction, lhs: Value, rhs: Value, c: Converter, i: nat)
    requires lhs.Seq? && rhs.Seq? && i <= |lhs.items|
    requires WalkItems(dir, lhs, rhs, c, i) == Some(false)
    ensures exists j | i <= j < |lhs.items| && j < |rhs.items| ::
              !Equal(dir, Sides(lhs.items[j], rhs.items[j]), c)
    decreases lhs, 0, |lhs.items| - i
  {
    var b := EqualAsWritten(dir, lhs.items[i], rhs.items[i], c);
    if b == Some(false) {
      AsWrittenFalseIsSound(dir, lhs.items[i], rhs.items[i], c);
    } else {
      WalkItemsFalseFindsMismatch(dir, lhs, rhs, c, i + 1);
    }
  }

  lemma {:induction false} WalkEntriesFalseFindsMismatch(dir: Direction, lhs: Value, rhs: Value, c: Converter, i: nat)
    requires lhs.Dict? && rhs.Dict? && i <= |lhs.entries|
    requires WalkEntries(dir, lhs, rhs, c, i) == Some(false)
    ensures exists j | i <= j < |lhs.entries| && j < |rhs.entries| ::
              lhs.entries[j].key != rhs.entries[j].key
              || !Equal(dir, Sides(lhs.entries[j].val, rhs.entries[j].val), c)
    decreases lhs, 0, |lhs.entries| - i
  {
    if lhs.entries[i].key == rhs.entries[i].key {
      var b := EqualAsWritten(dir, lhs.entries[i].val, rhs.entries[i].val, c);
      if b == Some(false) {
        AsWrittenFalseIsSound(dir, lhs.entries[i].val, rhs.entries[i].val, c);
      } else {
        WalkEntriesFalseFindsMismatch(dir, lhs, rhs, c, i + 1);
      }
    }
  }

  /** Whenever the comparison as written answers "unequal", so does the
      corrected comparison: the defects only ever turn answers into "equal"
      or into a read past the end. */
  lemma {:induction false} AsWrittenFalseIsSound(dir: Direction, lhs: Value, rhs: Value, c: Converter)
    requires EqualAsWritten(dir, lhs, rhs, c) == Some(false)
    ensures !Equal(dir, Sides(lhs, rhs), c)
    decreases lhs, 1, 0
  {
    var (to, from) := Ordered(dir, Sides(lhs, rhs));
    if lhs.Seq? && rhs.Seq? {
      if SizesCompatible(to, from) {
        WalkItemsFalseFindsMismatch(dir, lhs, rhs, c, 0);
        var j :| 0 <= j < |lhs.items| && j < |rhs.items| && !Equal(dir, Sides(lhs.items[j], rhs.items[j]), c);
        assert !Matches(dir, to.items[j], from.items[j], c);
      }
    } else if lhs.Dict? && rhs.Dict? {
      WalkEntriesFalseFindsMismatch(dir, lhs, rhs, c, 0);
      var j :| 0 <= j < |lhs.entries| && j < |rhs.entries| &&
               (lhs.entries[j].key != rhs.entries[j].key
                || !Equal(dir, Sides(lhs.entries[j].val, rhs.entries[j].val), c));
      if |to.entries| == |from.entries| {
        assert !(to.entries[j].key == from.entries[j].key && Matches(dir, to.entries[j].val, from.entries[j].val, c));
      }
    }
  }

  lemma {:induction false} WalkItemsOverruns(dir: Direction, lhs: Value, rhs: Value, c: Converter, i: nat)
    requires lhs.Seq? && rhs.Seq? && i <= |rhs.items| < |lhs.items|
    requires forall j | i <= j < |rhs.items| :: EqualAsWritten(dir, lhs.items[j], rhs.items[j], c) == Some(true)
    ensures WalkItems(dir, lhs, rhs, c, i).None?
    decreases |rhs.items| - i
  {
    if i < |rhs.items| {
      WalkItemsOverruns(dir, lhs, rhs, c, i + 1);
    }
  }

  /** As written, a sequence comparison whose guards let a longer lhs through
      (a resizable lhs against a fixed rhs, or two fixed sides) reads past
      the end of the rhs once the common positions all compare equal. */
  lemma SequenceEqualReadsPastShorterRhs(dir: Direction, lhs: Value, rhs: Value, c: Converter)
    requires lhs.Seq? && rhs.Seq? && Proportionate(lhs, rhs) && |lhs.items| > |rhs.items|
    requires forall j | 0 <= j < |rhs.items| :: EqualAsWritten(dir, lhs.items[j], rhs.items[j], c) == Some(true)
    ensures EqualAsWritten(dir, lhs, rhs, c).None?
  {
    SizeGuardsIgnoreDirection(Sides(lhs, rhs));
    WalkItemsOverruns(dir, lhs, rhs, c, 0);
  }

  lemma {:induction false} WalkEntriesOverruns(dir: Direction, lhs: Value, rhs: Value, c: Converter, i: nat)
    requires lhs.Dict? && rhs.Dict? && i <= |rhs.entries| < |lhs.entries|
    requires forall j | i <= j < |rhs.entries| ::
               lhs.entries[j].key == rhs.entries[j].key
               && EqualAsWritten(dir, lhs.entries[j].val, rhs.entries[j].val, c) == Some(true)
    ensures WalkEntries(dir, lhs, rhs, c, i).None?
    decreases |rhs.entries| - i
  {
    if i < |rhs.entries| {
      WalkEntriesOverruns(dir, lhs, rhs, c, i + 1);
    }
  }

  lemma {:induction false} WalkEntriesPrefixAccepted(dir: Direction, lhs: Value, rhs: Value, c: Converter, i: nat)
    requires lhs.Dict? && rhs.Dict? && i <= |lhs.entries| <= |rhs.entries|
    requires forall j | i <= j < |lhs.entries| ::
               lhs.entries[j].key == rhs.entries[j].key
               && EqualAsWritten(dir, lhs.entries[j].val, rhs.entries[j].val, c) == Some(true)
    ensures WalkEntries(dir, lhs, rhs, c, i) == Some(true)
    decreases |lhs.entries| - i
  {
    if i < |lhs.entries| {
      WalkEntriesPrefixAccepted(dir, lhs, rhs, c, i + 1);
    }
  }

  /** As written, map comparison has no size check: an lhs whose entries
      match the first entries of a longer rhs compares equal, although the
      corrected comparison (same keys) says unequal; and a longer lhs whose
      common entries match reads past the end of the rhs. */
  lemma MapEqualIgnoresLength(dir: Direction, lhs: Value, rhs: Value, c: Converter)
    requires lhs.Dict? && rhs.Dict? && |lhs.entries| != |rhs.entries|
    requires forall j | 0 <= j < |lhs.entries| && j < |rhs.entries| ::
               lhs.entries[j].key == rhs.entries[j].key
               && EqualAsWritten(dir, lhs.entries[j].val, rhs.entries[j].val, c) == Some(true)
    ensures |lhs.entries| < |rhs.entries| ==> EqualAsWritten(dir, lhs, rhs, c) == Some(true)
    ensures |lhs.entries| > |rhs.entries| ==> EqualAsWritten(dir, lhs, rhs, c).None?
    ensures !Equal(dir, Sides(lhs, rhs), c)
  {
    if |lhs.entries| < |rhs.entries| {
      WalkEntriesPrefixAccepted(dir, lhs, rhs, c, 0);
    } else {
      WalkEntriesOverruns(dir, lhs, rhs, c, 0);
    }
  }

  /** Assigning a two-element `std::vector<int>` lhs into a one-element
      `std::array<int, 1>` rhs and comparing in the same direction: the
      comparison as written reads a second rhs element that does not exist,
      the corrected one answers "equal". */
  lemma SequenceOverrunAfterAssign()
    ensures
      var s := Sides(Seq(true, TInt, [Int(1), Int(2)]), Seq(false, TInt, [Int(0)]));
      var s' := Assign(LhsToRhs, s, IdentityConverter);
      && s'.rhs == Seq(false, TInt, [Int(1)])
      && EqualAsWritten(LhsToRhs, s'.lhs, s'.rhs, IdentityConverter).None?
      && Equal(LhsToRhs, s', IdentityConverter)
  {
    var s := Sides(Seq(true, TInt, [Int(1), Int(2)]), Seq(false, TInt, [Int(0)]));
    var s' := Assign(LhsToRhs, s, IdentityConverter);
    assert s'.rhs.items == [Int(1)];
    SequenceEqualReadsPastShorterRhs(LhsToRhs, s'.lhs, s'.rhs, IdentityConverter);
  }

  /** `intStringConverter` on the values used below: the digit string the
      other way, in either direction. */
  const IntString: Converter := Cast((v: Value) =>
    if v == Str("1") then Int(1) else if v == Str("2") then Int(2)
    else if v == Int(1) then Str("1") else if v == Int(2) then Str("2") else v)

  /** A one-entry `std::map<int, int>` `{1: 1}` against a two-entry
      `std::map<int, std::string>` `{1: "1", 2: "2"}` under the int/string
      converter.  The two map types differ, so no scalar `==` is viable and
      the element-wise overload runs: as written it answers "equal". */
  lemma MapPrefixComparesEqual()
    ensures
      var lhs := Dict(TInt, [Entry(1, Int(1))]);
      var rhs := Dict(TStr, [Entry(1, Str("1")), Entry(2, Str("2"))]);
      && HasType(lhs, TMap(TInt)) && HasType(rhs, TMap(TStr))
      && EqualAsWritten(RhsToLhs, lhs, rhs, IntString) == Some(true)
      && !Equal(RhsToLhs, Sides(lhs, rhs), IntString)
  {
    var lhs := Dict(TInt, [Entry(1, Int(1))]);
    var rhs := Dict(TStr, [Entry(1, Str("1")), Entry(2, Str("2"))]);
    assert EqualAsWritten(RhsToLhs, Int(1), Str("1"), IntString) == Some(true);
    MapEqualIgnoresLength(RhsToLhs, lhs, rhs, IntString);
  }
  /* ---------------------------------------------------------------------- */
  /* Where the comparison as written is exact                                */

  /** At every depth, each lhs sequence is no longer than the rhs sequence it
      is walked against, and each pair of maps has equal sizes: the walks as
      written then never leave the rhs. */
  predicate WalkSafe(lhs: Value, rhs: Value)
    decreases lhs
  {
    if lhs.Seq? && rhs.Seq? then
      |lhs.items| <= |rhs.items|
      && forall i | 0 <= i < |lhs.items| :: WalkSafe(lhs.items[i], rhs.items[i])
    else if lhs.Dict? && rhs.Dict? then
      |lhs.entries| == |rhs.entries|
      && forall i | 0 <= i < |lhs.entries| :: WalkSafe(lhs.entries[i].val, rhs.entries[i].val)
    else
      true
  }

  lemma {:induction false} WalkItemsExact(dir: Direction, lhs: Value, rhs: Value, c: Converter, i: nat)
    requires lhs.Seq? && rhs.Seq? && i <= |lhs.items| && WalkSafe(lhs, rhs)
    ensures WalkItems(dir, lhs, rhs, c, i)
      == Some(forall j | i <= j < |lhs.items| && j < |rhs.items| :: Equal(dir, Sides(lhs.items[j], rhs.items[j]), c))
    decreases lhs, 0, |lhs.items| - i
  {
    if i < |lhs.items| {
      AsWrittenExactWhenSafe(dir, lhs.items[i], rhs.items[i], c);
      WalkItemsExact(dir, lhs, rhs, c, i + 1);
    }
  }

  lemma {:induction false} WalkEntriesExact(dir: Direction, lhs: Value, rhs: Value, c: Converter, i: nat)
    requires lhs.Dict? && rhs.Dict? && i <= |lhs.entries| && WalkSafe(lhs, rhs)
    ensures WalkEntries(dir, lhs, rhs, c, i)
      == Some(forall j | i <= j < |lhs.entries| && j < |rhs.entries| ::
                lhs.entries[j].key == rhs.entries[j].key
                && Equal(dir, Sides(lhs.entries[j].val, rhs.entries[j].val), c))
    decreases lhs, 0, |lhs.entries| - i
  {
    if i < |lhs.entries| {
      AsWrittenExactWhenSafe(dir, lhs.entries[i].val, rhs.entries[i].val, c);
      WalkEntriesExact(dir, lhs, rhs, c, i + 1);
    }
  }

  /** Where no walk can leave the rhs, the comparison as written is defined
      and gives exactly the corrected answer, in either direction. */
  lemma {:induction false} AsWrittenExactWhenSafe(dir: Direction, lhs: Value, rhs: Value, c: Converter)
    requires WalkSafe(lhs, rhs)
    ensures EqualAsWritten(dir, lhs, rhs, c) == Some(Equal(dir, Sides(lhs, rhs), c))
    decreases lhs, 1, 0
  {
    var (to, from) := Ordered(dir, Sides(lhs, rhs));
    if lhs.Seq? && rhs.Seq? {
      if SizesCompatible(to, from) {
        WalkItemsExact(dir, lhs, rhs, c, 0);
      }
    } else if lhs.Dict? && rhs.Dict? {
      WalkEntriesExact(dir, lhs, rhs, c, 0);
    }
  }

  /** Every sequence of the target ends with the source's length: it is
      resizable, or already as long as the source, at every depth the
      assignment reaches. */
  predicate TakesShape(to: Value, from: Value)
    decreases from
  {
    if to.Seq? && from.Seq? then
      (to.resizable || |to.items| == |from.items|)
      && var t := Presized(to, from);
         forall i | 0 <= i < |t.items| && i < |from.items| :: TakesShape(t.items[i], from.items[i])
    else if to.Dict? && from.Dict? then
      forall i | 0 <= i < |from.entries| :: TakesShape(Default(to.mapped), from.entries[i].val)
    else
      true
  }

  /** An assignment into a target that takes the source's shape leaves the
      two with the same sizes at every depth, so neither walk leaves the
      other side. */
  lemma {:induction false} AssignedWalkSafe(dir: Direction, to: Value, from: Value, c: Converter)
    requires Fits(dir, to, from, c) && TakesShape(to, from)
    ensures WalkSafe(AssignInto(dir, to, from, c), from)
    ensures WalkSafe(from, AssignInto(dir, to, from, c))
    decreases from
  {
    var r := AssignInto(dir, to, from, c);
    if to.Seq? && from.Seq? {
      var t := Presized(to, from);
      forall i | 0 <= i < |r.items| && i < |from.items|
        ensures WalkSafe(r.items[i], from.items[i]) && WalkSafe(from.items[i], r.items[i])
      {
        AssignedWalkSafe(dir, t.items[i], from.items[i], c);
      }
    } else if to.Dict? && from.Dict? {
      forall i | 0 <= i < |from.entries|
        ensures WalkSafe(r.entries[i].val, from.entries[i].val) && WalkSafe(from.entries[i].val, r.entries[i].val)
      {
        AssignedWalkSafe(dir, Default(to.mapped), from.entries[i].val, c);
      }
    }
  }

  /** After `assign<dir>` into a target that takes the source's shape, the
      comparison as written, `equal<dir>`, is defined and answers "equal". */
  lemma AssignThenEqualAsWritten(dir: Direction, s: Sides, c: Converter)
    requires LeafRoundTrip(c) && Fits(dir, Ordered(dir, s).0, Ordered(dir, s).1, c)
    requires TakesShape(Ordered(dir, s).0, Ordered(dir, s).1)
    ensures EqualAsWritten(dir, Assign(dir, s, c).lhs, Assign(dir, s, c).rhs, c) == Some(true)
  {
    var s' := Assign(dir, s, c);
    AssignThenEqual(dir, s, c);
    AssignedWalkSafe(dir, Ordered(dir, s).0, Ordered(dir, s).1, c);
    AsWrittenExactWhenSafe(dir, s'.lhs, s'.rhs, c);
  }
}
