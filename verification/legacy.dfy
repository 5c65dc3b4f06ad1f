/**
 * The oldest generation, convertible/convertible.hxx: direction-free
 * operators whose first argument is always the target, a mapping whose
 * `exec` swaps the adapted objects so that the target comes first, and a
 * mapping table.  The converter is one callable applied to the source in
 * both directions (overloaded on the source's type in C++), so it is a
 * plain function here.  Adapters are those of the split headers; this
 * generation has no `maybe` reader, so enabled states play no part.
 */
module Legacy {
  import opened Common
  import opened Values
  import opened Adapters
  import Operators
  import MappingTables

  /* ---------------------------------------------------------------------- */
  /* Operators                                                               */

  /** `operators::assign`, both overloads: a range target is resized to the
      source's size when resizable, and the first `min` elements are
      assigned pairwise; anything else gets `cast(converter)(source)`. */
  function AssignInto(to: Value, from: Value, f: Value -> Value): (r: Value)
    decreases from
    ensures to.Seq? && from.Seq? ==>
      r.Seq? && r.resizable == to.resizable && r.elem == to.elem
      && |r.items| == (if to.resizable then |from.items| else |to.items|)
    ensures to.Seq? && from.Seq? && !to.resizable ==>
      forall i | |from.items| <= i < |to.items| :: r.items[i] == to.items[i]
  {
    if to.Seq? && from.Seq? then
      var t := Operators.Presized(to, from);
      var n := Min(|t.items|, |from.items|);
      t.(items := seq(|t.items|, i requires 0 <= i < |t.items| =>
                        if i < n then AssignInto(t.items[i], from.items[i], f) else t.items[i]))
    else
      f(from)
  }

  /** No map-like container anywhere a range walk reaches.  A `std::map`
      is not assignable element by element here (its keys are const), so
      the legacy operators treat it as a scalar. */
  predicate MapFree(v: Value)
    decreases v
  {
    if v.Dict? then false
    else if v.Seq? then forall i | 0 <= i < |v.items| :: MapFree(v.items[i])
    else true
  }

  /** On map-free sources the legacy assignment is the split headers'
      assignment with a plain converter, in either direction. */
  lemma {:induction false} AssignAgreesWithSplitHeaders(dir: Direction, to: Value, from: Value, f: Value -> Value)
    requires MapFree(from)
    ensures AssignInto(to, from, f) == Operators.AssignInto(dir, to, from, Operators.Cast(f))
    decreases from
  {
    if to.Seq? && from.Seq? {
      var r := AssignInto(to, from, f);
      var r' := Operators.AssignInto(dir, to, from, Operators.Cast(f));
      var t := Operators.Presized(to, from);
      forall i | 0 <= i < |r.items|
        ensures r.items[i] == r'.items[i]
      {
        if i < |from.items| {
          AssignAgreesWithSplitHeaders(dir, t.items[i], from.items[i], f);
        }
      }
      assert r.items == r'.items;
    }
  }

  /** `operators::equal`, both overloads.  For ranges, `std::mismatch` runs
      over the first `min` positions; the result holds when the mismatch
      position is the end of the target, and, for a resizable target, the
      sizes are equal. */
  function Matches(to: Value, from: Value, f: Value -> Value): (b: bool)
    decreases from, 1, 0
    // a target range that matches is no longer than its source, and a
    // resizable one has exactly the source's size
    ensures b && to.Seq? && from.Seq? ==> |to.items| <= |from.items|
    ensures b && to.Seq? && from.Seq? && to.resizable ==> |to.items| == |from.items|
  {
    if to.Seq? && from.Seq? then
      Mismatch(to, from, f, 0) == |to.items|
      && (to.resizable ==> |to.items| == |from.items|)
    else
      to == f(from)
  }

  /** The first position from `i` on, below `min`, whose elements do not
      match, or `min` when there is none. */
  function Mismatch(to: Value, from: Value, f: Value -> Value, i: nat): (k: nat)
    requires to.Seq? && from.Seq? && i <= Min(|to.items|, |from.items|)
    ensures i <= k <= Min(|to.items|, |from.items|)
    decreases from, 0, Min(|to.items|, |from.items|) - i
  {
    if i == Min(|to.items|, |from.items|) then i
    else if !Matches(to.items[i], from.items[i], f) then i
    else Mismatch(to, from, f, i + 1)
  }

  lemma {:induction false} MismatchFindsFirst(to: Value, from: Value, f: Value -> Value, i: nat)
    requires to.Seq? && from.Seq? && i <= Min(|to.items|, |from.items|)
    ensures forall j | i <= j < Mismatch(to, from, f, i) :: Matches(to.items[j], from.items[j], f)
    ensures Mismatch(to, from, f, i) < Min(|to.items|, |from.items|) ==>
      !Matches(to.items[Mismatch(to, from, f, i)], from.items[Mismatch(to, from, f, i)], f)
    decreases Min(|to.items|, |from.items|) - i
  {
    if i < Min(|to.items|, |from.items|) && Matches(to.items[i], from.items[i], f) {
      MismatchFindsFirst(to, from, f, i + 1);
    }
  }

  /** Two ranges compare equal exactly when the target is no longer than
      the source, a resizable target has the source's size, and every
      element of the target matches the source's element at its position. */
  lemma MatchesRanges(to: Value, from: Value, f: Value -> Value)
    requires to.Seq? && from.Seq?
    ensures Matches(to, from, f) <==>
      && |to.items| <= |from.items|
      && (to.resizable ==> |to.items| == |from.items|)
      && forall i | 0 <= i < |to.items| :: Matches(to.items[i], from.items[i], f)
  {
    MismatchFindsFirst(to, from, f, 0);
  }

  /** The legacy comparison is stricter than the split headers' corrected
      one: whatever it accepts, the split headers accept in either
      direction. */
  lemma {:induction false} StricterThanSplitHeaders(dir: Direction, to: Value, from: Value, f: Value -> Value)
    requires MapFree(from) && Matches(to, from, f)
    ensures Operators.Matches(dir, to, from, Operators.Cast(f))
    decreases from
  {
    if to.Seq? && from.Seq? {
      MatchesRanges(to, from, f);
      forall i | 0 <= i < |to.items| && i < |from.items|
        ensures Operators.Matches(dir, to.items[i], from.items[i], Operators.Cast(f))
      {
        StricterThanSplitHeaders(dir, to.items[i], from.items[i], f);
      }
    }
  }

  /** The converse fails: a fixed-size target longer than a fixed-size
      source is unequal here but compared on the shared positions by the
      split headers. */
  lemma LongerFixedTargetExample()
    ensures var to := Seq(false, TInt, [Int(1), Int(2)]);
      var from := Seq(false, TInt, [Int(1)]);
      && !Matches(to, from, v => v)
      && Operators.Matches(RhsToLhs, to, from, Operators.IdentityConverter)
  {
    var to := Seq(false, TInt, [Int(1), Int(2)]);
    var from := Seq(false, TInt, [Int(1)]);
    assert Operators.Matches(RhsToLhs, to.items[0], from.items[0], Operators.IdentityConverter);
  }

  /** An assignment can be read back by the legacy comparison: a fixed-size
      target is no longer than its source, and a converted leaf is not a
      range paired with a range source, at every depth. */
  predicate Fits(to: Value, from: Value, f: Value -> Value)
    decreases from
  {
    if to.Seq? && from.Seq? then
      (!to.resizable ==> |to.items| <= |from.items|)
      && var t := Operators.Presized(to, from);
         forall i | 0 <= i < |t.items| && i < |from.items| :: Fits(t.items[i], from.items[i], f)
    else
      !(f(from).Seq? && from.Seq?)
  }

  lemma {:induction false} AssignThenMatches(to: Value, from: Value, f: Value -> Value)
    requires Fits(to, from, f)
    ensures Matches(AssignInto(to, from, f), from, f)
    decreases from
  {
    var r := AssignInto(to, from, f);
    if to.Seq? && from.Seq? {
      var t := Operators.Presized(to, from);
      forall i | 0 <= i < |r.items|
        ensures Matches(r.items[i], from.items[i], f)
      {
        AssignThenMatches(t.items[i], from.items[i], f);
      }
      MatchesRanges(r, from, f);
    }
  }

  /* ---------------------------------------------------------------------- */
  /* Mapping                                                                 */

  datatype Mapping = Mapping(lhsAdapter: Adapter, rhsAdapter: Adapter, conv: Value -> Value)

  /** Both adapters take their objects (`concepts::executable_with`). */
  predicate Applicable(m: Mapping, s: Operators.Sides)
  {
    View(m.lhsAdapter, s.lhs).Some? && View(m.rhsAdapter, s.rhs).Some?
  }

  /** `mapping::exec<dir>`: the operator receives the adapted target first
      and the adapted source second, then the written target goes back
      through the target's adapter. */
  function Assign(m: Mapping, dir: Direction, s: Operators.Sides): (r: Operators.Sides)
    requires Applicable(m, s)
    ensures dir == RhsToLhs ==> r.rhs == s.rhs
    ensures dir == LhsToRhs ==> r.lhs == s.lhs
    ensures dir == RhsToLhs && ReadsBack(m.lhsAdapter, s.lhs,
              AssignInto(View(m.lhsAdapter, s.lhs).value, View(m.rhsAdapter, s.rhs).value, m.conv)) ==>
      View(m.lhsAdapter, r.lhs)
        == Some(AssignInto(View(m.lhsAdapter, s.lhs).value, View(m.rhsAdapter, s.rhs).value, m.conv))
    ensures dir == LhsToRhs && ReadsBack(m.rhsAdapter, s.rhs,
              AssignInto(View(m.rhsAdapter, s.rhs).value, View(m.lhsAdapter, s.lhs).value, m.conv)) ==>
      View(m.rhsAdapter, r.rhs)
        == Some(AssignInto(View(m.rhsAdapter, s.rhs).value, View(m.lhsAdapter, s.lhs).value, m.conv))
  {
    var l := View(m.lhsAdapter, s.lhs).value;
    var rv := View(m.rhsAdapter, s.rhs).value;
    if dir == RhsToLhs then
      s.(lhs := Update(m.lhsAdapter, s.lhs, AssignInto(l, rv, m.conv)).GetOr(s.lhs))
    else
      s.(rhs := Update(m.rhsAdapter, s.rhs, AssignInto(rv, l, m.conv)).GetOr(s.rhs))
  }

  /** `mapping::equal(lhs, rhs)`: always the `rhs_to_lhs` orientation, so
      the lhs's adapted part is compared with the converted rhs's. */
  function Equal(m: Mapping, s: Operators.Sides): (b: bool)
    requires Applicable(m, s)
    // whatever the legacy comparison accepts, the split headers' corrected
    // comparison accepts in the default direction
    ensures b && MapFree(View(m.rhsAdapter, s.rhs).value) ==>
      Operators.Matches(RhsToLhs, View(m.lhsAdapter, s.lhs).value, View(m.rhsAdapter, s.rhs).value, Operators.Cast(m.conv))
  {
    var l := View(m.lhsAdapter, s.lhs).value;
    var r := View(m.rhsAdapter, s.rhs).value;
    // the comparison is `Matches(l, r, m.conv)`; the first branch only adds
    // the proof of the postcondition
    if MapFree(r) && Matches(l, r, m.conv) then
      StricterThanSplitHeaders(RhsToLhs, l, r, m.conv);
      true
    else
      Matches(l, r, m.conv)
  }

  /** After `assign<rhs_to_lhs>` the mapping compares equal, when the
      assignment fits and the lhs adapter reads back what it wrote. */
  lemma AssignRhsToLhsThenEqual(m: Mapping, s: Operators.Sides)
    requires Applicable(m, s)
    requires Fits(View(m.lhsAdapter, s.lhs).value, View(m.rhsAdapter, s.rhs).value, m.conv)
    requires ReadsBack(m.lhsAdapter, s.lhs,
               AssignInto(View(m.lhsAdapter, s.lhs).value, View(m.rhsAdapter, s.rhs).value, m.conv))
    ensures Applicable(m, Assign(m, RhsToLhs, s))
    ensures Equal(m, Assign(m, RhsToLhs, s))
  {
    AssignThenMatches(View(m.lhsAdapter, s.lhs).value, View(m.rhsAdapter, s.rhs).value, m.conv);
  }

  /** After `assign<lhs_to_rhs>` of scalars, `equal` compares the lhs with
      the converter applied twice: the round trip holds exactly when the
      converter undoes itself on the lhs. */
  lemma AssignLhsToRhsThenEqual(m: Mapping, s: Operators.Sides)
    requires Applicable(m, s)
    requires var l := View(m.lhsAdapter, s.lhs).value;
      !l.Seq? && !m.conv(l).Seq?
    requires ReadsBack(m.rhsAdapter, s.rhs, m.conv(View(m.lhsAdapter, s.lhs).value))
    ensures Applicable(m, Assign(m, LhsToRhs, s))
    ensures var l := View(m.lhsAdapter, s.lhs).value;
      Equal(m, Assign(m, LhsToRhs, s)) <==> l == m.conv(m.conv(l))
  {
  }

  function Increment(v: Value): Value
  {
    if v.Int? then Int(v.i + 1) else v
  }

  /** With a converter that does not undo itself, `assign<lhs_to_rhs>`
      followed by `equal` fails, while `assign<rhs_to_lhs>` followed by
      `equal` holds. */
  lemma OneWayConverterExample()
    ensures var m := Mapping(FromReader(TInt, Identity(TInt), None), FromReader(TInt, Identity(TInt), None), Increment);
      var s := Operators.Sides(Int(1), Int(0));
      && Applicable(m, s)
      && Assign(m, LhsToRhs, s) == Operators.Sides(Int(1), Int(2))
      && !Equal(m, Assign(m, LhsToRhs, s))
      && Assign(m, RhsToLhs, s) == Operators.Sides(Int(1), Int(0))
      && Equal(m, Assign(m, RhsToLhs, s))
  {
  }

  /** `mapping::operator()(lhs)`: a fresh object of the rhs adapter's
      object type, `rhs_t rhs;`, assigned from the lhs.  This generation
      keeps no adaptee in its adapters; the fresh object is taken
      value-initialised. */
  function ConvertLhs(m: Mapping, lhs: Value): (rhs: Value)
    requires m.rhsAdapter.adaptee != TAny
    requires Applicable(m, Operators.Sides(lhs, Default(m.rhsAdapter.adaptee)))
    ensures var d := Default(m.rhsAdapter.adaptee);
      var w := AssignInto(View(m.rhsAdapter, d).value, View(m.lhsAdapter, lhs).value, m.conv);
      ReadsBack(m.rhsAdapter, d, w) ==> View(m.rhsAdapter, rhs) == Some(w)
  {
    Assign(m, LhsToRhs, Operators.Sides(lhs, Default(m.rhsAdapter.adaptee))).rhs
  }

  /** `mapping::operator()(rhs)`: a fresh object of the lhs adapter's
      object type, `lhs_t lhs;`, assigned from the rhs, taken
      value-initialised as above. */
  function ConvertRhs(m: Mapping, rhs: Value): (lhs: Value)
    requires m.lhsAdapter.adaptee != TAny
    requires Applicable(m, Operators.Sides(Default(m.lhsAdapter.adaptee), rhs))
    ensures var d := Default(m.lhsAdapter.adaptee);
      var w := AssignInto(View(m.lhsAdapter, d).value, View(m.rhsAdapter, rhs).value, m.conv);
      ReadsBack(m.lhsAdapter, d, w) ==> View(m.lhsAdapter, lhs) == Some(w)
  {
    Assign(m, RhsToLhs, Operators.Sides(Default(m.lhsAdapter.adaptee), rhs)).lhs
  }

  /** What `ConvertRhs` makes compares equal to its argument. */
  lemma ConvertRhsThenEqual(m: Mapping, rhs: Value)
    requires m.lhsAdapter.adaptee != TAny
    requires var s := Operators.Sides(Default(m.lhsAdapter.adaptee), rhs);
      && Applicable(m, s)
      && Fits(View(m.lhsAdapter, s.lhs).value, View(m.rhsAdapter, rhs).value, m.conv)
      && ReadsBack(m.lhsAdapter, s.lhs,
           AssignInto(View(m.lhsAdapter, s.lhs).value, View(m.rhsAdapter, rhs).value, m.conv))
    ensures Applicable(m, Operators.Sides(ConvertRhs(m, rhs), rhs))
    ensures Equal(m, Operators.Sides(ConvertRhs(m, rhs), rhs))
  {
    AssignRhsToLhsThenEqual(m, Operators.Sides(Default(m.lhsAdapter.adaptee), rhs));
  }

  /* ---------------------------------------------------------------------- */
  /* Mapping table                                                           */

  datatype Table = Table(mappings: seq<Mapping>)

  /** `mapping_table::assign<dir>`: every mapping that takes the objects, in
      order, each seeing the effect of the ones before it. */
  function AssignFrom(ms: seq<Mapping>, dir: Direction, s: Operators.Sides, k: nat): (r: Operators.Sides)
    requires k <= |ms|
    ensures dir == RhsToLhs ==> r.rhs == s.rhs
    ensures dir == LhsToRhs ==> r.lhs == s.lhs
    ensures (forall i | k <= i < |ms| :: !Applicable(ms[i], s)) ==> r == s
    decreases |ms| - k
  {
    if k == |ms| then s
    else AssignFrom(ms, dir, if Applicable(ms[k], s) then Assign(ms[k], dir, s) else s, k + 1)
  }

  function TableAssign(t: Table, dir: Direction, s: Operators.Sides): (r: Operators.Sides)
    // the source side is left alone
    ensures dir == RhsToLhs ==> r.rhs == s.rhs
    ensures dir == LhsToRhs ==> r.lhs == s.lhs
    // objects no mapping takes are left alone
    ensures (forall i | 0 <= i < |t.mappings| :: !Applicable(t.mappings[i], s)) ==> r == s
    // a table of one mapping is that mapping's assignment
    ensures |t.mappings| == 1 && Applicable(t.mappings[0], s) ==> r == Assign(t.mappings[0], dir, s)
  {
    AssignFrom(t.mappings, dir, s, 0)
  }

  /** One mapping's verdict inside the table: a mapping that does not take
      the objects does not count against equality. */
  predicate Verdict(m: Mapping, s: Operators.Sides)
  {
    Applicable(m, s) ==> Equal(m, s)
  }

  /** `mapping_table::equal`: `for_each` over the mappings, stopping at the
      first applicable mapping that compares unequal. */
  function TableEqual(t: Table, s: Operators.Sides): (b: bool)
    // the table compares equal exactly when every applicable mapping does
    ensures b <==>
      forall i | 0 <= i < |t.mappings| :: Applicable(t.mappings[i], s) ==> Equal(t.mappings[i], s)
  {
    assert forall i | 0 <= i < |t.mappings| ::
      Verdict(t.mappings[i], s) == (Applicable(t.mappings[i], s) ==> Equal(t.mappings[i], s));
    MappingTables.ForEach(m => Verdict(m, s), t.mappings).0
  }

  /** A table of one mapping: `assign<rhs_to_lhs>` then `equal` holds. */
  lemma SingleMappingTableRoundTrip(m: Mapping, s: Operators.Sides)
    requires Applicable(m, s)
    requires Fits(View(m.lhsAdapter, s.lhs).value, View(m.rhsAdapter, s.rhs).value, m.conv)
    requires ReadsBack(m.lhsAdapter, s.lhs,
               AssignInto(View(m.lhsAdapter, s.lhs).value, View(m.rhsAdapter, s.rhs).value, m.conv))
    ensures TableEqual(Table([m]), TableAssign(Table([m]), RhsToLhs, s))
  {
    var r := Assign(m, RhsToLhs, s);
    assert TableAssign(Table([m]), RhsToLhs, s) == AssignFrom([m], RhsToLhs, r, 1) == r;
    AssignRhsToLhsThenEqual(m, s);
  }
}
