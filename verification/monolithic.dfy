/**
 * Where the monolithic libconvertible/convertible/convertible.hxx departs
 * from the split headers: `reader::composed` applies its adapters last to
 * first, `compose()` takes the adaptee of the last adapter, the sequence
 * comparison checks sizes only when the target is resizable, and a
 * mapping's `assign` and `equal` never consult an `enabled` state (this
 * header has none).  The operator-level assignment, the adapters' call
 * operators and the mapping table's loops are the split headers' ones and
 * are modelled once, in the modules for those; its `reader::maybe`, which
 * returns a wrapper instead of engaging the optional, is not modelled.
 */
module Monolithic {
  import opened Common
  import opened Values
  import opened Adapters
  import Operators
  import Mappings

  function Reverse<T>(xs: seq<T>): (r: seq<T>)
    ensures |r| == |xs|
    ensures forall i | 0 <= i < |xs| :: r[i] == xs[|xs| - 1 - i]
    decreases |xs|
  {
    if |xs| == 0 then [] else Reverse(xs[1..]) + [xs[0]]
  }

  /* ---------------------------------------------------------------------- */
  /* Composition                                                             */

  /** `composed::compose(arg, head, tail...)`: `head(compose(arg, tail...))`,
      so the last adapter is applied to the argument first. */
  function ComposeLastFirst(stages: seq<Adapter>, obj: Value): (r: Option<Value>)
    requires |stages| > 0
    decreases |stages|
    // the last adapter is the one applied to the argument itself
    ensures r.Some? ==> View(stages[|stages| - 1], obj).Some?
  {
    if |stages| == 1 then View(stages[0], obj)
    else
      match ComposeLastFirst(stages[1..], obj)
      case None => None
      case Some(o) => View(stages[0], o)
  }

  /** The monolithic composition is the split headers' composition of the
      same adapters in reverse order. */
  lemma {:induction false} ComposeLastFirstIsReversed(stages: seq<Adapter>, obj: Value)
    requires |stages| > 0
    ensures ComposeLastFirst(stages, obj) == Get(Composed(Reverse(stages)), obj)
    decreases |stages|
  {
    if |stages| == 1 {
      assert Reverse(stages) == [stages[0]];
      ComposedAppliesLeftToRight([stages[0]], stages[0], obj);
    } else {
      ComposeLastFirstIsReversed(stages[1..], obj);
      assert Reverse(stages) == Reverse(stages[1..]) + [stages[0]];
      ComposedAppliesLeftToRight(Reverse(stages[1..]), stages[0], obj);
    }
  }

  /** Two adapters: `compose(outer, inner)` reads `outer(inner(arg))`. */
  lemma ComposeTwo(outer: Adapter, inner: Adapter, obj: Value)
    ensures ComposeLastFirst([outer, inner], obj)
         == match View(inner, obj)
            case None => None
            case Some(o) => View(outer, o)
  {
    assert [outer, inner][1..] == [inner];
  }

  lemma {:induction false} ChainGetAccepts(r: Reader, i: nat, obj: Value)
    requires r.Composed? && i <= |r.stages|
    requires ChainGet(r, i, obj).Some?
    ensures ChainAccepts(r, i, obj)
    decreases |r.stages| - i
  {
    if i < |r.stages| {
      var o := View(r.stages[i], obj).value;
      ChainGetAccepts(r, i + 1, o);
    }
  }

  /** `compose(adapters...)`: an adapter over the composed reader whose
      adaptee is the last adapter's defaulted adaptee. */
  function Compose(stages: seq<Adapter>): (a: Adapter)
    requires |stages| > 0 && stages[|stages| - 1].adaptee != TAny
    ensures a.adaptee == stages[|stages| - 1].adaptee
  {
    var last := stages[|stages| - 1];
    Adapter(last.adaptee, DefaultedAdaptee(last), Composed(Reverse(stages)), None)
  }

  /** The composed adapter's defaulted adaptee is the last adapter's, and
      calling it applies the adapters last to first. */
  lemma ComposeAdapter(stages: seq<Adapter>, obj: Value)
    requires |stages| > 0 && stages[|stages| - 1].adaptee != TAny
    ensures DefaultedAdaptee(Compose(stages)) == DefaultedAdaptee(stages[|stages| - 1])
    ensures View(Compose(stages), obj) == ComposeLastFirst(stages, obj)
  {
    var a := Compose(stages);
    ComposeLastFirstIsReversed(stages, obj);
    assert |a.reader.stages| > 0;
    assert Get(a.reader, obj) == ChainGet(a.reader, 0, obj);
    if ChainGet(a.reader, 0, obj).Some? {
      ChainGetAccepts(a.reader, 0, obj);
      assert Direct(a, obj);
    } else {
      assert Upcast(a, obj).None?;
    }
  }

  /* ---------------------------------------------------------------------- */
  /* Sequence comparison                                                     */

  /** The monolithic size guard: only a resizable target must have the
      source's size. */
  function Guard(to: Value, from: Value): (b: bool)
    requires to.Seq? && from.Seq?
    // a fixed-size target is never checked
    ensures !to.resizable ==> b
    // a resizable target that passes also passes the split headers' guards
    ensures b && to.resizable ==> Operators.SizesCompatible(to, from)
  {
    to.resizable ==> |to.items| == |from.items|
  }

  /** The two guards agree when both sides are resizable or both fixed. */
  lemma GuardsAgreeOnSameKind(to: Value, from: Value)
    requires to.Seq? && from.Seq? && to.resizable == from.resizable
    ensures Guard(to, from) == Operators.SizesCompatible(to, from)
  {
  }

  /** Between a fixed and a resizable side the guards disagree exactly when
      the target is the longer one: the split headers reject a longer fixed
      target, the monolithic header a longer resizable target. */
  lemma GuardsDisagree(to: Value, from: Value)
    requires to.Seq? && from.Seq? && to.resizable != from.resizable
    ensures Guard(to, from) && !Operators.SizesCompatible(to, from)
        <==> !to.resizable && |to.items| > |from.items|
    ensures !Guard(to, from) && Operators.SizesCompatible(to, from)
        <==> to.resizable && |to.items| > |from.items|
  {
  }

  /** `operators::equal<dir>(lhs, rhs, converter)` of the monolithic
      header: the same as the split headers' except for the guard.  `None`
      means the walk read past the end of the rhs. */
  function Equal(dir: Direction, lhs: Value, rhs: Value, c: Operators.Converter): (r: Option<bool>)
    decreases lhs, 1, 0
    // only a walk over elements can read past the end of the rhs
    ensures r.None? ==> Operators.Elementwise(lhs, rhs)
    // an lhs sequence longer than the rhs is never "equal"
    ensures lhs.Seq? && rhs.Seq? && |rhs.items| < |lhs.items| ==> r != Some(true)
    // an empty lhs map equals every map
    ensures lhs.Dict? && rhs.Dict? && |lhs.entries| == 0 ==> r == Some(true)
  {
    if lhs.Seq? && rhs.Seq? then
      var (to, from) := Operators.Ordered(dir, Operators.Sides(lhs, rhs));
      if !Guard(to, from) then Some(false)
      else WalkItems(dir, lhs, rhs, c, 0)
    else if lhs.Dict? && rhs.Dict? then
      WalkEntries(dir, lhs, rhs, c, 0)
    else
      var (to, from) := Operators.Ordered(dir, Operators.Sides(lhs, rhs));
      Some(Operators.MatchesLeaf(dir, to, from, c))
  }

  function WalkItems(dir: Direction, lhs: Value, rhs: Value, c: Operators.Converter, i: nat): (r: Option<bool>)
    requires lhs.Seq? && rhs.Seq? && i <= |lhs.items|
    decreases lhs, 0, |lhs.items| - i
    ensures i <= |rhs.items| < |lhs.items| ==> r != Some(true)
  {
    if i == |lhs.items| then Some(true)
    else if i >= |rhs.items| then None
    else
      match Equal(dir, lhs.items[i], rhs.items[i], c)
      case None => None
      case Some(b) => if b then WalkItems(dir, lhs, rhs, c, i + 1) else Some(false)
  }

  function WalkEntries(dir: Direction, lhs: Value, rhs: Value, c: Operators.Converter, i: nat): (r: Option<bool>)
    requires lhs.Dict? && rhs.Dict? && i <= |lhs.entries|
    decreases lhs, 0, |lhs.entries| - i
    ensures i <= |rhs.entries| < |lhs.entries| ==> r != Some(true)
  {
    if i == |lhs.entries| then Some(true)
    else if i >= |rhs.entries| then None
    else if lhs.entries[i].key != rhs.entries[i].key then Some(false)
    else
      match Equal(dir, lhs.entries[i].val, rhs.entries[i].val, c)
      case None => None
      case Some(b) => if b then WalkEntries(dir, lhs, rhs, c, i + 1) else Some(false)
  }

  /** Every pair of sequences met while comparing is of one kind: both
      resizable or both fixed. */
  predicate SameKinds(lhs: Value, rhs: Value)
    decreases lhs
  {
    if lhs.Seq? && rhs.Seq? then
      lhs.resizable == rhs.resizable
      && forall i | 0 <= i < |lhs.items| && i < |rhs.items| :: SameKinds(lhs.items[i], rhs.items[i])
    else if lhs.Dict? && rhs.Dict? then
      forall i | 0 <= i < |lhs.entries| && i < |rhs.entries| :: SameKinds(lhs.entries[i].val, rhs.entries[i].val)
    else true
  }

  /** Where no fixed sequence meets a resizable one, the monolithic and the
      split comparisons give the same answer, reads past the end included. */
  lemma {:induction false} AgreesWithSplitHeaders(dir: Direction, lhs: Value, rhs: Value, c: Operators.Converter)
    requires SameKinds(lhs, rhs)
    ensures Equal(dir, lhs, rhs, c) == Operators.EqualAsWritten(dir, lhs, rhs, c)
    decreases lhs, 1, 0
  {
    if lhs.Seq? && rhs.Seq? {
      var (to, from) := Operators.Ordered(dir, Operators.Sides(lhs, rhs));
      GuardsAgreeOnSameKind(to, from);
      WalkItemsAgree(dir, lhs, rhs, c, 0);
    } else if lhs.Dict? && rhs.Dict? {
      WalkEntriesAgree(dir, lhs, rhs, c, 0);
    }
  }

  lemma {:induction false} WalkItemsAgree(dir: Direction, lhs: Value, rhs: Value, c: Operators.Converter, i: nat)
    requires lhs.Seq? && rhs.Seq? && i <= |lhs.items| && SameKinds(lhs, rhs)
    ensures WalkItems(dir, lhs, rhs, c, i) == Operators.WalkItems(dir, lhs, rhs, c, i)
    decreases lhs, 0, |lhs.items| - i
  {
    if i < |lhs.items| && i < |rhs.items| {
      AgreesWithSplitHeaders(dir, lhs.items[i], rhs.items[i], c);
      WalkItemsAgree(dir, lhs, rhs, c, i + 1);
    }
  }

  lemma {:induction false} WalkEntriesAgree(dir: Direction, lhs: Value, rhs: Value, c: Operators.Converter, i: nat)
    requires lhs.Dict? && rhs.Dict? && i <= |lhs.entries| && SameKinds(lhs, rhs)
    ensures WalkEntries(dir, lhs, rhs, c, i) == Operators.WalkEntries(dir, lhs, rhs, c, i)
    decreases lhs, 0, |lhs.entries| - i
  {
    if i < |lhs.entries| && i < |rhs.entries| {
      AgreesWithSplitHeaders(dir, lhs.entries[i].val, rhs.entries[i].val, c);
      WalkEntriesAgree(dir, lhs, rhs, c, i + 1);
    }
  }

  /* ---------------------------------------------------------------------- */
  /* Mappings                                                                */

  /** `mapping::assign<dir>(lhs, rhs)` of this header: the target's adapted
      part is assigned from the source's adapted part whatever the source
      holds, since there is no `enabled` to ask.  The source is never
      modified. */
  function MappingAssign(m: Mappings.Mapping, dir: Direction, s: Operators.Sides): (r: Operators.Sides)
    requires Mappings.Applicable(m, s)
    ensures Operators.Ordered(dir, r).1 == Operators.Ordered(dir, s).1
    // the write happens even when the split headers would skip it
    ensures var u := Update(Mappings.TargetAdapter(m, dir), Operators.Ordered(dir, s).0, Mappings.Written(m, dir, s));
      u.Some? ==> Operators.Ordered(dir, r).0 == u.value
    // from an enabled source it is the split headers' assignment
    ensures Mappings.SourceEnabled(m, dir, s) ==> r == Mappings.Assign(m, dir, s)
  {
    var (to, from) := Operators.Ordered(dir, s);
    var to' := Update(Mappings.TargetAdapter(m, dir), to, Mappings.Written(m, dir, s)).GetOr(to);
    Operators.OrderedIsBijection(dir, Operators.Place(dir, to', from), to', from);
    Operators.Place(dir, to', from)
  }

  /** `mapping::equal<dir>(lhs, rhs)` of this header: this header's
      comparison of the adapted parts, whatever the adapters' states. */
  function MappingEqual(m: Mappings.Mapping, dir: Direction, s: Operators.Sides): (r: Option<bool>)
    requires Mappings.Applicable(m, s)
    // on enabled sides whose sequences are alike in kind and take the
    // walk's shape, it is the split headers' corrected comparison
    ensures var v := Mappings.Views(m, s);
      && AdapterEnabled(m.lhsAdapter, s.lhs) && AdapterEnabled(m.rhsAdapter, s.rhs)
      && SameKinds(v.lhs, v.rhs) && Operators.WalkSafe(v.lhs, v.rhs)
      ==> r == Some(Mappings.Equal(m, dir, s))
    // a longer lhs sequence is never equal
    ensures var v := Mappings.Views(m, s);
      v.lhs.Seq? && v.rhs.Seq? && |v.rhs.items| < |v.lhs.items| ==> r != Some(true)
  {
    var v := Mappings.Views(m, s);
    if SameKinds(v.lhs, v.rhs) && Operators.WalkSafe(v.lhs, v.rhs) then
      AgreesWithSplitHeaders(dir, v.lhs, v.rhs, m.conv);
      Operators.AsWrittenExactWhenSafe(dir, v.lhs, v.rhs, m.conv);
      Equal(dir, v.lhs, v.rhs, m.conv)
    else
      Equal(dir, v.lhs, v.rhs, m.conv)
  }

  /** A fixed `std::array<int, 2>` lhs {1, 2} against a resizable
      `std::vector<int>` rhs {1}, compared `rhs_to_lhs`: the split headers'
      guard answers "unequal", the monolithic guard lets the pair through
      and the walk reads a second rhs element that does not exist. */
  lemma FixedTargetOverrun()
    ensures var lhs := Seq(false, TInt, [Int(1), Int(2)]);
      var rhs := Seq(true, TInt, [Int(1)]);
      && Operators.EqualAsWritten(RhsToLhs, lhs, rhs, Operators.IdentityConverter) == Some(false)
      && Equal(RhsToLhs, lhs, rhs, Operators.IdentityConverter).None?
      && !Operators.Equal(RhsToLhs, Operators.Sides(lhs, rhs), Operators.IdentityConverter)
  {
    var lhs := Seq(false, TInt, [Int(1), Int(2)]);
    var rhs := Seq(true, TInt, [Int(1)]);
    assert Equal(RhsToLhs, Int(1), Int(1), Operators.IdentityConverter) == Some(true);
    assert WalkItems(RhsToLhs, lhs, rhs, Operators.IdentityConverter, 1).None?;
  }

  /** After `assign<lhs_to_rhs>` of a `std::vector<int>` {1, 2} into a
      `std::array<int, 1>`, the monolithic comparison reads past the end of
      the array, while the corrected comparison answers "equal". */
  lemma OverrunAfterAssign()
    ensures
      var s := Operators.Sides(Seq(true, TInt, [Int(1), Int(2)]), Seq(false, TInt, [Int(0)]));
      var s' := Operators.Assign(LhsToRhs, s, Operators.IdentityConverter);
      && Equal(LhsToRhs, s'.lhs, s'.rhs, Operators.IdentityConverter).None?
      && Operators.Equal(LhsToRhs, s', Operators.IdentityConverter)
  {
    var s := Operators.Sides(Seq(true, TInt, [Int(1), Int(2)]), Seq(false, TInt, [Int(0)]));
    var s' := Operators.Assign(LhsToRhs, s, Operators.IdentityConverter);
    Operators.SequenceOverrunAfterAssign();
    assert s'.rhs.items == [Int(1)];
    assert Equal(LhsToRhs, Int(1), Int(1), Operators.IdentityConverter) == Some(true);
    assert WalkItems(LhsToRhs, s'.lhs, s'.rhs, Operators.IdentityConverter, 1).None?;
  }
}
