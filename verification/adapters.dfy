/**
 * Readers and adapters (libconvertible/convertible/readers.hxx and
 * adapter.hxx): how a mapping reaches the part of an object it converts.
 *
 * A reader is modelled as a lens: `Get` yields the part it designates (a
 * "view"), `Set` yields the whole object after that part has been replaced.
 * `None` marks an object the reader does not apply to: one of the wrong
 * shape, an index out of range, or a disengaged optional under `deref`.
 * An adapter pairs a reader with the type it adapts and a stored adaptee;
 * an argument the reader rejects is viewed through its base subobject of
 * the adaptee type, when it has one (the `static_cast` path).
 */
module Adapters {
  import opened Common
  import opened Values

  datatype Reader =
      /** `reader::identity<adaptee>`: the object itself. */
    | Identity(adaptee: Type)
      /** `reader::member` on a data member of the class `cls`: field
          `field` of an object of that class. */
    | Member(cls: Type, field: nat)
      /** `reader::member` on a member function of the class `cls`: the
          result of calling it on an object of that class. */
    | MemberCall(cls: Type, call: Value -> Value)
      /** `reader::index<i>`: element `position` of a sequence. */
    | Index(position: nat)
      /** `reader::deref`: the content of an optional. */
    | Deref
      /** `reader::maybe`: the optional itself, engaged with a
          value-initialised content when it was empty. */
    | Maybe
      /** `reader::composed`: the adapters applied left to right. */
    | Composed(stages: seq<Adapter>)

  /** `adapter<adaptee, reader>`.  `base`, when present, is the field of a
      derived record that holds its adaptee-typed base subobject. */
  datatype Adapter = Adapter(adaptee: Type, stored: Value, reader: Reader, base: Option<nat>)

  /* ---------------------------------------------------------------------- */
  /* Readers                                                                 */

  /** `obj` is an object of the class type `cls`. */
  predicate OfClass(obj: Value, cls: Type)
  {
    cls.TRecord? && HasType(obj, cls)
  }

  /** The reader's call operator is viable for `obj` (`adaptable`).  A
      member reader takes objects of its class only; an object of a derived
      class reaches it through its base subobject (see `Upcast`). */
  predicate Accepts(r: Reader, obj: Value)
    decreases r, 2, 0, 0
  {
    match r
    case Identity(t) => t == TAny || HasType(obj, t)
    case Member(c, k) => OfClass(obj, c) && k < |c.fields|
    case MemberCall(c, _) => OfClass(obj, c)
    case Index(_) => obj.Seq?
    case Deref => obj.Optional?
    case Maybe => obj.Optional?
    case Composed(stages) => |stages| > 0 && ChainAccepts(r, 0, obj)
  }

  /** The part of `obj` the reader designates. */
  function Get(r: Reader, obj: Value): (res: Option<Value>)
    decreases r, 3, 0, 0
    // a reader designates a part only of an object it accepts
    ensures res.Some? ==> Accepts(r, obj)
    // a member reader reads exactly the objects of its class, and a data
    // member read has the member's declared type
    ensures r.Member? || r.MemberCall? ==> (res.Some? <==> Accepts(r, obj))
    ensures (r.Member? || r.MemberCall?) && res.Some? ==> OfClass(obj, r.cls)
    ensures r.Member? && res.Some? ==> HasType(res.value, r.cls.fields[r.field])
  {
    match r
    case Identity(t) => if Accepts(r, obj) then Some(obj) else None
    case Member(_, k) => if Accepts(r, obj) then Some(obj.fields[k]) else None
    case MemberCall(_, f) => if Accepts(r, obj) then Some(f(obj)) else None
    case Index(i) => if obj.Seq? && i < |obj.items| then Some(obj.items[i]) else None
    case Deref => if obj.Optional? && obj.val.Some? then Some(obj.val.value) else None
    case Maybe =>
      if !obj.Optional? then None
      else if obj.val.None? then Some(obj.(val := Some(Default(obj.content))))
      else Some(obj)
    case Composed(stages) => if |stages| == 0 then None else ChainGet(r, 0, obj)
  }

  /** `obj` after the designated part has been replaced by `v`.  The result
      of a member function call is a temporary and cannot be written. */
  function Set(r: Reader, obj: Value, v: Value): (res: Option<Value>)
    decreases r, 3, 0, 0
    // a reader writes only into an object it accepts, and never through a
    // member function call
    ensures res.Some? ==> Accepts(r, obj) && !r.MemberCall?
    // a data member is written exactly in the objects of its class, and
    // writing a value of the member's type keeps the object of its class
    ensures r.Member? ==> (res.Some? <==> Accepts(r, obj))
    ensures r.Member? && res.Some? && HasType(v, r.cls.fields[r.field]) ==> OfClass(res.value, r.cls)
  {
    match r
    case Identity(t) => if Accepts(r, obj) then Some(v) else None
    case Member(_, k) => if Accepts(r, obj) then Some(obj.(fields := obj.fields[k := v])) else None
    case MemberCall(_, _) => None
    case Index(i) => if obj.Seq? && i < |obj.items| then Some(obj.(items := obj.items[i := v])) else None
    case Deref => if obj.Optional? && obj.val.Some? then Some(obj.(val := Some(v))) else None
    case Maybe => if obj.Optional? then Some(v) else None
    case Composed(stages) => if |stages| == 0 then None else ChainSet(r, 0, obj, v)
  }

  /** `reader.enabled(obj)` where the reader has one, `true` otherwise:
      `maybe` is enabled on an engaged optional, `composed` when every stage
      is enabled on the value the previous stages produce. */
  function Enabled(r: Reader, obj: Value): (b: bool)
    decreases r, 3, 0, 0
    // only a disengaged optional under `maybe`, or a composed reader, is
    // disabled
    ensures !b ==> (r.Maybe? && obj.Optional? && obj.val.None?) || r.Composed?
  {
    match r
    case Maybe => obj.Optional? ==> obj.val.Some?
    case Composed(stages) => |stages| > 0 ==> ChainEnabled(r, 0, obj)
    case _ => true
  }

  predicate ChainAccepts(r: Reader, i: nat, obj: Value)
    requires r.Composed? && i <= |r.stages|
    decreases r, 1, |r.stages| - i, 0
  {
    i == |r.stages|
    || (AdapterAccepts(r.stages[i], obj)
        && match View(r.stages[i], obj)
           case None => false
           case Some(o) => ChainAccepts(r, i + 1, o))
  }

  function ChainGet(r: Reader, i: nat, obj: Value): (res: Option<Value>)
    requires r.Composed? && i <= |r.stages|
    decreases r, 1, |r.stages| - i, 1
    ensures res.Some? ==> ChainAccepts(r, i, obj)
  {
    if i == |r.stages| then Some(obj)
    else
      match View(r.stages[i], obj)
      case None => None
      case Some(o) => ChainGet(r, i + 1, o)
  }

  function ChainSet(r: Reader, i: nat, obj: Value, v: Value): (res: Option<Value>)
    requires r.Composed? && i <= |r.stages|
    decreases r, 1, |r.stages| - i, 1
    ensures res.Some? ==> ChainAccepts(r, i, obj)
  {
    if i == |r.stages| then Some(v)
    else
      match View(r.stages[i], obj)
      case None => None
      case Some(o) =>
        match ChainSet(r, i + 1, o, v)
        case None => None
        case Some(w) => Update(r.stages[i], obj, w)
  }

  /** `enabled_impl`: stops at the first stage that is not enabled. */
  predicate ChainEnabled(r: Reader, i: nat, obj: Value)
    requires r.Composed? && i < |r.stages|
    decreases r, 1, |r.stages| - i, 0
  {
    AdapterEnabled(r.stages[i], obj)
    && (i + 1 < |r.stages| ==>
          match View(r.stages[i], obj)
          case None => false
          case Some(o) => ChainEnabled(r, i + 1, o))
  }

  /* ---------------------------------------------------------------------- */
  /* Adapters                                                                */

  /** The adaptee-typed base subobject `obj` is cast to when the reader
      rejects `obj` itself. */
  function Upcast(a: Adapter, obj: Value): Option<Value>
  {
    if a.base.Some? && obj.Record? && a.base.value < |obj.fields| then Some(obj.fields[a.base.value])
    else None
  }

  /** The reader is applied to the object itself. */
  predicate Direct(a: Adapter, obj: Value)
    decreases a, 0, 0, 0
  {
    Accepts(a.reader, obj)
  }

  /** `concepts::adaptable<obj, adapter>`: either call operator is viable. */
  predicate AdapterAccepts(a: Adapter, obj: Value)
    decreases a, 0, 1, 0
  {
    Direct(a, obj) || (Upcast(a, obj).Some? && Accepts(a.reader, Upcast(a, obj).value))
  }

  /** `adapter::operator()(obj)`. */
  function View(a: Adapter, obj: Value): (res: Option<Value>)
    decreases a, 0, 1, 1
    // an adapter views only an argument it accepts, directly or through its
    // base subobject
    ensures res.Some? ==> AdapterAccepts(a, obj)
    // a member adapter reads an object of the member's class, or the base
    // subobject of that class of a derived object
    ensures a.reader.Member? && res.Some? ==>
      OfClass(obj, a.reader.cls) || (Upcast(a, obj).Some? && OfClass(Upcast(a, obj).value, a.reader.cls))
    ensures a.reader.Member? && res.Some? ==>
      a.reader.field < |a.reader.cls.fields| && HasType(res.value, a.reader.cls.fields[a.reader.field])
  {
    if Direct(a, obj) then Get(a.reader, obj)
    else
      match Upcast(a, obj)
      case None => None
      case Some(o) => if Accepts(a.reader, o) then Get(a.reader, o) else None
  }

  /** `obj` after its adapted part has been replaced by `v`. */
  function Update(a: Adapter, obj: Value, v: Value): (res: Option<Value>)
    decreases a, 0, 1, 1
    ensures res.Some? ==> AdapterAccepts(a, obj)
    // a member adapter writes into an object of the member's class, or into
    // the base subobject of that class of a derived object
    ensures a.reader.Member? && res.Some? ==>
      OfClass(obj, a.reader.cls) || (Upcast(a, obj).Some? && OfClass(Upcast(a, obj).value, a.reader.cls))
    // writing through the base subobject replaces that field and no other
    ensures res.Some? && !Direct(a, obj) ==>
      && a.base.Some? && obj.Record? && res.value.Record?
      && |res.value.fields| == |obj.fields| && a.base.value < |obj.fields|
      && forall k | 0 <= k < |obj.fields| && k != a.base.value :: res.value.fields[k] == obj.fields[k]
  {
    if Direct(a, obj) then Set(a.reader, obj, v)
    else
      match Upcast(a, obj)
      case None => None
      case Some(o) =>
        if !Accepts(a.reader, o) then None
        else
          match Set(a.reader, o, v)
          case None => None
          case Some(o') => Some(obj.(fields := obj.fields[a.base.value := o']))
  }

  /** `adapter::enabled(obj)`: the reader's `enabled` on the object itself
      when the reader takes it, `true` otherwise. */
  function AdapterEnabled(a: Adapter, obj: Value): (b: bool)
    decreases a, 0, 1, 0
    // an argument reached through its base subobject is always enabled;
    // otherwise only a `maybe` or composed reader can disable it
    ensures !Direct(a, obj) ==> b
    ensures !b ==> a.reader.Maybe? || a.reader.Composed?
  {
    if Direct(a, obj) then Enabled(a.reader, obj) else true
  }

  /* ---------------------------------------------------------------------- */
  /* Construction                                                            */

  /** `adapter(reader)`: the stored adaptee is value-initialised, so the
      defaulted adaptee is an object of the adaptee type. */
  function FromReader(t: Type, r: Reader, base: Option<nat>): (a: Adapter)
    ensures a.adaptee == t && a.reader == r && a.base == base
    ensures t != TAny ==> DefaultedAdaptee(a) == Default(t)
    ensures Concrete(t) ==> HasType(DefaultedAdaptee(a), t)
  {
    Adapter(t, Default(t), r, base)
  }

  /** `adapter(adaptee, reader)`: the given adaptee is stored and is the
      defaulted adaptee from then on. */
  function FromAdaptee(t: Type, adaptee: Value, r: Reader, base: Option<nat>): (a: Adapter)
    ensures a.adaptee == t && a.reader == r && a.base == base
    ensures t != TAny ==> DefaultedAdaptee(a) == adaptee
  {
    Adapter(t, adaptee, r, base)
  }

  /** `adapter::defaulted_adaptee()`, only for an adapter of a known type. */
  function DefaultedAdaptee(a: Adapter): Value
    requires a.adaptee != TAny
  {
    a.stored
  }

  /** The defaulted adaptee is the adaptee given at construction, or a
      value-initialised object of the adaptee type when only a reader was
      given. */
  lemma DefaultedAdapteeOrigin(t: Type, v: Value, r: Reader, base: Option<nat>)
    requires t != TAny
    ensures DefaultedAdaptee(FromAdaptee(t, v, r, base)) == v
    ensures DefaultedAdaptee(FromReader(t, r, base)) == Default(t)
    ensures Concrete(t) ==> HasType(DefaultedAdaptee(FromReader(t, r, base)), t)
  {
  }

  /* ---------------------------------------------------------------------- */
  /* Lens laws                                                               */

  /** A reader that designates a stored part of the object (not a call
      result, not a composition). */
  predicate Basic(r: Reader)
  {
    !r.MemberCall? && !r.Composed?
  }

  /** Reading back what was written: after `v` is written through a basic
      reader, the reader designates `v` again, provided the written object
      still has the reader's shape and is enabled (a `maybe` reader fills a
      disengaged optional on the next read instead). */
  lemma PutGet(r: Reader, obj: Value, v: Value)
    requires Basic(r) && Set(r, obj, v).Some?
    requires Accepts(r, Set(r, obj, v).value) && Enabled(r, Set(r, obj, v).value)
    ensures Get(r, Set(r, obj, v).value) == Some(v)
  {
  }

  /** Writing back what was read leaves the object as it was, when the
      reader is enabled on it. */
  lemma GetPut(r: Reader, obj: Value)
    requires Basic(r) && Get(r, obj).Some? && Enabled(r, obj)
    ensures Set(r, obj, Get(r, obj).value) == Some(obj)
  {
    match r
    case Member(_, k) => assert obj.fields[k := obj.fields[k]] == obj.fields;
    case Index(i) => assert obj.items[i := obj.items[i]] == obj.items;
    case _ =>
  }

  /** `maybe` on a disengaged optional is not enabled, and reading through
      it engages the optional with a value-initialised content. */
  lemma MaybeFillsDisengaged(t: Type)
    ensures !Enabled(Maybe, Optional(t, None))
    ensures Get(Maybe, Optional(t, None)) == Some(Optional(t, Some(Default(t))))
    ensures Enabled(Maybe, Get(Maybe, Optional(t, None)).value)
  {
  }

  /** A write through an adapter is read back by the same adapter. */
  predicate ReadsBack(a: Adapter, obj: Value, v: Value)
  {
    Update(a, obj, v).Some? && View(a, Update(a, obj, v).value) == Some(v)
  }

  /** An adapter whose basic reader takes the object directly reads back
      its writes under the conditions of `PutGet`. */
  lemma DirectAdapterReadsBack(a: Adapter, obj: Value, v: Value)
    requires Basic(a.reader) && Direct(a, obj) && Set(a.reader, obj, v).Some?
    requires Accepts(a.reader, Set(a.reader, obj, v).value)
    requires Enabled(a.reader, Set(a.reader, obj, v).value)
    ensures ReadsBack(a, obj, v)
  {
    PutGet(a.reader, obj, v);
  }

  /** An adapter that reaches the object through its base subobject writes
      into that subobject only, and reads its writes back. */
  lemma UpcastAdapterReadsBack(a: Adapter, obj: Value, v: Value)
    requires Basic(a.reader) && !Direct(a, obj) && Upcast(a, obj).Some?
    requires var o := Upcast(a, obj).value;
      && Accepts(a.reader, o) && Set(a.reader, o, v).Some?
      && Accepts(a.reader, Set(a.reader, o, v).value)
      && Enabled(a.reader, Set(a.reader, o, v).value)
    requires !Direct(a, Update(a, obj, v).value)
    ensures ReadsBack(a, obj, v)
    ensures forall k | 0 <= k < |obj.fields| && k != a.base.value ::
              Update(a, obj, v).value.fields[k] == obj.fields[k]
  {
    PutGet(a.reader, Upcast(a, obj).value, v);
  }

  /* ---------------------------------------------------------------------- */
  /* Member readers and class hierarchies                                    */

  /** A member reader takes no object of another class, even one whose data
      members have the same types: nothing is read, written or called. */
  lemma MemberRejectsOtherClass(c: Type, k: nat, f: Value -> Value, obj: Value, v: Value)
    requires !obj.Record? || !c.TRecord? || obj.name != c.name
    ensures Get(Member(c, k), obj).None? && Set(Member(c, k), obj, v).None?
    ensures Get(MemberCall(c, f), obj).None?
  {
  }

  /** An object of a class derived from the member's class is read and
      written at the base class's member: the adapter casts it to its base
      subobject and leaves every other part of it as it was. */
  lemma DerivedUsesBaseMember(a: Adapter, obj: Value, v: Value)
    requires a.reader.Member? && a.base.Some?
    requires obj.Record? && !OfClass(obj, a.reader.cls)
    requires a.base.value < |obj.fields| && OfClass(obj.fields[a.base.value], a.reader.cls)
    requires a.reader.field < |a.reader.cls.fields|
    ensures View(a, obj) == Some(obj.fields[a.base.value].fields[a.reader.field])
    ensures var b := obj.fields[a.base.value];
      Update(a, obj, v) == Some(obj.(fields := obj.fields[a.base.value := b.(fields := b.fields[a.reader.field := v])]))
  {
  }

  /** `struct A { int x; }; struct D : A { std::string tag; };` with the
      base modelled as D's field 1: `member(&A::x)` reads `d.x`, not the
      tag, and takes no object of an unrelated class `B { int x; }`. */
  lemma DerivedReadsBaseMemberExample()
    ensures var ta := TRecord("A", [TInt]);
      var a := FromReader(ta, Member(ta, 0), Some(1));
      && View(a, Record("D", [Str("tag"), Record("A", [Int(5)])])) == Some(Int(5))
      && View(a, Record("A", [Int(7)])) == Some(Int(7))
      && View(a, Record("B", [Int(1)])).None?
  {
    var ta := TRecord("A", [TInt]);
    var a := FromReader(ta, Member(ta, 0), Some(1));
    assert OfClass(Record("A", [Int(5)]), ta);
    assert OfClass(Record("A", [Int(7)]), ta);
  }

  /* ---------------------------------------------------------------------- */
  /* Composition                                                             */

  lemma {:induction false} ChainGetAppend(s: seq<Adapter>, a: Adapter, i: nat, obj: Value)
    requires i <= |s|
    ensures ChainGet(Composed(s + [a]), i, obj)
         == match ChainGet(Composed(s), i, obj)
            case None => None
            case Some(o) => View(a, o)
    decreases |s| - i
  {
    var r, r' := Composed(s), Composed(s + [a]);
    if i < |s| {
      assert r'.stages[i] == s[i];
      match View(s[i], obj)
      case None =>
      case Some(o) => ChainGetAppend(s, a, i + 1, o);
    } else {
      assert r'.stages[i] == a;
      match View(a, obj)
      case None =>
      case Some(o) => assert ChainGet(r', i + 1, o) == Some(o);
    }
  }

  /** `composed` applies its adapters left to right: appending an adapter
      applies it to what the earlier adapters produced. */
  lemma ComposedAppliesLeftToRight(s: seq<Adapter>, a: Adapter, obj: Value)
    requires |s| > 0
    ensures Get(Composed(s + [a]), obj)
         == match Get(Composed(s), obj)
            case None => None
            case Some(o) => View(a, o)
    ensures Get(Composed([a]), obj) == View(a, obj)
  {
    ChainGetAppend(s, a, 0, obj);
    ChainGetAppend([], a, 0, obj);
    assert [] + [a] == [a];
  }

  lemma {:induction false} ChainEnabledAppend(s: seq<Adapter>, a: Adapter, i: nat, obj: Value)
    requires i < |s|
    ensures ChainEnabled(Composed(s + [a]), i, obj)
        <==> ChainEnabled(Composed(s), i, obj)
             && match ChainGet(Composed(s), i, obj)
                case None => false
                case Some(o) => AdapterEnabled(a, o)
    decreases |s| - i
  {
    var r, r' := Composed(s), Composed(s + [a]);
    assert r'.stages[i] == s[i];
    if i + 1 < |s| {
      match View(s[i], obj)
      case None =>
      case Some(o) => ChainEnabledAppend(s, a, i + 1, o);
    } else {
      assert r'.stages[i + 1] == a;
    }
  }

  /** `composed::enabled` checks its adapters left to right and stops at
      the first one that is not enabled: appending an adapter adds the check
      of that adapter on what the earlier adapters produced. */
  lemma ComposedEnabledLeftToRight(s: seq<Adapter>, a: Adapter, obj: Value)
    requires |s| > 0
    ensures Enabled(Composed(s + [a]), obj)
        <==> Enabled(Composed(s), obj)
             && match Get(Composed(s), obj)
                case None => false
                case Some(o) => AdapterEnabled(a, o)
    ensures Enabled(Composed([a]), obj) <==> AdapterEnabled(a, obj)
  {
    ChainEnabledAppend(s, a, 0, obj);
  }

  /** Every stage of a composition from `i` on takes what the stages before
      it produced and reads back the value the later stages write into it. */
  predicate ChainReadsBack(r: Reader, i: nat, obj: Value, v: Value)
    requires r.Composed? && i <= |r.stages|
    decreases |r.stages| - i
  {
    i == |r.stages|
    || match View(r.stages[i], obj)
       case None => false
       case Some(o) =>
         && ChainSet(r, i + 1, o, v).Some?
         && ReadsBack(r.stages[i], obj, ChainSet(r, i + 1, o, v).value)
         && ChainReadsBack(r, i + 1, o, v)
  }

  lemma {:induction false} ChainPutGet(r: Reader, i: nat, obj: Value, v: Value)
    requires r.Composed? && i <= |r.stages| && ChainReadsBack(r, i, obj, v)
    ensures ChainSet(r, i, obj, v).Some?
    ensures ChainGet(r, i, ChainSet(r, i, obj, v).value) == Some(v)
    decreases |r.stages| - i
  {
    if i < |r.stages| {
      var o := View(r.stages[i], obj).value;
      ChainPutGet(r, i + 1, o, v);
      var w := ChainSet(r, i + 1, o, v).value;
      assert ChainSet(r, i, obj, v) == Update(r.stages[i], obj, w);
      assert View(r.stages[i], Update(r.stages[i], obj, w).value) == Some(w);
    }
  }

  /** Writing through `composed` and reading back: when every stage reads
      back what the later stages write into the part it designates, a value
      written through the composition is what the composition then reads. */
  lemma ComposedPutGet(s: seq<Adapter>, obj: Value, v: Value)
    requires |s| > 0 && ChainReadsBack(Composed(s), 0, obj, v)
    ensures Set(Composed(s), obj, v).Some?
    ensures Get(Composed(s), Set(Composed(s), obj, v).value) == Some(v)
  {
    ChainPutGet(Composed(s), 0, obj, v);
  }
}
