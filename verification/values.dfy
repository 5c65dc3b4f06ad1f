/**
 * The objects the library converts between, as immutable values.
 *
 * C++ objects are modelled by shape: integers, strings, sequence containers
 * (fixed-size like `std::array` or resizable like `std::vector`), map-like
 * associative containers with integer keys, `std::optional`, and aggregates
 * (structs, and tuples of results) as records of fields.  Every container
 * carries its element type, so that growing it can append value-initialised
 * elements exactly as `resize` and `operator[]` do.
 */
module Values {
  import opened Common

  /** The static type of an object. `TAny` is the adaptee type of an adapter
      that accepts any argument (`details::any`).  A class type is nominal:
      two classes with the same fields but different names are distinct. */
  datatype Type =
    | TAny
    | TInt
    | TStr
    | TArray(length: nat, elem: Type)
    | TVector(elem: Type)
    | TMap(mapped: Type)
    | TOptional(content: Type)
    | TRecord(name: string, fields: seq<Type>)

  /** The class of the tuple a conversion with several results returns. */
  const TupleName: string := "std::tuple"

  /** One key/value pair of a map-like container. */
  datatype Entry = Entry(key: int, val: Value)

  datatype Value =
    | Int(i: int)
    | Str(s: string)
      /** A sequence container; `resizable` distinguishes `std::vector` from `std::array`. */
    | Seq(resizable: bool, elem: Type, items: seq<Value>)
      /** A map-like container, its entries in iteration order. */
    | Dict(mapped: Type, entries: seq<Entry>)
    | Optional(content: Type, val: Option<Value>)
      /** An object of the class `name`, its data members in declaration order. */
    | Record(name: string, fields: seq<Value>)

  /** No part of `t` is the "accepts anything" placeholder. */
  predicate Concrete(t: Type)
  {
    match t
    case TAny => false
    case TInt => true
    case TStr => true
    case TArray(_, e) => Concrete(e)
    case TVector(e) => Concrete(e)
    case TMap(m) => Concrete(m)
    case TOptional(c) => Concrete(c)
    case TRecord(_, fs) => forall i | 0 <= i < |fs| :: Concrete(fs[i])
  }

  /** Keys of a map-like container strictly increase in iteration order. */
  predicate SortedKeys(es: seq<Entry>)
  {
    forall i, j | 0 <= i < j < |es| :: es[i].key < es[j].key
  }

  /** `v` is an object of type `t`. */
  predicate HasType(v: Value, t: Type)
    decreases t
  {
    match t
    case TAny => false
    case TInt => v.Int?
    case TStr => v.Str?
    case TArray(n, e) =>
      v.Seq? && !v.resizable && v.elem == e && |v.items| == n
      && forall i | 0 <= i < |v.items| :: HasType(v.items[i], e)
    case TVector(e) =>
      v.Seq? && v.resizable && v.elem == e
      && forall i | 0 <= i < |v.items| :: HasType(v.items[i], e)
    case TMap(m) =>
      v.Dict? && v.mapped == m && SortedKeys(v.entries)
      && forall i | 0 <= i < |v.entries| :: HasType(v.entries[i].val, m)
    case TOptional(c) =>
      v.Optional? && v.content == c && (v.val.Some? ==> HasType(v.val.value, c))
    case TRecord(n, fs) =>
      v.Record? && v.name == n && |v.fields| == |fs|
      && forall i | 0 <= i < |fs| :: HasType(v.fields[i], fs[i])
  }

  /** The value-initialised object of type `t` (`T{}`): zero, the empty
      string, an array of value-initialised elements, an empty vector, an
      empty map, a disengaged optional, a record of value-initialised fields. */
  function Default(t: Type): (v: Value)
    decreases t
    ensures Concrete(t) ==> HasType(v, t)
  {
    match t
    case TAny => Record("", [])
    case TInt => Int(0)
    case TStr => Str("")
    case TArray(n, e) => Seq(false, e, seq(n, _ => Default(e)))
    case TVector(e) => Seq(true, e, [])
    case TMap(m) => Dict(m, [])
    case TOptional(c) => Optional(c, None)
    case TRecord(n, fs) => Record(n, seq(|fs|, i requires 0 <= i < |fs| => Default(fs[i])))
  }

  /** `std::vector::resize` / the identity on arrays' contents: keep the first
      `n` elements, append value-initialised ones when growing. */
  function Resize(v: Value, n: nat): (r: Value)
    requires v.Seq?
    ensures r.Seq? && r.resizable == v.resizable && r.elem == v.elem && |r.items| == n
    ensures forall i | 0 <= i < n && i < |v.items| :: r.items[i] == v.items[i]
    ensures forall i | |v.items| <= i < n :: r.items[i] == Default(v.elem)
  {
    v.(items := seq(n, i requires 0 <= i < n => if i < |v.items| then v.items[i] else Default(v.elem)))
  }

  /** The keys of a map-like container in iteration order. */
  function Keys(es: seq<Entry>): (ks: seq<int>)
    ensures |ks| == |es|
    ensures forall i | 0 <= i < |es| :: ks[i] == es[i].key
  {
    seq(|es|, i requires 0 <= i < |es| => es[i].key)
  }
}
