/**
 * The binary reader of libconvertible/convertible/convertible.hxx
 * (`reader::binary<first, last>` and its `binary_proxy`): a window of bytes
 * `[first, last]` over some storage, which a value can be written into and
 * compared against.  Storage is a trivially copyable object, a fixed-size
 * container, a resizable container (grown on construction when too small)
 * or a non-owning view.  A trivially copyable value is modelled by its
 * object representation, an abstract byte sequence.
 *
 * Each operation that the source gets wrong exists twice: as written, with
 * the counterexample, and corrected, with the property it was meant to
 * have.  Assigning and comparing a whole object go through the private
 * write and comparison as written, which agree with the corrected ones on
 * a proxy in bounds (`InBoundsAssignValue`); array assignment, nesting and
 * serialisation build on the corrected definitions.
 */
module Binary {
  import opened Common

  type Byte = bv8

  /** Where the bytes live: the object itself (`std::span` over it), a
      fixed-size container, a resizable container, or a dynamic view. */
  datatype Kind = Object | FixedSize | Resizable | View

  /** Storage of `count` elements of `width` bytes each, flattened to its
      bytes. */
  datatype Storage = Storage(kind: Kind, width: nat, count: nat, bytes: seq<Byte>)

  /** Elements of positive width, and exactly their bytes. */
  predicate Valid(st: Storage)
  {
    st.width > 0 && |st.bytes| == st.count * st.width
  }

  datatype Proxy = Proxy(first: nat, last: nat, storage: Storage)

  /** What an operation comes to: a result, a thrown `overflow_error`, a
      call the `requires` clauses reject at compile time, or an access
      outside the storage (undefined behaviour). */
  datatype Outcome<T> = Done(value: T) | Overflow | Rejected | Undefined

  /** `byte_count` (also `size()`). */
  function ByteCount(first: nat, last: nat): (n: nat)
    requires first <= last
    ensures n >= 1 && first + n == last + 1
  {
    last - first + 1
  }

  /** `bytes_required`: the storage must reach one past `last`. */
  function BytesRequired(first: nat, last: nat): (n: nat)
    requires first <= last
    ensures n == last + 1 && n == first + ByteCount(first, last)
  {
    first + ByteCount(first, last)
  }

  function Zeros(n: nat): (z: seq<Byte>)
    ensures |z| == n && forall i | 0 <= i < n :: z[i] == 0
  {
    seq(n, i => 0 as Byte)
  }

  /** `resize(n)` of a container of `width`-byte elements: the prefix is
      kept and new elements are value-initialised (zero bytes). */
  function ResizeTo(st: Storage, n: nat): (r: Storage)
    requires Valid(st)
    ensures Valid(r) && r.kind == st.kind && r.width == st.width && r.count == n
    ensures |r.bytes| == n * st.width
    ensures forall i | 0 <= i < |r.bytes| && i < |st.bytes| :: r.bytes[i] == st.bytes[i]
    ensures forall i | |st.bytes| <= i < |r.bytes| :: r.bytes[i] == 0
  {
    var m := n * st.width;
    if m <= |st.bytes| then st.(count := n, bytes := st.bytes[..m])
    else st.(count := n, bytes := st.bytes + Zeros(m - |st.bytes|))
  }

  /* ---------------------------------------------------------------------- */
  /* Construction                                                            */

  /** The constructors as written.  An object or a fixed-size container is
      accepted when it holds `byte_count` bytes; a resizable container
      holding fewer than `bytes_required` bytes is resized to
      `max(1, bytes_required / width)` elements; a dynamic container still
      short of `bytes_required` bytes throws. */
  function ConstructAsWritten(st: Storage, first: nat, last: nat): (r: Outcome<Proxy>)
    requires Valid(st) && first <= last
    ensures r.Done? ==> r.value.first == first && r.value.last == last && Valid(r.value.storage)
    ensures r.Done? ==> r.value.storage.kind == st.kind && r.value.storage.width == st.width
    ensures r.Done? && (st.kind == Resizable || st.kind == View) ==> |r.value.storage.bytes| >= BytesRequired(first, last)
    ensures !r.Undefined?
  {
    var required := BytesRequired(first, last);
    if st.kind == Object || st.kind == FixedSize then
      if |st.bytes| >= ByteCount(first, last) then Done(Proxy(first, last, st)) else Rejected
    else
      var st' := if st.kind == Resizable && |st.bytes| < required then ResizeTo(st, Max(1, required / st.width)) else st;
      if |st'.bytes| < required then Overflow else Done(Proxy(first, last, st'))
  }

  /** Number of elements a resizable container needs to hold `required`
      bytes: the ceiling of the quotient. */
  function ElementsFor(required: nat, width: nat): (n: nat)
    requires width > 0
    ensures n * width >= required && (n > 0 ==> (n - 1) * width < required)
  {
    (required + width - 1) / width
  }

  /** A resizable container made to hold at least `required` bytes. */
  function Grow(st: Storage, required: nat): (r: Storage)
    requires Valid(st)
    ensures Valid(r) && r.kind == st.kind && r.width == st.width
    ensures |r.bytes| >= required && |r.bytes| >= |st.bytes|
    ensures forall i | 0 <= i < |st.bytes| :: r.bytes[i] == st.bytes[i]
  {
    if |st.bytes| >= required then st
    else
      var n := ElementsFor(required, st.width);
      var r := ResizeTo(st, n);
      assert |r.bytes| >= required;
      r
  }

  /** The constructors corrected: fixed storage must reach `bytes_required`,
      and growth rounds up, so a resizable container always fits. */
  function Construct(st: Storage, first: nat, last: nat): (r: Outcome<Proxy>)
    requires Valid(st) && first <= last
    ensures r.Done? ==> r.value.first == first && r.value.last == last && Valid(r.value.storage)
    ensures r.Done? ==> r.value.storage.kind == st.kind && r.value.storage.width == st.width
    ensures r.Done? ==> |r.value.storage.bytes| >= BytesRequired(first, last)
    ensures r.Done? ==> |r.value.storage.bytes| >= |st.bytes|
    ensures r.Done? ==> forall i | 0 <= i < |st.bytes| :: r.value.storage.bytes[i] == st.bytes[i]
    ensures r.Done? <==> st.kind == Resizable || |st.bytes| >= BytesRequired(first, last)
    ensures r.Overflow? <==> st.kind == View && |st.bytes| < BytesRequired(first, last)
    ensures r.Rejected? <==> (st.kind == Object || st.kind == FixedSize) && |st.bytes| < BytesRequired(first, last)
  {
    var required := BytesRequired(first, last);
    match st.kind
    case Object => if |st.bytes| >= required then Done(Proxy(first, last, st)) else Rejected
    case FixedSize => if |st.bytes| >= required then Done(Proxy(first, last, st)) else Rejected
    case Resizable => Done(Proxy(first, last, Grow(st, required)))
    case View => if |st.bytes| < required then Overflow else Done(Proxy(first, last, st))
  }

  /** The window lies inside the storage. */
  predicate InBounds(p: Proxy)
  {
    p.first <= p.last && BytesRequired(p.first, p.last) <= |p.storage.bytes|
  }

  /** On dynamic byte storage (a `std::vector<std::byte>` or a span of
      bytes) the growth as written reaches `bytes_required` exactly, and the
      written and corrected constructors agree. */
  lemma ConstructAsWrittenOnBytes(st: Storage, first: nat, last: nat)
    requires Valid(st) && first <= last && st.width == 1
    requires st.kind == Resizable || st.kind == View
    ensures ConstructAsWritten(st, first, last) == Construct(st, first, last)
  {
    var required := BytesRequired(first, last);
    if st.kind == Resizable && |st.bytes| < required {
      assert required / 1 == required;
      assert Max(1, required / 1) == ElementsFor(required, 1);
      assert Grow(st, required) == ResizeTo(st, ElementsFor(required, 1));
    }
  }

  /** Growth as written yields `floor(required / width)` elements: for
      `std::vector<std::uint32_t>` and `binary<0,4>` that is one element,
      four bytes, short of the five required, and construction throws. */
  lemma GrowAsWrittenFallsShort()
    ensures ConstructAsWritten(Storage(Resizable, 4, 0, []), 0, 4) == Overflow
    ensures Construct(Storage(Resizable, 4, 0, []), 0, 4).Done?
  {
    assert ResizeTo(Storage(Resizable, 4, 0, []), 1).bytes == Zeros(4);
  }

  /** The fixed-size check as written compares with `byte_count`: a
      `std::array<std::byte, 4>` is accepted for `binary<2,5>`, whose
      window ends two bytes past the array. */
  lemma FixedCheckAsWrittenTooWeak()
    ensures var st := Storage(FixedSize, 1, 4, Zeros(4));
      && ConstructAsWritten(st, 2, 5).Done?
      && !InBounds(ConstructAsWritten(st, 2, 5).value)
      && Construct(st, 2, 5) == Rejected
  {
  }

  /** Every proxy the corrected constructors produce has its window inside
      the storage, and a resizable container is always accepted. */
  lemma ConstructedInBounds(st: Storage, first: nat, last: nat)
    requires Valid(st) && first <= last
    ensures Construct(st, first, last).Done? ==> InBounds(Construct(st, first, last).value)
    ensures st.kind == Resizable ==> Construct(st, first, last).Done?
  {
  }

  /* ---------------------------------------------------------------------- */
  /* Reading, writing and comparing the window                               */

  /** `st` with `src` copied to position `at`. */
  function Splice(bytes: seq<Byte>, at: nat, src: seq<Byte>): (r: seq<Byte>)
    requires at + |src| <= |bytes|
    ensures |r| == |bytes|
    ensures forall i | 0 <= i < |src| :: r[at + i] == src[i]
    ensures forall i | 0 <= i < |bytes| && !(at <= i < at + |src|) :: r[i] == bytes[i]
  {
    bytes[..at] + src + bytes[at + |src|..]
  }

  /** `operator span<const byte>()`: the `size()` bytes from `data()`. */
  function Bytes(p: Proxy): (r: Outcome<seq<Byte>>)
    requires p.first <= p.last
    ensures r.Done? <==> InBounds(p)
    ensures r.Done? ==> |r.value| == ByteCount(p.first, p.last)
    ensures r.Done? ==> forall i | 0 <= i < |r.value| :: r.value[i] == p.storage.bytes[p.first + i]
  {
    if InBounds(p) then Done(p.storage.bytes[p.first..p.last + 1]) else Undefined
  }

  /** The private `operator=(span<const byte>)` as written: resizable
      storage throws when the source is larger than the whole storage, then
      the source is copied to `data()`, i.e. from `first` on. */
  function WriteAsWritten(p: Proxy, src: seq<Byte>): (r: Outcome<Proxy>)
    ensures r.Done? <==> p.first + |src| <= |p.storage.bytes|
    ensures r.Overflow? <==> p.storage.kind == Resizable && |src| > |p.storage.bytes|
    ensures r.Done? ==> r.value.first == p.first && r.value.last == p.last
    ensures r.Done? ==> |r.value.storage.bytes| == |p.storage.bytes|
    ensures r.Done? ==> r.value.storage.kind == p.storage.kind && r.value.storage.width == p.storage.width
                        && r.value.storage.count == p.storage.count
  {
    if p.storage.kind == Resizable && |src| > |p.storage.bytes| then Overflow
    else if p.first + |src| > |p.storage.bytes| then Undefined
    else Done(p.(storage := p.storage.(bytes := Splice(p.storage.bytes, p.first, src))))
  }

  /** The same with the guard measuring from `first`: on resizable storage
      a source that would run past the end throws instead of writing out of
      bounds.  The copy writes exactly the bytes `[first, first + |src|)`. */
  function Write(p: Proxy, src: seq<Byte>): (r: Outcome<Proxy>)
    ensures r.Done? <==> p.first + |src| <= |p.storage.bytes|
    ensures r.Overflow? <==> p.storage.kind == Resizable && p.first + |src| > |p.storage.bytes|
    ensures r.Done? ==> r.value.first == p.first && r.value.last == p.last
    ensures r.Done? ==> r.value.storage.kind == p.storage.kind && r.value.storage.width == p.storage.width
    ensures r.Done? ==> |r.value.storage.bytes| == |p.storage.bytes|
    ensures r.Done? ==> forall i | 0 <= i < |src| :: r.value.storage.bytes[p.first + i] == src[i]
    ensures r.Done? ==> forall i | 0 <= i < |p.storage.bytes| && !(p.first <= i < p.first + |src|) ::
              r.value.storage.bytes[i] == p.storage.bytes[i]
  {
    if p.first + |src| <= |p.storage.bytes| then
      var st := p.storage;
      Done(Proxy(p.first, p.last, Storage(st.kind, st.width, st.count, Splice(st.bytes, p.first, src))))
    else if p.storage.kind == Resizable then Overflow
    else Undefined
  }

  /** The private `operator==(span<const byte>)` as written: the same guard,
      then `memcmp` of `|src|` bytes from `data()`. */
  function CompareAsWritten(p: Proxy, src: seq<Byte>): (r: Outcome<bool>)
    ensures r.Done? <==> p.first + |src| <= |p.storage.bytes|
    ensures r.Overflow? <==> p.storage.kind == Resizable && |src| > |p.storage.bytes|
    ensures r.Done? ==> (r.value <==> forall i | 0 <= i < |src| :: p.storage.bytes[p.first + i] == src[i])
  {
    if p.storage.kind == Resizable && |src| > |p.storage.bytes| then Overflow
    else if p.first + |src| > |p.storage.bytes| then Undefined
    else Done(p.storage.bytes[p.first..p.first + |src|] == src)
  }

  /** The comparison with the corrected guard. */
  function Compare(p: Proxy, src: seq<Byte>): (r: Outcome<bool>)
    ensures r.Done? <==> p.first + |src| <= |p.storage.bytes|
    ensures r.Done? ==> (r.value <==> forall i | 0 <= i < |src| :: p.storage.bytes[p.first + i] == src[i])
  {
    if p.storage.kind == Resizable && p.first + |src| > |p.storage.bytes| then Overflow
    else if p.first + |src| > |p.storage.bytes| then Undefined
    else Done(p.storage.bytes[p.first..p.first + |src|] == src)
  }

  /** Where the source fits, the written and corrected guards agree. */
  lemma AsWrittenAgreesInBounds(p: Proxy, src: seq<Byte>)
    requires p.first + |src| <= |p.storage.bytes|
    ensures WriteAsWritten(p, src) == Write(p, src)
    ensures CompareAsWritten(p, src) == Compare(p, src)
  {
  }

  /** The guard as written ignores `first`: a proxy `<4,7>` over byte
      storage shrunk to six bytes after construction accepts a four-byte
      value, and the copy runs two bytes past the end. */
  lemma ShrinkGuardIgnoresOffset()
    ensures var p := Proxy(4, 7, Storage(Resizable, 1, 6, Zeros(6)));
      && WriteAsWritten(p, Zeros(4)) == Undefined
      && CompareAsWritten(p, Zeros(4)) == Undefined
      && Write(p, Zeros(4)) == Overflow
      && Compare(p, Zeros(4)) == Overflow
  {
  }

  /** A proxy in bounds never reaches undefined behaviour for a value of
      at most `byte_count` bytes, in either version. */
  lemma InBoundsWriteIsDefined(p: Proxy, src: seq<Byte>)
    requires InBounds(p) && |src| <= ByteCount(p.first, p.last)
    ensures Write(p, src).Done? && Compare(p, src).Done?
    ensures WriteAsWritten(p, src) == Write(p, src)
  {
  }

  /** `proxy = value`, then `proxy == value`, holds. */
  lemma WriteThenCompare(p: Proxy, src: seq<Byte>)
    requires Write(p, src).Done?
    ensures Compare(Write(p, src).value, src) == Done(true)
  {
  }

  /** Writing the value's bytes and reading the window back gives the
      value, padded with the bytes that were there before. */
  lemma WriteThenRead(p: Proxy, src: seq<Byte>)
    requires InBounds(p) && |src| <= ByteCount(p.first, p.last)
    ensures Bytes(Write(p, src).value).Done?
    ensures Bytes(Write(p, src).value).value[..|src|] == src
  {
  }

  /* ---------------------------------------------------------------------- */
  /* Assigning and comparing values                                          */

  /** The window bytes `[first, first + |enc|)` of `q` hold `enc`, and every
      other byte, the size, the window and the storage's shape are those of
      `p`. */
  predicate WroteAt(p: Proxy, q: Proxy, enc: seq<Byte>)
  {
    && q.first == p.first && q.last == p.last
    && q.storage.kind == p.storage.kind && q.storage.width == p.storage.width
    && q.storage.count == p.storage.count
    && |q.storage.bytes| == |p.storage.bytes|
    && p.first + |enc| <= |p.storage.bytes|
    && (forall i | 0 <= i < |enc| :: q.storage.bytes[p.first + i] == enc[i])
    && (forall i | 0 <= i < |p.storage.bytes| && !(p.first <= i < p.first + |enc|) ::
          q.storage.bytes[i] == p.storage.bytes[i])
  }

  /** `proxy = obj` for a trivially copyable object, as written: an object
      of more than `byte_count` bytes is rejected at compile time; otherwise
      all its bytes go through the private write, whose guard on resizable
      storage measures the whole storage.  The write succeeds exactly when
      the bytes fit from `first` on, and then changes only those bytes. */
  function AssignValue(p: Proxy, enc: seq<Byte>): (r: Outcome<Proxy>)
    requires p.first <= p.last
    ensures r.Rejected? <==> |enc| > ByteCount(p.first, p.last)
    ensures r.Done? <==> |enc| <= ByteCount(p.first, p.last) && p.first + |enc| <= |p.storage.bytes|
    ensures r.Overflow? <==> |enc| <= ByteCount(p.first, p.last)
                             && p.storage.kind == Resizable && |enc| > |p.storage.bytes|
    ensures r.Done? ==> WroteAt(p, r.value, enc)
  {
    if |enc| > ByteCount(p.first, p.last) then Rejected else WriteAsWritten(p, enc)
  }

  /** `proxy == obj` for a trivially copyable object, as written: the same
      compile-time size check, then the private comparison of all the
      object's bytes from `first` on. */
  function CompareValue(p: Proxy, enc: seq<Byte>): (r: Outcome<bool>)
    requires p.first <= p.last
    ensures r.Rejected? <==> |enc| > ByteCount(p.first, p.last)
    ensures r.Done? <==> |enc| <= ByteCount(p.first, p.last) && p.first + |enc| <= |p.storage.bytes|
    ensures r.Done? ==> (r.value <==> forall i | 0 <= i < |enc| :: p.storage.bytes[p.first + i] == enc[i])
  {
    if |enc| > ByteCount(p.first, p.last) then Rejected else CompareAsWritten(p, enc)
  }

  /** `proxy = obj`, then `proxy == obj`, holds whenever the assignment
      succeeds. */
  lemma AssignValueThenCompare(p: Proxy, enc: seq<Byte>)
    requires p.first <= p.last && AssignValue(p, enc).Done?
    ensures CompareValue(AssignValue(p, enc).value, enc) == Done(true)
  {
  }

  /** On a proxy in bounds, assigning an object the window can take always
      succeeds, and the guard as written agrees with the corrected write. */
  lemma InBoundsAssignValue(p: Proxy, enc: seq<Byte>)
    requires InBounds(p) && |enc| <= ByteCount(p.first, p.last)
    ensures AssignValue(p, enc).Done?
    ensures AssignValue(p, enc) == Write(p, enc)
  {
    InBoundsWriteIsDefined(p, enc);
  }

  /** `proxy = range` for a fixed-size container of `count` elements as
      written: the whole array fits the window, but the span handed on is
      `std::size(range)` bytes long, so only the first `count` bytes of the
      array are copied. */
  function AssignArrayAsWritten(p: Proxy, enc: seq<Byte>, count: nat): (r: Outcome<Proxy>)
    requires p.first <= p.last && count <= |enc|
    ensures r.Rejected? <==> |enc| > ByteCount(p.first, p.last)
    ensures r.Done? <==> |enc| <= ByteCount(p.first, p.last) && p.first + count <= |p.storage.bytes|
    ensures r.Done? ==> WroteAt(p, r.value, enc[..count])
  {
    if |enc| > ByteCount(p.first, p.last) then Rejected else WriteAsWritten(p, enc[..count])
  }

  /** The same copying the array's `count * width` bytes: all of them land
      in the window. */
  function AssignArray(p: Proxy, enc: seq<Byte>, count: nat): (r: Outcome<Proxy>)
    requires p.first <= p.last && count <= |enc|
    ensures r.Rejected? <==> |enc| > ByteCount(p.first, p.last)
    ensures r.Done? <==> |enc| <= ByteCount(p.first, p.last) && p.first + |enc| <= |p.storage.bytes|
    ensures r.Done? ==> WroteAt(p, r.value, enc)
  {
    if |enc| > ByteCount(p.first, p.last) then Rejected else WriteAsWritten(p, enc)
  }

  /** `proxy == range` as written: compares only `count` bytes. */
  function CompareArrayAsWritten(p: Proxy, enc: seq<Byte>, count: nat): (r: Outcome<bool>)
    requires p.first <= p.last && count <= |enc|
    ensures r.Rejected? <==> |enc| > ByteCount(p.first, p.last)
    ensures r.Done? <==> |enc| <= ByteCount(p.first, p.last) && p.first + count <= |p.storage.bytes|
    ensures r.Done? ==> (r.value <==> forall i | 0 <= i < count :: p.storage.bytes[p.first + i] == enc[i])
  {
    if |enc| > ByteCount(p.first, p.last) then Rejected else CompareAsWritten(p, enc[..count])
  }

  /** `proxy == range` comparing the array's bytes. */
  function CompareArray(p: Proxy, enc: seq<Byte>, count: nat): (r: Outcome<bool>)
    requires p.first <= p.last && count <= |enc|
    ensures r.Done? ==> p.first + |enc| <= |p.storage.bytes|
    ensures r.Done? ==> (r.value <==> forall i | 0 <= i < |enc| :: p.storage.bytes[p.first + i] == enc[i])
  {
    if |enc| > ByteCount(p.first, p.last) then Rejected else CompareAsWritten(p, enc)
  }

  /** A one-element `std::array<std::uint16_t, 1>` holding bytes 1, 2
      assigned to `binary<0,1>` over a zeroed `std::uint16_t`: as written
      only the first byte is copied, the window then reads 1, 0, and the
      comparison with the array, looking at one byte, still succeeds. */
  lemma ArrayAssignCopiesElementCount()
    ensures var p := Proxy(0, 1, Storage(Object, 2, 1, Zeros(2)));
      && AssignArrayAsWritten(p, [1, 2], 1).Done?
      && AssignArrayAsWritten(p, [1, 2], 1).value.storage.bytes == [1, 0]
      && CompareArrayAsWritten(AssignArrayAsWritten(p, [1, 2], 1).value, [1, 2], 1) == Done(true)
      && CompareArray(AssignArrayAsWritten(p, [1, 2], 1).value, [1, 2], 1) == Done(false)
      && AssignArray(p, [1, 2], 1).value.storage.bytes == [1, 2]
  {
    var p := Proxy(0, 1, Storage(Object, 2, 1, Zeros(2)));
    assert [1, 2][..1] == [1 as Byte];
    var q := AssignArrayAsWritten(p, [1, 2], 1).value;
    assert q.storage.bytes == [1, 0];
    assert q.storage.bytes[0..1] == [1];
    assert q.storage.bytes[1] != 2;
  }

  /** Assigning an array and comparing it afterwards holds. */
  lemma AssignArrayThenCompare(p: Proxy, enc: seq<Byte>, count: nat)
    requires InBounds(p) && count <= |enc| <= ByteCount(p.first, p.last)
    ensures AssignArray(p, enc, count).Done?
    ensures CompareArray(AssignArray(p, enc, count).value, enc, count) == Done(true)
  {
  }

  /* ---------------------------------------------------------------------- */
  /* Chaining                                                                */

  /** `binary<f,l>` applied to a proxy `<f1,l1>`: a proxy `<l1+1+f, l1+1+l>`
      constructed over the same storage, which may grow it.  A proxy over an
      object stores a `std::span` of only `byte_count` bytes from the
      object's start; the nested proxy is built over that span by the
      dynamic-container constructor, which throws, since the span never
      reaches one past the nested window (`ObjectNestOverflows`).  This is
      the nesting over the corrected constructors; `NestAsWritten` uses the
      constructors as written. */
  function Nest(p: Proxy, f: nat, l: nat): (r: Outcome<Proxy>)
    requires Valid(p.storage) && f <= l
    ensures p.storage.kind == Object ==> r.Overflow?
    ensures p.storage.kind == Resizable ==> r.Done?
    ensures r.Done? ==> r.value.first == p.last + 1 + f && r.value.last == p.last + 1 + l
    ensures r.Done? ==> InBounds(r.value) && r.value.storage.kind == p.storage.kind
  {
    if p.storage.kind == Object then Overflow
    else Construct(p.storage, p.last + 1 + f, p.last + 1 + l)
  }

  /** `binary<f,l>` applied to a proxy, over the constructors as written:
      the nested window of resizable storage may still fall short after the
      floor growth, and a fixed-size container is only checked against the
      nested window's `byte_count`. */
  function NestAsWritten(p: Proxy, f: nat, l: nat): (r: Outcome<Proxy>)
    requires Valid(p.storage) && f <= l
    ensures p.storage.kind == Object ==> r.Overflow?
    ensures r.Done? ==> r.value.first == p.last + 1 + f && r.value.last == p.last + 1 + l
    ensures r.Done? ==> Valid(r.value.storage) && r.value.storage.kind == p.storage.kind
    ensures !r.Undefined?
  {
    if p.storage.kind == Object then Overflow
    else ConstructAsWritten(p.storage, p.last + 1 + f, p.last + 1 + l)
  }

  /** Over dynamic byte storage the nesting as written is the corrected
      one. */
  lemma NestAsWrittenOnBytes(p: Proxy, f: nat, l: nat)
    requires Valid(p.storage) && f <= l && p.storage.width == 1
    requires p.storage.kind == Resizable || p.storage.kind == View
    ensures NestAsWritten(p, f, l) == Nest(p, f, l)
  {
    ConstructAsWrittenOnBytes(p.storage, p.last + 1 + f, p.last + 1 + l);
  }

  /** Nesting as written goes wrong in both ways construction does:
      `binary<0,4>` over a proxy `<0,3>` of a one-element
      `std::vector<std::uint32_t>` grows it to two elements, eight bytes,
      short of the nine the window `<4,8>` needs, and throws; `binary<0,5>`
      over a proxy `<0,3>` of a `std::array<std::byte, 8>` is accepted with
      the window `<4,9>` running two bytes past the array.  The corrected
      nesting succeeds in the first case and rejects the second. */
  lemma NestAsWrittenGoesWrong()
    ensures var p := Proxy(0, 3, Storage(Resizable, 4, 1, Zeros(4)));
      NestAsWritten(p, 0, 4) == Overflow && Nest(p, 0, 4).Done?
    ensures var p := Proxy(0, 3, Storage(FixedSize, 1, 8, Zeros(8)));
      && NestAsWritten(p, 0, 5).Done?
      && !InBounds(NestAsWritten(p, 0, 5).value)
      && Nest(p, 0, 5) == Rejected
  {
    var st := Storage(Resizable, 4, 1, Zeros(4));
    assert Max(1, BytesRequired(4, 8) / 4) == 2;
    assert |ResizeTo(st, 2).bytes| == 8;
  }

  /** The span an object proxy stores, `byte_count` bytes from the object's
      start viewed as dynamic storage, is always too short for a nested
      window: constructing the nested proxy over it throws. */
  lemma ObjectNestOverflows(p: Proxy, f: nat, l: nat)
    requires Valid(p.storage) && p.storage.kind == Object && p.first <= p.last && f <= l
    requires |p.storage.bytes| >= ByteCount(p.first, p.last)
    ensures var n := ByteCount(p.first, p.last);
      Construct(Storage(View, 1, n, p.storage.bytes[..n]), p.last + 1 + f, p.last + 1 + l) == Overflow
    ensures Nest(p, f, l) == Overflow
  {
  }

  /** Windows that do not overlap. */
  predicate Disjoint(a: (nat, nat), b: (nat, nat))
  {
    a.1 < b.0 || b.1 < a.0
  }

  /** Nested windows start after the outer window, and nesting preserves
      disjointness of the inner windows. */
  lemma NestedWindowsFollow(p: Proxy, a: (nat, nat), b: (nat, nat))
    requires p.first <= p.last && a.0 <= a.1 && b.0 <= b.1
    ensures p.last < p.last + 1 + a.0
    ensures Disjoint(a, b) <==> Disjoint((p.last + 1 + a.0, p.last + 1 + a.1), (p.last + 1 + b.0, p.last + 1 + b.1))
  {
  }

  /** The test's chaining: `binary<0,3>` over a proxy `<0,3>` of an empty
      `std::vector<std::uint32_t>` is the window `<4,7>`, over which the
      vector has grown to two elements. */
  lemma NestedProxyExample()
    ensures Construct(Storage(Resizable, 4, 0, []), 0, 3) == Done(Proxy(0, 3, Storage(Resizable, 4, 1, Zeros(4))))
    ensures Nest(Proxy(0, 3, Storage(Resizable, 4, 1, Zeros(4))), 0, 3) == Done(Proxy(4, 7, Storage(Resizable, 4, 2, Zeros(8))))
  {
    var st := Storage(Resizable, 4, 0, []);
    assert ElementsFor(4, 4) == 1;
    assert ResizeTo(st, 1) == Storage(Resizable, 4, 1, Zeros(4));
    var st1 := Storage(Resizable, 4, 1, Zeros(4));
    assert ElementsFor(8, 4) == 2;
    assert Zeros(4) + Zeros(4) == Zeros(8);
    assert ResizeTo(st1, 2) == Storage(Resizable, 4, 2, Zeros(8));
  }

  /** Assigning 0xFFFFFFFF through the nested window leaves the first
      element zero and sets the second. */
  lemma NestedWriteExample()
    ensures var q := Proxy(4, 7, Storage(Resizable, 4, 2, Zeros(8)));
      && Write(q, [255, 255, 255, 255]).Done?
      && Write(q, [255, 255, 255, 255]).value.storage.bytes == [0, 0, 0, 0, 255, 255, 255, 255]
  {
    var z := Zeros(8);
    assert z[..4] == [0, 0, 0, 0] && z[8..] == [];
    assert Splice(z, 4, [255, 255, 255, 255]) == z[..4] + [255, 255, 255, 255] + z[8..];
  }

  /* ---------------------------------------------------------------------- */
  /* Serialisation                                                           */

  /** The windows of a table of binary mappings and the object
      representations written into them. */
  predicate Layout(ws: seq<(nat, nat)>, encs: seq<seq<Byte>>)
  {
    && |ws| == |encs|
    && (forall k | 0 <= k < |ws| :: ws[k].0 <= ws[k].1 && |encs[k]| <= ByteCount(ws[k].0, ws[k].1))
    && (forall j, k | 0 <= j < |ws| && 0 <= k < |ws| && j != k :: Disjoint(ws[j], ws[k]))
  }

  /** `assign<lhs_to_rhs>` of a table of binary mappings into resizable
      storage: each mapping constructs its proxy (growing the storage) and
      writes its value. */
  function Serialise(st: Storage, ws: seq<(nat, nat)>, encs: seq<seq<Byte>>, k: nat): (r: Outcome<Storage>)
    requires Valid(st) && st.kind == Resizable && Layout(ws, encs) && k <= |ws|
    ensures r.Done? ==> Valid(r.value) && r.value.kind == Resizable && |r.value.bytes| >= |st.bytes|
    decreases |ws| - k
  {
    if k == |ws| then Done(st)
    else
      match Construct(st, ws[k].0, ws[k].1)
      case Done(p) =>
        (match Write(p, encs[k])
         case Done(p') => Serialise(p'.storage, ws, encs, k + 1)
         case Overflow => Overflow
         case Rejected => Rejected
         case Undefined => Undefined)
      case Overflow => Overflow
      case Rejected => Rejected
      case Undefined => Undefined
  }

  /** The serialisation loop as written: each step constructs its proxy
      with the floor growth and writes through the unguarded copy. */
  function SerialiseAsWritten(st: Storage, ws: seq<(nat, nat)>, encs: seq<seq<Byte>>, k: nat): (r: Outcome<Storage>)
    requires Valid(st) && st.kind == Resizable && Layout(ws, encs) && k <= |ws|
    ensures r.Done? ==> Valid(r.value) && r.value.kind == Resizable
    decreases |ws| - k
  {
    if k == |ws| then Done(st)
    else
      match ConstructAsWritten(st, ws[k].0, ws[k].1)
      case Done(p) =>
        (match WriteAsWritten(p, encs[k])
         case Done(p') => SerialiseAsWritten(p'.storage, ws, encs, k + 1)
         case Overflow => Overflow
         case Rejected => Rejected
         case Undefined => Undefined)
      case Overflow => Overflow
      case Rejected => Rejected
      case Undefined => Undefined
  }

  /** Into a `std::vector<std::byte>` the loop as written is the corrected
      one: its growth reaches `bytes_required` exactly and every write is in
      bounds. */
  lemma {:induction false} SerialiseAsWrittenOnBytes(st: Storage, ws: seq<(nat, nat)>, encs: seq<seq<Byte>>, k: nat)
    requires Valid(st) && st.kind == Resizable && st.width == 1 && Layout(ws, encs) && k <= |ws|
    ensures SerialiseAsWritten(st, ws, encs, k) == Serialise(st, ws, encs, k)
    decreases |ws| - k
  {
    if k < |ws| {
      ConstructAsWrittenOnBytes(st, ws[k].0, ws[k].1);
      ConstructedInBounds(st, ws[k].0, ws[k].1);
      var p := Construct(st, ws[k].0, ws[k].1).value;
      InBoundsWriteIsDefined(p, encs[k]);
      var p' := Write(p, encs[k]).value;
      SerialiseAsWrittenOnBytes(p'.storage, ws, encs, k + 1);
    }
  }

  /** Into a `std::vector<std::uint32_t>` the loop as written throws for a
      single five-byte window `<0,4>`, where the corrected loop succeeds. */
  lemma SerialiseAsWrittenFallsShort()
    ensures Layout([(0, 4)], [[]])
    ensures SerialiseAsWritten(Storage(Resizable, 4, 0, []), [(0, 4)], [[]], 0) == Overflow
    ensures Serialise(Storage(Resizable, 4, 0, []), [(0, 4)], [[]], 0).Done?
  {
    GrowAsWrittenFallsShort();
    SerialiseRoundTrip(Storage(Resizable, 4, 0, []), [(0, 4)], [[]]);
  }

  /** The window `w` of the storage holds `enc`. */
  predicate Holds(st: Storage, w: (nat, nat), enc: seq<Byte>)
  {
    w.0 + |enc| <= |st.bytes| && st.bytes[w.0..w.0 + |enc|] == enc
  }

  /** Storage that keeps its byte prefix keeps every window it held. */
  lemma GrowKeepsHolds(st: Storage, st': Storage, w: (nat, nat), enc: seq<Byte>)
    requires |st'.bytes| >= |st.bytes|
    requires forall i | 0 <= i < |st.bytes| :: st'.bytes[i] == st.bytes[i]
    requires Holds(st, w, enc)
    ensures Holds(st', w, enc)
  {
    forall i | 0 <= i < |enc| ensures st'.bytes[w.0 + i] == enc[i] {
      assert st.bytes[w.0..w.0 + |enc|][i] == enc[i];
    }
  }

  /** A write keeps every window it does not overlap, and afterwards its own
      window holds the bytes written. */
  lemma WriteKeepsHolds(p: Proxy, src: seq<Byte>, w: (nat, nat), enc: seq<Byte>)
    requires Write(p, src).Done?
    requires Holds(p.storage, w, enc)
    requires w.0 + |enc| <= p.first || p.first + |src| <= w.0
    ensures Holds(Write(p, src).value.storage, w, enc)
    ensures Holds(Write(p, src).value.storage, (p.first, p.last), src)
  {
    var b := Write(p, src).value.storage.bytes;
    forall i | 0 <= i < |enc| ensures b[w.0 + i] == enc[i] {
      assert p.storage.bytes[w.0..w.0 + |enc|][i] == enc[i];
    }
    assert b[p.first..p.first + |src|] == src;
  }

  /** One step of serialisation: growing for window `k` and writing it keeps
      the windows before it and makes window `k` hold its value. */
  lemma StepKeepsHolds(st: Storage, p: Proxy, ws: seq<(nat, nat)>, encs: seq<seq<Byte>>, k: nat)
    requires Layout(ws, encs) && k < |ws|
    requires p.first == ws[k].0 && p.last == ws[k].1 && InBounds(p)
    requires |p.storage.bytes| >= |st.bytes|
    requires forall i | 0 <= i < |st.bytes| :: p.storage.bytes[i] == st.bytes[i]
    requires forall j | 0 <= j < k :: Holds(st, ws[j], encs[j])
    ensures Write(p, encs[k]).Done?
    ensures forall j | 0 <= j < k + 1 :: Holds(Write(p, encs[k]).value.storage, ws[j], encs[j])
  {
    InBoundsWriteIsDefined(p, encs[k]);
    forall j | 0 <= j < k + 1 ensures Holds(Write(p, encs[k]).value.storage, ws[j], encs[j]) {
      if j < k {
        assert Disjoint(ws[j], ws[k]);
        GrowKeepsHolds(st, p.storage, ws[j], encs[j]);
        WriteKeepsHolds(p, encs[k], ws[j], encs[j]);
      } else {
        assert Holds(p.storage, ws[k], []);
        WriteKeepsHolds(p, encs[k], ws[k], []);
      }
    }
  }

  /** Serialising window `k` succeeds and hands the next step storage in
      which windows `0..k` hold their values. */
  lemma SerialiseStep(st: Storage, ws: seq<(nat, nat)>, encs: seq<seq<Byte>>, k: nat) returns (st': Storage)
    requires Valid(st) && st.kind == Resizable && Layout(ws, encs) && k < |ws|
    requires forall j | 0 <= j < k :: Holds(st, ws[j], encs[j])
    ensures Valid(st') && st'.kind == Resizable
    ensures Serialise(st, ws, encs, k) == Serialise(st', ws, encs, k + 1)
    ensures forall j | 0 <= j < k + 1 :: Holds(st', ws[j], encs[j])
  {
    ConstructedInBounds(st, ws[k].0, ws[k].1);
    var p := Construct(st, ws[k].0, ws[k].1).value;
    assert Construct(st, ws[k].0, ws[k].1) == Done(p);
    StepKeepsHolds(st, p, ws, encs, k);
    var p' := Write(p, encs[k]).value;
    assert Write(p, encs[k]) == Done(p');
    st' := p'.storage;
  }

  lemma {:induction false} SerialiseKeeps(st: Storage, ws: seq<(nat, nat)>, encs: seq<seq<Byte>>, k: nat)
    requires Valid(st) && st.kind == Resizable && Layout(ws, encs) && k <= |ws|
    requires forall j | 0 <= j < k :: Holds(st, ws[j], encs[j])
    ensures Serialise(st, ws, encs, k).Done?
    ensures forall j | 0 <= j < |ws| :: Holds(Serialise(st, ws, encs, k).value, ws[j], encs[j])
    decreases |ws| - k
  {
    if k < |ws| {
      var st' := SerialiseStep(st, ws, encs, k);
      SerialiseKeeps(st', ws, encs, k + 1);
    }
  }

  /** Serialising a table of pairwise disjoint binary windows into
      resizable storage always succeeds, and afterwards each window's bytes
      equal the value written into it: each `proxy == value` holds. */
  lemma SerialiseRoundTrip(st: Storage, ws: seq<(nat, nat)>, encs: seq<seq<Byte>>)
    requires Valid(st) && st.kind == Resizable && Layout(ws, encs)
    ensures Serialise(st, ws, encs, 0).Done?
    ensures forall k | 0 <= k < |ws| ::
      Compare(Proxy(ws[k].0, ws[k].1, Serialise(st, ws, encs, 0).value), encs[k]) == Done(true)
  {
    SerialiseKeeps(st, ws, encs, 0);
  }
}
