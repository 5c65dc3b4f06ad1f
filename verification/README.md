# convertible, modelled in Dafny

convertible is a header-only C++20 library for bidirectional field mapping.

- An **adapter** designates a part of an object through a **reader**:
  - the object itself;
  - a member or a member function;
  - an index;
  - a dereference;
  - an optional filled on demand (`maybe`);
  - a composition of adapters;
  - a byte window (`binary`).
- A **mapping** pairs an lhs adapter and an rhs adapter with a **converter**. It can:
  - *assign* in a direction: `rhs_to_lhs` writes the lhs, `lhs_to_rhs` writes the rhs;
  - *compare* the two adapted parts;
  - *convert* one object into an object of the other side, assigning it into the other adapter's defaulted adaptee.
- A **mapping table** applies every mapping that takes a pair of objects. It compares equal when all of those mappings do. It converts an argument into the tuple of distinct adaptee types of the other side.
- Underneath, the **operators** assign and compare, recursing into sequence containers and map-like containers, and apply the converter at the leaves.

The repository holds three generations of this code. Each is modelled separately:

| generation | files | modules |
|---|---|---|
| split headers | `libconvertible/convertible/*.hxx` | `Values`, `Adapters`, `Operators`, `Mappings`, `Concepts`, `MappingTables` |
| monolithic header | `libconvertible/convertible/convertible.hxx` | `Binary` (the byte-window reader, found only here), `Monolithic` (where it departs from the split headers; what it departs in but is not modelled is listed under "Left out") |
| legacy header | `convertible/convertible.hxx` | `Legacy` |

How C++ is represented:

- Objects are values of one datatype, `Values.Value`:
  - integers and strings;
  - sequence containers, fixed-size (`std::array`) or resizable (`std::vector`);
  - map-like containers, as entries in iteration order;
  - optionals;
  - records, objects of a named class (`Values.Record`), whose data members are listed in order. A class type is nominal: two classes with the same members are distinct. An object of a derived class holds its base subobject as one of its fields.
- Assignment is a function from the old target to the new one.
- A read past the end of a container is undefined behaviour in C++. It appears as `None`, or as `Undefined` in `Binary`.
- A thrown `std::overflow_error` appears as `Overflow`.
- Whether an overload is viable is decided at compile time in the library. Here it is a predicate on the objects at hand: `Mappings.Applicable`, `Adapters.AdapterAccepts`.

Two facts about the split headers:

- `mapping_table.hxx` uses `traits::unique_derived_ts` and a free `for_each`. Neither is defined in the split headers.
- `operators.hxx` (lines 201-214 and 343) tests `concepts::resizable_container`, which is not defined in the split headers either. It is read as `concepts::resizable` (`libconvertible/convertible/concepts.hxx:198`): a container with `resize`, i.e. a resizable sequence.

The first two are modelled after their definitions in the monolithic header: `unique_derived_types_t` at `libconvertible/convertible/convertible.hxx:228-229`, which is the same as `libconvertible/convertible/concepts.hxx:82-83`, and `for_each` at `libconvertible/convertible/convertible.hxx:1324-1330`.

## Model

| member | source | states |
|---|---|---|
| Values.Resize | libconvertible/convertible/operators.hxx:343-346 | `resize(n)` keeps the existing prefix and value-initialises every new position; the kind and element type are kept |
| Adapters.FromReader | libconvertible/convertible/adapter.hxx:30-32 | an adapter built from a reader alone stores a value-initialised adaptee: its defaulted adaptee is `T{}`, an object of the adaptee type |
| Adapters.FromAdaptee | libconvertible/convertible/adapter.hxx:25-28 | an adapter built from an adaptee and a reader keeps that adaptee: its defaulted adaptee is the value given, not `T{}` |
| Adapters.DefaultedAdapteeOrigin | libconvertible/convertible/adapter.hxx:73-82 | `defaulted_adaptee()` is the adaptee given at construction, or a value-initialised object of the adaptee type, which has that type |
| Adapters.PutGet | libconvertible/convertible/readers.hxx:18-91 | writing through a member, index or dereference reader and reading back yields the written value |
| Adapters.GetPut | libconvertible/convertible/readers.hxx:18-91 | writing back what a reader designates leaves the object unchanged |
| Adapters.MaybeFillsDisengaged | libconvertible/convertible/readers.hxx:93-118 | `maybe` is disabled on an empty optional, and reading through it engages the optional with a value-initialised content, after which it is enabled |
| Adapters.Get | libconvertible/convertible/readers.hxx:18-156 | a reader designates a part only of an object it accepts; a member reader takes exactly the objects of its class (`std::derived_from`, a derived object reaching it through its base subobject), and a data member read has the member's declared type |
| Adapters.Set | libconvertible/convertible/readers.hxx:18-156 | a reader writes only into an object it accepts, and never through a member function call, whose result is a temporary; a data member is written exactly in objects of its class, and a value of the member's type keeps the object of that class |
| Adapters.Enabled | libconvertible/convertible/readers.hxx:93-214 | only `maybe` on a disengaged optional, or a composition, can be disabled; every other reader is always enabled |
| Adapters.DirectAdapterReadsBack | libconvertible/convertible/adapter.hxx:34-38 | an adapter whose reader takes the object directly reads back what it writes |
| Adapters.UpcastAdapterReadsBack | libconvertible/convertible/adapter.hxx:46-55 | an adapter reached through the derived-to-base cast writes only the base subobject, leaves every other field alone, and reads back its write |
| Adapters.View | libconvertible/convertible/adapter.hxx:34-55 | an adapter yields a view only of an argument it accepts, directly or through its base subobject; a member adapter reads an object of the member's class or the base subobject of that class, and the result has the member's type |
| Adapters.Update | libconvertible/convertible/adapter.hxx:34-55 | an adapter writes only into an argument it accepts; a member adapter writes into an object of the member's class or into the base subobject of that class; through the base subobject it replaces that field and leaves every other field alone |
| Adapters.MemberRejectsOtherClass | libconvertible/convertible/readers.hxx:35-63 | `member<&C::m>` takes no object outside `C`'s hierarchy, even one with the same data members: nothing is read, written or called |
| Adapters.DerivedUsesBaseMember | libconvertible/convertible/readers.hxx:44-55 | an object of a class derived from `C` is read and written at `C`'s member in its base subobject, and its other parts are kept |
| Adapters.DerivedReadsBaseMemberExample | libconvertible/convertible/readers.hxx:44-55 | `member(&A::x)` reads `d.x` of a `D : A`, not `D`'s own first member, and rejects an unrelated `B` with the same members |
| Adapters.AdapterEnabled | libconvertible/convertible/adapter.hxx:57-70 | an argument reached through its base subobject is always enabled, and only a `maybe` or composed reader can disable an argument |
| Adapters.ChainGetAppend | libconvertible/convertible/readers.hxx:144-156 | each further stage of a composition is applied to what the earlier stages produced |
| Adapters.ComposedAppliesLeftToRight | libconvertible/convertible/readers.hxx:144-201 | `composed(a1..an, a)` reads `a` applied to the result of `composed(a1..an)`; a one-stage composition is that adapter |
| Adapters.ChainEnabledAppend | libconvertible/convertible/readers.hxx:158-181 | a further stage of a composition is enabled only on what the earlier stages produced, and only when they are all enabled |
| Adapters.ComposedEnabledLeftToRight | libconvertible/convertible/readers.hxx:158-214 | `composed::enabled` is the left-to-right conjunction of the stages' enabled states, each on the value the earlier stages produce |
| Adapters.ChainPutGet | libconvertible/convertible/readers.hxx:144-156 | writing through the stages of a composition from any stage on succeeds, and reading through the same stages yields the written value, when each stage reads back what the later stages write into it |
| Adapters.ComposedPutGet | libconvertible/convertible/readers.hxx:144-156 | a value written through `composed` is what `composed` then reads, when every stage reads back its part |
| Operators.OrderedIsBijection | libconvertible/convertible/operators.hxx:87-94 | `ordered_lhs_rhs` is a bijection between (lhs, rhs) and (target, source), and the two directions order the same sides oppositely |
| Operators.Presized | libconvertible/convertible/operators.hxx:343-346 | a sequence target keeps its kind and element type through the resize |
| Operators.AssignInto | libconvertible/convertible/operators.hxx:306-398 | a sequence target takes the source's length when resizable and keeps its own when fixed; shared positions are assigned element-wise, and positions of a fixed target past the source stay untouched; a map target ends with exactly the source's keys, each value assigned into a value-initialised one; anything else is the leaf assignment |
| Operators.Assign | libconvertible/convertible/operators.hxx:306-321 | `assign<dir>` never modifies the source side and writes the target side |
| Operators.SizeGuardsIgnoreDirection | libconvertible/convertible/operators.hxx:200-218 | the three size guards of sequence equality accept exactly the same pairs in both directions: a fixed side no longer than a resizable one, and two resizable sides of equal length |
| Operators.Matches | libconvertible/convertible/operators.hxx:166-258 | corrected comparison: matching sequences satisfy the size guards read symmetrically, and matching maps have the same keys in the same order |
| Operators.Equal | libconvertible/convertible/operators.hxx:166-258 | corrected `equal<dir>`: equal sequence sides have proportionate sizes and equal map sides the same keys, in whichever direction |
| Operators.EqualAsWritten | libconvertible/convertible/operators.hxx:187-258 | as written: only an element walk can read past the rhs; sequences called equal passed the size guards; an empty lhs map equals every map, since there is no size check |
| Operators.WalkItems | libconvertible/convertible/operators.hxx:222-229 | the `std::equal` walk over an lhs longer than the rhs never answers "equal": it stops at a mismatch or reads past the end |
| Operators.WalkEntries | libconvertible/convertible/operators.hxx:245-258 | the same for the walk over map entries |
| Operators.CastRoundTrips | libconvertible/convertible/operators.hxx:166-321 | a definitional check: with a plain converter, `to = cast(from)` writes `cast(from)` and `to == cast(from)` then holds at every leaf |
| Operators.AssignThenMatches | libconvertible/convertible/operators.hxx:306-398 | after assigning a source into a target it fits, the corrected comparison holds at every depth |
| Operators.AssignThenEqual | libconvertible/convertible/operators.hxx:187-398 | `assign<dir>` followed by the corrected `equal<dir>` holds when the leaf converter reads back its writes and the target fits |
| Operators.LongerFixedTargetNeverEqual | libconvertible/convertible/operators.hxx:200-348 | a fixed target longer than the resizable source assigned into it keeps its extra positions and never compares equal afterwards |
| Operators.AssignIdentityCopies | libconvertible/convertible/operators.hxx:300-398 | with `converter::identity`, assigning between objects of one type makes the target equal to the source |
| Operators.MatchesIdentityIsEquality | libconvertible/convertible/operators.hxx:166-259 | with `converter::identity`, comparing objects of one type is plain equality |
| Operators.WalkItemsFalseFindsMismatch | libconvertible/convertible/operators.hxx:222-229 | when the element walk answers "unequal", it has found a position present on both sides whose elements compare unequal |
| Operators.WalkEntriesFalseFindsMismatch | libconvertible/convertible/operators.hxx:245-258 | when the entry walk answers "unequal", it has found a shared position whose keys differ or whose values compare unequal |
| Operators.AsWrittenFalseIsSound | libconvertible/convertible/operators.hxx:200-258 | whenever the comparison as written answers "unequal", the corrected comparison does too |
| Operators.WalkItemsOverruns | libconvertible/convertible/operators.hxx:222-229 | walking a longer lhs whose shared elements all match reads past the end of the rhs |
| Operators.SequenceEqualReadsPastShorterRhs | libconvertible/convertible/operators.hxx:200-229 | every pair the guards let through with a longer lhs and matching shared elements ends in a read past the rhs |
| Operators.WalkEntriesOverruns | libconvertible/convertible/operators.hxx:245-258 | walking a map lhs with more entries than the rhs, whose shared entries all match, reads past the rhs |
| Operators.WalkEntriesPrefixAccepted | libconvertible/convertible/operators.hxx:245-258 | a map lhs whose entries match a prefix of a longer rhs compares equal as written |
| Operators.MapEqualIgnoresLength | libconvertible/convertible/operators.hxx:245-258 | maps of different sizes with matching shared entries: as written, "equal" if the lhs is shorter and a read past the end if it is longer; the corrected comparison says "unequal" |
| Operators.SequenceOverrunAfterAssign | libconvertible/convertible/operators.hxx:200-361 | `assign<lhs_to_rhs>` of `vector{1,2}` into `array<1>` followed by `equal<lhs_to_rhs>` reads past the array as written, and holds when corrected |
| Operators.MapPrefixComparesEqual | libconvertible/convertible/operators.hxx:245-258 | `map<int,int>{1:1}` against `map<int,string>{1:"1", 2:"2"}` under the int/string converter (distinct map types, so the element-wise overload runs) compares equal as written, and unequal when corrected |
| Operators.WalkItemsExact | libconvertible/convertible/operators.hxx:222-229 | where the walk cannot leave the rhs, the element walk is defined and answers whether every shared position compares equal |
| Operators.WalkEntriesExact | libconvertible/convertible/operators.hxx:245-258 | where the walk cannot leave the rhs, the entry walk is defined and answers whether every shared entry has equal keys and equal values |
| Operators.AsWrittenExactWhenSafe | libconvertible/convertible/operators.hxx:187-258 | where at every depth each lhs sequence is no longer than its rhs and each pair of maps has equal sizes, the comparison as written is defined and gives exactly the corrected answer |
| Operators.AssignedWalkSafe | libconvertible/convertible/operators.hxx:300-398 | an assignment into a target whose sequences take the source's length leaves both sides with the same sizes at every depth |
| Operators.AssignThenEqualAsWritten | libconvertible/convertible/operators.hxx:187-398 | `assign<dir>` into such a target, followed by `equal<dir>` as written, is defined and answers "equal" |
| Mappings.Assign | libconvertible/convertible/mapping.hxx:26-46 | `mapping::assign<dir>` leaves the source side unchanged; it is a no-op when the source adapter is disabled; otherwise the target object is what the target adapter makes of it when handed the operator-level assignment of the two adapted parts |
| Mappings.EqualFollowsEnabled | libconvertible/convertible/mapping.hxx:48-72 | sides differing in enabled state are unequal, two disabled sides are equal, and two enabled sides compare their adapted parts |
| Mappings.Equal | libconvertible/convertible/mapping.hxx:48-72 | equal sides are enabled alike and, when enabled, their adapted parts compare equal; two disabled sides are equal |
| Mappings.AssignThenEqual | libconvertible/convertible/mapping.hxx:26-72 | after `assign<dir>` from an enabled source, `equal<dir>` holds exactly when the written target is enabled, given the operator round trip and an adapter that reads back its writes |
| Mappings.ConvertLhs | libconvertible/convertible/mapping.hxx:74-82 | `operator()(lhs)` yields the rhs adapter's defaulted adaptee unchanged when the lhs adapter is disabled; from an enabled lhs, the rhs adapter then designates the converted lhs part, when it reads back its writes |
| Mappings.ConvertRhs | libconvertible/convertible/mapping.hxx:84-98 | `operator()(rhs)` yields the lhs adapter's defaulted adaptee unchanged when the rhs adapter is disabled; from an enabled rhs, the lhs adapter then designates the converted rhs part, when it reads back its writes |
| Mappings.ConvertLhsRoundTrip | libconvertible/convertible/mapping.hxx:48-82 | what `operator()(lhs)` produces compares equal to its argument under the round-trip conditions |
| Mappings.ConvertRhsRoundTrip | libconvertible/convertible/mapping.hxx:48-98 | what `operator()(rhs)` produces compares equal to its argument in `rhs_to_lhs` under the round-trip conditions |
| Mappings.NestedMappingDelegates | libconvertible/convertible/operators.hxx:166-321 | a mapping used as a converter receives the leaf pair with the direction: the leaf assignment is its `assign<dir>` and the leaf comparison its `equal<dir>` |
| Concepts.Unique | libconvertible/convertible/concepts.hxx:48-61 | the filtered type list is no longer than the input |
| Concepts.KeptFromShift | libconvertible/convertible/concepts.hxx:54-61 | which elements survive from a position on does not depend on the elements before it |
| Concepts.UniqueIsKeptInOrder | libconvertible/convertible/concepts.hxx:48-61 | `unique_types` keeps exactly the elements with no related later element, in their original order |
| Concepts.KeptFromMembers | libconvertible/convertible/concepts.hxx:54-61 | an element survives exactly when no later element is related to it |
| Concepts.KeptFromUnrelated | libconvertible/convertible/concepts.hxx:54-61 | no surviving element is related to a later surviving element |
| Concepts.UniqueKeepsUnrelated | libconvertible/convertible/concepts.hxx:48-61 | the result holds every element without a related successor, holds nothing else, and is pairwise unrelated |
| Concepts.LastOccurrence | libconvertible/convertible/concepts.hxx:79-80 | under `std::is_same`, every type has a surviving occurrence at or after each of its positions |
| Concepts.UniqueTypesDeduplicates | libconvertible/convertible/concepts.hxx:79-80 | `unique_types_t` has no duplicates and contains every input type |
| Concepts.DroppedHaveKeptSuccessor | libconvertible/convertible/concepts.hxx:82-83 | under a transitive relation such as `std::is_base_of`, every dropped type is related to a surviving one |
| Concepts.UniqueTypesExample | libconvertible/convertible/concepts.hxx:79-80 | `<int, string, string, int>` reduces to `<string, int>` |
| Concepts.UniqueTypesKeepsLastExample | libconvertible/convertible/concepts.hxx:79-80 | `<int, string, int, string>` reduces to `<int, string>`, so the last occurrence is the one kept |
| Concepts.UniqueDerivedTypesExample | libconvertible/convertible/concepts.hxx:82-83 | of a base and two derived types the most derived survive; `<base, derived>` reduces to `<derived>` |
| Concepts.AdaptableCount | libconvertible/convertible/concepts.hxx:232-233 | `adaptable_count_v` is at most the number of adapters, is zero exactly when none takes the argument, and is the number of adapters exactly when all do |
| MappingTables.ForEach | libconvertible/convertible/convertible.hxx:1324-1330 | `for_each` is true exactly when the callback holds on every element; it stops right after the first element where the callback fails |
| MappingTables.AssignFrom | libconvertible/convertible/mapping_table.hxx:72-87 | applying the remaining mappings never modifies the source side, and does nothing when none of them takes the pair |
| MappingTables.Assign | libconvertible/convertible/mapping_table.hxx:72-87 | `mapping_table::assign<dir>` never modifies the source side, and changes nothing when no mapping takes the pair |
| MappingTables.Equal | libconvertible/convertible/mapping_table.hxx:89-110 | corrected: the table compares equal exactly when every mapping that takes the pair compares equal in the direction asked |
| MappingTables.EqualAsWritten | libconvertible/convertible/mapping_table.hxx:89-110 | as written, `equal<dir>` gives the `rhs_to_lhs` answer whatever the direction asked |
| MappingTables.SameViewsSameVerdict | libconvertible/convertible/mapping.hxx:36-72 | a mapping's comparison and its source's enabled state depend only on the adapted parts and enabled states |
| MappingTables.UseUndisturbed | libconvertible/convertible/mapping_table.hxx:77-86 | an assignment by a mapping that does not touch what another mapping reads leaves that mapping's comparison and source state as they were |
| MappingTables.FoldSettles | libconvertible/convertible/convertible.hxx:1324-1330 | a `for_each` whose every step makes its own element good and keeps the other elements good or ready as they were ends with all elements good, given the earlier ones good and the later ones ready |
| MappingTables.AssignFromIsFold | libconvertible/convertible/mapping_table.hxx:77-86 | the table's assignment is the `for_each` of the per-mapping step over the mappings |
| MappingTables.StepSettlesItself | libconvertible/convertible/mapping_table.hxx:79-83 | a mapping that reads back its writes compares equal after its own step, when it takes the pair and its source is enabled |
| MappingTables.StepLeavesOthers | libconvertible/convertible/mapping_table.hxx:79-83 | a mapping's step leaves an undisturbed mapping applicable, with its verdict and its source state unchanged |
| MappingTables.AssignFromRoundTrips | libconvertible/convertible/mapping_table.hxx:72-110 | applying the remaining mappings in order keeps every earlier mapping equal and makes every later one equal |
| MappingTables.AssignThenEqual | libconvertible/convertible/mapping_table.hxx:72-110 | `assign<dir>` then `equal<dir>` holds for a table of mappings that round-trip and do not disturb one another |
| MappingTables.EqualIgnoresDirectionExample | libconvertible/convertible/mapping_table.hxx:89-110 | with an absolute-value converter, `assign<lhs_to_rhs>` of (-1, 0) gives (-1, 1): the comparison in `lhs_to_rhs` holds, while the table's as-written comparison fails |
| MappingTables.TargetTypes | libconvertible/convertible/mapping_table.hxx:13-16 | the adaptee types of the written side, one per mapping, in table order |
| MappingTables.LastProvider | libconvertible/convertible/mapping_table.hxx:18-66 | the reference definition of the slot default: the last mapping that provides the slot's type, if any |
| MappingTables.OverwriteWithoutProvider | libconvertible/convertible/mapping_table.hxx:25-34 | when no later mapping has the slot's type, the inner `for_each` leaves the slot as it is |
| MappingTables.OverwriteAtLastProvider | libconvertible/convertible/mapping_table.hxx:25-34 | the last mapping with the slot's type decides the slot, whatever the slot held before |
| MappingTables.OverwriteKeepsLast | libconvertible/convertible/mapping_table.hxx:22-39 | the nested `for_each` leaves in a slot the defaulted adaptee of the last mapping of that type, or the slot's initial value when there is none |
| MappingTables.SlotDefaultIsLastProvider | libconvertible/convertible/mapping_table.hxx:18-66 | each slot of `defaulted_lhs()`/`defaulted_rhs()` is the last providing mapping's defaulted adaptee, or value-initialised |
| MappingTables.DefaultedTargets | libconvertible/convertible/mapping_table.hxx:13-66 | the defaulted tuple has one slot per result type, and never more slots than the table has mappings |
| MappingTables.Convert | libconvertible/convertible/mapping_table.hxx:112-178 | `operator()` fills each defaulted slot by assigning the argument into it; the result is a tuple of the filled slots, and with exactly one slot it is that filled slot itself, unwrapped |
| MappingTables.ConvertThenEqual | libconvertible/convertible/mapping_table.hxx:112-178 | every slot of the converted result compares equal to the argument in the conversion's direction, when the mappings taking it round-trip and do not disturb one another |
| MappingTables.UntouchedSlotKeepsDefault | libconvertible/convertible/mapping_table.hxx:121-134 | a slot that no mapping takes together with the argument keeps its default |
| MappingTables.SingleMappingConvertsAlone | libconvertible/convertible/mapping_table.hxx:112-144 | a one-mapping table converts an lhs exactly as its mapping's `operator()` does |
| MappingTables.SideAdapters | libconvertible/convertible/mapping_table.hxx:113-115 | the lhs or rhs adapters of the table, in order |
| MappingTables.CallTakesLhs | libconvertible/convertible/mapping_table.hxx:112-118 | an argument that some lhs adapter takes and no rhs adapter takes selects the `lhs_to_rhs` overload, provided the rhs types are known |
| MappingTables.CallTakesRhs | libconvertible/convertible/mapping_table.hxx:146-152 | an argument that some rhs adapter takes and no lhs adapter takes selects the `rhs_to_lhs` overload, provided the lhs types are known |
| MappingTables.CallRejectsTie | libconvertible/convertible/mapping_table.hxx:112-152 | an argument that every adapter on both sides takes selects neither overload |
| MappingTables.Overload | libconvertible/convertible/mapping_table.hxx:112-152 | the chosen overload's source side takes the argument through strictly more adapters than the other side, its result types are known, and a tie chooses none; member adapters count only for objects of their class |
| MappingTables.OverloadByClassExample | libconvertible/convertible/mapping_table.hxx:112-152 | with `member(&A::x)` on the lhs and `member(&B::x)` on the rhs of classes with the same members, an `A` selects the lhs overload and a `B` the rhs one |
| MappingTables.Call | libconvertible/convertible/mapping_table.hxx:112-152 | a call yields a value exactly when an overload is chosen, with one slot per result type of that direction |
| MappingTables.CountNone | libconvertible/convertible/concepts.hxx:232-233 | `adaptable_count_v` is zero when no adapter takes the argument |
| MappingTables.CountSome | libconvertible/convertible/concepts.hxx:232-233 | `adaptable_count_v` is positive when some adapter takes the argument |
| Binary.ByteCount | libconvertible/convertible/convertible.hxx:581-638 | `byte_count` and `size()` are at least 1 and span `first` through `last` inclusive |
| Binary.BytesRequired | libconvertible/convertible/convertible.hxx:582 | `bytes_required` is one past `last` |
| Binary.ResizeTo | libconvertible/convertible/convertible.hxx:609 | resizing storage keeps its byte prefix and zero-fills the new elements |
| Binary.ConstructAsWritten | libconvertible/convertible/convertible.hxx:584-619 | the constructors as written never reach undefined behaviour; resizable or view storage they accept reaches `bytes_required` |
| Binary.ElementsFor | libconvertible/convertible/convertible.hxx:608 | the least number of elements whose bytes cover the required count |
| Binary.Grow | libconvertible/convertible/convertible.hxx:604-611 | grown storage keeps its bytes, its kind and its element width, and reaches the required byte count |
| Binary.Construct | libconvertible/convertible/convertible.hxx:584-619 | the corrected constructors: a proxy exists exactly when the storage is resizable or already reaches `bytes_required`; a view that falls short throws `overflow_error`, and an object or fixed container that falls short is rejected; storage is only ever grown, with its prefix kept |
| Binary.ConstructAsWrittenOnBytes | libconvertible/convertible/convertible.hxx:600-619 | on dynamic byte storage the constructor as written agrees with the corrected one |
| Binary.GrowAsWrittenFallsShort | libconvertible/convertible/convertible.hxx:604-618 | an empty `vector<uint32_t>` under `binary<0,4>` grows to 4 bytes and throws as written, and succeeds when corrected |
| Binary.FixedCheckAsWrittenTooWeak | libconvertible/convertible/convertible.hxx:593-597 | a 4-byte `std::array` under `binary<2,5>` is accepted as written with its window past the end, and rejected when corrected |
| Binary.ConstructedInBounds | libconvertible/convertible/convertible.hxx:584-619 | every proxy the corrected constructors produce has its window inside the storage, and resizable storage always yields a proxy |
| Binary.Bytes | libconvertible/convertible/convertible.hxx:624-656 | the span view of a proxy is defined exactly when its window is in bounds, and is the `size()` bytes from `data()` |
| Binary.WriteAsWritten | libconvertible/convertible/convertible.hxx:716-731 | the write as written succeeds exactly when the value fits from `first` on, throws exactly on resizable storage smaller than the value as a whole, and keeps the window, the size and the storage's shape |
| Binary.Write | libconvertible/convertible/convertible.hxx:716-731 | the corrected write succeeds exactly when the value fits from `first` on, and throws exactly on resizable storage it does not fit; it copies the value to `first` and leaves every other byte alone |
| Binary.CompareAsWritten | libconvertible/convertible/convertible.hxx:733-747 | the comparison as written is defined exactly when the value fits from `first` on, throws exactly on resizable storage smaller than the value as a whole, and is then byte-wise equality of the window prefix with the value |
| Binary.Compare | libconvertible/convertible/convertible.hxx:733-747 | the corrected comparison is defined exactly when the value fits from `first` on, and is then byte-wise equality of the window prefix with the value |
| Binary.AsWrittenAgreesInBounds | libconvertible/convertible/convertible.hxx:716-747 | where the value fits from `first` on, the guards as written and corrected agree for both write and compare |
| Binary.ShrinkGuardIgnoresOffset | libconvertible/convertible/convertible.hxx:716-747 | a proxy `<4,7>` over 6 bytes passes the guard as written for a 4-byte value and writes past the end; the corrected guard throws |
| Binary.InBoundsWriteIsDefined | libconvertible/convertible/convertible.hxx:677-747 | a value no larger than `byte_count` written through an in-bounds proxy is always defined, and the guards agree |
| Binary.WriteThenCompare | libconvertible/convertible/convertible.hxx:716-747 | `proxy = value` then `proxy == value` holds |
| Binary.WriteThenRead | libconvertible/convertible/convertible.hxx:624-731 | after a write, the proxy's byte view starts with the written bytes |
| Binary.AssignValue | libconvertible/convertible/convertible.hxx:677-685 | as written: `proxy = obj` is rejected exactly for an object larger than `byte_count`; it succeeds exactly when the object's bytes fit from `first` on, then writes them there and changes no other byte; it throws exactly on resizable storage smaller than the object as a whole |
| Binary.CompareValue | libconvertible/convertible/convertible.hxx:697-704 | as written: `proxy == obj` is rejected exactly for an object larger than `byte_count`, defined exactly when its bytes fit from `first` on, and is then byte-wise equality of the window prefix with the object |
| Binary.AssignValueThenCompare | libconvertible/convertible/convertible.hxx:677-704 | `proxy = obj` followed by `proxy == obj` holds whenever the assignment succeeds |
| Binary.InBoundsAssignValue | libconvertible/convertible/convertible.hxx:677-731 | through a proxy in bounds, assigning an object the window can take always succeeds and agrees with the corrected write |
| Binary.AssignArrayAsWritten | libconvertible/convertible/convertible.hxx:687-695 | as written: `proxy = array` accepts an array of at most `byte_count` bytes but writes only its first `count` bytes, one per element |
| Binary.AssignArray | libconvertible/convertible/convertible.hxx:687-695 | corrected byte count (Findings row on lines 693 and 712): `proxy = array` succeeds exactly when all of the array's bytes fit from `first` on, then writes all of them there and changes no other byte |
| Binary.CompareArrayAsWritten | libconvertible/convertible/convertible.hxx:706-713 | as written: `proxy == array` compares only the first `count` bytes of the array |
| Binary.CompareArray | libconvertible/convertible/convertible.hxx:706-713 | corrected byte count: `proxy == array` compares all of the array's bytes |
| Binary.ArrayAssignCopiesElementCount | libconvertible/convertible/convertible.hxx:687-713 | a one-element `array<uint16_t, 1>` copies 1 byte of 2 as written, and all 2 when corrected |
| Binary.AssignArrayThenCompare | libconvertible/convertible/convertible.hxx:687-713 | `proxy = array` then `proxy == array` holds for an in-bounds proxy |
| Binary.Nest | libconvertible/convertible/convertible.hxx:768-776 | corrected construction (Findings rows on lines 608 and 585-597): `binary<f,l>` over a proxy `<f1,l1>`, when it succeeds, yields the window `<l1+1+f, l1+1+l>`, in bounds of its storage; over resizable storage it always succeeds; over an object it always throws `overflow_error` |
| Binary.NestAsWritten | libconvertible/convertible/convertible.hxx:768-776 | as written: nesting over an object throws; otherwise the nested proxy, when built, has the window `<l1+1+f, l1+1+l>` over valid storage of the same kind, and nesting never reaches undefined behaviour by itself |
| Binary.NestAsWrittenOnBytes | libconvertible/convertible/convertible.hxx:768-776 | over dynamic byte storage the nesting as written is the corrected one |
| Binary.NestAsWrittenGoesWrong | libconvertible/convertible/convertible.hxx:768-776 | as written, `binary<0,4>` over `<0,3>` of a one-element `vector<uint32_t>` throws, where the corrected nesting succeeds; `binary<0,5>` over `<0,3>` of an `array<std::byte,8>` is accepted with its window past the end, where the corrected nesting rejects it |
| Binary.ObjectNestOverflows | libconvertible/convertible/convertible.hxx:585-617 | the `byte_count`-byte span an object proxy stores, handed to the dynamic-container constructor, is shorter than any nested window's `bytes_required`, so the constructor throws |
| Binary.NestedWindowsFollow | libconvertible/convertible/convertible.hxx:768-776 | nested windows start after the outer window, and nesting keeps disjoint windows disjoint |
| Binary.NestedProxyExample | libconvertible/convertible/convertible.hxx:599-776 | `binary<0,3>` over an empty `vector<uint32_t>` gives one element; nesting `binary<0,3>` grows it to two elements and the window `<4,7>` |
| Binary.NestedWriteExample | libconvertible/convertible/convertible.hxx:716-776 | writing 0xFFFFFFFF through the nested window leaves the first four bytes zero |
| Binary.Serialise | libconvertible/convertible/convertible.hxx:1379-1390 | corrected growth (Findings row on line 608): serialising keeps the storage valid and resizable, and never shrinks it |
| Binary.SerialiseAsWritten | libconvertible/convertible/convertible.hxx:1379-1390 | the loop as written, with the floor growth and unguarded copy: it keeps the storage valid and resizable |
| Binary.SerialiseAsWrittenOnBytes | libconvertible/convertible/convertible.hxx:599-619 | into byte storage (`vector<std::byte>`) the loop as written gives exactly the corrected loop's outcome |
| Binary.SerialiseAsWrittenFallsShort | libconvertible/convertible/convertible.hxx:604-617 | into a `vector<uint32_t>`, the loop as written throws for a window `<0,4>`, where the corrected loop succeeds |
| Binary.GrowKeepsHolds | libconvertible/convertible/convertible.hxx:604-611 | growing storage keeps every value already written into a window |
| Binary.WriteKeepsHolds | libconvertible/convertible/convertible.hxx:716-731 | a write keeps every window it does not overlap, and its own window then holds the written bytes |
| Binary.StepKeepsHolds | libconvertible/convertible/convertible.hxx:1379-1390 | constructing the next window's proxy and writing through it keeps the earlier windows and fills the new one |
| Binary.SerialiseStep | libconvertible/convertible/convertible.hxx:1379-1390 | corrected growth: one mapping's step of serialisation succeeds on resizable storage, keeps it valid and resizable, and leaves every window so far holding its value |
| Binary.SerialiseKeeps | libconvertible/convertible/convertible.hxx:1379-1390 | corrected growth: serialising the remaining windows, from a point where every earlier window already holds its value, succeeds and leaves every window holding its value |
| Binary.SerialiseRoundTrip | libconvertible/convertible/convertible.hxx:1379-1403 | corrected growth (and, by `SerialiseAsWrittenOnBytes`, the program as written on byte storage): serialising disjoint binary windows into resizable storage succeeds, and every window then compares equal to its value |
| Monolithic.ComposeLastFirstIsReversed | libconvertible/convertible/convertible.hxx:788-798 | the monolithic `composed` reads what the split headers' `composed` reads over the same adapters in reverse order |
| Monolithic.ComposeTwo | libconvertible/convertible/convertible.hxx:788-798 | `composed(outer, inner)` applies `inner` first |
| Monolithic.ChainGetAccepts | libconvertible/convertible/convertible.hxx:794-807 | a composition that yields a value accepts its argument |
| Monolithic.ComposeLastFirst | libconvertible/convertible/convertible.hxx:788-798 | the monolithic composition yields a value only when its last adapter, the one applied first, takes the argument |
| Monolithic.Compose | libconvertible/convertible/convertible.hxx:858-863 | `compose()` has the last adapter's adaptee type |
| Monolithic.MappingAssign | libconvertible/convertible/convertible.hxx:1271-1279 | `assign` keeps the source and writes the target's adapted part whatever the source's state; from an enabled source it is the split headers' assignment |
| Monolithic.MappingEqual | libconvertible/convertible/convertible.hxx:1281-1289 | `equal` compares the adapted parts whatever the adapters' states; on enabled sides of like kinds and safe shapes it is the split headers' corrected verdict, and a longer lhs sequence is never equal |
| Monolithic.ComposeAdapter | libconvertible/convertible/convertible.hxx:858-863 | `compose()`'s defaulted adaptee is the last adapter's, and calling it applies the adapters last to first |
| Monolithic.GuardsAgreeOnSameKind | libconvertible/convertible/convertible.hxx:1217-1226 | when both sides are resizable or both fixed, the monolithic size guard and the split headers' guards agree |
| Monolithic.GuardsDisagree | libconvertible/convertible/convertible.hxx:1217-1226 | between a fixed and a resizable side the guards disagree exactly when the target is longer: the monolithic one lets a longer fixed target through and rejects a longer resizable target |
| Monolithic.Guard | libconvertible/convertible/convertible.hxx:1217-1226 | a fixed-size target is never size-checked, and a resizable target that passes also passes the split headers' guards |
| Monolithic.Equal | libconvertible/convertible/convertible.hxx:1207-1254 | only an element walk can read past the rhs; an lhs sequence longer than the rhs is never "equal"; an empty lhs map equals every map |
| Monolithic.WalkItems | libconvertible/convertible/convertible.hxx:1228-1231 | the element walk over an lhs longer than the rhs never answers "equal" |
| Monolithic.WalkEntries | libconvertible/convertible/convertible.hxx:1235-1254 | the entry walk over an lhs longer than the rhs never answers "equal" |
| Monolithic.AgreesWithSplitHeaders | libconvertible/convertible/convertible.hxx:1207-1254 | where no fixed sequence meets a resizable one, the monolithic and split comparisons give the same answer, reads past the end included |
| Monolithic.WalkItemsAgree | libconvertible/convertible/convertible.hxx:1228-1231 | the element walks of the two generations agree under that condition |
| Monolithic.WalkEntriesAgree | libconvertible/convertible/convertible.hxx:1235-1254 | the map walks of the two generations agree under that condition |
| Monolithic.FixedTargetOverrun | libconvertible/convertible/convertible.hxx:1217-1231 | `array{1,2}` against `vector{1}` in `rhs_to_lhs`: the split guard says "unequal", while the monolithic guard lets the pair through and the walk reads past the vector |
| Monolithic.OverrunAfterAssign | libconvertible/convertible/convertible.hxx:1207-1231 | `assign<lhs_to_rhs>` of `vector{1,2}` into `array<1>` followed by the monolithic comparison reads past the array; the corrected comparison holds |
| Legacy.AssignInto | convertible/convertible.hxx:658-695 | a range target takes the source's size when resizable and keeps it when fixed; positions of a fixed target past the source stay untouched |
| Legacy.AssignAgreesWithSplitHeaders | convertible/convertible.hxx:658-695 | on sources without maps, the legacy assignment equals the split headers' assignment with the same converter, in either direction |
| Legacy.Mismatch | convertible/convertible.hxx:714-718 | `std::mismatch` over the first `min` positions returns a position within that range |
| Legacy.MismatchFindsFirst | convertible/convertible.hxx:714-718 | every element before the mismatch position matches, and the element at it does not |
| Legacy.Matches | convertible/convertible.hxx:697-723 | a target range that matches is no longer than its source, and a resizable one has exactly the source's size |
| Legacy.MatchesRanges | convertible/convertible.hxx:707-723 | two ranges compare equal exactly when the target is no longer than the source, a resizable target has the source's size, and every target element matches |
| Legacy.StricterThanSplitHeaders | convertible/convertible.hxx:697-723 | whatever the legacy comparison accepts, the split headers' corrected comparison accepts in either direction |
| Legacy.LongerFixedTargetExample | convertible/convertible.hxx:714-722 | `array{1,2}` against `array{1}` is unequal in the legacy header and equal under the split headers' corrected comparison, so the converse of `Legacy.StricterThanSplitHeaders` fails |
| Legacy.AssignThenMatches | convertible/convertible.hxx:658-723 | after an assignment that fits, the legacy comparison holds |
| Legacy.Assign | convertible/convertible.hxx:745-772 | the operator writes the target given first by `exec`: `rhs_to_lhs` writes only the lhs, `lhs_to_rhs` only the rhs, and a reading-back adapter then designates the assigned value |
| Legacy.AssignRhsToLhsThenEqual | convertible/convertible.hxx:767-778 | `assign<rhs_to_lhs>` followed by `equal` holds when the assignment fits and the adapter reads back |
| Legacy.AssignLhsToRhsThenEqual | convertible/convertible.hxx:753-778 | after `assign<lhs_to_rhs>` of scalars, `equal` holds exactly when the converter applied twice returns the lhs |
| Legacy.Equal | convertible/convertible.hxx:774-778 | whatever `mapping::equal` accepts, the split headers' corrected comparison accepts in the default direction |
| Legacy.OneWayConverterExample | convertible/convertible.hxx:753-778 | with an incrementing converter, `assign<lhs_to_rhs>` of (1, 0) gives (1, 2) and `equal` fails, while `assign<rhs_to_lhs>` gives (1, 0) and `equal` holds |
| Legacy.ConvertLhs | convertible/convertible.hxx:780-788 | `operator()(lhs)` starts from a fresh rhs object, `rhs_t rhs;`, whatever adaptee the adapter holds, and yields an rhs whose adapted part is the assignment of the lhs's part into the fresh rhs's |
| Legacy.ConvertRhs | convertible/convertible.hxx:790-798 | `operator()(rhs)` starts from a fresh lhs object, `lhs_t lhs;`, whatever adaptee the adapter holds, and yields an lhs whose adapted part is the assignment of the rhs's part into the fresh lhs's |
| Legacy.ConvertRhsThenEqual | convertible/convertible.hxx:774-798 | what `operator()(rhs)` makes compares equal to its argument |
| Legacy.AssignFrom | convertible/convertible.hxx:824-836 | `mapping_table::assign` never modifies the source side, and does nothing when no mapping takes the pair |
| Legacy.TableAssign | convertible/convertible.hxx:824-836 | the source side is left alone, objects no mapping takes are left alone, and a one-mapping table is that mapping's assignment |
| Legacy.TableEqual | convertible/convertible.hxx:838-850 | the legacy table compares equal exactly when every mapping that takes the pair does |
| Legacy.SingleMappingTableRoundTrip | convertible/convertible.hxx:824-850 | a one-mapping table compares equal after `assign<rhs_to_lhs>` |

## Left out

- Sets and other non-mapping associative containers. The set paths are the inserter's read of a set element (`libconvertible/convertible/operators.hxx:63-67`), which looks up a key in a target that has just been cleared, and the set branch of equality (`libconvertible/convertible/operators.hxx:255-257`). Only maps are modelled.
- Move semantics and value categories. `std::forward`, move iterators and moved-from sources are not modelled, because values are immutable.
- Object representation. Endianness, `memcpy` and `reinterpret_cast` are not modelled: a trivially copyable value is its byte sequence, and `operator to_t&` / `operator to_t` (`libconvertible/convertible/convertible.hxx:660-675`) are not modelled.
- Floating point. Conversions such as truncating `float` to `int` are represented only through an arbitrary converter function.
- `traits::mapped_value_t` and the inserter's `operator const mapped_value_t&`. The model writes into a value-initialised mapped value directly.
- User converters that convert whole containers, and containers of one type under a converter that casts them whole (two `std::map<int,int>` under `converter::identity`, say). There the scalar overload wins (`libconvertible/convertible/operators.hxx:172-185`) and the containers' own `=` and `==` run, which check sizes. The model always goes element-wise for sequence and map pairs. For one type under the identity the corrected comparison agrees with `==` (`Operators.MatchesIdentityIsEquality`), and the assignment agrees with the copy (`Operators.AssignIdentityCopies`), but `Operators.EqualAsWritten` predicts the element-wise walk, so the Findings row on lines 245-258 concerns maps of different types only.
- Map iteration order. A map-like object of a type `TMap` has strictly increasing keys, i.e. it is a `std::map`. An `std::unordered_map` need not iterate two maps with the same keys in the same order. Map equality, as written and corrected, compares entries pairwise in iteration order, so `Operators.AssignThenEqual` relies on the target iterating in the source's order, which the model gives it by construction.
- User-defined conversion operators. Of the casts `castable_to` allows, only derived-to-base (a base subobject field) is modelled.
- Compile-time viability is modelled as a runtime predicate, `None` when an adapter does not take an object. This conflates a rejected overload with undefined behaviour such as an out-of-range index or the dereference of an empty optional.
- The adapters' deleted assignment operators and const members. The model has no mutation, so these are not represented.
- `mapping_table::mappings()` and `custom(...)` adapters. These are accessors and generic wrappers that state nothing beyond the adapters modelled.
- MappingTables.Assign, MappingTables.Equal, Legacy.TableAssign, Legacy.TableEqual: both generations require at least one mapping to take the pair (`libconvertible/convertible/mapping_table.hxx:74, 91-93`, `convertible/convertible.hxx:825, 839`), a compile-time condition. The model defines them for every pair: a pair no mapping takes is left unchanged by assignment and compares equal.
- MappingTables.ResultTypes: `std::is_base_of` is a parameter `derives`, because a class type does not list its bases.
- Adapters.Get, Adapters.Set: derivation is one level, through the adapter's `base` field of the derived object. A member reader takes an object of a class derived from its class only by that cast, so a class derived in two steps, or one whose base sits elsewhere than the adapter's `base`, is not taken. The value read is the same as C++'s `obj.*ptr` wherever the cast applies.
- Adapters.View, Adapters.Update, MappingTables.Overload: the same one-level derivation as `Adapters.Get` and `Adapters.Set`.
- Monolithic `reader::maybe` (`libconvertible/convertible/convertible.hxx:492-553`) returns a `maybe_wrapper` that reads a default without engaging the optional. It is not modelled; `Adapters.Maybe` is the split headers' reader.
- Monolithic `enabled`: this header has none, so `Monolithic.MappingAssign` and `Monolithic.MappingEqual` never consult one. Its mapping table's loops are the split headers' and are not modelled a second time.
- Monolithic.Compose: the composed adapter gets no derived-to-base path of its own. An argument reaches the last adapter's own path through that adapter.
- Legacy: the legacy adapter API (`adapter::object`, `member`, `index`, `deref`) is represented by the split headers' adapters. Its map-like containers are treated as scalars, because their const keys make element-wise assignment ill-formed.
- Legacy.ConvertLhs, Legacy.ConvertRhs: `rhs_t rhs;` and `lhs_t lhs;` default-initialise, which leaves scalar members indeterminate. The model starts from the value-initialised object (`Values.Default`), which agrees for class types with default member initialisers and for standard containers only.
- Legacy.Mapping: the converter is one function on values. The C++ overload set, for example `int` to `string` and back, is that function's case split on the source's type.
- Operators.EqualAsWritten, Monolithic.Equal: `None` stands for every read past the end. The model does not say what such a read returns.

## Findings

| source | as written | input that shows it | evidently intended | confidence | as-written member | corrected member |
|---|---|---|---|---|---|---|
| libconvertible/convertible/operators.hxx:222-229 | after the size guards, `std::equal` walks every lhs element against the rhs | `assign<lhs_to_rhs>` of lhs `vector{1,2}` into rhs `array<int,1>`, then `equal<lhs_to_rhs>`: the guard passes and the walk reads `rhs[1]` | compare the positions both sides have, the ones the assignment wrote | high, not executed | Operators.SequenceOverrunAfterAssign | Operators.AssignThenEqual |
| libconvertible/convertible/operators.hxx:245-258 | comparison of maps of different types (the element-wise overload) walks the lhs entries with no size check | lhs `map<int,int>{1:1}` against rhs `map<int,string>{1:"1", 2:"2"}` under an int/string converter is "equal"; the reverse reads past the end | equal sizes, then equal keys and values pairwise | high, not executed | Operators.MapPrefixComparesEqual | Operators.AssignThenEqual |
| libconvertible/convertible/convertible.hxx:608 | a resizable container grows to `max(1, bytes_required / sizeof(elem))` elements (floor) | empty `vector<uint32_t>` under `binary<0,4>`: 5 bytes needed, grown to 4, then `overflow_error` | grow to the ceiling, enough elements to hold `bytes_required` | high, not executed | Binary.GrowAsWrittenFallsShort | Binary.ConstructedInBounds |
| libconvertible/convertible/convertible.hxx:585-597 | object and fixed-size storage is checked against `byte_count`, not `bytes_required` | `std::array<std::byte,4>` under `binary<2,5>`: accepted, window `[2,5]` past the end | require `bytes_required` bytes | high, not executed | Binary.FixedCheckAsWrittenTooWeak | Binary.ConstructedInBounds |
| libconvertible/convertible/convertible.hxx:720, 737 | the resizable-storage guard compares the value's size with the whole storage, ignoring `first_byte` | proxy `<4,7>` over a 6-byte vector that shrank after construction, writing 4 bytes: the guard passes and bytes 6-7 are written | throw when `first_byte + size` exceeds the storage | high, not executed | Binary.ShrinkGuardIgnoresOffset | Binary.WriteThenCompare |
| libconvertible/convertible/convertible.hxx:693, 712 | array assignment and comparison pass `std::size(range)`, an element count, as a byte count | `std::array<uint16_t,1>`: 1 of its 2 bytes copied and compared | the array's byte size, `range_fixed_size_bytes` | high, not executed | Binary.ArrayAssignCopiesElementCount | Binary.AssignArrayThenCompare |
| libconvertible/convertible/mapping_table.hxx:89-110 | `equal<dir>` ignores `dir` and always compares `rhs_to_lhs` | absolute-value converter: `assign<lhs_to_rhs>` of (-1, 0) gives (-1, 1), then `equal<lhs_to_rhs>` is false | compare in the direction asked | medium, not executed | MappingTables.EqualIgnoresDirectionExample | MappingTables.AssignThenEqual |
| libconvertible/convertible/convertible.hxx:1217-1231 | only a resizable target is size-checked before `std::equal` walks the lhs | lhs `array{1,2}` against rhs `vector{1}` in `rhs_to_lhs`: the walk reads `rhs[1]` | the split headers' guards, then compare shared positions | high, not executed | Monolithic.FixedTargetOverrun | Operators.AssignThenEqual |
