# ext: the per-type object registry and the string utilities

This project models two parts of the `ext` C++ library, as its tests use them.

**The registry** (`ext::collection<T>`):
- Each type `T` has one process-wide list of registered objects.
- `ext::collection_mgr<T>` adds and removes raw pointers.
- `ext::collection<T>` is the mutable view and `ext::const_collection<T>` the read-only view. Both iterate the list in insertion order.
- A type that derives from `collection<T>::item` is *hooked*: constructing an object registers it and destroying it deregisters it. This holds however the object is stored: a static or automatic array, `new`, `std::make_shared`, or a local variable.

In the model:
- `Collection.Registry<T>` is a class whose `members: seq<T>` field the methods reassign. Its invariant is that no object is registered twice.
- `Membership` holds the pure list operations that `Registry` is proved against:
  - `Inserted` (append unless already present);
  - `Without` (filter out a set of objects, keeping the order of the rest).
- `Hook` models the lifetimes of the hooked type `managed_data` as explicit events. A `std::shared_ptr` is a `Shared` control block that destroys its object on the last release.
- `CollectionTests` replays the test file `test/collection.cpp` as verified methods:
  - every `EXPECT_EQ` on a count is an `assert`;
  - each test case's `requires` and `ensures` are the registry state it receives and leaves;
  - `RunAll` runs the cases in file order, from static initialisation of the global array of 20 hooked objects to its destruction at exit.

**The string utilities** (`ext::trim`, `ltrim`, `rtrim`, `search`, `equal`, `replace_all`) are pure functions over `string` in module `Strings`. Each one is characterised by lemmas, and the concrete expectations of `test/string.cpp` are proved as lemmas.

## Model

| member | source | states |
|---|---|---|
| Membership.Inserted | test/collection.cpp:40-48 | registering `x` keeps the old list as a prefix and contains `x`; the length grows by exactly one when `x` was new and is unchanged otherwise |
| Membership.InsertedDistinct | test/collection.cpp:40-48 | registering keeps the registry free of duplicates |
| Membership.DistinctSnoc | test/collection.cpp:40-48 | appending an element that is not yet registered keeps the list duplicate-free |
| Membership.Without | test/collection.cpp:77-82 | deregistration as a filter over the member list; characterised by `WithoutMember` (which objects survive), `WithoutCount` (by how much it shrinks), `WithoutOne` (order of the rest kept) and `WithoutDistinct` (no duplicates) |
| Membership.WithoutMember | test/collection.cpp:77-82 | after removal an object is registered exactly when it was before and is not among those removed |
| Membership.WithoutDistinct | test/collection.cpp:77-82 | removal keeps the registry free of duplicates |
| Membership.WithoutCount | test/collection.cpp:77-82 | removing k registered objects from a duplicate-free registry shortens it by exactly k |
| Membership.WithoutAbsent | test/collection.cpp:157 | removing objects that are not registered leaves the list unchanged, as when the destructors of `items[0]` and `items[1]` run after their manual removal |
| Membership.WithoutIgnoresAbsent | test/collection.cpp:129-157 | naming an unregistered object among those removed makes no difference |
| Membership.WithoutTwice | test/collection.cpp:129-157 | two removals in a row are one removal of both sets, so removing an object again (its destructor after a manual remove) changes nothing |
| Membership.WithoutAppend | test/collection.cpp:99-157 | removal distributes over concatenation: each segment of the registry is filtered independently |
| Membership.WithoutLast | test/collection.cpp:151-156 | deregistering the most recently registered object restores the list as it was before its registration |
| Membership.WithoutOne | test/collection.cpp:129-149 | deregistering an object that occurs once, anywhere, removes exactly that occurrence and keeps the others in order |
| Membership.WithoutFront | test/collection.cpp:88-91 | removing the first element of a duplicate-free list leaves its tail |
| Membership.WithoutAll | test/collection.cpp:84-96 | removing every registered object empties the registry |
| Membership.InsertThenRemove | test/collection.cpp:59-82 | adding a new object and then removing it restores the registry |
| Collection.Registry.constructor | test/collection.cpp:34-37 | the registry of a type nothing has registered is empty |
| Collection.Registry.Add | test/collection.cpp:40-48 | a non-null new pointer is appended and the count rises by one; null or an already registered pointer changes nothing; no duplicates ever |
| Collection.Registry.Remove | test/collection.cpp:70-82 | a registered pointer is filtered out and the count falls by one; null or an unregistered pointer changes nothing |
| Collection.Registry.Count | test/collection.cpp:34-37 | iterating a view and counting yields the number of registered objects |
| Collection.Registry.Snapshot | test/collection.cpp:84-87 | copying the mutable view into a list yields every registered pointer, in registry order |
| Hook.ManagedData.constructor | test/collection.cpp:14-19 | default construction sets `id` and `value` to zero |
| Hook.ConstView | test/collection.cpp:211-221 | the read-only view yields, for each registered object in order, its current `id` and `value` |
| Hook.Construct | test/collection.cpp:115-120 | constructing a hooked object registers that fresh object at the end, exactly once |
| Hook.Destroy | test/collection.cpp:144-149 | destroying a hooked object deregisters it (count minus one), and does nothing if it was already removed |
| Hook.ConstructMany | test/collection.cpp:99-105 | an array of n hooked objects registers n fresh, distinct objects, in index order, after the existing members |
| Hook.DestroyMany | test/collection.cpp:157 | destroying an array (in reverse index order) deregisters exactly those of its elements still registered |
| Hook.Shared.constructor | test/collection.cpp:109 | a new control block owns its object with one owner |
| Hook.Shared.Release | test/collection.cpp:151-156 | releasing an owner deregisters the object exactly when no owner is left, and otherwise changes nothing |
| Hook.MakeShared | test/collection.cpp:108-113 | `make_shared` registers one fresh object, at the end, under a single owner |
| CollectionTests.Data.constructor | test/collection.cpp:7-12 | default construction of the unhooked `data` sets both fields to zero |
| CollectionTests.ManualAdd | test/collection.cpp:31-49 | the `data` registry starts empty (count 0); after one manual add it holds exactly the new object (count 1) |
| CollectionTests.ManualRemove | test/collection.cpp:51-97 | counts 1, 2, 2 (null removal), 1 (removal of the new object), then 0 after draining a snapshot of the mutable view |
| CollectionTests.AutoAdd | test/collection.cpp:99-157 | counts global+20, +21, +22, +23, then +22, +21, +20, +19 after two manual removes, a `delete` and the last shared release; scope exit restores exactly the starting registry although two array elements were removed twice |
| CollectionTests.AutoRemove | test/collection.cpp:159-184 | counts global+22, +21, +20 after the last shared release and a `delete`; scope exit restores exactly the starting registry |
| CollectionTests.AutoAddAndSetValue | test/collection.cpp:186-222 | writing through the mutable view changes the values of the objects with id 1 and 2 without deregistering anything; the read-only view then reads 20 and 40; scope exit restores the registry |
| CollectionTests.NoAdd | test/collection.cpp:224-232 | constructing 100 unhooked `data` objects registers none of them: none is a member of the `data` registry, whose count is unchanged, and the `managed_data` count stays at the 20 globals |
| CollectionTests.RunAll | test/collection.cpp:27-232 | after all cases the `data` registry is empty and the `managed_data` registry holds just the 20 globals; it is empty after static destruction |
| CollectionTests.AutoAddTrace | test/collection.cpp:129-157 | the registry contents in `auto_add` have the asserted sizes after each removal, and destroying the local variable and the array afterwards leaves exactly the starting registry |
| CollectionTests.AutoRemoveTrace | test/collection.cpp:171-184 | the registry contents in `auto_remove` have the asserted sizes, and scope exit leaves exactly the starting registry |
| CollectionTests.AutoAddAndSetValueTrace | test/collection.cpp:188-222 | destroying the local object and releasing the shared one in reverse order restores the starting registry |
| CollectionTests.BackToBase | test/collection.cpp:157 | removing every object created within a scope, and none from before it, restores the registry as it was on entry |
| Strings.IsSpace | test/string.cpp:5-6 | white space is the six characters C's `isspace` accepts in the default locale; `LTrim`, `RTrim` and `Trim` drop exactly these at the ends, as `LTrimUnique` and `RTrimUnique` state |
| Strings.LTrim | test/string.cpp:11-12 | the result is a suffix of the input, everything dropped is white space, and the result is empty or starts with a non-space |
| Strings.RTrim | test/string.cpp:17-18 | the result is a prefix of the input, everything dropped is white space, and the result is empty or ends with a non-space |
| Strings.LTrimUnique | test/string.cpp:11-12 | the left trim is the unique split into leading white space and a rest that is empty or starts with a non-space |
| Strings.RTrimUnique | test/string.cpp:17-18 | the right trim is the unique split into a rest that is empty or ends with a non-space, and trailing white space |
| Strings.LTrimPrefix | test/string.cpp:5-6 | cutting off the end of a string, but not its first non-space, does not change how much the left trim drops |
| Strings.RTrimSuffix | test/string.cpp:5-6 | cutting off the start of a string, but not its last non-space, does not change how much the right trim drops |
| Strings.TrimCommutes | test/string.cpp:5-6 | trimming the left end and then the right end gives the same result as the other order |
| Strings.Trim | test/string.cpp:5-6 | the result has both the left and the right trim applied, and is empty or starts and ends with a non-space |
| Strings.TrimEmpty | test/string.cpp:5-6 | the trim is empty exactly when the input is all white space |
| Strings.LTrimIdempotent | test/string.cpp:11-12 | left-trimming twice equals left-trimming once |
| Strings.RTrimIdempotent | test/string.cpp:17-18 | right-trimming twice equals right-trimming once |
| Strings.TrimIdempotent | test/string.cpp:5-6 | trimming twice equals trimming once |
| Strings.ToLower | test/string.cpp:47-48 | the case folding used by the default `equal` and `search`: ASCII capitals become lower case, every other character is kept; characterised by `ToLowerFacts`, `EqualIgnoringCase` and `SearchIgnoringCase` |
| Strings.ToLowerFacts | test/string.cpp:47-48 | lower-casing is idempotent and changes exactly the ASCII capitals |
| Strings.Equal | test/string.cpp:46-52 | two strings are equal exactly when they have the same length and match character by character, up to case by default |
| Strings.EqualCaseSensitive | test/string.cpp:50-51 | the case-sensitive comparison is string equality |
| Strings.EqualIgnoringCase | test/string.cpp:47-48 | the default comparison is equality of the lower-cased strings |
| Strings.EqualSensitiveImpliesInsensitive | test/string.cpp:46-52 | strings equal with case are equal without it |
| Strings.EqualIsEquivalence | test/string.cpp:47-48 | the default comparison is reflexive, symmetric and transitive |
| Strings.EqualExceptOne | test/string.cpp:48 | strings that differ in one position, where the characters still match, compare equal |
| Strings.Search | test/string.cpp:38-44 | the search succeeds exactly when the needle matches the haystack at some position, up to case by default |
| Strings.OccursShift | test/string.cpp:39-43 | when there is no match at position 0, the haystack has a match exactly when its tail does |
| Strings.SearchEmptyNeedle | test/string.cpp:38-44 | the empty needle is found in every haystack |
| Strings.SearchSensitiveImpliesInsensitive | test/string.cpp:39-42 | whatever the case-sensitive search finds, the default search finds too |
| Strings.SearchIgnoringCase | test/string.cpp:39-40 | the default search equals a case-sensitive search of the lower-cased strings |
| Strings.ReplaceAll | test/string.cpp:54-61 | `replace_all` itself: leftmost, non-overlapping, case-sensitive replacement; characterised by `ReplaceAllFirst` (text before the first occurrence kept, the occurrence replaced, the rest processed alike), `ReplaceAllAbsent`, `ReplaceAllSame`, `ReplaceAllLength` and `ReplacementsNone` |
| Strings.ReplaceAllLength | test/string.cpp:54-61 | the length of the result grows by the difference in length of `to` and `from` for each replacement |
| Strings.ReplacementsNone | test/string.cpp:54-61 | nothing is replaced exactly when `from` is empty or does not occur |
| Strings.ReplaceAllAbsent | test/string.cpp:54-61 | when `from` does not occur, the string is returned unchanged |
| Strings.ReplaceAllSame | test/string.cpp:54-61 | replacing a string by itself changes nothing |
| Strings.ReplaceAllFirst | test/string.cpp:55-56 | text before the first occurrence is kept as it is; the occurrence becomes `to`, and the rest is processed in the same way |
| Strings.LTrimExample | test/string.cpp:11-12 | `ltrim(" test ")` is `"test "` |
| Strings.RTrimExample | test/string.cpp:17-18 | `rtrim(" test ")` is `" test"` |
| Strings.TrimExample | test/string.cpp:5-6 | `trim(" test ")` is `"test"` |
| Strings.SearchExampleExact | test/string.cpp:39-42 | `"world"` is found in `"hello, world :-)"` with case and without |
| Strings.SearchExampleIgnoringCase | test/string.cpp:40 | by default `"World"` is found in `"hello, world :-)"` |
| Strings.SearchExampleCaseSensitive | test/string.cpp:43 | a case-sensitive search does not find `"World"` in `"hello, world :-)"` |
| Strings.EqualExampleSame | test/string.cpp:47-50 | `"hello, world :-)"` equals itself, with case and without |
| Strings.EqualExampleIgnoringCase | test/string.cpp:48 | by default `"hello, world :-)"` equals `"hello, World :-)"` |
| Strings.EqualExampleCaseSensitive | test/string.cpp:51 | compared with case, `"hello, world :-)"` and `"hello, World :-)"` differ |
| Strings.ReplaceAllExample | test/string.cpp:55-56 | replacing `":-"` by `";-"` in `"hello, world :-)"` gives `"hello, world ;-)"` |

## Left out

- The headers `ext/collection` and `ext/string` are not part of this model. Their behaviour is taken from how the tests use them, and these choices are the model's own:
  - `IsSpace` is the six characters that C's `isspace` accepts in the default locale.
  - Case folding is ASCII only.
  - The empty needle is found in every haystack.
  - An empty `from` leaves the string unchanged.
  - `replace_all` scans left to right, without overlapping matches, and does not search the replacement text again.
- Locking (`shared_recursive_mutex`) and concurrent registration are not modelled. Every operation here is atomic.
- Copy and move construction or assignment of hooked objects is not modelled. The tests do not use them.
- Memory is not modelled. A built-in array is a sequence of objects, `delete` is `Destroy`, and reading an object after it has been freed cannot be expressed.
- The `typeid` checks in `auto_add_and_set_value`, which compare static types, are not modelled.
- Narrow (`std::string`) and wide (`std::wstring`) strings are both `string`. Lvalue, rvalue and literal arguments are one call. The trim functions return a new value rather than modifying their argument.
- Hook.Shared: copies of a `shared_ptr` (more than one owner) are not modelled, because no test copies one; releasing an empty `shared_ptr` is not modelled either.
- The GoogleTest harness is not modelled. Each `EXPECT_EQ` is an `assert`, and test order is fixed to file order in `RunAll`.
- `test/process.cpp` and the process utilities it tests are not part of this model.
