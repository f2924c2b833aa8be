# Collection&lt;T&gt; — a verified model of a resizable array

`Collection<T>` (namespace `Collections`) is a generic resizable array. Its
live elements sit in the dense prefix `[0, Count)` of a backing buffer. The
buffer starts with 16 slots and grows as elements are added. Indexed get/set,
`InsertAt`, `RemoveAt` and `Exchange` are bounds-checked: an index outside the
valid range raises an out-of-range error and leaves the collection as it was.
`ToString` renders `"[a, b, c]"`.

The C# source of the class itself is not part of this model. Its
contract comes from the NUnit suite `CollectionTests/CollectionTests.cs`, and
every contract below is traced to the test lines that pin it down.

Files:

- `outcomes.dfy` — module `Outcomes`: the error kind `IndexOutOfRange`, plus
  `Result<T>` (for get and `RemoveAt`) and `Outcome` (for set, `InsertAt` and
  `Exchange`). These stand in for `ArgumentOutOfRangeException`.
- `seq_ops.dfy` — module `SeqOps`: what each edit does to the sequence of live
  elements (`Inserted`, `Removed`, `Swapped`), the round-trip lemmas between
  them, and `Range`, the model of `Enumerable.Range`.
- `rendering.dfy` — module `Rendering`: the string form (`Join`, `Render`), the
  decimal form of integers (`Decimal`), and `Parse`. `Parse` is the inverse of
  `Render` whenever element strings are non-empty and contain no comma.
- `collection.dfy` — module `Collections`: `class Collection<T(0)>`. It holds an
  `array<T>` buffer `items` and a `count` field. The ghost field `Elements` is
  the sequence of live elements, and `Valid()` ties it to `items[..count]`.
  The capacity is `items.Length`, read through `Capacity()`, so no separate field can disagree with the buffer. The class also
  defines the doubling growth policy `GrownCapacity`.
- `collection_tests.dfy` — module `CollectionTests`: one method per NUnit test.
  Each method drives fresh collections as its test does. Its postcondition
  states what the test asserts.

Design choices where the tests leave freedom:

- Growth doubles the buffer until it is large enough. `GrownCapacity` is proved
  to be at least the old capacity and at least the number needed. It is proved
  below twice that number whenever it grows.
- `Clear` keeps the buffer, so the capacity is unchanged.
- The constructor takes the C# `params T[]` arguments as a sequence. Calling it
  with no arguments is the empty constructor, which gives capacity 16.
- `ToString` takes the element rendering as a parameter `show: T -> string`.
  This stands for each element's own `ToString()`. Integers use `Decimal`;
  strings use themselves (`Verbatim`).

## Model

| member | source | states |
|---|---|---|
| `Collections.GrownCapacity` | CollectionTests/CollectionTests.cs:53-79 | growth never shrinks the buffer, yields room for all elements needed, keeps the buffer when it fits, and stays below twice the need when it grows |
| `Collections.Collection.constructor` | CollectionTests/CollectionTests.cs:89-130 | the contents are the arguments in order; capacity is 16 for no arguments and is at least the count in every case |
| `Collections.Collection.Count` | CollectionTests/CollectionTests.cs:104-121 | Count is the number of live elements |
| `Collections.Collection.Capacity` | CollectionTests/CollectionTests.cs:104-121 | the capacity is positive and never below the count |
| `Collections.Collection.EnsureCapacity` | CollectionTests/CollectionTests.cs:53-79 | growing copies every live element unchanged into the new buffer, and the capacity moves as `GrownCapacity` says |
| `Collections.Collection.Add` | CollectionTests/CollectionTests.cs:37-43 | the item is appended after the existing elements, which are unchanged; the capacity grows only as needed |
| `Collections.Collection.AddRange` | CollectionTests/CollectionTests.cs:45-63 | the items are appended in argument order after the unchanged elements; the capacity grows to hold them all |
| `Collections.Collection.Get` | CollectionTests/CollectionTests.cs:160-175 | returns the element at a valid index, and IndexOutOfRange for a negative index or one at or past Count |
| `Collections.Collection.Set` | CollectionTests/CollectionTests.cs:269-284 | replaces only the element at a valid index; an invalid index fails and changes nothing |
| `Collections.Collection.InsertAt` | CollectionTests/CollectionTests.cs:177-219 | for 0 <= index <= Count (Count appends), inserts at index and shifts the rest right by one; any other index fails and changes nothing |
| `Collections.Collection.RemoveAt` | CollectionTests/CollectionTests.cs:221-267 | for a valid index, returns the old element there and shifts the rest left by one, keeping the capacity; an invalid index fails and changes nothing |
| `Collections.Collection.Exchange` | CollectionTests/CollectionTests.cs:132-158 | swaps exactly the two positions when both are valid; if either index is invalid it fails and changes nothing |
| `Collections.Collection.Clear` | CollectionTests/CollectionTests.cs:81-87 | no elements remain; the buffer is kept |
| `Collections.Collection.ToString` | CollectionTests/CollectionTests.cs:286-315 | the string form is the bracketed, comma-space-separated rendering of the live elements |
| `SeqOps.Inserted` | CollectionTests/CollectionTests.cs:177-204 | the new element is at the index; earlier elements stay where they were and later ones move one place right |
| `SeqOps.Removed` | CollectionTests/CollectionTests.cs:236-267 | earlier elements stay where they were and later ones move one place left; the length drops by one |
| `SeqOps.Swapped` | CollectionTests/CollectionTests.cs:132-158 | the two positions trade elements and every other position is unchanged |
| `SeqOps.RemoveAfterInsert` | CollectionTests/CollectionTests.cs:177-267 | RemoveAt(i) after InsertAt(i, x) restores the original contents |
| `SeqOps.InsertAfterRemove` | CollectionTests/CollectionTests.cs:177-267 | re-inserting a removed element at its index restores the original contents |
| `SeqOps.SwapTwice` | CollectionTests/CollectionTests.cs:132-158 | exchanging the same positions twice is the identity |
| `SeqOps.SwapPermutes` | CollectionTests/CollectionTests.cs:132-158 | an exchange only reorders the elements, since the multiset is unchanged |
| `Rendering.JoinAppend` | CollectionTests/CollectionTests.cs:45-63 | joining two non-empty part lists puts exactly one separator between them |
| `Rendering.RenderConcat` | CollectionTests/CollectionTests.cs:53-63 | the rendering of a concatenation is the two joins with one ", " between them |
| `Rendering.RenderAppend` | CollectionTests/CollectionTests.cs:37-43 | appending an element adds ", " and its string form before the "]", with no trailing separator |
| `Rendering.RenderEmptyIff` | CollectionTests/CollectionTests.cs:296-301 | the rendering is "[]" exactly for no elements, or for one element whose string form is empty |
| `Rendering.Decimal` | CollectionTests/CollectionTests.cs:89-94 | an integer's string form is decimal digits, preceded by '-' exactly when it is negative |
| `Rendering.DecimalSpells` | CollectionTests/CollectionTests.cs:89-94 | the digits spell the integer's absolute value, with no leading zero except for "0" itself |
| `Rendering.SplitJoin` | CollectionTests/CollectionTests.cs:286-315 | splitting a join at its separator recovers the parts when no part holds the separator's first character |
| `Rendering.ParseRender` | CollectionTests/CollectionTests.cs:286-315 | parsing the rendering gives back each element's string form when those are non-empty and comma-free |
| `Rendering.ParseRenderIntegers` | CollectionTests/CollectionTests.cs:89-94 | integer collections always render unambiguously |
| `CollectionTests.OneMillionItems` | CollectionTests/CollectionTests.cs:20-35 | after adding 1..n, Count is n and Capacity is at least Count; removing from the last index down leaves "[]", Count 0 and Capacity at least Count |
| `CollectionTests.Add` | CollectionTests/CollectionTests.cs:37-43 | (10, 20, 30) plus Add(40) renders "[10, 20, 30, 40]" and Capacity is at least Count |
| `CollectionTests.AddRange` | CollectionTests/CollectionTests.cs:45-51 | names plus ("Kolyo", "Misho", "Tony") renders "[George, Pesho, Kolyo, Misho, Tony]" |
| `CollectionTests.AddRangeWithGrow` | CollectionTests/CollectionTests.cs:53-63 | adding 40..89 renders "[10, 20, 30, " + the join of 40..89 + "]"; Capacity is at least the old capacity and at least Count |
| `CollectionTests.AddWithGrow` | CollectionTests/CollectionTests.cs:65-79 | after twenty more Adds, Capacity is at least Count and at least the old capacity |
| `CollectionTests.Clear` | CollectionTests/CollectionTests.cs:81-87 | after Clear, Count is 0 and the rendering is "[]" |
| `CollectionTests.ConstructorMultipleItems` | CollectionTests/CollectionTests.cs:89-94 | (10, 20, 30) renders "[10, 20, 30]" and Capacity is at least Count |
| `CollectionTests.ConstructorSingleItem` | CollectionTests/CollectionTests.cs:96-102 | one argument gives Count 1 and Capacity at least 1 |
| `CollectionTests.CountAndCapacity` | CollectionTests/CollectionTests.cs:104-121 | Count is i after the i-th Add and falls by one with each RemoveAt down to 0; after every Add and every RemoveAt, Capacity is at least Count |
| `CollectionTests.EmptyConstructor` | CollectionTests/CollectionTests.cs:123-130 | no arguments give "[]", Count 0 and Capacity 16 |
| `CollectionTests.ExchangeFirstLast` | CollectionTests/CollectionTests.cs:132-139 | Exchange(0, 3) turns "[George, Pesho, Kolyo, Tosho]" into "[Tosho, Pesho, Kolyo, George]" |
| `CollectionTests.ExchangeInvalidIndexes` | CollectionTests/CollectionTests.cs:141-149 | (-1, 1), (1, -1), (2, 1) and (1, 2) all fail and names still renders "[George, Pesho]" |
| `CollectionTests.ExchangeMiddle` | CollectionTests/CollectionTests.cs:151-158 | Exchange(1, 2) gives "[George, Kolyo, Pesho, Tosho]" |
| `CollectionTests.GetByIndex` | CollectionTests/CollectionTests.cs:160-167 | names[0] is "George" and names[1] is "Pesho" |
| `CollectionTests.GetByInvalidIndex` | CollectionTests/CollectionTests.cs:169-175 | names[-1] and names[2] fail and names is unchanged |
| `CollectionTests.InsertAtEnd` | CollectionTests/CollectionTests.cs:177-182 | InsertAt(2, "Kolyo") appends |
| `CollectionTests.InsertAtInvalidIndex` | CollectionTests/CollectionTests.cs:184-190 | InsertAt(-1, _) and InsertAt(3, _) fail and names is unchanged |
| `CollectionTests.InsertAtMiddle` | CollectionTests/CollectionTests.cs:192-197 | InsertAt(1, "Kolyo") gives "[George, Kolyo, Pesho]" |
| `CollectionTests.InsertAtStart` | CollectionTests/CollectionTests.cs:199-204 | InsertAt(0, "Kolyo") gives "[Kolyo, George, Pesho]" |
| `CollectionTests.WovenStep` | CollectionTests/CollectionTests.cs:212-215 | each turn of the test's loop puts "Name" + i in front of the i-th original name |
| `CollectionTests.InsertAtWithGrow` | CollectionTests/CollectionTests.cs:206-219 | the interleaving loop yields Name0, Kolyo, Name1, George, Name2, Pesho, Name3, Misho, Name4; Capacity is at least the old capacity and at least Count |
| `CollectionTests.RemoveAll` | CollectionTests/CollectionTests.cs:221-234 | RemoveAt(0) repeated on 1..n returns 1, 2, ..., n in order and leaves "[]" with Count 0 |
| `CollectionTests.RemoveAtEnd` | CollectionTests/CollectionTests.cs:236-242 | RemoveAt(1) returns "Pesho" and leaves "[George]" |
| `CollectionTests.RemoveAtInvalidIndex` | CollectionTests/CollectionTests.cs:244-250 | RemoveAt(-1) and RemoveAt(2) fail and names is unchanged |
| `CollectionTests.RemoveAtMiddle` | CollectionTests/CollectionTests.cs:252-259 | after Add("Kolyo"), RemoveAt(1) returns "Pesho" and leaves "[George, Kolyo]" |
| `CollectionTests.RemoveAtStart` | CollectionTests/CollectionTests.cs:261-267 | RemoveAt(0) returns "George" and leaves "[Pesho]" |
| `CollectionTests.SetByIndex` | CollectionTests/CollectionTests.cs:269-276 | setting indices 0 and 1 turns "[George, Pesho]" into "[Kolyo, Misho]" |
| `CollectionTests.SetByInvalidIndex` | CollectionTests/CollectionTests.cs:278-284 | setting at -1 or -2 fails and names is unchanged |
| `CollectionTests.ToStringCollectionOfCollections` | CollectionTests/CollectionTests.cs:286-294 | a collection of the three collections' string forms renders "[[Kolyo, Pesho], [10, 20], []]" |
| `CollectionTests.ToStringEmpty` | CollectionTests/CollectionTests.cs:296-301 | an empty collection renders "[]" |
| `CollectionTests.ToStringSingle` | CollectionTests/CollectionTests.cs:310-315 | ("George") renders "[George]" |

## Left out

- Timing: the `[Timeout(1000)]` bound on the million-item test is not modelled. `OneMillionItems` takes the item count as a parameter, and `CountAndCapacity` and `RemoveAll` do the same for their constant 10.
- `Collection<object>` with mixed element types, and the runtime dispatch of `ToString()` on `object`, are not modelled. So `Test_Collection_ToStringMultiple` (lines 303-308) has no counterpart.
- CollectionTests.ToStringCollectionOfCollections: the outer collection holds the inner collections' string forms, because one Dafny collection cannot hold collections of different element types. The empty `Collection<DateTime>` is stood in for by an empty `Collection<int>`; `DateTime` itself is not modelled.
- The assertion at lines 74-78 compares `ToString()` with `string.Join(", ", nums)`. Its meaning depends on .NET overload resolution and enumeration, so no property is taken from it. Enumeration of the collection (`IEnumerable<T>`) is not modelled.
- CollectionTests.InsertAtWithGrow: states the final rendering as `Render` of the nine expected element strings, not as the literal 64-character string. Comparing a long string literal is beyond what the solver can afford here.
- `ArgumentOutOfRangeException` is modelled as an `Err`/`Fail` result with the state unchanged, not as exception control flow.
- The buffer slot vacated by `RemoveAt` or `Clear` keeps its old value. Whether the C# code resets it to `default(T)` cannot be observed through the tested API and is not modelled.
- `Count` and `Capacity` are unbounded naturals. The 32-bit limit of .NET array sizes is not modelled.
