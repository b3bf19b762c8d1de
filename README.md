# UniqueNameCollection in Dafny

This project models `UniqueNameCollection<T>` from Orc.Collections. It is a mutable
collection whose items each carry a string `Name` (the `IUniqueName` interface), and
each item is found by that name. All of its state is one dictionary from names to
items. Adding a second item under a name that is already present fails. Look-up,
membership and removal are all keyed by name, not by the item's identity.

Files:

- `Wrappers.dfy` holds `Option` (a reference that may be null), `Result` and `Outcome`
  (a call that may throw).
- `NameIndex.dfy` is the value-level specification. It defines the "every key is its
  item's name" invariant and the dictionary's entry order. It also defines `Build`, a
  left-to-right insertion of a sequence that stops at the first repeated name, which
  is what `ToDictionary(x => x.Name)` does. Lemmas about `Build` sit beside it.
- `UniqueNameCollection.dfy` holds the class `Collections.UniqueNameCollection<T>`:
  - The field `nameToObject: map<string, T>` is the dictionary.
  - The field `order: seq<string>` is the order in which the dictionary enumerates
    its entries. That order matches the source only while nothing has been removed
    (see the Enumerate line under "## Left out").
  - `Valid()` is the invariant: every key equals its item's name, and `order` lists
    every key exactly once.
  - Methods that change the collection have `modifies this`. Queries do not modify
    the collection: all of them except `TryGet` are functions, and `TryGet` is a
    method because it has two results.
- `Scenarios.dfy` replays the unit tests in `UniqueNameCollectionTests.cs` as client
  methods. Their outcomes follow from the class's contracts alone.

How C# maps onto the model:

- The element type stays generic. The `Name` getter becomes the constant `NameOf: T -> string`,
  which the collection receives when it is created. Names are fixed while an item is
  stored.
- Dafny has no overloading, so the overloads get distinct names. `Contains(T)` and
  `Remove(T)` keep their names. `Contains(string)` becomes `ContainsName`, and
  `Remove(string)` becomes `RemoveName`.
- The `ArgumentException` that `Dictionary.Add` and `ToDictionary` throw on a repeated
  key becomes `Fail(DuplicateName(name))` or `Failure(DuplicateName(name))`.
- A `null` result from `Get` becomes `None`.
- The constructor that takes a sequence can throw, and a Dafny constructor cannot fail.
  So it is modelled as the static method `FromItems`, which returns either a fresh
  collection or the error.

## Model

| member | source | states |
|---|---|---|
| `Collections.UniqueNameCollection.constructor` | src/Orc.Collections/UniqueNameCollection.cs:29-32 | the new collection is empty and satisfies the invariant |
| `Collections.UniqueNameCollection.FromItems` | src/Orc.Collections/UniqueNameCollection.cs:34-37 | succeeds exactly when the items' names are pairwise distinct; on success Count equals the number of items, Get of each item's name returns that item, ContainsName holds for exactly the items' names, enumeration yields the items in input order, and the dictionary is the one `Build` produces; on failure the error is `Build`'s: the first name seen twice |
| `Collections.UniqueNameCollection.Count` | src/Orc.Collections/UniqueNameCollection.cs:44-47 | Count is the number of entries in the dictionary's entry order (Enumerate yields exactly Count items) |
| `Collections.UniqueNameCollection.IsReadOnly` | src/Orc.Collections/UniqueNameCollection.cs:52-55 | always false |
| `Collections.UniqueNameCollection.Add` | src/Orc.Collections/UniqueNameCollection.cs:57-66 | fails with DuplicateName exactly when the name is already present, and then changes nothing; otherwise the item is stored under its name, other entries are unchanged, it is enumerated last, Count grows by one and Get of its name returns that very item; the invariant is kept |
| `Collections.UniqueNameCollection.Clear` | src/Orc.Collections/UniqueNameCollection.cs:71-74 | afterwards Count is 0 and enumeration yields nothing |
| `Collections.UniqueNameCollection.Contains` | src/Orc.Collections/UniqueNameCollection.cs:83-87 | the same answer as ContainsName of the item's name (keyed by name, not identity) |
| `Collections.UniqueNameCollection.Remove` | src/Orc.Collections/UniqueNameCollection.cs:99-102 | the same return value and the same effect as RemoveName of the item's name |
| `Collections.UniqueNameCollection.Enumerate` | src/Orc.Collections/UniqueNameCollection.cs:104-107 | yields Count items; no two of them share a name; every yielded item is the one stored under its name, and every stored item is yielded |
| `Collections.UniqueNameCollection.Get` | src/Orc.Collections/UniqueNameCollection.cs:116-125 | returns an item exactly when ContainsName holds, and None (null) otherwise; a returned item carries the requested name and is one of the enumerated items |
| `Collections.UniqueNameCollection.TryGet` | src/Orc.Collections/UniqueNameCollection.cs:127-140 | the out item is Get(name), and the flag is true exactly when the name is present, which is also when the item is non-null |
| `Collections.UniqueNameCollection.ContainsName` | src/Orc.Collections/UniqueNameCollection.cs:142-151 | true exactly when some enumerated item has that name |
| `Collections.UniqueNameCollection.RemoveName` | src/Orc.Collections/UniqueNameCollection.cs:153-160 | returns true exactly when the name was present; afterwards the name is absent, the other entries are unchanged, Count has dropped by the number removed, and the invariant is kept |
| `NameIndex.InsertKeepsInvariant` | src/Orc.Collections/UniqueNameCollection.cs:62-66 | storing an item under its own name, when that name is new, keeps every key equal to its item's name and appends the name to the entry order, which stays free of repeats |
| `NameIndex.RemoveKeepsInvariant` | src/Orc.Collections/UniqueNameCollection.cs:157-160 | removing a name keeps every key equal to its item's name, and the entry order without that name again lists each remaining key exactly once |
| `NameIndex.Build` | src/Orc.Collections/UniqueNameCollection.cs:36 | `ToDictionary(x => x.Name, x => x)`: inserts the items left to right and fails with DuplicateName at a repeated name; a successful result holds every item under its own name, with at most one entry per item |
| `NameIndex.BuildSucceedsIffDistinct` | src/Orc.Collections/UniqueNameCollection.cs:36 | building from a sequence succeeds if and only if the names are pairwise distinct |
| `NameIndex.BuildContents` | src/Orc.Collections/UniqueNameCollection.cs:36 | a successful build satisfies the key-equals-name invariant, holds one entry per item, and holds each item under its own name |
| `NameIndex.BuildKeys` | src/Orc.Collections/UniqueNameCollection.cs:36 | the keys of a successful build are exactly the items' names |
| `NameIndex.BuildEnumeratesInOrder` | src/Orc.Collections.Tests/UniqueNameCollectionTests.cs:190-206 | a successful build enumerates each item once, in input order |
| `NameIndex.BuildFailureNamesDuplicate` | src/Orc.Collections.Tests/UniqueNameCollectionTests.cs:15-22 | a failed build reports a name that two of the input items share |
| `NameIndex.BuildStopsAtFirstFailure` | src/Orc.Collections/UniqueNameCollection.cs:36 | once inserting a prefix has failed, the whole build fails with the same error (the first duplicate wins) |
| `NameIndex.Without` | src/Orc.Collections/UniqueNameCollection.cs:157-160 | removing a name from the entry order drops exactly that name, keeps the order free of repeats, and shortens it by one when the name was there |
| `Scenarios.InstantiateWithDuplicateName` | src/Orc.Collections.Tests/UniqueNameCollectionTests.cs:15-22 | building from two items named "hello" fails with DuplicateName("hello") |
| `Scenarios.AddWithDuplicateName` | src/Orc.Collections.Tests/UniqueNameCollectionTests.cs:24-36 | the second Add of the name "hello" fails, and the first item stays the only one stored |
| `Scenarios.GetAndContainsName` | src/Orc.Collections.Tests/UniqueNameCollectionTests.cs:38-96 | with hello and world stored, Get("world") returns the world item itself, Get("test") returns None, and ContainsName answers true for "world" and false for "test" |
| `Scenarios.ContainsObject` | src/Orc.Collections.Tests/UniqueNameCollectionTests.cs:98-127 | Contains(world) is true and Contains(test) is false; a different item named "world" is also reported as contained |
| `Scenarios.RemoveNameTwice` | src/Orc.Collections.Tests/UniqueNameCollectionTests.cs:129-142 | removing "world" returns true, a second removal returns false, and hello is then the one item left (Count 1, Get("hello") returns it) |
| `Scenarios.RemoveAbsentName` | src/Orc.Collections.Tests/UniqueNameCollectionTests.cs:144-157 | removing the absent name "test" returns false |
| `Scenarios.RemoveObject` | src/Orc.Collections.Tests/UniqueNameCollectionTests.cs:159-188 | Remove(world) returns true, and Remove of an item named "test" returns false |
| `Scenarios.EnumerateCollection` | src/Orc.Collections.Tests/UniqueNameCollectionTests.cs:190-206 | a collection built from hello, world, test enumerates exactly those items, in that order |

## Left out

- `CopyTo` (src/Orc.Collections/UniqueNameCollection.cs:89-92) always throws `NotImplementedException`, so it has no behaviour to model.
- The non-generic `IEnumerable.GetEnumerator` (src/Orc.Collections/UniqueNameCollection.cs:109-112) only forwards to the generic one.
- Enumerate gives a snapshot `seq` rather than a lazy enumerator, so changing the collection while enumerating is not modelled.
- Enumerate: after removals, the model keeps the surviving entries in their relative order and puts later additions at the end. .NET's `Dictionary` may reuse freed slots, so in the source that order is an implementation detail. Order is claimed only for a collection built or filled without removals.
- Renaming an item while it is stored is not modelled. `NameOf` is fixed, and the collection never guards against such a change.
- Null items, null names and a null `items` sequence are not modelled, because Dafny values are never null. In the source they fail in different ways:
  - A null item fails on `item.Name` with a `NullReferenceException` before the dictionary is reached. That happens in the key selector of `ToDictionary` (src/Orc.Collections/UniqueNameCollection.cs:36), in `Add` (:65), in `Contains(T)` (:86) and in `Remove(T)` (:101).
  - A null name makes `Dictionary` throw `ArgumentNullException`: in `Add` (:65), `Get` (:124), `Contains(string)` (:150) and `Remove(string)` (:159).
  - A null `items` sequence makes `ToDictionary` throw `ArgumentNullException` (:36).
- `FromItems`: on failure the C# constructor throws and the partly filled dictionary can never be reached, so the model returns only the error.
- Hashing, and the O(1) time claims in the doc comments, are not modelled.
- The `Order` test type and the NUnit harness are not part of this model. The scenarios take any items that carry the names the tests use.
