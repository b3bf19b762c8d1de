/**
 * Client code that replays the collection's unit tests on arbitrary items named
 * "hello", "world" and "test": each outcome follows from the contracts alone.
 */
module Scenarios {
  import opened Wrappers
  import opened NameIndex
  import opened Collections

  /** Building from two items both named "hello" fails with DuplicateName("hello"). */
  method InstantiateWithDuplicateName<T>(nameOf: T -> string, first: T, second: T)
    returns (outcome: Result<UniqueNameCollection<T>, Error>)
    requires nameOf(first) == "hello" && nameOf(second) == "hello"
    ensures outcome == Failure(DuplicateName("hello"))
  {
    outcome := UniqueNameCollection.FromItems(nameOf, [first, second]);
    assert [first, second][..1] == [first] && [first][..0] == [];
    assert Build([first], nameOf) == Success(map["hello" := first]);
  }

  /** Adding a second item named "hello" fails and leaves only the first one stored. */
  method AddWithDuplicateName<T>(nameOf: T -> string, first: T, second: T)
    returns (added: Outcome<Error>, again: Outcome<Error>, count: nat, stored: Option<T>)
    requires nameOf(first) == "hello" && nameOf(second) == "hello"
    ensures added == Pass && again == Fail(DuplicateName("hello"))
    ensures count == 1 && stored == Some(first)
  {
    var c := new UniqueNameCollection<T>(nameOf);
    added := c.Add(first);
    again := c.Add(second);
    count := c.Count();
    stored := c.Get("hello");
  }

  /**
   * With "hello" and "world" stored: Get and ContainsName find "world" and
   * return that very item, and find nothing under "test".
   */
  method GetAndContainsName<T>(nameOf: T -> string, hello: T, world: T)
    returns (got: Option<T>, missing: Option<T>, hasWorld: bool, hasTest: bool)
    requires nameOf(hello) == "hello" && nameOf(world) == "world"
    ensures got == Some(world) && missing == None
    ensures hasWorld && !hasTest
  {
    var built := UniqueNameCollection.FromItems(nameOf, [hello, world]);
    assert DistinctNames([hello, world], nameOf);
    var c := built.value;
    assert !c.ContainsName("test");
    got := c.Get(nameOf(world));
    missing := c.Get("test");
    hasWorld := c.ContainsName(nameOf(world));
    hasTest := c.ContainsName("test");
  }

  /**
   * Contains(item) looks at the name only: a stored name is found even through
   * another item carrying it, and an unstored name is not.
   */
  method ContainsObject<T>(nameOf: T -> string, hello: T, world: T, test: T, twin: T)
    returns (hasWorld: bool, hasTest: bool, hasTwin: bool)
    requires nameOf(hello) == "hello" && nameOf(world) == "world"
    requires nameOf(test) == "test" && nameOf(twin) == "world"
    ensures hasWorld && !hasTest && hasTwin
  {
    var built := UniqueNameCollection.FromItems(nameOf, [hello, world]);
    assert DistinctNames([hello, world], nameOf);
    var c := built.value;
    assert !c.ContainsName("test");
    hasWorld := c.Contains(world);
    hasTest := c.Contains(test);
    hasTwin := c.Contains(twin);
  }

  /**
   * Removing "world" from {hello, world} succeeds and leaves hello as the one
   * item; removing "world" a second time reports false.
   */
  method RemoveNameTwice<T>(nameOf: T -> string, hello: T, world: T)
    returns (first: bool, second: bool, count: nat, kept: Option<T>)
    requires nameOf(hello) == "hello" && nameOf(world) == "world"
    ensures first && !second
    ensures count == 1 && kept == Some(hello)
  {
    var built := UniqueNameCollection.FromItems(nameOf, [hello, world]);
    assert DistinctNames([hello, world], nameOf);
    var c := built.value;
    assert c.Get("hello") == Some(hello) && c.ContainsName("world");
    first := c.RemoveName("world");
    second := c.RemoveName("world");
    count := c.Count();
    kept := c.Get("hello");
  }

  /** Removing a name that {hello, world} does not hold reports false. */
  method RemoveAbsentName<T>(nameOf: T -> string, hello: T, world: T)
    returns (removed: bool)
    requires nameOf(hello) == "hello" && nameOf(world) == "world"
    ensures !removed
  {
    var built := UniqueNameCollection.FromItems(nameOf, [hello, world]);
    assert DistinctNames([hello, world], nameOf);
    var c := built.value;
    assert !c.ContainsName("test");
    removed := c.RemoveName("test");
  }

  /** Remove(item) removes by name: "world" goes, an item named "test" finds nothing. */
  method RemoveObject<T>(nameOf: T -> string, hello: T, world: T, test: T)
    returns (removedWorld: bool, removedTest: bool)
    requires nameOf(hello) == "hello" && nameOf(world) == "world" && nameOf(test) == "test"
    ensures removedWorld && !removedTest
  {
    var built := UniqueNameCollection.FromItems(nameOf, [hello, world]);
    assert DistinctNames([hello, world], nameOf);
    var c := built.value;
    removedWorld := c.Remove(world);
    removedTest := c.Remove(test);
  }

  /** A collection built from hello, world, test enumerates exactly those items in that order. */
  method EnumerateCollection<T>(nameOf: T -> string, hello: T, world: T, test: T)
    returns (items: seq<T>)
    requires nameOf(hello) == "hello" && nameOf(world) == "world" && nameOf(test) == "test"
    ensures items == [hello, world, test]
  {
    var built := UniqueNameCollection.FromItems(nameOf, [hello, world, test]);
    assert DistinctNames([hello, world, test], nameOf);
    items := built.value.Enumerate();
  }
}
