/**
 * A mutable collection in which every item has a unique name and is found by it.
 * The state is one dictionary from names to items; `order` is the order in which
 * that dictionary enumerates its entries.
 */
module Collections {
  import opened Wrappers
  import opened NameIndex

  class UniqueNameCollection<T> {
    /** The name of an item (its `Name` property), fixed while the item is stored. */
    const NameOf: T -> string

    var nameToObject: map<string, T>
    var order: seq<string>

    /** Every key is its item's name, so no two entries share a name; `order` lists each key once. */
    ghost predicate Valid()
      reads this
    {
      && KeyedByName(nameToObject, NameOf)
      && IsEntryOrder(order, nameToObject)
    }

    /** An empty collection. */
    constructor (nameOf: T -> string)
      ensures Valid()
      ensures NameOf == nameOf && nameToObject == map[] && order == []
    {
      NameOf := nameOf;
      nameToObject := map[];
      order := [];
    }

    /**
     * A collection holding `items`, inserted in order; fails with DuplicateName
     * as soon as an item's name has been seen before.
     */
    static method FromItems(nameOf: T -> string, items: seq<T>)
      returns (r: Result<UniqueNameCollection<T>, Error>)
      ensures r.Success? <==> DistinctNames(items, nameOf)
      ensures r.Failure? ==> Build(items, nameOf) == Failure(r.error)
      ensures r.Success? ==>
        && fresh(r.value)
        && r.value.Valid()
        && r.value.NameOf == nameOf
        && Build(items, nameOf) == Success(r.value.nameToObject)
        && r.value.order == Names(items, nameOf)
        && (forall i | 0 <= i < |items| :: r.value.Get(nameOf(items[i])) == Some(items[i]))
        && (forall name :: r.value.ContainsName(name) <==> name in Names(items, nameOf))
        && r.value.Count() == |items|
        && r.value.Enumerate() == items
    {
      var c := new UniqueNameCollection<T>(nameOf);
      // ToDictionary: one dictionary insertion per item, in sequence order.
      var i := 0;
      while i < |items|
        invariant 0 <= i <= |items|
        invariant c.Valid() && c.NameOf == nameOf
        invariant Build(items[..i], nameOf) == Success(c.nameToObject)
        invariant c.order == Names(items[..i], nameOf)
      {
        BuildStep(items, nameOf, i);
        var name := nameOf(items[i]);
        if name in c.nameToObject {
          BuildStopsAtFirstFailure(items, nameOf, i + 1);
          BuildSucceedsIffDistinct(items, nameOf);
          return Failure(DuplicateName(name));
        }
        InsertKeepsInvariant(c.nameToObject, c.order, nameOf, items[i]);
        c.nameToObject := c.nameToObject[name := items[i]];
        c.order := c.order + [name];
        i := i + 1;
      }
      assert items[..i] == items;
      BuildSucceedsIffDistinct(items, nameOf);
      BuildContents(items, nameOf);
      BuildKeys(items, nameOf);
      BuildEnumeratesInOrder(items, nameOf);
      r := Success(c);
    }

    /** The number of items: one per entry of the dictionary's entry order. */
    function Count(): (n: nat)
      reads this
      requires Valid()
      ensures n == |order|
    {
      |nameToObject|
    }

    /** The collection accepts changes. */
    function IsReadOnly(): (b: bool)
      ensures !b
    {
      false
    }

    /**
     * Adds `item` under its name. When that name is already present this fails
     * with DuplicateName and changes nothing.
     */
    method Add(item: T) returns (r: Outcome<Error>)
      requires Valid()
      modifies this
      ensures Valid()
      ensures r.Fail? <==> old(ContainsName(NameOf(item)))
      ensures r.Fail? ==> r.error == DuplicateName(NameOf(item))
      ensures r.Fail? ==> nameToObject == old(nameToObject) && order == old(order)
      ensures r.Pass? ==>
        && nameToObject == old(nameToObject)[NameOf(item) := item]
        && order == old(order) + [NameOf(item)]
        && Count() == old(Count()) + 1
        && Get(NameOf(item)) == Some(item)
    {
      var name := NameOf(item);
      if name in nameToObject {
        return Fail(DuplicateName(name));
      }
      InsertKeepsInvariant(nameToObject, order, NameOf, item);
      nameToObject := nameToObject[name := item];
      order := order + [name];
      r := Pass;
    }

    /** Removes every item. */
    method Clear()
      requires Valid()
      modifies this
      ensures Valid()
      ensures nameToObject == map[] && order == []
      ensures Count() == 0 && Enumerate() == []
    {
      nameToObject := map[];
      order := [];
    }

    /** Whether an item with the same name as `item` is stored; the item itself need not be. */
    function Contains(item: T): (b: bool)
      reads this
      requires Valid()
      ensures b == ContainsName(NameOf(item))
    {
      NameOf(item) in nameToObject
    }

    /** Removes the item stored under `item`'s name, whichever item that is. */
    method Remove(item: T) returns (removed: bool)
      requires Valid()
      modifies this
      ensures Valid()
      ensures removed <==> NameOf(item) in old(nameToObject)
      ensures nameToObject == old(nameToObject) - {NameOf(item)}
      ensures order == Without(old(order), NameOf(item))
      ensures Count() == old(Count()) - (if removed then 1 else 0)
    {
      removed := RemoveName(NameOf(item));
    }

    /**
     * The items, each exactly once, in the dictionary's entry order; every
     * enumerated item is the one stored under its name.
     */
    function Enumerate(): (r: seq<T>)
      reads this
      requires Valid()
      ensures |r| == Count()
      ensures DistinctNames(r, NameOf)
      ensures forall i | 0 <= i < |r| :: NameOf(r[i]) in nameToObject && nameToObject[NameOf(r[i])] == r[i]
      ensures forall k | k in nameToObject :: nameToObject[k] in r
    {
      var r := ValuesInOrder(nameToObject, order);
      assert Names(r, NameOf) == order;
      EntryOrderCoversKeys(order, nameToObject.Keys);
      r
    }

    /** The item stored under `name`, or None (null) when there is none. */
    function Get(name: string): (r: Option<T>)
      reads this
      requires Valid()
      ensures r.Some? <==> ContainsName(name)
      ensures r.Some? ==> NameOf(r.value) == name && r.value in Enumerate()
    {
      if ContainsName(name) then Some(nameToObject[name]) else None
    }

    /** Like Get, with a flag that tells whether the name was found. */
    method TryGet(name: string) returns (found: bool, item: Option<T>)
      requires Valid()
      ensures item == Get(name)
      ensures found <==> ContainsName(name)
      ensures found <==> item.Some?
    {
      item := Get(name);
      found := item.Some?;
    }

    /** Whether some stored item has this name. */
    function ContainsName(name: string): (b: bool)
      reads this
      requires Valid()
      ensures b <==> exists x :: x in Enumerate() && NameOf(x) == name
    {
      name in nameToObject
    }

    /** Removes the item stored under `name`; reports whether there was one. */
    method RemoveName(name: string) returns (removed: bool)
      requires Valid()
      modifies this
      ensures Valid()
      ensures removed <==> name in old(nameToObject)
      ensures nameToObject == old(nameToObject) - {name}
      ensures order == Without(old(order), name)
      ensures !ContainsName(name)
      ensures Count() == old(Count()) - (if removed then 1 else 0)
    {
      removed := name in nameToObject;
      RemoveKeepsInvariant(nameToObject, order, NameOf, name);
      nameToObject := nameToObject - {name};
      order := Without(order, name);
    }
  }
}
