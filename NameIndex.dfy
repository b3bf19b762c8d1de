/**
 * The value-level specification of a unique-name collection: a dictionary from
 * names to items in which every key is the name of its item, the order in which
 * that dictionary enumerates its entries, and building such a dictionary from a
 * sequence of items one item at a time (LINQ's ToDictionary keyed by name).
 */
module NameIndex {
  import opened Wrappers

  /** The only domain error: an item's name is already a key of the dictionary. */
  datatype Error = DuplicateName(name: string)

  /** Every key is the name of the item stored under it. */
  ghost predicate KeyedByName<T>(m: map<string, T>, nameOf: T -> string)
  {
    forall k | k in m :: nameOf(m[k]) == k
  }

  /** No name occurs twice. */
  ghost predicate Distinct(names: seq<string>)
  {
    forall i, j | 0 <= i < j < |names| :: names[i] != names[j]
  }

  /** The names of the items, position by position. */
  function Names<T>(items: seq<T>, nameOf: T -> string): (names: seq<string>)
    ensures |names| == |items|
    ensures forall i | 0 <= i < |items| :: names[i] == nameOf(items[i])
  {
    seq(|items|, i requires 0 <= i < |items| => nameOf(items[i]))
  }

  /** No two items share a name. */
  ghost predicate DistinctNames<T>(items: seq<T>, nameOf: T -> string)
  {
    Distinct(Names(items, nameOf))
  }

  /** The entry order lists every key of `m` exactly once. */
  ghost predicate IsEntryOrder<T>(order: seq<string>, m: map<string, T>)
  {
    && Distinct(order)
    && |order| == |m|
    && (forall i | 0 <= i < |order| :: order[i] in m)
  }

  /** Distinct names, as many as there are keys and each of them a key, cover all the keys. */
  lemma {:induction false} EntryOrderCoversKeys(order: seq<string>, keys: set<string>)
    requires Distinct(order) && |order| == |keys|
    requires forall i | 0 <= i < |order| :: order[i] in keys
    ensures forall k | k in keys :: k in order
  {
    if order != [] {
      var rest := keys - {order[0]};
      forall i | 0 <= i < |order[1..]| ensures order[1..][i] in rest {
        assert order[1..][i] == order[i + 1] != order[0];
      }
      EntryOrderCoversKeys(order[1..], rest);
      forall k | k in keys ensures k in order {
        if k != order[0] {
          assert k in order[1..];
        }
      }
    }
  }

  /** The items of `m`, in the entry order `order`. */
  function ValuesInOrder<T>(m: map<string, T>, order: seq<string>): (values: seq<T>)
    requires forall k | k in order :: k in m
  {
    seq(|order|, i requires 0 <= i < |order| => m[order[i]])
  }

  /** The entry order once `x` has been removed; the other entries keep their relative order. */
  function Without(order: seq<string>, x: string): (r: seq<string>)
    ensures forall i | 0 <= i < |r| :: r[i] in order && r[i] != x
    ensures x !in order ==> r == order
    ensures Distinct(order) ==> Distinct(r)
    ensures Distinct(order) && x in order ==> |r| == |order| - 1
  {
    if order == [] then []
    else if order[0] == x then Without(order[1..], x)
    else
      var rest := Without(order[1..], x);
      assert Distinct(order) ==> order[0] !in order[1..];
      [order[0]] + rest
  }

  /** Storing an item under its own new name keeps the invariant and appends the name to the entry order. */
  lemma InsertKeepsInvariant<T>(m: map<string, T>, order: seq<string>, nameOf: T -> string, item: T)
    requires KeyedByName(m, nameOf) && IsEntryOrder(order, m)
    requires nameOf(item) !in m
    ensures KeyedByName(m[nameOf(item) := item], nameOf)
    ensures IsEntryOrder(order + [nameOf(item)], m[nameOf(item) := item])
  {
  }

  /** Removing a name keeps the invariant, with the name dropped from the entry order. */
  lemma RemoveKeepsInvariant<T>(m: map<string, T>, order: seq<string>, nameOf: T -> string, name: string)
    requires KeyedByName(m, nameOf) && IsEntryOrder(order, m)
    ensures KeyedByName(m - {name}, nameOf)
    ensures IsEntryOrder(Without(order, name), m - {name})
  {
    assert (m - {name}).Keys == m.Keys - {name};
    EntryOrderCoversKeys(order, m.Keys);
  }

  /**
   * Inserts the items one after the other, left to right, as Dictionary.Add does;
   * the first item whose name is already a key stops the build with DuplicateName.
   */
  function Build<T>(items: seq<T>, nameOf: T -> string): (r: Result<map<string, T>, Error>)
    ensures r.Success? ==> KeyedByName(r.value, nameOf) && |r.value| <= |items|
    decreases |items|
  {
    if items == [] then Success(map[])
    else
      var last := items[|items| - 1];
      match Build(items[..|items| - 1], nameOf)
      case Failure(e) => Failure(e)
      case Success(m) =>
        if nameOf(last) in m then Failure(DuplicateName(nameOf(last)))
        else Success(m[nameOf(last) := last])
  }

  /** Appending a name keeps the names distinct exactly when it is new. */
  lemma DistinctSnoc(names: seq<string>, x: string)
    ensures Distinct(names + [x]) <==> Distinct(names) && x !in names
  {
    var s := names + [x];
    if Distinct(s) {
      forall i, j | 0 <= i < j < |names| ensures names[i] != names[j] {
        assert s[i] == names[i] && s[j] == names[j];
      }
      forall i | 0 <= i < |names| ensures names[i] != x {
        assert s[i] == names[i] && s[|names|] == x;
      }
    }
  }

  /** Building succeeds exactly when the names are pairwise distinct. */
  lemma {:induction false} BuildSucceedsIffDistinct<T>(items: seq<T>, nameOf: T -> string)
    ensures Build(items, nameOf).Success? <==> DistinctNames(items, nameOf)
    decreases |items|
  {
    if items != [] {
      var n := |items| - 1;
      var front := items[..n];
      BuildSucceedsIffDistinct(front, nameOf);
      assert items[..n + 1] == items;
      BuildStep(items, nameOf, n);
      var name := nameOf(items[n]);
      DistinctSnoc(Names(front, nameOf), name);
      if Build(front, nameOf).Success? {
        BuildKeys(front, nameOf);
      }
    }
  }

  /** A successful build holds every item under its own name, one entry per item. */
  lemma {:induction false} BuildContents<T>(items: seq<T>, nameOf: T -> string)
    requires Build(items, nameOf).Success?
    ensures KeyedByName(Build(items, nameOf).value, nameOf)
    ensures |Build(items, nameOf).value| == |items|
    ensures forall i | 0 <= i < |items| ::
      nameOf(items[i]) in Build(items, nameOf).value && Build(items, nameOf).value[nameOf(items[i])] == items[i]
    decreases |items|
  {
    if items != [] {
      var n := |items| - 1;
      var front := items[..n];
      BuildContents(front, nameOf);
      var m0 := Build(front, nameOf).value;
      var m := Build(items, nameOf).value;
      var name := nameOf(items[n]);
      assert name !in m0 && m == m0[name := items[n]];
      forall i | 0 <= i < n ensures nameOf(items[i]) in m && m[nameOf(items[i])] == items[i] {
        assert front[i] == items[i];
      }
    }
  }

  /** The keys of a successful build are exactly the items' names. */
  lemma {:induction false} BuildKeys<T>(items: seq<T>, nameOf: T -> string)
    requires Build(items, nameOf).Success?
    ensures forall k :: k in Build(items, nameOf).value <==> k in Names(items, nameOf)
    decreases |items|
  {
    if items != [] {
      var n := |items| - 1;
      var front := items[..n];
      BuildKeys(front, nameOf);
      var m := Build(items, nameOf).value;
      var name := nameOf(items[n]);
      assert m == Build(front, nameOf).value[name := items[n]];
      assert Names(items, nameOf) == Names(front, nameOf) + [name];
      forall k ensures k in m <==> k in Names(items, nameOf) {
        assert k in Names(front, nameOf) + [name] <==> k in Names(front, nameOf) || k == name;
      }
    }
  }

  /** A successful build enumerates its items in input order, each exactly once. */
  lemma BuildEnumeratesInOrder<T>(items: seq<T>, nameOf: T -> string)
    requires Build(items, nameOf).Success?
    ensures IsEntryOrder(Names(items, nameOf), Build(items, nameOf).value)
    ensures ValuesInOrder(Build(items, nameOf).value, Names(items, nameOf)) == items
  {
    BuildContents(items, nameOf);
    BuildKeys(items, nameOf);
    BuildSucceedsIffDistinct(items, nameOf);
  }

  /** Building one more item: the prefix's dictionary grows by that item, or the build fails. */
  lemma BuildStep<T>(items: seq<T>, nameOf: T -> string, i: nat)
    requires i < |items|
    ensures Build(items[..i], nameOf).Failure? ==> Build(items[..i + 1], nameOf) == Build(items[..i], nameOf)
    ensures Build(items[..i], nameOf).Success? ==>
      var m := Build(items[..i], nameOf).value;
      Build(items[..i + 1], nameOf) ==
        if nameOf(items[i]) in m then Failure(DuplicateName(nameOf(items[i])))
        else Success(m[nameOf(items[i]) := items[i]])
    ensures Names(items[..i + 1], nameOf) == Names(items[..i], nameOf) + [nameOf(items[i])]
  {
    assert items[..i + 1][..i] == items[..i];
  }

  /** A build that fails on a prefix fails on the whole sequence, with the same error. */
  lemma {:induction false} BuildStopsAtFirstFailure<T>(items: seq<T>, nameOf: T -> string, n: nat)
    requires n <= |items|
    requires Build(items[..n], nameOf).Failure?
    ensures Build(items, nameOf) == Build(items[..n], nameOf)
    decreases |items| - n
  {
    if n < |items| {
      assert items[..n + 1][..n] == items[..n];
      BuildStopsAtFirstFailure(items, nameOf, n + 1);
    } else {
      assert items[..n] == items;
    }
  }

  /** A failed build names a name that two of the items share. */
  lemma {:induction false} BuildFailureNamesDuplicate<T>(items: seq<T>, nameOf: T -> string)
    requires Build(items, nameOf).Failure?
    ensures exists i, j :: 0 <= i < j < |items| && nameOf(items[i]) == nameOf(items[j])
                           == Build(items, nameOf).error.name
    decreases |items|
  {
    var n := |items| - 1;
    var front := items[..n];
    match Build(front, nameOf)
    case Failure(_) =>
      BuildFailureNamesDuplicate(front, nameOf);
      var i, j :| 0 <= i < j < |front| && nameOf(front[i]) == nameOf(front[j])
                  == Build(front, nameOf).error.name;
      assert nameOf(items[i]) == nameOf(items[j]);
    case Success(m) =>
      BuildKeys(front, nameOf);
      var i :| 0 <= i < n && Names(front, nameOf)[i] == nameOf(items[n]);
      assert nameOf(items[i]) == nameOf(items[n]);
  }
}
