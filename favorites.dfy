/**
 * The favorites store (src/utils/favorites.ts): the keys of the components a
 * visitor saved, kept as one JSON array under the storage key
 * "savedComponents". Every operation re-reads that entry; every write is
 * followed by a `favorites:updated` event whose detail is the list written.
 */
module Favorites {

  const UpdatedEvent: string := "favorites:updated"

  /** A dispatched `CustomEvent`: its type and its `detail`. */
  datatype Broadcast = Broadcast(kind: string, detail: seq<string>)

  /** An element of a parsed JSON array: a string, or any other JSON value. */
  datatype JsonItem = JsonString(s: string) | OtherJson

  /**
   * What `JSON.parse` makes of the stored entry: nothing stored (or an empty
   * string), text that does not parse, a value that is not an array, or an
   * array.
   */
  datatype Stored = Missing | Unparsable | NotAnArray | JsonArray(items: seq<JsonItem>)

  /** Whether `setItem` and `dispatchEvent` succeed on a write; a failure of either is swallowed. */
  datatype Platform = Platform(setItemOk: bool, dispatchOk: bool)

  /** The result of `toggleSavedComponent`. */
  datatype Toggled = Toggled(saved: bool, list: seq<string>)

  /** `parsed.filter(x => typeof x === 'string')`. */
  function StringItems(items: seq<JsonItem>): (r: seq<string>)
    ensures |r| <= |items|
  {
    if items == [] then []
    else if items[0].JsonString? then [items[0].s] + StringItems(items[1..])
    else StringItems(items[1..])
  }

  /** The filter keeps exactly the strings of the array. */
  lemma {:induction false} StringItemsMembership(items: seq<JsonItem>)
    ensures forall k :: k in StringItems(items) <==> JsonString(k) in items
  {
    if items != [] {
      StringItemsMembership(items[1..]);
      assert items == [items[0]] + items[1..];
    }
  }

  /** `read()`: the saved keys; anything but an array reads as the empty list. */
  function Read(stored: Stored): (r: seq<string>)
    ensures !stored.JsonArray? ==> r == []
    ensures forall k :: k in r <==> stored.JsonArray? && JsonString(k) in stored.items
  {
    match stored
    case JsonArray(items) => StringItemsMembership(items); StringItems(items)
    case _ => []
  }

  /** What `setItem(STORAGE_KEY, JSON.stringify(list))` leaves in storage. */
  function Serialize(list: seq<string>): (r: Stored)
    ensures r.JsonArray? && |r.items| == |list|
    ensures forall i :: 0 <= i < |list| ==> r.items[i] == JsonString(list[i])
  {
    JsonArray(seq(|list|, i requires 0 <= i < |list| => JsonString(list[i])))
  }

  /** `list.filter(item => item !== key)`. */
  function Without(list: seq<string>, key: string): (r: seq<string>)
    ensures |r| <= |list|
  {
    if list == [] then []
    else if list[0] == key then Without(list[1..], key)
    else [list[0]] + Without(list[1..], key)
  }

  /** The list `addSavedComponent` returns: unchanged when the key is present, else the key appended. */
  function Added(list: seq<string>, key: string): (r: seq<string>)
    ensures |r| == if key in list then |list| else |list| + 1
    ensures r[..|list|] == list
    ensures key in r
  {
    if key in list then list else list + [key]
  }

  /** The result `toggleSavedComponent` returns. */
  function Toggle(list: seq<string>, key: string): (t: Toggled)
    ensures t.saved <==> key !in list
    ensures key in t.list <==> t.saved
    ensures forall k :: k != key ==> (k in t.list <==> k in list)
  {
    WithoutMembership(list, key);
    if key in list then Toggled(false, Without(list, key)) else Toggled(true, list + [key])
  }

  /** No key occurs twice. */
  predicate NoDuplicates(list: seq<string>) {
    forall i, j :: 0 <= i < j < |list| ==> list[i] != list[j]
  }

  /**
   * The favorites of one browser context: the storage entry and the log of
   * `favorites:updated` events dispatched so far, each with its detail.
   */
  class FavoritesStore {
    var storage: Stored
    var events: seq<Broadcast>

    constructor(initial: Stored)
      ensures storage == initial && events == []
    {
      storage := initial;
      events := [];
    }

    /** `write(list)`: the event goes out only after a successful `setItem`. */
    method Write(list: seq<string>, platform: Platform)
      modifies this
      ensures storage == if platform.setItemOk then Serialize(list) else old(storage)
      ensures events == if platform.setItemOk && platform.dispatchOk then old(events) + [Broadcast(UpdatedEvent, list)] else old(events)
    {
      if platform.setItemOk {
        storage := Serialize(list);
        if platform.dispatchOk {
          events := events + [Broadcast(UpdatedEvent, list)];
        }
      }
    }

    /** `getSavedComponents()`. */
    method GetSavedComponents() returns (list: seq<string>)
      ensures list == Read(storage)
    {
      list := Read(storage);
    }

    /** `isComponentSaved(key)`. */
    method IsComponentSaved(key: string) returns (saved: bool)
      ensures saved <==> key in Read(storage)
    {
      var list := Read(storage);
      saved := key in list;
    }

    /** `addSavedComponent(key)`: appends an absent key; a present key writes nothing. */
    method AddSavedComponent(key: string, platform: Platform) returns (list: seq<string>)
      modifies this
      ensures list == Added(old(Read(storage)), key)
      ensures key in old(Read(storage)) ==> storage == old(storage) && events == old(events)
      ensures key !in old(Read(storage)) ==>
        && storage == (if platform.setItemOk then Serialize(list) else old(storage))
        && events == (if platform.setItemOk && platform.dispatchOk then old(events) + [Broadcast(UpdatedEvent, list)] else old(events))
    {
      list := Read(storage);
      if key !in list {
        var next := list + [key];
        Write(next, platform);
        list := next;
      }
    }

    /** `removeSavedComponent(key)`: always writes, even when the key was absent. */
    method RemoveSavedComponent(key: string, platform: Platform) returns (list: seq<string>)
      modifies this
      ensures list == Without(old(Read(storage)), key)
      ensures storage == if platform.setItemOk then Serialize(list) else old(storage)
      ensures events == if platform.setItemOk && platform.dispatchOk then old(events) + [Broadcast(UpdatedEvent, list)] else old(events)
    {
      var current := Read(storage);
      list := Without(current, key);
      Write(list, platform);
    }

    /** `toggleSavedComponent(key)`: removes a present key, appends an absent one, and writes. */
    method ToggleSavedComponent(key: string, platform: Platform) returns (result: Toggled)
      modifies this
      ensures result == Toggle(old(Read(storage)), key)
      ensures storage == if platform.setItemOk then Serialize(result.list) else old(storage)
      ensures events == if platform.setItemOk && platform.dispatchOk then old(events) + [Broadcast(UpdatedEvent, result.list)] else old(events)
    {
      var list := Read(storage);
      if key in list {
        var next := Without(list, key);
        Write(next, platform);
        return Toggled(false, next);
      }
      var next := list + [key];
      Write(next, platform);
      result := Toggled(true, next);
    }
  }

  // ---------------------------------------------------------------------
  // Reading and writing storage.

  /** Reading after a successful write gives back the list written: a reload sees every saved change. */
  lemma {:induction false} ReadSerialize(list: seq<string>)
    ensures Read(Serialize(list)) == list
  {
    if list != [] {
      ReadSerialize(list[1..]);
      assert Serialize(list).items[1..] == Serialize(list[1..]).items;
    }
  }

  /** Reading never fails: a missing, unparsable or non-array entry reads as no favorites. */
  lemma ReadOfNonArray(stored: Stored)
    requires !stored.JsonArray?
    ensures Read(stored) == []
  {
  }

  /** An array keeps its string elements in order and drops every other value. */
  lemma {:induction false} ReadKeepsStringsInOrder(a: seq<JsonItem>, b: seq<JsonItem>)
    ensures StringItems(a + b) == StringItems(a) + StringItems(b)
  {
    if a == [] {
      assert a + b == b;
    } else {
      ReadKeepsStringsInOrder(a[1..], b);
      assert (a + b)[1..] == a[1..] + b;
      var head := if a[0].JsonString? then [a[0].s] else [];
      calc {
        StringItems(a + b);
        head + StringItems(a[1..] + b);
        head + (StringItems(a[1..]) + StringItems(b));
        (head + StringItems(a[1..])) + StringItems(b);
        StringItems(a) + StringItems(b);
      }
    }
  }

  /** A leading string is kept and a leading value of another type is dropped. */
  lemma StringItemsOfCons(x: string, b: seq<JsonItem>)
    ensures StringItems([JsonString(x)] + b) == [x] + StringItems(b)
    ensures StringItems([OtherJson] + b) == StringItems(b)
  {
    assert ([JsonString(x)] + b)[1..] == b;
    assert ([OtherJson] + b)[1..] == b;
  }

  // ---------------------------------------------------------------------
  // Removing a key.

  /** Removing a key keeps every other key, in its order, and drops every copy of the key. */
  lemma {:induction false} WithoutContents(list: seq<string>, key: string)
    ensures multiset(Without(list, key)) == multiset(list)[key := 0]
  {
    if list != [] {
      WithoutContents(list[1..], key);
      assert list == [list[0]] + list[1..];
    }
  }

  /** Removing distributes over concatenation, so the relative order of kept keys is the original one. */
  lemma {:induction false} WithoutConcat(a: seq<string>, b: seq<string>, key: string)
    ensures Without(a + b, key) == Without(a, key) + Without(b, key)
  {
    if a != [] {
      WithoutConcat(a[1..], b, key);
      assert (a + b)[1..] == a[1..] + b;
    } else {
      assert a + b == b;
    }
  }

  /** Removing an absent key changes nothing. */
  lemma {:induction false} WithoutAbsent(list: seq<string>, key: string)
    requires key !in list
    ensures Without(list, key) == list
  {
    if list != [] {
      WithoutAbsent(list[1..], key);
    }
  }

  /** Membership after a removal: exactly the other keys. */
  lemma WithoutMembership(list: seq<string>, key: string)
    ensures forall k :: k in Without(list, key) <==> k in list && k != key
  {
    WithoutContents(list, key);
    forall k
      ensures k in Without(list, key) <==> k in list && k != key
    {
      assert k in Without(list, key) <==> k in multiset(Without(list, key));
      assert k in list <==> k in multiset(list);
    }
  }

  // ---------------------------------------------------------------------
  // The list operations keep a duplicate-free list duplicate-free.

  lemma AddedKeepsNoDuplicates(list: seq<string>, key: string)
    requires NoDuplicates(list)
    ensures NoDuplicates(Added(list, key))
  {
  }

  lemma {:induction false} WithoutKeepsNoDuplicates(list: seq<string>, key: string)
    requires NoDuplicates(list)
    ensures NoDuplicates(Without(list, key))
  {
    if list != [] {
      WithoutKeepsNoDuplicates(list[1..], key);
      if list[0] != key {
        WithoutMembership(list[1..], key);
        assert list[0] !in list[1..];
      }
    }
  }

  lemma ToggleKeepsNoDuplicates(list: seq<string>, key: string)
    requires NoDuplicates(list)
    ensures NoDuplicates(Toggle(list, key).list)
  {
    if key in list {
      WithoutKeepsNoDuplicates(list, key);
    }
  }

  // ---------------------------------------------------------------------
  // Adding and toggling.

  /** Adding twice is adding once. */
  lemma AddIdempotent(list: seq<string>, key: string)
    ensures Added(Added(list, key), key) == Added(list, key)
  {
  }

  /**
   * Toggling twice from a list without the key gives back the list; from a
   * list with the key it moves the key to the end.
   */
  lemma ToggleTwice(list: seq<string>, key: string)
    ensures key !in list ==> Toggle(Toggle(list, key).list, key) == Toggled(false, list)
    ensures key in list ==> Toggle(Toggle(list, key).list, key) == Toggled(true, Without(list, key) + [key])
  {
    if key !in list {
      WithoutConcat(list, [key], key);
      WithoutAbsent(list, key);
    } else {
      WithoutMembership(list, key);
    }
  }

  // ---------------------------------------------------------------------
  // Scenarios on one store.

  /** Adding the same key twice saves it once and broadcasts once. */
  method AddTwice(key: string) returns (list: seq<string>, broadcasts: nat)
    ensures list == [key] && broadcasts == 1
  {
    var store := new FavoritesStore(Missing);
    var ok := Platform(true, true);
    var first := store.AddSavedComponent(key, ok);
    ReadSerialize(first);
    list := store.AddSavedComponent(key, ok);
    broadcasts := |store.events|;
  }

  /** Toggling a key on an empty store saves it, and toggling again empties the store. */
  method ToggleOnEmptyStore(key: string) returns (first: Toggled, second: Toggled, reloaded: seq<string>)
    ensures first == Toggled(true, [key])
    ensures second == Toggled(false, [])
    ensures reloaded == []
  {
    var store := new FavoritesStore(Missing);
    var ok := Platform(true, true);
    first := store.ToggleSavedComponent(key, ok);
    ReadSerialize(first.list);
    second := store.ToggleSavedComponent(key, ok);
    ReadSerialize(second.list);
    reloaded := store.GetSavedComponents();
  }

  /**
   * Whatever the stored entry, a reload after a successful add, remove or
   * toggle sees exactly the list that operation returned.
   */
  method ReloadSeesEveryChange(initial: Stored, key: string)
    returns (added: seq<string>, afterAdd: seq<string>,
             removed: seq<string>, afterRemove: seq<string>,
             toggled: Toggled, afterToggle: seq<string>)
    ensures added == Added(Read(initial), key) && afterAdd == added
    ensures removed == Without(Read(initial), key) && afterRemove == removed
    ensures toggled == Toggle(Read(initial), key) && afterToggle == toggled.list
  {
    var ok := Platform(true, true);
    var adding := new FavoritesStore(initial);
    added := adding.AddSavedComponent(key, ok);
    ReadSerialize(added);
    afterAdd := adding.GetSavedComponents();
    var removing := new FavoritesStore(initial);
    removed := removing.RemoveSavedComponent(key, ok);
    ReadSerialize(removed);
    afterRemove := removing.GetSavedComponents();
    var toggling := new FavoritesStore(initial);
    toggled := toggling.ToggleSavedComponent(key, ok);
    ReadSerialize(toggled.list);
    afterToggle := toggling.GetSavedComponents();
  }
}
