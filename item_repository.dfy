/** ItemRepository: an in-memory store keyed by id, with a counter that
    supplies the id of an item saved without one. ItemRepository.java's field `map`
    is `entries` here (`map` is a Dafny keyword); Java's Long is an int. */
module Items {
  import opened Wrappers

  /** An item entity; an absent id is Java's null. */
  datatype Item = Item(id: Option<int>, name: string)

  class ItemRepository {
    var entries: map<int, Item>
    var counter: int

    /** Every stored item carries the key it is stored under, and the counter
        has not gone below its starting value. */
    ghost predicate Valid()
      reads this
    {
      counter >= 1 && forall k :: k in entries ==> entries[k].id == Some(k)
    }

    constructor ()
      ensures Valid()
      ensures entries == map[] && counter == 1
    {
      entries := map[];
      counter := 1;
    }

    /** save / setData: an item with an id is stored under it; an item
        without one gets the counter as its id, and the counter moves on. */
    method Save(entity: Item) returns (saved: Item)
      requires Valid()
      modifies this
      ensures Valid()
      ensures counter >= old(counter)
      ensures entity.id.Some? ==>
                saved == entity && entries == old(entries)[entity.id.value := entity]
                && counter == old(counter)
      ensures entity.id.None? ==>
                saved == entity.(id := Some(old(counter)))
                && entries == old(entries)[old(counter) := saved]
                && counter == old(counter) + 1
      ensures saved.name == entity.name && saved.id.Some?
      ensures saved.id.value in entries && entries[saved.id.value] == saved
      ensures forall k :: k in old(entries) && k != saved.id.value ==> k in entries && entries[k] == old(entries)[k]
    {
      if entity.id.Some? {
        entries := entries[entity.id.value := entity];
        saved := entity;
      } else {
        saved := entity.(id := Some(counter));
        entries := entries[counter := saved];
        counter := counter + 1;
      }
    }

    /** findById: the stored item, or empty for an absent key. */
    method FindById(id: int) returns (r: Option<Item>)
      ensures r.Some? <==> id in entries
      ensures r.Some? ==> r.value == entries[id]
    {
      if id in entries {
        r := Some(entries[id]);
      } else {
        r := None;
      }
    }

    /** The item is stored under its own id, and that id is not among keys. */
    ghost predicate IsStoredOutside(item: Item, keys: set<int>)
      reads this
    {
      item.id.Some? && item.id.value in entries && entries[item.id.value] == item && item.id.value !in keys
    }

    /** findAll: the stored items, one per key, in no particular order. */
    method FindAll() returns (r: seq<Item>)
      requires Valid()
      ensures |r| == |entries|
      ensures forall i :: 0 <= i < |r| ==> r[i] in entries.Values
      ensures forall k :: k in entries ==> entries[k] in r
      ensures forall i, j :: 0 <= i < j < |r| ==> r[i] != r[j]
    {
      r := [];
      var remaining := entries.Keys;
      while remaining != {}
        invariant remaining <= entries.Keys
        invariant |r| + |remaining| == |entries.Keys|
        invariant forall i :: 0 <= i < |r| ==> IsStoredOutside(r[i], remaining)
        invariant forall k :: k in entries && k !in remaining ==> entries[k] in r
        invariant forall i, j :: 0 <= i < j < |r| ==> r[i] != r[j]
        decreases |remaining|
      {
        NonEmptyHasKey(remaining);
        var k :| k in remaining;
        var item := entries[k];
        assert IsStoredOutside(item, remaining - {k});
        r := r + [item];
        remaining := remaining - {k};
      }
    }
  }

  lemma NonEmptyHasKey(keys: set<int>)
    requires keys != {}
    ensures exists k :: k in keys
  {
    if !exists k :: k in keys {
      assert false;
    }
  }

  /** After save, findById of the saved id returns the saved item. */
  method SaveThenFindById(repository: ItemRepository, entity: Item)
    returns (saved: Item, found: Option<Item>)
    requires repository.Valid()
    modifies repository
    ensures repository.Valid()
    ensures found == Some(saved)
    ensures entity.id.Some? ==> saved == entity
  {
    saved := repository.Save(entity);
    found := repository.FindById(saved.id.value);
  }
}
