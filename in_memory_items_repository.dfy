// InMemoryItemsRepository: a list of items kept in process memory and searched
// linearly by id. The list is a sequence field that the mutating methods
// reassign; Guid.NewGuid() and DateTimeOffset.UtcNow in the seed list are
// constructor parameters.

module Repository {
  import opened Wrappers
  import opened Models
  import opened ItemQueries

  class InMemoryItemsRepository {
    /** The backing List<Item>, in insertion order. */
    var items: seq<Item>

    /** A fresh store holds the three seed items, in this order. Their
        descriptions are never set, so they are null. */
    constructor (potionId: Guid, swordId: Guid, shieldId: Guid,
                 potionDate: Instant, swordDate: Instant, shieldDate: Instant)
      ensures items == [
        Item(potionId, "Potion", None, 9, potionDate),
        Item(swordId, "Iron Swod", None, 20, swordDate),
        Item(shieldId, "Bronze Shield", None, 18, shieldDate)]
      ensures potionId != swordId && swordId != shieldId && potionId != shieldId ==>
                DistinctIds(items)
    {
      items := [
        Item(potionId, "Potion", None, 9, potionDate),
        Item(swordId, "Iron Swod", None, 20, swordDate),
        Item(shieldId, "Bronze Shield", None, 18, shieldDate)];
    }

    /** The stored items, in insertion order; nothing changes. */
    method GetItems() returns (r: seq<Item>)
      ensures r == items
    {
      r := items;
    }

    /** `items.Where(item => item.Id == id).SingleOrDefault()`, enumerated the
        way SingleOrDefault does: it stops at the second match. */
    method GetItem(id: Guid) returns (r: Result<Option<Item>, Fault>)
      ensures r == Lookup(items, id)
    {
      var matches: seq<Item> := [];
      var i := 0;
      while i < |items| && |matches| < 2
        invariant 0 <= i <= |items|
        invariant |matches| <= 2
        invariant Where(items, id) == matches + Where(items[i..], id)
      {
        ScanStep(items, id, i, matches);
        if items[i].id == id {
          matches := matches + [items[i]];
        }
        i := i + 1;
      }
      ScanDone(items, id, i, matches);
      if |matches| == 0 {
        r := Success(None);
      } else if |matches| == 1 {
        r := Success(Some(matches[0]));
      } else {
        r := Failure(MoreThanOneMatch);
      }
    }

    /** List.Add: the item goes to the end; no check for an existing id. */
    method CreateItem(item: Item)
      modifies this
      ensures items == old(items) + [item]
    {
      items := items + [item];
    }

    /** List.FindIndex(item => item.Id == id), a linear search from the front. */
    method FindIndex(id: Guid) returns (index: int)
      ensures index == FirstIndexOf(items, id)
    {
      index := 0;
      while index < |items| && items[index].id != id
        invariant 0 <= index <= |items|
        invariant forall k :: 0 <= k < index ==> items[k].id != id
      {
        index := index + 1;
      }
      if index == |items| {
        index := -1;
      }
    }

    /** Overwrites the first slot holding newItem's id. With no such slot,
        FindIndex gives -1 and the indexer throws: the caller must rule that out. */
    method UpdateItem(newItem: Item)
      requires HasId(items, newItem.id)
      modifies this
      ensures items == old(items)[FirstIndexOf(old(items), newItem.id) := newItem]
    {
      var index := FindIndex(newItem.id);
      items := items[index := newItem];
    }

    /** List.RemoveAt on the first slot holding the id. With no such slot,
        FindIndex gives -1 and RemoveAt throws: the caller must rule that out. */
    method RemoveItem(id: Guid)
      requires HasId(items, id)
      modifies this
      ensures var i := FirstIndexOf(old(items), id);
              items == old(items)[..i] + old(items)[i + 1..]
    {
      var index := FindIndex(id);
      items := items[..index] + items[index + 1..];
    }
  }

  /** One step of GetItem's scan: slot i's match, if any, joins the matches
      seen so far, and the rest come from slot i + 1 on. */
  lemma ScanStep(s: seq<Item>, id: Guid, i: int, matches: seq<Item>)
    requires 0 <= i < |s|
    requires Where(s, id) == matches + Where(s[i..], id)
    ensures Where(s, id) == (matches + if s[i].id == id then [s[i]] else []) + Where(s[i + 1..], id)
  {
    assert s[i..][1..] == s[i + 1..];
  }

  /** When GetItem's scan stops, at the end or at a second match, the matches
      it saw decide SingleOrDefault as the whole list would. */
  lemma ScanDone(s: seq<Item>, id: Guid, i: int, matches: seq<Item>)
    requires 0 <= i <= |s| && |matches| <= 2
    requires Where(s, id) == matches + Where(s[i..], id)
    requires i == |s| || |matches| == 2
    ensures Lookup(s, id) == SingleOrDefault(matches)
  {
    if i == |s| {
      assert s[i..] == [];
    }
  }

  /** Appending keeps ids distinct exactly when the new id is not stored yet. */
  lemma CreateKeepsDistinctIds(s: seq<Item>, item: Item)
    requires DistinctIds(s)
    ensures DistinctIds(s + [item]) <==> !HasId(s, item.id)
  {
    var t := s + [item];
    if HasId(s, item.id) {
      var k :| 0 <= k < |s| && s[k].id == item.id;
      assert t[k].id == t[|s|].id;
    }
  }

  /** Overwriting the first slot with the same id keeps ids distinct. */
  lemma UpdateKeepsDistinctIds(s: seq<Item>, item: Item)
    requires DistinctIds(s) && HasId(s, item.id)
    ensures DistinctIds(s[FirstIndexOf(s, item.id) := item])
  {
  }

  /** Slot k of the list without slot i is slot k, or k + 1 from i on, of the original. */
  lemma RemovedSlots(s: seq<Item>, i: int, t: seq<Item>)
    requires 0 <= i < |s| && t == s[..i] + s[i + 1..]
    ensures |t| == |s| - 1
    ensures forall k :: 0 <= k < i ==> t[k] == s[k]
    ensures forall k :: i <= k < |t| ==> t[k] == s[k + 1]
  {
  }

  /** Removing a slot keeps ids distinct. */
  lemma RemoveKeepsDistinctIds(s: seq<Item>, id: Guid)
    requires DistinctIds(s) && HasId(s, id)
    ensures var i := FirstIndexOf(s, id);
            DistinctIds(s[..i] + s[i + 1..])
  {
    var i := FirstIndexOf(s, id);
    var t := s[..i] + s[i + 1..];
    RemovedSlots(s, i, t);
    forall j, k | 0 <= j < k < |t|
      ensures t[j].id != t[k].id
    {
      var j' := if j < i then j else j + 1;
      var k' := if k < i then k else k + 1;
      assert t[j] == s[j'] && t[k] == s[k'];
      assert 0 <= j' < k' < |s|;
    }
  }

  /** After appending an item whose id was absent, a lookup of that id finds it. */
  lemma CreateThenLookup(s: seq<Item>, item: Item)
    requires !HasId(s, item.id)
    ensures Lookup(s + [item], item.id) == Success(Some(item))
  {
    var t := s + [item];
    forall k | 0 <= k < |t| && k != |s|
      ensures t[k].id != item.id
    {
      assert t[k] == s[k];
    }
    OnlySlot(t, item.id, |s|);
  }

  /** After overwriting the only slot with an id, a lookup of that id finds the new item. */
  lemma UpdateThenLookup(s: seq<Item>, item: Item)
    requires HasId(s, item.id) && !Duplicated(s, item.id)
    ensures Lookup(s[FirstIndexOf(s, item.id) := item], item.id) == Success(Some(item))
  {
    var i := FirstIndexOf(s, item.id);
    var t := s[i := item];
    SoleSlot(s, item.id);
    forall k | 0 <= k < |t| && k != i
      ensures t[k].id != item.id
    {
      assert t[k] == s[k];
    }
    OnlySlot(t, item.id, i);
  }

  /** After removing the only slot with an id, a lookup of that id finds nothing. */
  lemma RemoveThenLookup(s: seq<Item>, id: Guid)
    requires HasId(s, id) && !Duplicated(s, id)
    ensures var i := FirstIndexOf(s, id);
            Lookup(s[..i] + s[i + 1..], id) == Success(None)
  {
    var i := FirstIndexOf(s, id);
    var t := s[..i] + s[i + 1..];
    forall k | 0 <= k < |t|
      ensures t[k].id != id
    {
      if k >= i {
        assert t[k] == s[k + 1];
        assert !(s[i].id == id && s[k + 1].id == id);
      }
    }
    LookupMeaning(t, id);
  }
}
