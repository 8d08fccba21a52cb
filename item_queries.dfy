// What the in-memory store's list operations compute, as functions over the
// stored sequence: List.FindIndex, Enumerable.Where and
// Enumerable.SingleOrDefault, each specialised to the predicate `item.Id == id`
// that the repository passes them. The lemmas say what a lookup means in
// terms of which slots hold the id.

module ItemQueries {
  import opened Wrappers
  import opened Models

  /** Some slot holds an item with this id. */
  predicate HasId(s: seq<Item>, id: Guid)
  {
    exists k :: 0 <= k < |s| && s[k].id == id
  }

  /** Two different slots hold items with this id. */
  predicate Duplicated(s: seq<Item>, id: Guid)
  {
    exists j, k :: 0 <= j < k < |s| && s[j].id == id && s[k].id == id
  }

  /** No two slots share an id. The store does not enforce this; its callers must. */
  predicate DistinctIds(s: seq<Item>)
  {
    forall j, k :: 0 <= j < k < |s| ==> s[j].id != s[k].id
  }

  /** List.FindIndex(item => item.Id == id): the first slot holding the id, or -1. */
  function FirstIndexOf(s: seq<Item>, id: Guid): (i: int)
    ensures -1 <= i < |s|
    ensures i == -1 <==> !HasId(s, id)
    ensures 0 <= i ==> s[i].id == id && forall k :: 0 <= k < i ==> s[k].id != id
  {
    if s == [] then -1
    else if s[0].id == id then 0
    else
      var j := FirstIndexOf(s[1..], id);
      assert forall k :: 1 <= k < |s| ==> s[k] == s[1..][k - 1];
      if j == -1 then -1 else j + 1
  }

  /** Enumerable.Where(item => item.Id == id): the matching items, in list order. */
  function Where(s: seq<Item>, id: Guid): (r: seq<Item>)
    ensures |r| <= |s|
    ensures forall k :: 0 <= k < |r| ==> r[k].id == id
  {
    if s == [] then []
    else (if s[0].id == id then [s[0]] else []) + Where(s[1..], id)
  }

  /** Where keeps exactly the stored items that have the id. */
  lemma {:induction false} WhereIsFilter(s: seq<Item>, id: Guid)
    ensures forall x :: x in Where(s, id) <==> x in s && x.id == id
  {
    if s != [] {
      WhereIsFilter(s[1..], id);
      assert forall x :: x in s <==> x == s[0] || x in s[1..];
    }
  }

  /** Enumerable.SingleOrDefault: the only element, null for none, and an
      InvalidOperationException for more than one. */
  function SingleOrDefault(s: seq<Item>): (r: Result<Option<Item>, Fault>)
    ensures r == Success(None) <==> |s| == 0
    ensures r == Failure(MoreThanOneMatch) <==> |s| >= 2
    ensures forall x :: r == Success(Some(x)) <==> s == [x]
  {
    if |s| == 0 then Success(None)
    else if |s| == 1 then Success(Some(s[0]))
    else Failure(MoreThanOneMatch)
  }

  /** What `items.Where(item => item.Id == id).SingleOrDefault()` evaluates to. */
  function Lookup(s: seq<Item>, id: Guid): (r: Result<Option<Item>, Fault>)
    ensures forall x :: r == Success(Some(x)) ==> x in s && x.id == id
  {
    WhereIsFilter(s, id);
    SingleOrDefault(Where(s, id))
  }

  /** Occurrences of an id in a non-empty list, split into the head and the tail. */
  lemma TailFacts(s: seq<Item>, id: Guid)
    requires s != []
    ensures HasId(s, id) <==> s[0].id == id || HasId(s[1..], id)
    ensures Duplicated(s, id) <==> (s[0].id == id && HasId(s[1..], id)) || Duplicated(s[1..], id)
  {
  }

  /** How many items Where keeps, and which one comes first. */
  lemma {:induction false} WhereFacts(s: seq<Item>, id: Guid)
    ensures |Where(s, id)| == 0 <==> !HasId(s, id)
    ensures |Where(s, id)| >= 2 <==> Duplicated(s, id)
    ensures HasId(s, id) ==> Where(s, id)[0] == s[FirstIndexOf(s, id)]
  {
    if s != [] {
      var t := s[1..];
      WhereFacts(t, id);
      TailFacts(s, id);
      if s[0].id != id && HasId(t, id) {
        assert t[FirstIndexOf(t, id)] == s[FirstIndexOf(t, id) + 1];
      }
    }
  }

  /** GetItem's lookup is null exactly when no slot holds the id, throws exactly
      when two slots do, and otherwise yields the one item that has the id. */
  lemma LookupMeaning(s: seq<Item>, id: Guid)
    ensures Lookup(s, id) == Success(None) <==> !HasId(s, id)
    ensures Lookup(s, id) == Failure(MoreThanOneMatch) <==> Duplicated(s, id)
    ensures HasId(s, id) && !Duplicated(s, id) ==>
              Lookup(s, id) == Success(Some(s[FirstIndexOf(s, id)]))
  {
    WhereFacts(s, id);
  }

  /** An id that is present and not duplicated sits in exactly one slot, the
      one FindIndex finds. */
  lemma SoleSlot(s: seq<Item>, id: Guid)
    requires HasId(s, id) && !Duplicated(s, id)
    ensures forall k :: 0 <= k < |s| && s[k].id == id ==> k == FirstIndexOf(s, id)
  {
  }

  /** Conversely, an id held by one slot alone is found there. */
  lemma OnlySlot(s: seq<Item>, id: Guid, i: int)
    requires 0 <= i < |s| && s[i].id == id
    requires forall k :: 0 <= k < |s| && k != i ==> s[k].id != id
    ensures Lookup(s, id) == Success(Some(s[i]))
  {
    assert HasId(s, id);
    assert FirstIndexOf(s, id) == i;
    assert !Duplicated(s, id);
    LookupMeaning(s, id);
  }

  /** When the lookup yields an item, it is the one and only slot with that id. */
  lemma LookupFoundIsUnique(s: seq<Item>, id: Guid, x: Item)
    requires Lookup(s, id) == Success(Some(x))
    ensures x.id == id && x in s
    ensures forall k :: 0 <= k < |s| && s[k].id == id ==> s[k] == x && k == FirstIndexOf(s, id)
  {
    LookupMeaning(s, id);
    SoleSlot(s, id);
  }

  /** With distinct ids the lookup never throws. */
  lemma DistinctLookupNeverFails(s: seq<Item>, id: Guid)
    requires DistinctIds(s)
    ensures Lookup(s, id).Success?
  {
    LookupMeaning(s, id);
  }
}
