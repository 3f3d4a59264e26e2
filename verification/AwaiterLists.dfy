/** Lists of waiting coroutines, as the channel and the mutex keep them. */
module AwaiterLists {
  import opened Strings

  /** Awaiters are told apart by number. */
  type Id = nat

  /** list::remove: every occurrence goes. */
  function Remove(ids: seq<Id>, id: Id): seq<Id> {
    if ids == [] then [] else (if ids[0] == id then [] else [ids[0]]) + Remove(ids[1..], id)
  }

  function Without(ids: seq<Id>, removed: set<Id>): seq<Id> {
    if ids == [] then []
    else (if ids[0] in removed then [] else [ids[0]]) + Without(ids[1..], removed)
  }

  lemma Assoc<T>(a: seq<T>, b: seq<T>, c: seq<T>)
    ensures a + (b + c) == (a + b) + c
  {
  }

  lemma {:induction false} WithoutSnoc(ids: seq<Id>, id: Id, removed: set<Id>)
    ensures Without(ids + [id], removed) == Without(ids, removed) + (if id in removed then [] else [id])
  {
    if ids == [] {
      assert [id][1..] == [];
    } else {
      assert (ids + [id])[1..] == ids[1..] + [id];
      WithoutSnoc(ids[1..], id, removed);
      Assoc(if ids[0] in removed then [] else [ids[0]], Without(ids[1..], removed), if id in removed then [] else [id]);
    }
  }

  lemma {:induction false} WithoutMore(ids: seq<Id>, removed: set<Id>, id: Id)
    ensures Without(ids, removed + {id}) == Remove(Without(ids, removed), id)
  {
    if ids != [] {
      WithoutMore(ids[1..], removed, id);
      var rest := Without(ids[1..], removed);
      assert [] + rest == rest;
      assert ids[0] !in removed ==> ([ids[0]] + rest)[1..] == rest;
    }
  }

  lemma {:induction false} RemoveAppend(a: seq<Id>, b: seq<Id>, id: Id)
    ensures Remove(a + b, id) == Remove(a, id) + Remove(b, id)
  {
    if a == [] {
      assert a + b == b;
    } else {
      assert (a + b)[1..] == a[1..] + b;
      RemoveAppend(a[1..], b, id);
    }
  }

  lemma {:induction false} RemoveAbsent(a: seq<Id>, id: Id)
    requires id !in a
    ensures Remove(a, id) == a
  {
    if a != [] {
      RemoveAbsent(a[1..], id);
    }
  }

  /** One occurrence of `id` has left the list; the others stay, in order. */
  ghost predicate LostOne(before: seq<Id>, after: seq<Id>, id: Id) {
    exists k :: 0 <= k < |before| && before[k] == id && after == before[..k] + before[k + 1..]
  }

  lemma RemoveBetween(front: seq<Id>, id: Id, back: seq<Id>)
    requires id !in front && id !in back
    ensures Remove(front + ([id] + back), id) == front + back
  {
    RemoveAppend(front, [id] + back, id);
    RemoveAbsent(front, id);
    RemoveAbsent(back, id);
    assert ([id] + back)[1..] == back && [] + back == back;
  }

  lemma OnlyThere(ids: seq<Id>, k: nat)
    requires Distinct(ids) && k < |ids|
    ensures ids[k] !in ids[..k] && ids[k] !in ids[k + 1..]
    ensures ids == ids[..k] + ([ids[k]] + ids[k + 1..])
  {
  }

  /** Of a list without repetition, list::remove takes exactly that awaiter. */
  lemma RemoveTakesOne(ids: seq<Id>, id: Id)
    requires Distinct(ids) && id in ids
    ensures LostOne(ids, Remove(ids, id), id) && id !in Remove(ids, id)
  {
    var k :| 0 <= k < |ids| && ids[k] == id;
    var front, back := ids[..k], ids[k + 1..];
    OnlyThere(ids, k);
    RemoveBetween(front, id, back);
    assert Remove(ids, id) == front + back;
  }

  lemma {:induction false} RemoveTally(a: seq<Id>, id: Id)
    ensures multiset(Remove(a, id)) == multiset(a)[id := 0]
  {
    if a == [] {
    } else {
      RemoveTally(a[1..], id);
      assert a == [a[0]] + a[1..];
    }
  }

  lemma {:induction false} WithoutIn(ids: seq<Id>, removed: set<Id>)
    ensures forall x :: x in Without(ids, removed) <==> x in ids && x !in removed
  {
    if ids != [] {
      WithoutIn(ids[1..], removed);
      assert forall x :: x in ids <==> x == ids[0] || x in ids[1..];
    }
  }

  lemma {:induction false} WithoutDistinct(ids: seq<Id>, removed: set<Id>)
    requires Distinct(ids)
    ensures Distinct(Without(ids, removed))
  {
    if ids != [] {
      WithoutDistinct(ids[1..], removed);
      WithoutIn(ids[1..], removed);
    }
  }

  lemma InTail(a: seq<Id>, b: seq<Id>, id: Id)
    requires Distinct(a + b) && id in b
    ensures id !in a
  {
    var j :| 0 <= j < |b| && b[j] == id;
    assert (a + b)[|a| + j] == id;
    assert forall i :: 0 <= i < |a| ==> (a + b)[i] == a[i];
  }

  /** Cancelling a waiting awaiter takes it out of the uncancelled ones, and nothing else. */
  lemma CancelFromTail(all: seq<Id>, removed: set<Id>, head: seq<Id>, waiting: seq<Id>, id: Id)
    requires Distinct(all) && Without(all, removed) == head + waiting && id in waiting
    ensures Without(all, removed + {id}) == head + Remove(waiting, id)
  {
    WithoutDistinct(all, removed);
    InTail(head, waiting, id);
    WithoutMore(all, removed, id);
    RemoveAppend(head, waiting, id);
    RemoveAbsent(head, id);
  }

  lemma CancelElsewhere(all: seq<Id>, removed: set<Id>, id: Id)
    requires id !in all
    ensures Without(all, removed + {id}) == Without(all, removed)
  {
    WithoutIn(all, removed);
    WithoutMore(all, removed, id);
    RemoveAbsent(Without(all, removed), id);
  }
}
