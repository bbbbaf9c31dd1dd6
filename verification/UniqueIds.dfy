/** uid.c: the numbers by which clients know the devices of all monitors. */
module UniqueIds {
  datatype Uid = Uid(id: nat, available: bool)

  /** The id of the first entry that is available, or else one more than the last id. */
  function Found(list: seq<Uid>): nat
  {
    FoundFrom(list, 0, 0)
  }

  function FoundFrom(list: seq<Uid>, k: nat, next: nat): nat
    requires k <= |list|
    decreases |list| - k
  {
    if k == |list| then next
    else if list[k].available then list[k].id
    else FoundFrom(list, k + 1, list[k].id + 1)
  }

  /** The list once that id is taken. */
  function Taken(list: seq<Uid>): seq<Uid>
  {
    TakenFrom(list, 0)
  }

  function TakenFrom(list: seq<Uid>, k: nat): (r: seq<Uid>)
    requires k <= |list|
    ensures |list| <= |r| <= |list| + 1
    decreases |list| - k
  {
    if k == |list| then list + [Uid(Found(list), false)]
    else if list[k].available then list[k := Uid(list[k].id, false)]
    else TakenFrom(list, k + 1)
  }

  /** The list once the first entry with the id is available again. */
  function Released(list: seq<Uid>, id: nat): (r: seq<Uid>)
    ensures |r| == |list|
  {
    if list == [] then []
    else if list[0].id == id then [Uid(id, true)] + list[1..]
    else [list[0]] + Released(list[1..], id)
  }

  predicate Known(list: seq<Uid>, id: nat)
  {
    exists k :: 0 <= k < |list| && list[k].id == id
  }

  /** The ids are handed out in order, so every entry has the id of its place. */
  predicate Numbered(list: seq<Uid>)
  {
    forall k :: 0 <= k < |list| ==> list[k].id == k
  }

  predicate InUse(list: seq<Uid>, id: nat)
  {
    id < |list| && !list[id].available
  }

  lemma {:induction false} FirstFree(list: seq<Uid>, k: nat)
    requires Numbered(list) && k <= |list| && forall j :: 0 <= j < k ==> InUse(list, j)
    ensures var id := FoundFrom(list, k, k);
            && k <= id <= |list| && !InUse(list, id) && (forall j :: 0 <= j < id ==> InUse(list, j))
            && (Found(list) == id ==>
                  TakenFrom(list, k) == if id == |list| then list + [Uid(id, false)] else list[id := Uid(id, false)])
    decreases |list| - k
  {
    hide Found;
    if k < |list| && !list[k].available {
      FirstFree(list, k + 1);
    }
  }

  /** What is found is the least number that is not in use; then it is, and nothing else changes. */
  lemma FoundIsLeast(list: seq<Uid>)
    requires Numbered(list)
    ensures !InUse(list, Found(list)) && forall j :: 0 <= j < Found(list) ==> InUse(list, j)
    ensures Numbered(Taken(list)) && forall j: nat :: InUse(Taken(list), j) <==> InUse(list, j) || j == Found(list)
  {
    FirstFree(list, 0);
  }

  lemma {:induction false} ReleasedAt(list: seq<Uid>, id: nat, base: nat)
    requires forall k :: 0 <= k < |list| ==> list[k].id == base + k
    ensures Released(list, id) == if base <= id < base + |list| then list[id - base := Uid(id, true)] else list
  {
    if list != [] && list[0].id != id {
      ReleasedAt(list[1..], id, base + 1);
    }
  }

  /** Releasing an id makes it available, and nothing else changes. */
  lemma ReleasedIsFree(list: seq<Uid>, id: nat)
    requires Numbered(list)
    ensures Numbered(Released(list, id)) && forall j: nat :: InUse(Released(list, id), j) <==> InUse(list, j) && j != id
    ensures Known(list, id) <==> id < |list|
  {
    ReleasedAt(list, id, 0);
    if id < |list| { assert list[id].id == id; }
  }

  lemma {:induction false} ReleasedFirst(list: seq<Uid>, id: nat, k: nat)
    requires k <= |list| && (forall j :: 0 <= j < k ==> list[j].id != id) && (k < |list| ==> list[k].id == id)
    ensures Released(list, id) == if k < |list| then list[k := Uid(id, true)] else list
  {
    if k > 0 {
      ReleasedFirst(list[1..], id, k - 1);
      assert list == [list[0]] + list[1..];
    }
  }

  class Ids {
    var list: seq<Uid>

    /** unique_id_find. */
    method Find() returns (id: nat)
      modifies this
      ensures id == Found(old(list)) && list == Taken(old(list))
    {
      var next: nat, k: nat := 0, 0;
      while k < |list|
        invariant 0 <= k <= |list| && list == old(list)
        invariant FoundFrom(list, k, next) == Found(list) && TakenFrom(list, k) == Taken(list)
      {
        if list[k].available {
          id := list[k].id;
          list := list[k := Uid(id, false)];
          return;
        }
        next := list[k].id + 1;
        k := k + 1;
      }
      id := next;
      list := list + [Uid(id, false)];
    }

    /** unique_id_release; false where the program ends. */
    method Release(id: nat) returns (ok: bool)
      modifies this
      ensures ok <==> Known(old(list), id)
      ensures list == Released(old(list), id)
    {
      var k := 0;
      while k < |list|
        invariant 0 <= k <= |list| && list == old(list) && forall j :: 0 <= j < k ==> list[j].id != id
      {
        if list[k].id == id {
          ReleasedFirst(list, id, k);
          list := list[k := Uid(id, true)];
          return true;
        }
        k := k + 1;
      }
      ReleasedFirst(list, id, |list|);
      return false;
    }
  }
}
