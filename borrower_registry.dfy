/** Registered borrowers, keyed by their id. */
module Registry {
  import opened Wrappers
  import opened Model

  /**
   * The first borrower at position `index` or later whose id is `id`, or
   * `None` when there is none (in particular when `index` is past the end).
   */
  function FindBorrowerRecursive(list: seq<Borrower>, id: string, index: nat): (r: Option<Borrower>)
    ensures r.None? <==> forall i :: index <= i < |list| ==> list[i].id != id
    ensures r.Some? ==> exists i :: index <= i < |list| && list[i] == r.value && r.value.id == id &&
                                    forall j :: index <= j < i ==> list[j].id != id
    decreases |list| - index
  {
    if index >= |list| then None
    else if list[index].id == id then Some(list[index])
    else FindBorrowerRecursive(list, id, index + 1)
  }

  class BorrowerRegistry {
    var borrowers: map<string, Borrower>

    /** Each borrower is filed under its own id. */
    ghost predicate Valid()
      reads this
    {
      forall id :: id in borrowers ==> borrowers[id].id == id
    }

    constructor ()
      ensures borrowers == map[] && Valid()
    {
      borrowers := map[];
    }

    /** The borrower filed under `id`, or `None` when no such id was added. */
    function GetBorrower(id: string): (r: Option<Borrower>)
      reads this
      ensures r.None? <==> id !in borrowers
      ensures r.Some? ==> r.value == borrowers[id]
      ensures r.Some? && Valid() ==> r.value.id == id
    {
      if id in borrowers then Some(borrowers[id]) else None
    }

    /** Files `b` under its id, replacing any borrower already filed there. */
    method AddBorrower(b: Borrower)
      requires Valid()
      modifies this
      ensures Valid()
      ensures borrowers == old(borrowers)[b.id := b]
      ensures GetBorrower(b.id) == Some(b)
      ensures forall id :: id != b.id ==> GetBorrower(id) == old(GetBorrower(id))
    {
      borrowers := borrowers[b.id := b];
    }

    /** One entry per registered id, in the map's (unspecified) iteration order. */
    method GetAllBorrowers() returns (all: seq<Borrower>)
      requires Valid()
      ensures |all| == |borrowers|
      ensures forall id :: id in borrowers ==> borrowers[id] in all
      ensures forall i :: 0 <= i < |all| ==> all[i].id in borrowers && borrowers[all[i].id] == all[i]
      ensures forall i, j :: 0 <= i < j < |all| ==> all[i].id != all[j].id
    {
      all := [];
      var pending := borrowers.Keys;
      while pending != {}
        invariant pending <= borrowers.Keys
        invariant |all| + |pending| == |borrowers|
        invariant forall id :: id in borrowers && id !in pending ==> borrowers[id] in all
        invariant forall i :: 0 <= i < |all| ==>
          all[i].id in borrowers && all[i].id !in pending && borrowers[all[i].id] == all[i]
        invariant forall i, j :: 0 <= i < j < |all| ==> all[i].id != all[j].id
        decreases |pending|
      {
        var id :| id in pending;
        all := all + [borrowers[id]];
        pending := pending - {id};
      }
    }
  }
}
