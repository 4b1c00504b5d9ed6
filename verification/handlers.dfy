/** The four handlers of the user-list screen, reduced to what each does to
    the list: the remote call is replaced by its outcome, and the list setter
    runs only when that outcome is `Ok`. */
module Handlers {
  import opened Users
  import opened Remote
  import opened ListOps

  /** The three hardcoded records a create submits (only the first is sent). */
  const NewUsers: seq<Profile> := [
    Profile("Firdaus", "Januar", "firdaus_ti22@nusaputra.ac.id", "https://i.pravatar.cc/150?img=12"),
    Profile("Asep", "firdaus", "asep_ti22@nusaputra.ac.id", "https://i.pravatar.cc/150?img=2"),
    Profile("Muhammad", "Firdaus", "m.firdaus_ti22@nusaputra.ac.id", "https://i.pravatar.cc/150?img=4")
  ]

  /** The hardcoded replacement fields an update submits. */
  const UpdatedUser: Profile :=
    Profile("Muhammad", "Firdaus", "m.firdaus_ti22@nusaputra.ac.id", "https://i.pravatar.cc/150?img=55")

  /** Load: a page read replaces the whole list; a failed read keeps it. */
  function Load(users: seq<User>, reply: Reply<seq<User>>): (r: seq<User>)
    ensures reply.Failed? ==> r == users
    ensures reply.Ok? ==> |r| == |reply.value|
    ensures reply.Ok? ==> forall i :: 0 <= i < |r| ==> r[i] == reply.value[i]
  {
    match reply
    case Ok(page) => page
    case Failed => users
  }

  /** The three records a create appends, numbered from the returned id. */
  function Batch(id: int): (b: seq<User>)
    ensures |b| == |NewUsers|
    ensures forall k :: 0 <= k < |b| ==> b[k].id == id + k && ProfileOf(b[k]) == NewUsers[k]
  {
    [WithId(NewUsers[0], id), WithId(NewUsers[1], id + 1), WithId(NewUsers[2], id + 2)]
  }

  /** Create: on success the old list is kept as a prefix and three records
      with ids `r`, `r + 1`, `r + 2` follow, carrying the three hardcoded
      payloads in order; on failure nothing changes. */
  function Create(users: seq<User>, reply: Reply<int>): (r: seq<User>)
    ensures reply.Failed? ==> r == users
    ensures reply.Ok? ==> |r| == |users| + 3 && r[..|users|] == users
    ensures reply.Ok? ==> forall k :: 0 <= k < 3 ==>
      r[|users| + k].id == reply.value + k && ProfileOf(r[|users| + k]) == NewUsers[k]
  {
    match reply
    case Ok(id) => users + Batch(id)
    case Failed => users
  }

  /** Update: on success every record whose id is `x` carries the hardcoded
      replacement fields, each record keeps its id and position, and the
      others are untouched; on failure nothing changes. */
  function Update(users: seq<User>, x: int, reply: Reply<()>): (r: seq<User>)
    ensures |r| == |users|
    ensures forall i :: 0 <= i < |users| ==> r[i].id == users[i].id
    ensures reply.Failed? ==> r == users
    ensures reply.Ok? ==> forall i :: 0 <= i < |users| && users[i].id == x ==> ProfileOf(r[i]) == UpdatedUser
    ensures forall i :: 0 <= i < |users| && users[i].id != x ==> r[i] == users[i]
  {
    match reply
    case Ok(_) => OverwriteId(users, x, UpdatedUser)
    case Failed => users
  }

  /** Delete: on success no record with id `x` remains, the survivors are a
      subsequence of the old list holding every other record as often as
      before, and the length drops by the number of `x` records; on failure
      nothing changes. */
  function Delete(users: seq<User>, x: int, reply: Reply<()>): (r: seq<User>)
    ensures reply.Failed? ==> r == users
    ensures reply.Ok? ==> !HasId(r, x)
    ensures reply.Ok? ==> |r| == |users| - CountId(users, x)
    ensures reply.Ok? ==> IsSubseq(r, users)
    ensures reply.Ok? ==> forall u: User :: u.id != x ==> multiset(r)[u] == multiset(users)[u]
  {
    match reply
    case Ok(_) =>
      RemoveIdIsSubseq(users, x);
      RemoveIdKeepsOthers(users, x);
      RemoveId(users, x)
    case Failed => users
  }

  // ---------------------------------------------------------------------
  // Properties relating handlers to each other
  // ---------------------------------------------------------------------

  /** A successful load forgets the list it replaced. */
  lemma LoadForgetsPrior(a: seq<User>, b: seq<User>, page: seq<User>)
    ensures Load(a, Ok(page)) == Load(b, Ok(page)) == page
  {
  }

  /** Updating an id that no record carries leaves the list as it was. */
  lemma UpdateAbsent(users: seq<User>, x: int, reply: Reply<()>)
    requires !HasId(users, x)
    ensures Update(users, x, reply) == users
  {
  }

  /** Updating the same id twice is updating it once. */
  lemma UpdateIdempotent(users: seq<User>, x: int, reply: Reply<()>)
    ensures Update(Update(users, x, reply), x, reply) == Update(users, x, reply)
  {
  }

  /** Deleting an id that no record carries leaves the list as it was. */
  lemma DeleteAbsent(users: seq<User>, x: int, reply: Reply<()>)
    requires !HasId(users, x)
    ensures Delete(users, x, reply) == users
  {
    if reply.Ok? {
      RemoveIdAbsent(users, x);
    }
  }

  /** Deleting the same id twice is deleting it once. */
  lemma DeleteIdempotent(users: seq<User>, x: int, reply: Reply<()>)
    ensures Delete(Delete(users, x, reply), x, reply) == Delete(users, x, reply)
  {
    if reply.Ok? {
      RemoveIdIdempotent(users, x);
    }
  }

  /** The survivors of a successful delete are exactly the other records in
      their original order: nothing but the filter meets the delete contract. */
  lemma DeleteSurvivorsExact(users: seq<User>, x: int, r: seq<User>)
    requires IsSubseq(r, users)
    requires !HasId(r, x)
    requires forall u: User :: u.id != x ==> multiset(r)[u] == multiset(users)[u]
    ensures r == Delete(users, x, Ok(()))
  {
    forall u | u in r ensures u.id != x {
      var i :| 0 <= i < |r| && r[i] == u;
    }
    RemoveIdCharacterised(users, x, r);
  }

  /** When ids are unique, a successful delete of a present id removes
      exactly one record: the first, and only, one carrying it. */
  lemma DeleteUniqueRemovesOne(users: seq<User>, x: int)
    requires IdsUnique(users)
    requires HasId(users, x)
    ensures |Delete(users, x, Ok(()))| == |users| - 1
    ensures Delete(users, x, Ok(())) == RemoveFirstId(users, x)
  {
    UniqueCountAtMostOne(users, x);
    CountIdPositiveIff(users, x);
    RemoveIdIsRemoveFirstWhenUnique(users, x);
  }

  /** An update and a delete of the same id, completing in either order,
      leave the same list: the one the delete alone leaves. */
  lemma UpdateDeleteSameIdConverge(users: seq<User>, x: int)
    ensures Delete(Update(users, x, Ok(())), x, Ok(())) == Delete(users, x, Ok(()))
    ensures Update(Delete(users, x, Ok(())), x, Ok(())) == Delete(users, x, Ok(()))
  {
    RemoveIdAfterOverwrite(users, x, UpdatedUser);
    OverwriteIdAbsent(RemoveId(users, x), x, UpdatedUser);
  }

  /** Update keeps the ids, and so keeps them unique. */
  lemma UpdatePreservesUnique(users: seq<User>, x: int, reply: Reply<()>)
    requires IdsUnique(users)
    ensures IdsUnique(Update(users, x, reply))
  {
  }

  /** Delete keeps unique ids unique. */
  lemma DeletePreservesUnique(users: seq<User>, x: int, reply: Reply<()>)
    requires IdsUnique(users)
    ensures IdsUnique(Delete(users, x, reply))
  {
    if reply.Ok? {
      RemoveIdPreservesUnique(users, x);
    }
  }

  /** A successful create keeps unique ids unique exactly when none of the
      three derived ids is already in the list: the handler never checks. */
  lemma CreateUniqueIff(users: seq<User>, id: int)
    requires IdsUnique(users)
    ensures IdsUnique(Create(users, Ok(id))) <==>
      !HasId(users, id) && !HasId(users, id + 1) && !HasId(users, id + 2)
  {
  }

  /** Deleting the three derived ids undoes a successful create whose ids
      were fresh: the list is back to what it was before the create. */
  lemma CreateUndoneByDeletes(users: seq<User>, id: int)
    requires !HasId(users, id) && !HasId(users, id + 1) && !HasId(users, id + 2)
    ensures Delete(Delete(Delete(Create(users, Ok(id)), id, Ok(())), id + 1, Ok(())), id + 2, Ok(())) == users
  {
    var b := Batch(id);
    var b0, b1, b2 := b[0], b[1], b[2];
    assert b == [b0] + ([b1] + [b2]);
    RemoveIdConcat(users, b, id);
    RemoveIdAbsent(users, id);
    RemoveIdCons(b0, [b1] + [b2], id);
    RemoveIdCons(b1, [b2], id);
    RemoveIdCons(b2, [], id);
    assert RemoveId(b, id) == [b1, b2];
    RemoveIdConcat(users, [b1, b2], id + 1);
    RemoveIdAbsent(users, id + 1);
    RemoveIdCons(b1, [b2], id + 1);
    RemoveIdCons(b2, [], id + 1);
    assert RemoveId([b1, b2], id + 1) == [b2];
    RemoveIdConcat(users, [b2], id + 2);
    RemoveIdAbsent(users, id + 2);
    RemoveIdCons(b2, [], id + 2);
    assert RemoveId([b2], id + 2) == [];
  }

  /** A concrete duplicate: a record with id 1 already present and a create
      whose returned id is 0 yields two records with id 1. */
  lemma CreateMayDuplicate()
    ensures !IdsUnique(Create([WithId(UpdatedUser, 1)], Ok(0)))
  {
    var r := Create([WithId(UpdatedUser, 1)], Ok(0));
    assert r[0].id == r[2].id;
  }
}
