/** The screen's list over time: each awaited call that completes applies its
    handler's update to whatever the list is at that moment. A session is the
    sequence of completions in the order they happened; each is one atomic
    transition. */
module Session {
  import opened Users
  import opened Remote
  import opened ListOps
  import opened Handlers

  /** One completed remote call, with its outcome. */
  datatype Completion =
    | Loaded(page: Reply<seq<User>>)
    | Created(newId: Reply<int>)
    | Updated(id: int, ack: Reply<()>)
    | Deleted(id: int, ack: Reply<()>)

  /** The call threw, so the handler never reached the list setter. */
  ghost predicate CallFailed(c: Completion)
  {
    match c
    case Loaded(reply) => reply.Failed?
    case Created(reply) => reply.Failed?
    case Updated(_, reply) => reply.Failed?
    case Deleted(_, reply) => reply.Failed?
  }

  /** Applies one completion to the list. */
  function Step(users: seq<User>, c: Completion): (r: seq<User>)
    ensures CallFailed(c) ==> r == users
  {
    match c
    case Loaded(reply) => Load(users, reply)
    case Created(reply) => Create(users, reply)
    case Updated(x, reply) => Update(users, x, reply)
    case Deleted(x, reply) => Delete(users, x, reply)
  }

  /** Applies completions in the order they happened. An empty session
      leaves the list alone, and so does one in which every call failed. */
  function Run(users: seq<User>, cs: seq<Completion>): (r: seq<User>)
    ensures |cs| == 0 ==> r == users
    ensures (forall i :: 0 <= i < |cs| ==> CallFailed(cs[i])) ==> r == users
    decreases |cs|
  {
    if |cs| == 0 then users else Run(Step(users, cs[0]), cs[1..])
  }

  /** Running two sessions back to back is running their concatenation. */
  lemma {:induction false} RunConcat(users: seq<User>, a: seq<Completion>, b: seq<Completion>)
    ensures Run(users, a + b) == Run(Run(users, a), b)
    decreases |a|
  {
    if |a| == 0 {
      assert a + b == b;
    } else {
      assert (a + b)[0] == a[0] && (a + b)[1..] == a[1..] + b;
      RunConcat(Step(users, a[0]), a[1..], b);
    }
  }

  /** The last completion of a non-empty session is applied to the list the
      earlier ones left. */
  lemma RunSnoc(users: seq<User>, cs: seq<Completion>)
    requires |cs| > 0
    ensures Run(users, cs) == Step(Run(users, cs[..|cs| - 1]), cs[|cs| - 1])
  {
    assert cs == cs[..|cs| - 1] + [cs[|cs| - 1]];
    RunConcat(users, cs[..|cs| - 1], [cs[|cs| - 1]]);
    assert [cs[|cs| - 1]][1..] == [];
  }

  /** The start-up read is issued on the empty list, but a create whose reply
      arrives first has its records thrown away when the read lands. */
  lemma StartupReadDiscardsEarlierCreate(id: int, page: seq<User>)
    ensures |Run([], [Created(Ok(id))])| == 3
    ensures Run([], [Created(Ok(id)), Loaded(Ok(page))]) == page
  {
    LoadLastWins([], [Created(Ok(id))], page);
  }

  /** A completion that cannot break unique ids: a loaded page must itself
      have unique ids, and a create's three derived ids must be fresh. */
  ghost predicate KeepsIdsApart(users: seq<User>, c: Completion)
  {
    match c
    case Loaded(Ok(page)) => IdsUnique(page)
    case Created(Ok(id)) => !HasId(users, id) && !HasId(users, id + 1) && !HasId(users, id + 2)
    case _ => true
  }

  /** Every completion of the session keeps ids apart at the moment it lands. */
  ghost predicate AllKeepIdsApart(users: seq<User>, cs: seq<Completion>)
    decreases |cs|
  {
    |cs| == 0 || (KeepsIdsApart(users, cs[0]) && AllKeepIdsApart(Step(users, cs[0]), cs[1..]))
  }

  /** A completion that keeps ids apart keeps unique ids unique. */
  lemma StepPreservesUnique(users: seq<User>, c: Completion)
    requires IdsUnique(users)
    requires KeepsIdsApart(users, c)
    ensures IdsUnique(Step(users, c))
  {
    match c
    case Loaded(_) =>
    case Created(reply) =>
      if reply.Ok? {
        CreateUniqueIff(users, reply.value);
      }
    case Updated(x, reply) =>
      UpdatePreservesUnique(users, x, reply);
    case Deleted(x, reply) =>
      DeletePreservesUnique(users, x, reply);
  }

  /** Distinct row keys (unique ids) hold throughout a session
      whose pages are unique and whose creates never reuse an id. */
  lemma {:induction false} RunPreservesUnique(users: seq<User>, cs: seq<Completion>)
    requires IdsUnique(users)
    requires AllKeepIdsApart(users, cs)
    ensures IdsUnique(Run(users, cs))
    decreases |cs|
  {
    if |cs| > 0 {
      StepPreservesUnique(users, cs[0]);
      RunPreservesUnique(Step(users, cs[0]), cs[1..]);
    }
  }

  /** A successful update and a successful delete of the same id leave the
      same list whichever of the two completes last. */
  lemma UpdateDeleteRace(users: seq<User>, x: int)
    ensures Run(users, [Updated(x, Ok(())), Deleted(x, Ok(()))])
         == Run(users, [Deleted(x, Ok(())), Updated(x, Ok(()))])
  {
    UpdateDeleteSameIdConverge(users, x);
    assert [Updated(x, Ok(())), Deleted(x, Ok(()))][1..] == [Deleted(x, Ok(()))];
    assert [Deleted(x, Ok(())), Updated(x, Ok(()))][1..] == [Updated(x, Ok(()))];
  }

  /** Two successful updates of different ids commute. */
  lemma UpdateUpdateRace(users: seq<User>, x: int, y: int)
    requires x != y
    ensures Run(users, [Updated(x, Ok(())), Updated(y, Ok(()))])
         == Run(users, [Updated(y, Ok(())), Updated(x, Ok(()))])
  {
    OverwriteIdCommute(users, x, UpdatedUser, y, UpdatedUser);
    assert [Updated(x, Ok(())), Updated(y, Ok(()))][1..] == [Updated(y, Ok(()))];
    assert [Updated(y, Ok(())), Updated(x, Ok(()))][1..] == [Updated(x, Ok(()))];
  }

  /** A load that completes after other calls discards their effect: the
      list is the page, whatever came before. */
  lemma LoadLastWins(users: seq<User>, cs: seq<Completion>, page: seq<User>)
    ensures Run(users, cs + [Loaded(Ok(page))]) == page
  {
    RunConcat(users, cs, [Loaded(Ok(page))]);
    assert [Loaded(Ok(page))][1..] == [];
  }
}
