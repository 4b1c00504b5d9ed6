/** The one entity of the screen: a user record, the id-less payload that
    create and update requests submit, and the id-level vocabulary the list
    operations are stated in. */
module Users {

  /** A record as held in the in-memory list (fields `id`, `first_name`,
      `last_name`, `email`, `avatar`). */
  datatype User = User(id: int, firstName: string, lastName: string, email: string, avatar: string)

  /** The four non-id fields: the body of a create or update request. */
  datatype Profile = Profile(firstName: string, lastName: string, email: string, avatar: string)

  /** The non-id part of a record. */
  function ProfileOf(u: User): Profile
  {
    Profile(u.firstName, u.lastName, u.email, u.avatar)
  }

  /** `{id: id, ...p}`: a record made from a payload and an id. */
  function WithId(p: Profile, id: int): (u: User)
    ensures u.id == id
    ensures ProfileOf(u) == p
  {
    User(id, p.firstName, p.lastName, p.email, p.avatar)
  }

  /** `{...u, ...p}`: every field of `p` overrides the one of `u`; the id
      survives because a payload has none. */
  function Overwrite(u: User, p: Profile): (v: User)
    ensures v.id == u.id
    ensures ProfileOf(v) == p
    ensures v == WithId(p, u.id)
  {
    u.(firstName := p.firstName, lastName := p.lastName, email := p.email, avatar := p.avatar)
  }

  /** Some record of `s` carries id `x`. */
  ghost predicate HasId(s: seq<User>, x: int)
  {
    exists i :: 0 <= i < |s| && s[i].id == x
  }

  /** The number of records of `s` that carry id `x`. */
  function CountId(s: seq<User>, x: int): (n: nat)
    ensures n <= |s|
  {
    if |s| == 0 then 0
    else (if s[0].id == x then 1 else 0) + CountId(s[1..], x)
  }

  /** No id occurs twice: the list view uses `id` as the row key, so the
      screen relies on this, though no handler checks it. */
  ghost predicate IdsUnique(s: seq<User>)
  {
    forall i, j :: 0 <= i < j < |s| ==> s[i].id != s[j].id
  }

  /** An id is counted exactly when it occurs. */
  lemma {:induction false} CountIdPositiveIff(s: seq<User>, x: int)
    ensures CountId(s, x) > 0 <==> HasId(s, x)
  {
    if |s| > 0 {
      CountIdPositiveIff(s[1..], x);
      if HasId(s[1..], x) {
        var i :| 0 <= i < |s[1..]| && s[1..][i].id == x;
        assert s[i + 1].id == x;
      }
      if HasId(s, x) && s[0].id != x {
        var i :| 0 <= i < |s| && s[i].id == x;
        assert s[1..][i - 1].id == x;
      }
    }
  }

  /** On a list with unique ids, each id occurs at most once. */
  lemma {:induction false} UniqueCountAtMostOne(s: seq<User>, x: int)
    requires IdsUnique(s)
    ensures CountId(s, x) <= 1
  {
    if |s| > 0 {
      assert IdsUnique(s[1..]) by {
        forall i, j | 0 <= i < j < |s[1..]| ensures s[1..][i].id != s[1..][j].id {
          assert s[1..][i] == s[i + 1] && s[1..][j] == s[j + 1];
        }
      }
      UniqueCountAtMostOne(s[1..], x);
      if s[0].id == x {
        assert !HasId(s[1..], x) by {
          forall i | 0 <= i < |s[1..]| ensures s[1..][i].id != x {
            assert s[1..][i] == s[i + 1];
          }
        }
        CountIdPositiveIff(s[1..], x);
      }
    }
  }
}
