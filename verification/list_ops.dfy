/** The two in-place list transformations the screen applies after a
    successful call: `map` that overwrites the records with a given id, and
    `filter` that drops them. */
module ListOps {
  import opened Users

  /** `a` is obtained from `b` by deleting some elements, keeping order. */
  ghost predicate IsSubseq<T>(a: seq<T>, b: seq<T>)
    decreases |b|
  {
    if |a| == 0 then true
    else if |b| == 0 then false
    else (a[0] == b[0] && IsSubseq(a[1..], b[1..])) || IsSubseq(a, b[1..])
  }

  /** A subsequence holds no element more often than the sequence it is taken from. */
  lemma {:induction false} SubseqMultiset<T>(a: seq<T>, b: seq<T>)
    requires IsSubseq(a, b)
    ensures multiset(a) <= multiset(b)
    decreases |b|
  {
    if |a| > 0 {
      assert b == [b[0]] + b[1..];
      if a[0] == b[0] && IsSubseq(a[1..], b[1..]) {
        SubseqMultiset(a[1..], b[1..]);
        assert a == [a[0]] + a[1..];
      } else {
        SubseqMultiset(a, b[1..]);
      }
    }
  }

  // ---------------------------------------------------------------------
  // Overwrite by id: `users.map(u => u.id === x ? {...u, ...p} : u)`
  // ---------------------------------------------------------------------

  /** Every record whose id is `x` takes the fields of `p`; the others, and
      every id, stay as they were. */
  function OverwriteId(s: seq<User>, x: int, p: Profile): (r: seq<User>)
    ensures |r| == |s|
    ensures forall i :: 0 <= i < |s| ==> r[i].id == s[i].id
    ensures forall i :: 0 <= i < |s| && s[i].id == x ==> ProfileOf(r[i]) == p
    ensures forall i :: 0 <= i < |s| && s[i].id != x ==> r[i] == s[i]
  {
    seq(|s|, i requires 0 <= i < |s| => if s[i].id == x then Overwrite(s[i], p) else s[i])
  }

  /** Overwriting works record by record, so it splits over concatenation. */
  lemma OverwriteIdConcat(a: seq<User>, b: seq<User>, x: int, p: Profile)
    ensures OverwriteId(a + b, x, p) == OverwriteId(a, x, p) + OverwriteId(b, x, p)
  {
  }

  /** An id that no record carries selects nothing: the list is unchanged. */
  lemma OverwriteIdAbsent(s: seq<User>, x: int, p: Profile)
    requires !HasId(s, x)
    ensures OverwriteId(s, x, p) == s
  {
  }

  /** Overwriting twice with the same payload is overwriting once. */
  lemma OverwriteIdIdempotent(s: seq<User>, x: int, p: Profile)
    ensures OverwriteId(OverwriteId(s, x, p), x, p) == OverwriteId(s, x, p)
  {
  }

  /** Ids are untouched, so every id occurs as often as before. */
  lemma {:induction false} OverwriteIdCount(s: seq<User>, x: int, p: Profile, y: int)
    ensures CountId(OverwriteId(s, x, p), y) == CountId(s, y)
  {
    if |s| > 0 {
      assert OverwriteId(s, x, p)[1..] == OverwriteId(s[1..], x, p);
      OverwriteIdCount(s[1..], x, p, y);
    }
  }

  /** Overwriting two different ids gives the same list in either order. */
  lemma OverwriteIdCommute(s: seq<User>, x: int, p: Profile, y: int, q: Profile)
    requires x != y
    ensures OverwriteId(OverwriteId(s, x, p), y, q) == OverwriteId(OverwriteId(s, y, q), x, p)
  {
    var a := OverwriteId(OverwriteId(s, x, p), y, q);
    var b := OverwriteId(OverwriteId(s, y, q), x, p);
    forall i | 0 <= i < |s| ensures a[i] == b[i] {
    }
  }

  // ---------------------------------------------------------------------
  // Remove by id: `users.filter(u => u.id !== x)`
  // ---------------------------------------------------------------------

  /** Drops every record with id `x`, keeping the others in order. */
  function RemoveId(s: seq<User>, x: int): (r: seq<User>)
    ensures |r| == |s| - CountId(s, x)
    ensures forall i :: 0 <= i < |r| ==> r[i].id != x
  {
    if |s| == 0 then []
    else
      if s[0].id == x then RemoveId(s[1..], x)
      else [s[0]] + RemoveId(s[1..], x)
  }

  /** Every record without id `x` survives as many times as it occurred. */
  lemma {:induction false} RemoveIdKeepsOthers(s: seq<User>, x: int)
    ensures forall u: User :: u.id != x ==> multiset(RemoveId(s, x))[u] == multiset(s)[u]
  {
    if |s| > 0 {
      assert s == [s[0]] + s[1..];
      RemoveIdCons(s[0], s[1..], x);
      RemoveIdKeepsOthers(s[1..], x);
    }
  }

  /** The survivors appear in their original relative order. */
  lemma {:induction false} RemoveIdIsSubseq(s: seq<User>, x: int)
    ensures IsSubseq(RemoveId(s, x), s)
  {
    if |s| > 0 {
      RemoveIdIsSubseq(s[1..], x);
      var t := RemoveId(s[1..], x);
      if s[0].id != x {
        assert ([s[0]] + t)[1..] == t;
      } else if |t| > 0 {
        assert IsSubseq(t, s[1..]);
      }
    }
  }

  /** The survivors are exactly the original non-`x` records in their
      original order: any subsequence of `s` that holds no `x` record and
      every other record as often as `s` does is `RemoveId(s, x)`. */
  lemma {:induction false} RemoveIdCharacterised(s: seq<User>, x: int, r: seq<User>)
    requires IsSubseq(r, s)
    requires forall u :: u in r ==> u.id != x
    requires forall u: User :: u.id != x ==> multiset(r)[u] == multiset(s)[u]
    ensures r == RemoveId(s, x)
    decreases |s|
  {
    if |s| == 0 {
      assert |r| == 0;
    } else {
      var h, t := s[0], s[1..];
      assert s == [h] + t;
      if h.id == x {
        if |r| > 0 {
          assert r[0] in r;
          assert IsSubseq(r, t);
        }
        forall u: User | u.id != x ensures multiset(r)[u] == multiset(t)[u] {
          assert multiset(s)[u] == multiset(t)[u];
        }
        RemoveIdCharacterised(t, x, r);
      } else {
        assert multiset(r)[h] == multiset(s)[h] > 0;
        assert |r| > 0;
        if r[0] == h && IsSubseq(r[1..], t) {
          assert r == [h] + r[1..];
          forall u: User | u.id != x ensures multiset(r[1..])[u] == multiset(t)[u] {
          }
          forall u | u in r[1..] ensures u.id != x {
            assert u in r;
          }
          RemoveIdCharacterised(t, x, r[1..]);
        } else {
          assert IsSubseq(r, t);
          SubseqMultiset(r, t);
          assert false;
        }
      }
    }
  }

  /** An id that no record carries removes nothing. */
  lemma {:induction false} RemoveIdAbsent(s: seq<User>, x: int)
    requires !HasId(s, x)
    ensures RemoveId(s, x) == s
  {
    CountIdPositiveIff(s, x);
    RemoveIdIsSubseq(s, x);
    SubseqSameLength(RemoveId(s, x), s);
  }

  /** A subsequence as long as its source is the source itself. */
  lemma {:induction false} SubseqSameLength<T>(a: seq<T>, b: seq<T>)
    requires IsSubseq(a, b)
    requires |a| == |b|
    ensures a == b
    decreases |b|
  {
    if |a| > 0 {
      if a[0] == b[0] && IsSubseq(a[1..], b[1..]) {
        SubseqSameLength(a[1..], b[1..]);
        assert a == [a[0]] + a[1..] && b == [b[0]] + b[1..];
      } else {
        SubseqShorter(a, b[1..]);
        assert false;
      }
    }
  }

  /** A subsequence is no longer than its source. */
  lemma {:induction false} SubseqShorter<T>(a: seq<T>, b: seq<T>)
    requires IsSubseq(a, b)
    ensures |a| <= |b|
    decreases |b|
  {
    if |a| > 0 {
      if a[0] == b[0] && IsSubseq(a[1..], b[1..]) {
        SubseqShorter(a[1..], b[1..]);
      } else {
        SubseqShorter(a, b[1..]);
      }
    }
  }

  /** Removing twice is removing once. */
  lemma RemoveIdIdempotent(s: seq<User>, x: int)
    ensures RemoveId(RemoveId(s, x), x) == RemoveId(s, x)
  {
  }

  /** What the filter keeps of one record. */
  function Kept(u: User, x: int): seq<User>
  {
    if u.id == x then [] else [u]
  }

  /** One step of the filter: the head survives unless it carries `x`. */
  lemma RemoveIdCons(h: User, t: seq<User>, x: int)
    ensures RemoveId([h] + t, x) == Kept(h, x) + RemoveId(t, x)
  {
  }

  /** Filtering splits over concatenation. */
  lemma {:induction false} RemoveIdConcat(a: seq<User>, b: seq<User>, x: int)
    ensures RemoveId(a + b, x) == RemoveId(a, x) + RemoveId(b, x)
  {
    if |a| == 0 {
      assert a + b == b;
    } else {
      var h, t := a[0], a[1..];
      assert a == [h] + t;
      RemoveIdConcat(t, b, x);
      RemoveIdConcatStep(h, t, b, x);
    }
  }

  /** The inductive step of `RemoveIdConcat`: putting a record in front. */
  lemma RemoveIdConcatStep(h: User, t: seq<User>, b: seq<User>, x: int)
    requires RemoveId(t + b, x) == RemoveId(t, x) + RemoveId(b, x)
    ensures RemoveId([h] + t + b, x) == RemoveId([h] + t, x) + RemoveId(b, x)
  {
    AppendAssoc([h], t, b);
    RemoveIdCons(h, t + b, x);
    RemoveIdCons(h, t, x);
    AppendAssoc(Kept(h, x), RemoveId(t, x), RemoveId(b, x));
  }

  /** Concatenation is associative. */
  lemma AppendAssoc<T>(a: seq<T>, b: seq<T>, c: seq<T>)
    ensures a + (b + c) == (a + b) + c
  {
  }

  /** Removing an id after overwriting it is the same as removing it outright. */
  lemma {:induction false} RemoveIdAfterOverwrite(s: seq<User>, x: int, p: Profile)
    ensures RemoveId(OverwriteId(s, x, p), x) == RemoveId(s, x)
  {
    if |s| > 0 {
      assert OverwriteId(s, x, p)[1..] == OverwriteId(s[1..], x, p);
      RemoveIdAfterOverwrite(s[1..], x, p);
    }
  }

  /** Filtering keeps distinct ids distinct. */
  lemma RemoveIdPreservesUnique(s: seq<User>, x: int)
    requires IdsUnique(s)
    ensures IdsUnique(RemoveId(s, x))
  {
    var r := RemoveId(s, x);
    forall i, j | 0 <= i < j < |r| ensures r[i].id != r[j].id {
      RemoveIdIsSubseq(s, x);
      SubseqIndices(r, s, i, j);
    }
  }

  /** Two positions of a subsequence come from two ordered positions of its source. */
  lemma {:induction false} SubseqIndices<T>(a: seq<T>, b: seq<T>, i: int, j: int)
    requires IsSubseq(a, b)
    requires 0 <= i < j < |a|
    ensures exists k, l :: 0 <= k < l < |b| && a[i] == b[k] && a[j] == b[l]
    decreases |b|
  {
    if a[0] == b[0] && IsSubseq(a[1..], b[1..]) {
      if i == 0 {
        SubseqElement(a[1..], b[1..], j - 1);
        var l :| 0 <= l < |b[1..]| && a[1..][j - 1] == b[1..][l];
        assert a[i] == b[0] && a[j] == b[l + 1];
      } else {
        SubseqIndices(a[1..], b[1..], i - 1, j - 1);
        var k, l :| 0 <= k < l < |b[1..]| && a[1..][i - 1] == b[1..][k] && a[1..][j - 1] == b[1..][l];
        assert a[i] == b[k + 1] && a[j] == b[l + 1];
      }
    } else {
      SubseqIndices(a, b[1..], i, j);
      var k, l :| 0 <= k < l < |b[1..]| && a[i] == b[1..][k] && a[j] == b[1..][l];
      assert a[i] == b[k + 1] && a[j] == b[l + 1];
    }
  }

  /** Every position of a subsequence comes from a position of its source. */
  lemma {:induction false} SubseqElement<T>(a: seq<T>, b: seq<T>, i: int)
    requires IsSubseq(a, b)
    requires 0 <= i < |a|
    ensures exists k :: 0 <= k < |b| && a[i] == b[k]
    decreases |b|
  {
    if a[0] == b[0] && IsSubseq(a[1..], b[1..]) {
      if i == 0 {
        assert a[i] == b[0];
      } else {
        SubseqElement(a[1..], b[1..], i - 1);
        var k :| 0 <= k < |b[1..]| && a[1..][i - 1] == b[1..][k];
        assert a[i] == b[k + 1];
      }
    } else {
      SubseqElement(a, b[1..], i);
      var k :| 0 <= k < |b[1..]| && a[i] == b[1..][k];
      assert a[i] == b[k + 1];
    }
  }

  // ---------------------------------------------------------------------
  // Removing only the first match
  // ---------------------------------------------------------------------

  /** Drops only the first record with id `x`. */
  function RemoveFirstId(s: seq<User>, x: int): (r: seq<User>)
    ensures HasId(s, x) ==> |r| == |s| - 1
    ensures !HasId(s, x) ==> r == s
  {
    if |s| == 0 then []
    else if s[0].id == x then s[1..]
    else
      assert !HasId(s, x) ==> !HasId(s[1..], x) by {
        if HasId(s[1..], x) {
          var i :| 0 <= i < |s[1..]| && s[1..][i].id == x;
          assert s[i + 1].id == x;
        }
      }
      assert HasId(s, x) ==> HasId(s[1..], x) by {
        if HasId(s, x) {
          var i :| 0 <= i < |s| && s[i].id == x;
          assert s[1..][i - 1].id == x;
        }
      }
      [s[0]] + RemoveFirstId(s[1..], x)
  }

  /** The record `RemoveFirstId` drops is the first one carrying `x`; the
      records before and after it keep their order. */
  lemma {:induction false} RemoveFirstIdIsFirst(s: seq<User>, x: int, k: int)
    requires 0 <= k < |s| && s[k].id == x
    requires forall j :: 0 <= j < k ==> s[j].id != x
    ensures RemoveFirstId(s, x) == s[..k] + s[k + 1..]
  {
    if k > 0 {
      RemoveFirstIdIsFirst(s[1..], x, k - 1);
      assert s[..k] == [s[0]] + s[1..][..k - 1];
      assert s[k + 1..] == s[1..][k..];
    }
  }

  /** On a list with unique ids, removing every match and removing the first
      match coincide. */
  lemma {:induction false} RemoveIdIsRemoveFirstWhenUnique(s: seq<User>, x: int)
    requires IdsUnique(s)
    ensures RemoveId(s, x) == RemoveFirstId(s, x)
  {
    if |s| > 0 {
      assert IdsUnique(s[1..]) by {
        forall i, j | 0 <= i < j < |s[1..]| ensures s[1..][i].id != s[1..][j].id {
          assert s[1..][i] == s[i + 1] && s[1..][j] == s[j + 1];
        }
      }
      if s[0].id == x {
        assert !HasId(s[1..], x) by {
          forall i | 0 <= i < |s[1..]| ensures s[1..][i].id != x {
            assert s[1..][i] == s[i + 1];
          }
        }
        RemoveIdAbsent(s[1..], x);
      } else {
        RemoveIdIsRemoveFirstWhenUnique(s[1..], x);
      }
    }
  }

  /** With a repeated id the two differ: `filter` drops both copies. */
  lemma RemoveIdDropsEveryDuplicate(u: User)
    ensures |RemoveId([u, u], u.id)| == 0
    ensures RemoveFirstId([u, u], u.id) == [u]
  {
  }
}
