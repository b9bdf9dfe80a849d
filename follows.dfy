/**
  The follow relation of the User model, read as operations on the rows of
  the `followers` join table. A row (follower_id, user_id) says that the
  user `follower_id` follows the user `user_id`.

  The queries `followings` and `followers` read the table in the two
  directions, `isFollowing` tests membership, and the two updates are a
  non-detaching sync (`follow`) and a detach (`unfollow`). The updates are
  given here as functions from the old table to the new one; the class in
  module FollowersTable performs them in place.
 */
module Follows {

  /** One row of the `followers` table: `followerId` follows `userId`. */
  datatype Edge = Edge(followerId: int, userId: int)

  /** The argument of follow/unfollow: either one user id or an array of them. */
  datatype UserIds = One(id: int) | Many(ids: seq<int>)

  /**
    The ids an argument stands for: an array is taken as it is, a single
    id is wrapped into a one-element list (the `is_array`/`compact` step).
   */
  function IdList(u: UserIds): (r: seq<int>)
    ensures u.One? ==> r == [u.id]
    ensures u.Many? ==> r == u.ids
    ensures forall t :: t in r <==> (if u.One? then t == u.id else t in u.ids)
  {
    match u
    case One(id) => [id]
    case Many(ids) => ids
  }

  predicate NoDuplicates<T(==)>(s: seq<T>)
  {
    forall i, j :: 0 <= i < j < |s| ==> s[i] != s[j]
  }

  /** A sequence without duplicates holds each value at most once. */
  lemma {:induction false} NoDuplicatesCount<T>(s: seq<T>, x: T)
    requires NoDuplicates(s)
    ensures multiset(s)[x] <= 1
  {
    if s != [] {
      var rest := s[1..];
      assert s == [s[0]] + rest;
      assert NoDuplicates(rest) by {
        forall i, j | 0 <= i < j < |rest| ensures rest[i] != rest[j] {
          assert rest[i] == s[i + 1] && rest[j] == s[j + 1];
        }
      }
      NoDuplicatesCount(rest, x);
      if x == s[0] {
        assert x !in rest by {
          forall k | 0 <= k < |rest| ensures rest[k] != x {
            assert rest[k] == s[k + 1];
          }
        }
      }
    }
  }

  // ---------------------------------------------------------------------
  // Queries

  /**
    The ids `user` follows: the rows whose follower is `user`. The order of
    the list is the model's row order; only membership and count follow
    the source, whose query has no `orderBy`.
   */
  function Followings(table: seq<Edge>, user: int): (r: seq<int>)
    ensures forall t :: t in r <==> Edge(user, t) in table
    ensures |r| <= |table|
  {
    if table == [] then []
    else
      var rest := Followings(table[1..], user);
      if table[0].followerId == user then [table[0].userId] + rest else rest
  }

  /** The ids that follow `user`: the same rows read the other way. */
  function Followers(table: seq<Edge>, user: int): (r: seq<int>)
    ensures forall a :: a in r <==> Edge(a, user) in table
    ensures |r| <= |table|
  {
    if table == [] then []
    else
      var rest := Followers(table[1..], user);
      if table[0].userId == user then [table[0].followerId] + rest else rest
  }

  /** Whether `target` is among the followings of `user`. */
  function IsFollowing(table: seq<Edge>, user: int, target: int): (b: bool)
    ensures b <==> Edge(user, target) in table
  {
    target in Followings(table, user)
  }

  /** The two relations are one table read in opposite directions. */
  lemma FollowersMirrorFollowings(table: seq<Edge>, a: int, b: int)
    ensures a in Followers(table, b) <==> b in Followings(table, a)
  {
  }

  /** A table without duplicate rows lists each following once. */
  lemma {:induction false} FollowingsNoDuplicates(table: seq<Edge>, user: int)
    requires NoDuplicates(table)
    ensures NoDuplicates(Followings(table, user))
  {
    if table != [] {
      var rest := table[1..];
      assert NoDuplicates(rest) by {
        forall i, j | 0 <= i < j < |rest| ensures rest[i] != rest[j] {
          assert rest[i] == table[i + 1] && rest[j] == table[j + 1];
        }
      }
      FollowingsNoDuplicates(rest, user);
      if table[0].followerId == user {
        assert table[0] !in rest by {
          forall k | 0 <= k < |rest| ensures rest[k] != table[0] {
            assert rest[k] == table[k + 1];
          }
        }
        assert table[0].userId !in Followings(rest, user);
      }
    }
  }

  /** Appending a row from someone else leaves the followings of `user` as they were. */
  lemma {:induction false} FollowingsAppendOther(table: seq<Edge>, e: Edge, user: int)
    requires e.followerId != user
    ensures Followings(table + [e], user) == Followings(table, user)
  {
    if table == [] {
      assert Followings([e][1..], user) == [];
    } else {
      assert (table + [e])[1..] == table[1..] + [e];
      FollowingsAppendOther(table[1..], e, user);
    }
  }

  // ---------------------------------------------------------------------
  // follow: a sync that does not detach

  /** One step of the sync: attach the row (user, target) unless it is already there. */
  function Attach(table: seq<Edge>, user: int, target: int): (r: seq<Edge>)
    ensures table <= r
    ensures forall e :: e in r <==> e in table || e == Edge(user, target)
    ensures NoDuplicates(table) ==> NoDuplicates(r)
  {
    if Edge(user, target) in table then table else table + [Edge(user, target)]
  }

  /**
    The table after `user` follows `ids`: every missing edge is attached
    at the end, existing rows stay where they are.
   */
  function Synced(table: seq<Edge>, user: int, ids: seq<int>): (r: seq<Edge>)
    decreases |ids|
    ensures table <= r
    ensures forall e :: e in r <==> e in table || (e.followerId == user && e.userId in ids)
    ensures forall i :: |table| <= i < |r| ==> r[i].followerId == user && r[i].userId in ids
  {
    if ids == [] then table
    else
      var last := |ids| - 1;
      assert ids == ids[..last] + [ids[last]];
      Attach(Synced(table, user, ids[..last]), user, ids[last])
  }

  /** Synced never introduces a duplicate row. */
  lemma {:induction false} SyncedNoDuplicates(table: seq<Edge>, user: int, ids: seq<int>)
    requires NoDuplicates(table)
    ensures NoDuplicates(Synced(table, user, ids))
    decreases |ids|
  {
    if ids != [] {
      var last := |ids| - 1;
      SyncedNoDuplicates(table, user, ids[..last]);
    }
  }

  /** Following ids that are all followed already changes nothing. */
  lemma {:induction false} SyncedAlreadyFollowed(table: seq<Edge>, user: int, ids: seq<int>)
    requires forall t :: t in ids ==> Edge(user, t) in table
    ensures Synced(table, user, ids) == table
    decreases |ids|
  {
    if ids != [] {
      var last := |ids| - 1;
      SyncedAlreadyFollowed(table, user, ids[..last]);
      assert ids[last] in ids;
    }
  }

  /** Following the same targets twice gives the same table as following them once. */
  lemma SyncedIdempotent(table: seq<Edge>, user: int, ids: seq<int>)
    ensures Synced(Synced(table, user, ids), user, ids) == Synced(table, user, ids)
  {
    SyncedAlreadyFollowed(Synced(table, user, ids), user, ids);
  }

  /** Following a list in one call is the same as following its two halves in turn. */
  lemma {:induction false} SyncedConcat(table: seq<Edge>, user: int, a: seq<int>, b: seq<int>)
    ensures Synced(table, user, a + b) == Synced(Synced(table, user, a), user, b)
    decreases |b|
  {
    if b == [] {
      assert a + b == a;
    } else {
      var last := |b| - 1;
      assert (a + b)[..|a + b| - 1] == a + b[..last];
      assert (a + b)[|a + b| - 1] == b[last];
      SyncedConcat(table, user, a, b[..last]);
    }
  }

  /** A follow by `user` leaves everybody else's followings unchanged, in the model's row order as well. */
  lemma {:induction false} SyncedKeepsOthers(table: seq<Edge>, user: int, ids: seq<int>, other: int)
    requires other != user
    ensures Followings(Synced(table, user, ids), other) == Followings(table, other)
    decreases |ids|
  {
    if ids != [] {
      var last := |ids| - 1;
      var before := Synced(table, user, ids[..last]);
      SyncedKeepsOthers(table, user, ids[..last], other);
      if Edge(user, ids[last]) !in before {
        FollowingsAppendOther(before, Edge(user, ids[last]), other);
      }
    }
  }

  // ---------------------------------------------------------------------
  // unfollow: a detach

  /** Whether the row is one that unfollow(user, ids) deletes. */
  predicate Detaches(e: Edge, user: int, ids: seq<int>)
  {
    e.followerId == user && e.userId in ids
  }

  /**
    The table after `user` unfollows `ids`: the rows from `user` to an id
    in `ids` are deleted, all other rows stay (in the model's row order).
   */
  function Detached(table: seq<Edge>, user: int, ids: seq<int>): (r: seq<Edge>)
    ensures forall e :: e in r <==> e in table && !Detaches(e, user, ids)
    ensures |r| <= |table|
  {
    if table == [] then []
    else
      var rest := Detached(table[1..], user, ids);
      if Detaches(table[0], user, ids) then rest else [table[0]] + rest
  }

  /** Detaching distributes over the concatenation of two tables. */
  lemma {:induction false} DetachedConcat(a: seq<Edge>, b: seq<Edge>, user: int, ids: seq<int>)
    ensures Detached(a + b, user, ids) == Detached(a, user, ids) + Detached(b, user, ids)
  {
    if a == [] {
      assert a + b == b;
    } else {
      assert (a + b)[1..] == a[1..] + b;
      DetachedConcat(a[1..], b, user, ids);
    }
  }

  /** Detach never introduces a duplicate row. */
  lemma {:induction false} DetachedNoDuplicates(table: seq<Edge>, user: int, ids: seq<int>)
    requires NoDuplicates(table)
    ensures NoDuplicates(Detached(table, user, ids))
  {
    if table != [] {
      var rest := table[1..];
      assert NoDuplicates(rest) by {
        forall i, j | 0 <= i < j < |rest| ensures rest[i] != rest[j] {
          assert rest[i] == table[i + 1] && rest[j] == table[j + 1];
        }
      }
      DetachedNoDuplicates(rest, user, ids);
      assert table[0] !in rest by {
        forall k | 0 <= k < |rest| ensures rest[k] != table[0] {
          assert rest[k] == table[k + 1];
        }
      }
    }
  }

  /** Unfollowing ids that are not followed leaves the table exactly as it was. */
  lemma {:induction false} DetachedNotFollowed(table: seq<Edge>, user: int, ids: seq<int>)
    requires forall t :: t in ids ==> Edge(user, t) !in table
    ensures Detached(table, user, ids) == table
  {
    if table != [] {
      assert table[0] in table;
      DetachedNotFollowed(table[1..], user, ids);
      assert table == [table[0]] + table[1..];
    }
  }

  /** An unfollow by `user` leaves everybody else's followings unchanged, in the model's row order as well. */
  lemma {:induction false} DetachedKeepsOthers(table: seq<Edge>, user: int, ids: seq<int>, other: int)
    requires other != user
    ensures Followings(Detached(table, user, ids), other) == Followings(table, other)
  {
    if table != [] {
      DetachedKeepsOthers(table[1..], user, ids, other);
      var rest := Detached(table[1..], user, ids);
      if !Detaches(table[0], user, ids) {
        assert ([table[0]] + rest)[1..] == rest;
      }
    }
  }

  /** Detaching a table of rows that all match leaves nothing. */
  lemma {:induction false} DetachedAll(table: seq<Edge>, user: int, ids: seq<int>)
    requires forall i :: 0 <= i < |table| ==> Detaches(table[i], user, ids)
    ensures Detached(table, user, ids) == []
  {
    if table != [] {
      assert Detaches(table[0], user, ids);
      DetachedAll(table[1..], user, ids);
    }
  }

  /**
    Unfollowing the ids just followed removes the same rows as unfollowing
    them straight away: the follow leaves no trace.
   */
  lemma DetachAfterSync(table: seq<Edge>, user: int, ids: seq<int>)
    ensures Detached(Synced(table, user, ids), user, ids) == Detached(table, user, ids)
  {
    var r := Synced(table, user, ids);
    var added := r[|table|..];
    assert r == table + added;
    DetachedConcat(table, added, user, ids);
    DetachedAll(added, user, ids);
    assert Detached(table, user, ids) + [] == Detached(table, user, ids);
  }

  /** Following one id twice leaves exactly one row for it. */
  lemma FollowTwiceOneRow(table: seq<Edge>, user: int, target: int)
    requires NoDuplicates(table)
    ensures multiset(Synced(Synced(table, user, [target]), user, [target]))[Edge(user, target)] == 1
  {
    var r := Synced(Synced(table, user, [target]), user, [target]);
    SyncedNoDuplicates(table, user, [target]);
    SyncedNoDuplicates(Synced(table, user, [target]), user, [target]);
    NoDuplicatesCount(r, Edge(user, target));
    assert Edge(user, target) in r;
  }

  /** Unfollowing the same ids twice gives the same table as unfollowing them once. */
  lemma DetachedIdempotent(table: seq<Edge>, user: int, ids: seq<int>)
    ensures Detached(Detached(table, user, ids), user, ids) == Detached(table, user, ids)
  {
    DetachedNotFollowed(Detached(table, user, ids), user, ids);
  }
}
