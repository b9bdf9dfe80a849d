/**
  The feed of the User model: the followed ids plus the viewer's own id
  are collected first, the statuses whose author is one of them are kept
  (a `whereIn` on `user_id`), and the result is ordered by `created_at`,
  newest first. The ordering has no secondary key, so among statuses
  with equal `created_at` any order is a correct answer: IsFeed states
  what every correct answer satisfies and Feed computes one of them.
 */
module Feed {
  import opened Follows

  /** A row of the statuses table, reduced to the columns the feed reads. */
  datatype Status = Status(id: int, userId: int, createdAt: int)

  /** The author ids the feed of `viewer` shows: the followed ids, then the viewer. */
  function AuthorIds(table: seq<Edge>, viewer: int): (r: seq<int>)
    ensures forall a :: a in r <==> a == viewer || IsFollowing(table, viewer, a)
  {
    Followings(table, viewer) + [viewer]
  }

  /** Whether `viewer`'s feed shows the statuses authored by `author`. */
  predicate Shows(table: seq<Edge>, viewer: int, author: int)
  {
    author == viewer || IsFollowing(table, viewer, author)
  }

  /**
    The statuses whose author is in `ids`, in the order of `statuses`. Each kept
    status occurs as often as in the table, however often its author
    occurs in `ids`.
   */
  function WhereIn(statuses: seq<Status>, ids: seq<int>): (r: seq<Status>)
    ensures forall s :: multiset(r)[s] == if s.userId in ids then multiset(statuses)[s] else 0
    ensures |r| <= |statuses|
  {
    if statuses == [] then []
    else
      var rest := WhereIn(statuses[1..], ids);
      assert statuses == [statuses[0]] + statuses[1..];
      if statuses[0].userId in ids then [statuses[0]] + rest else rest
  }

  /** Ordered by `created_at` descending: no status is older than one after it. */
  predicate NewestFirst(s: seq<Status>)
  {
    forall i, j :: 0 <= i < j < |s| ==> s[i].createdAt >= s[j].createdAt
  }

  /** Insert `x` into a newest-first sequence, keeping it newest first. */
  function InsertNewest(x: Status, s: seq<Status>): (r: seq<Status>)
    requires NewestFirst(s)
    ensures NewestFirst(r)
    ensures multiset(r) == multiset(s) + multiset{x}
    ensures |r| == |s| + 1
    ensures r[0] == x || (s != [] && r[0] == s[0])
  {
    if s == [] || x.createdAt >= s[0].createdAt then
      [x] + s
    else
      assert s == [s[0]] + s[1..];
      [s[0]] + InsertNewest(x, s[1..])
  }

  /** Some ordering of `s` by `created_at` descending. */
  function OrderByNewest(s: seq<Status>): (r: seq<Status>)
    ensures NewestFirst(r)
    ensures multiset(r) == multiset(s)
  {
    if s == [] then []
    else
      assert s == [s[0]] + s[1..];
      InsertNewest(s[0], OrderByNewest(s[1..]))
  }

  /**
    Every answer the feed query may return: exactly the statuses of the
    shown authors, each as often as it occurs, ordered newest first in
    some order among equal times.
   */
  ghost predicate IsFeed(table: seq<Edge>, viewer: int, statuses: seq<Status>, r: seq<Status>)
    ensures IsFeed(table, viewer, statuses, r) ==>
      forall s :: s in r <==> s in statuses && Shows(table, viewer, s.userId)
  {
    && NewestFirst(r)
    && forall s :: multiset(r)[s] == if Shows(table, viewer, s.userId) then multiset(statuses)[s] else 0
  }

  /** The feed of `viewer`: one of the answers IsFeed allows. */
  function Feed(table: seq<Edge>, viewer: int, statuses: seq<Status>): (r: seq<Status>)
    ensures NewestFirst(r)
    ensures forall s :: multiset(r)[s] == if Shows(table, viewer, s.userId) then multiset(statuses)[s] else 0
    ensures forall s :: s in r <==> s in statuses && Shows(table, viewer, s.userId)
  {
    OrderByNewest(WhereIn(statuses, AuthorIds(table, viewer)))
  }

  lemma FeedIsFeed(table: seq<Edge>, viewer: int, statuses: seq<Status>)
    ensures IsFeed(table, viewer, statuses, Feed(table, viewer, statuses))
  {
  }

  // ---------------------------------------------------------------------
  // Each status at most once

  lemma RepeatedCount(s: seq<Status>, i: int, j: int)
    requires 0 <= i < j < |s| && s[i] == s[j]
    ensures multiset(s)[s[i]] >= 2
  {
    assert s == s[..j] + [s[j]] + s[j + 1..];
    assert s[i] in s[..j];
  }

  /**
    A statuses table holding each row once gives a feed holding each row
    once, also when the viewer follows themself.
   */
  lemma FeedAtMostOnce(table: seq<Edge>, viewer: int, statuses: seq<Status>)
    requires NoDuplicates(statuses)
    ensures NoDuplicates(Feed(table, viewer, statuses))
  {
    var r := Feed(table, viewer, statuses);
    forall i, j | 0 <= i < j < |r| ensures r[i] != r[j] {
      if r[i] == r[j] {
        RepeatedCount(r, i, j);
        NoDuplicatesCount(statuses, r[i]);
      }
    }
  }

  /** A self-follow row does not change which statuses the feed holds. */
  lemma SelfFollowSameFeed(table: seq<Edge>, viewer: int, statuses: seq<Status>)
    ensures multiset(Feed(table + [Edge(viewer, viewer)], viewer, statuses))
         == multiset(Feed(table, viewer, statuses))
  {
  }

  // ---------------------------------------------------------------------
  // The order is fixed up to ties

  /** The `created_at` column of a sequence of statuses. */
  function Times(s: seq<Status>): (r: seq<int>)
    ensures |r| == |s| && forall i :: 0 <= i < |s| ==> r[i] == s[i].createdAt
  {
    seq(|s|, i requires 0 <= i < |s| => s[i].createdAt)
  }

  lemma TimesConcat(a: seq<Status>, b: seq<Status>)
    ensures Times(a + b) == Times(a) + Times(b)
  {
  }

  /** Taking out the status at `k` takes one copy of it out of the multiset. */
  lemma RemoveAt(b: seq<Status>, k: int)
    requires 0 <= k < |b|
    ensures multiset(b[..k] + b[k + 1..]) == multiset(b) - multiset{b[k]}
  {
    assert b == b[..k] + [b[k]] + b[k + 1..];
    assert multiset(b) == multiset(b[..k]) + multiset{b[k]} + multiset(b[k + 1..]);
  }

  /** ... and one copy of its time out of the multiset of times. */
  lemma RemoveAtTimes(b: seq<Status>, k: int)
    requires 0 <= k < |b|
    ensures multiset(Times(b)) == multiset(Times(b[..k] + b[k + 1..])) + multiset{b[k].createdAt}
  {
    var front, back := b[..k], b[k + 1..];
    var tb := Times(b);
    assert tb == tb[..k] + [tb[k]] + tb[k + 1..];
    assert tb[..k] == Times(front);
    assert tb[k + 1..] == Times(back);
    TimesConcat(front, back);
    assert multiset(tb) == multiset(Times(front)) + multiset{b[k].createdAt} + multiset(Times(back));
  }

  lemma {:induction false} TimesMultiset(a: seq<Status>, b: seq<Status>)
    requires multiset(a) == multiset(b)
    ensures multiset(Times(a)) == multiset(Times(b))
    decreases |a|
  {
    if a == [] {
      assert |b| == |multiset(b)| == 0;
      assert b == [] && Times(a) == Times(b);
    } else {
      assert a[0] in multiset(b);
      var k :| 0 <= k < |b| && b[k] == a[0];
      var a', b' := a[1..], b[..k] + b[k + 1..];
      assert a == [a[0]] + a';
      RemoveAt(b, k);
      assert multiset(a') == multiset(b');
      TimesMultiset(a', b');
      TimesConcat([a[0]], a');
      assert Times([a[0]]) == [a[0].createdAt];
      assert Times(a) == [a[0].createdAt] + Times(a');
      assert multiset(Times(a)) == multiset{a[0].createdAt} + multiset(Times(a'));
      RemoveAtTimes(b, k);
      assert multiset(Times(b)) == multiset(Times(b')) + multiset{a[0].createdAt};
    }
  }

  predicate NonIncreasing(s: seq<int>)
  {
    forall i, j :: 0 <= i < j < |s| ==> s[i] >= s[j]
  }

  lemma {:induction false} NonIncreasingUnique(x: seq<int>, y: seq<int>)
    requires NonIncreasing(x) && NonIncreasing(y)
    requires multiset(x) == multiset(y)
    ensures x == y
    decreases |x|
  {
    if x == [] {
      assert |y| == |multiset(y)| == 0;
    } else {
      assert y != [] by {
        assert x[0] in multiset(x);
      }
      assert x == [x[0]] + x[1..];
      assert y == [y[0]] + y[1..];
      assert x[0] <= y[0] by {
        assert x[0] in multiset(y);
        var i :| 0 <= i < |y| && y[i] == x[0];
      }
      assert y[0] <= x[0] by {
        assert y[0] in multiset(x);
        var i :| 0 <= i < |x| && x[i] == y[0];
      }
      assert multiset(x) == multiset{x[0]} + multiset(x[1..]);
      assert multiset(y) == multiset{y[0]} + multiset(y[1..]);
      assert multiset(x[1..]) == multiset(x) - multiset{x[0]};
      assert multiset(y[1..]) == multiset(y) - multiset{y[0]};
      NonIncreasingUnique(x[1..], y[1..]);
    }
  }

  /**
    Any two answers the feed query may return list the same `created_at`
    values in the same positions: they differ only in the order of
    statuses posted at the same time.
   */
  lemma FeedOrderFixedUpToTies(table: seq<Edge>, viewer: int, statuses: seq<Status>, a: seq<Status>, b: seq<Status>)
    requires IsFeed(table, viewer, statuses, a) && IsFeed(table, viewer, statuses, b)
    ensures Times(a) == Times(b)
  {
    assert multiset(a) == multiset(b);
    TimesMultiset(a, b);
    NonIncreasingUnique(Times(a), Times(b));
  }

  // ---------------------------------------------------------------------
  // The feed after follow and unfollow

  /** After following `ids`, every status by one of them is in the feed. */
  lemma FeedAfterFollow(table: seq<Edge>, viewer: int, ids: seq<int>, statuses: seq<Status>, s: Status)
    requires s in statuses && s.userId in ids
    ensures s in Feed(Synced(table, viewer, ids), viewer, statuses)
  {
  }

  /**
    After unfollowing `ids`, no status by one of them (other than the
    viewer) is in the feed, however old it is: the feed is recomputed from
    the current table.
   */
  lemma FeedAfterUnfollow(table: seq<Edge>, viewer: int, ids: seq<int>, statuses: seq<Status>, s: Status)
    requires s.userId in ids && s.userId != viewer
    ensures s !in Feed(Detached(table, viewer, ids), viewer, statuses)
  {
  }
}
