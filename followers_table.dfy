/**
  The `followers` join table as the User model changes it: `follow`
  inserts the missing rows and `unfollow` deletes rows, both in place.
  Only these two operations write the table, so no row is ever stored
  twice (Valid).
 */
module FollowersTable {
  import opened Follows

  class Table {
    /** The rows (follower_id, user_id); their order is the model's own. */
    var rows: seq<Edge>

    ghost predicate Valid()
      reads this
    {
      NoDuplicates(rows)
    }

    constructor ()
      ensures Valid() && rows == []
    {
      rows := [];
    }

    /**
      `user` follows `userIds` (one id or a list): a sync that does not
      detach, so every missing row is inserted and existing rows are kept.
     */
    method Follow(user: int, userIds: UserIds)
      requires Valid()
      modifies this
      ensures Valid()
      ensures rows == Synced(old(rows), user, IdList(userIds))
      ensures userIds.One? ==> rows == Synced(old(rows), user, [userIds.id])
      ensures old(rows) <= rows
      ensures forall t :: t in IdList(userIds) ==> IsFollowing(rows, user, t)
      ensures forall other :: other != user ==> Followings(rows, other) == Followings(old(rows), other)
    {
      var ids := IdList(userIds);
      var i := 0;
      while i < |ids|
        invariant 0 <= i <= |ids|
        invariant rows == Synced(old(rows), user, ids[..i])
        invariant NoDuplicates(rows)
      {
        assert ids[..i + 1][..i] == ids[..i];
        rows := Attach(rows, user, ids[i]);
        i := i + 1;
      }
      assert ids[..|ids|] == ids;
      forall other | other != user
        ensures Followings(rows, other) == Followings(old(rows), other)
      {
        SyncedKeepsOthers(old(rows), user, ids, other);
      }
    }

    /**
      `user` unfollows `userIds` (one id or a list): the rows from `user`
      to those ids are deleted, every other row stays.
     */
    method Unfollow(user: int, userIds: UserIds)
      requires Valid()
      modifies this
      ensures Valid()
      ensures rows == Detached(old(rows), user, IdList(userIds))
      ensures userIds.One? ==> rows == Detached(old(rows), user, [userIds.id])
      ensures forall t :: t in IdList(userIds) ==> !IsFollowing(rows, user, t)
      ensures forall e :: e in old(rows) && !Detaches(e, user, IdList(userIds)) ==> e in rows
      ensures forall other :: other != user ==> Followings(rows, other) == Followings(old(rows), other)
    {
      var ids := IdList(userIds);
      DetachedNoDuplicates(rows, user, ids);
      forall other | other != user
        ensures Followings(Detached(rows, user, ids), other) == Followings(rows, other)
      {
        DetachedKeepsOthers(rows, user, ids, other);
      }
      rows := Detached(rows, user, ids);
    }
  }
}
