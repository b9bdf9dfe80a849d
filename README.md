# Social graph and feed of the Weibo `User` model

This project models the follow relation and the status feed of the
`User` model of a small micro-blogging application. The model proves
properties about them in Dafny.

- The `followers` join table holds directed edges. A row
  (`follower_id`, `user_id`) means "follower follows user". It is modelled
  as a sequence of its rows (`Follows.Edge`). The order of that sequence is
  the model's own: the source's queries have no `orderBy`, so only the
  membership and the count of rows follow the source.
- `followings` and `followers` read that table in the two directions.
  `isFollowing` tests membership in the followings.
- `follow` is a sync that does not detach: it inserts the missing rows and
  keeps the existing ones.
- `unfollow` is a detach: it deletes the rows from the user to the given
  ids.
- Both accept one id or an array of ids (`Follows.UserIds`). A single id
  is wrapped into a one-element list, as `compact` does in the source.
- `feed` collects the followed ids plus the user's own id. It keeps the
  statuses whose `user_id` is one of them and orders them by `created_at`,
  newest first.

Layout:

- `follows.dfy`, module `Follows`: the rows, the three queries, and the two
  updates as functions from the old table to the new one (`Synced`,
  `Detached`), with their lemmas.
- `followers_table.dfy`, module `FollowersTable`: class `Table`, whose
  `Follow` and `Unfollow` change the rows in place. `Follow` loops over the
  ids and attaches each missing row, as the sync does. `Unfollow` deletes
  in one step, as the single `DELETE ... WHERE user_id IN (...)` does.
  `Valid()` says that no row is stored twice, and both methods keep it.
- `feed.dfy`, module `Feed`: the statuses (`Status` with `id`, `userId`,
  `createdAt`), the `whereIn` filter, the ordering, and the feed.

The ordering has no secondary key, so among statuses posted at the same
`created_at` any order is a correct answer. `Feed.IsFeed` describes every
correct answer. `Feed.Feed` computes one of them with an insertion sort;
its contract states only what every correct answer satisfies.
`Feed.FeedOrderFixedUpToTies` proves that any two correct answers agree on
the `created_at` at every position.

Three behaviours of the code differ from what one might expect of such a
feed; the model follows the code in each:

- Deterministic paging would call for a tie-break by record id. The code
  orders by `created_at` alone, so the model assumes no tie-break.
- One might expect posts from an unfollowed account to stay visible if
  they were posted before the unfollow. The code computes the feed from
  the followings as loaded, and each request loads them fresh from the
  table. So once the unfollow is stored, none of that account's posts are
  shown, old or new (`Feed.FeedAfterUnfollow`).
- `isFollowing` and `feed` read the loaded `followings` relation, not the
  table itself. The model reads the current table (see "Left out").

## Model

| member | source | states |
|---|---|---|
| `Follows.IdList` | app/Models/User.php:92-94 | an array of ids is taken as it is; a single id becomes a one-element list (the same step as lines 101-103 of unfollow); the ids it stands for are exactly the given ones |
| `Follows.Followings` | app/Models/User.php:84-87 | t is among the followings of u exactly when the row (u, t) is in the table |
| `Follows.Followers` | app/Models/User.php:78-81 | a is among the followers of u exactly when the row (a, u) is in the table |
| `Follows.IsFollowing` | app/Models/User.php:108-111 | true exactly when the row (user, target) exists; rows with another follower do not count |
| `Follows.FollowersMirrorFollowings` | app/Models/User.php:78-87 | a is among b's followers exactly when b is among a's followings |
| `Follows.FollowingsNoDuplicates` | app/Models/User.php:84-87 | a table without duplicate rows lists each following once |
| `Follows.Attach` | app/Models/User.php:95 | one per-id step of the sync: the old rows stay as a prefix; afterwards the rows are the old ones plus (user, target); the row is added only when missing, so a duplicate-free table stays duplicate-free |
| `Follows.Synced` | app/Models/User.php:95 | follow keeps the old rows as a prefix (nothing removed or reordered); afterwards the rows are the old ones plus (user, t) for every t in the ids; every appended row goes from user to one of the ids |
| `Follows.SyncedNoDuplicates` | app/Models/User.php:95 | follow never creates a duplicate row |
| `Follows.SyncedAlreadyFollowed` | app/Models/User.php:95 | following ids that are all followed already leaves the table unchanged |
| `Follows.SyncedIdempotent` | app/Models/User.php:95 | following the same ids twice gives the same table as following them once |
| `Follows.FollowTwiceOneRow` | app/Models/User.php:90-96 | on a table without duplicate rows, following one id twice leaves exactly one row from the user to it |
| `Follows.SyncedConcat` | app/Models/User.php:95 | following a + b in one call gives the same table as following a and then b |
| `Follows.SyncedKeepsOthers` | app/Models/User.php:90-96 | a follow by one user leaves every other user's followings unchanged (also in the model's row order) |
| `Follows.Detached` | app/Models/User.php:104 | after unfollow, a row remains exactly when it was there and does not go from the user to one of the ids |
| `Follows.DetachedNoDuplicates` | app/Models/User.php:104 | unfollow keeps a duplicate-free table duplicate-free |
| `Follows.DetachedNotFollowed` | app/Models/User.php:99-105 | unfollowing ids that are not followed leaves the table exactly as it was |
| `Follows.DetachedIdempotent` | app/Models/User.php:99-105 | unfollowing the same ids twice gives the same table as unfollowing them once; the second unfollow is a no-op |
| `Follows.DetachedKeepsOthers` | app/Models/User.php:99-105 | an unfollow by one user leaves every other user's followings unchanged (also in the model's row order) |
| `Follows.DetachAfterSync` | app/Models/User.php:90-105 | following ids and then unfollowing them gives the same table as unfollowing them at once |
| `FollowersTable.Table.Follow` | app/Models/User.php:90-96 | the new rows are the old rows synced with the ids; a single id acts as a one-element list; old rows are kept as a prefix; afterwards user follows every given id; other users' followings are unchanged; no duplicate row is created |
| `FollowersTable.Table.Unfollow` | app/Models/User.php:99-105 | the new rows are the old rows with the user's rows to the ids removed; a single id acts as a one-element list; afterwards user follows none of the ids; all other rows stay; other users' followings are unchanged; no duplicate is created |
| `Feed.AuthorIds` | app/Models/User.php:69-70 | the ids are exactly the viewer and the users the viewer follows |
| `Feed.WhereIn` | app/Models/User.php:71-72 | a status is kept as often as it occurs in the table when its author is in the ids, and not at all otherwise, however often its author is listed |
| `Feed.OrderByNewest` | app/Models/User.php:74 | the result is ordered by created_at non-increasing and is a permutation of the input |
| `Feed.Feed` | app/Models/User.php:66-75 | ordered newest first; holds exactly the statuses by the viewer or by someone the viewer follows, each as often as in the statuses table; the viewer's own posts are there even with no followings |
| `Feed.IsFeed` | app/Models/User.php:71-74 | every answer the query may return: ordered newest first, and each status occurs as often as in the table when its author is the viewer or followed by the viewer, and not at all otherwise; so such an answer holds exactly those statuses |
| `Feed.FeedIsFeed` | app/Models/User.php:66-75 | the computed feed is one of the answers the query may return |
| `Feed.FeedAtMostOnce` | app/Models/User.php:69-72 | when no status occurs twice in the table, none occurs twice in the feed, even when the viewer follows themself |
| `Feed.SelfFollowSameFeed` | app/Models/User.php:69-72 | a self-follow row does not change which statuses the feed holds |
| `Feed.FeedOrderFixedUpToTies` | app/Models/User.php:74 | any two correct answers have the same created_at at every position: they differ only among statuses with equal created_at |
| `Feed.FeedAfterFollow` | app/Models/User.php:66-75 | after following ids, every status by one of them is in the feed |
| `Feed.FeedAfterUnfollow` | app/Models/User.php:66-75 | after unfollowing ids, no status by one of them (other than the viewer) is in the feed, whenever it was posted |

## Left out

- `gravatar` (app/Models/User.php:46-50): it depends on `md5`, a foreign hash function; the rest is URL formatting.
- The activation token set in the `creating` hook (app/Models/User.php:52-59): it comes from `Str::random` and a boot-time framework event. The account lifecycle (registration, email confirmation, profile update, deletion) is not part of this model.
- The mass-assignment, hidden and cast settings (app/Models/User.php:21-44): framework configuration.
- `statuses()` (app/Models/User.php:61-64): the has-many relation is represented only by the `userId` field of `Feed.Status`. The `Status` model is not part of this model and is a plain record here.
- app/Http/Controllers/UsersController.php: HTTP glue for views, validation, password hashing, login, session flash and authorization.
- Eloquent plumbing: `isFollowing` (app/Models/User.php:110) and `feed` (app/Models/User.php:69) read a lazily loaded, cached copy of the followings, which `sync` and `detach` do not refresh. The model always reads the current table, so a copy that is stale within one request is not modelled: `Feed.FeedAfterFollow` and `Feed.FeedAfterUnfollow` hold for followings loaded after the change.
- Eloquent plumbing, continued: `with('user')` eager loading, the pivot timestamps of `withTimestamps`, the query builder and pagination. The feed is a function that returns the whole sequence.
- A `null` or non-integer id passed to `follow`/`unfollow`: ids are integers here.
- The join with the `users` table: `followings()` and `followers()` are many-to-many relations, whose query lists only rows whose other end is an existing user. The model assumes every id names an existing user and lists every row. A foreign key on the pivot table, which could refuse a row for a missing user, is not modelled either.
- Concurrency and store-level uniqueness constraints: the code implements neither. The model runs one operation at a time, and no duplicate rows follow from `Follow` alone.
