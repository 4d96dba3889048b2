# OTHer core, modelled in Dafny

OTHer is a small Express/PostgreSQL microblog. Users sign up, post short
texts ("others"), delete their own posts, follow other users, read a feed of
the users they follow, and search users by name. This project models the
logic of those route handlers in `app.js`.

The database is an immutable `Store` of three sequences: `users`, `posts`
(the `others` table) and `follows` edges. Each SQL statement becomes a
function over those sequences. A handler that writes is a pure transition
`Store -> Step(store, outcome)`. A handler that reads is a function or a
method whose loops mirror the JavaScript loops.

The session is a `Viewer = Option<int>`. The bcrypt hash is a function
parameter `hash`. Clock values are plain integers passed in as `now`.

Files:
- `seqs.dfy`: the sequence vocabulary (`Filter`, subsequence, distinct keys, dense key ranges `1..N`).
- `ranks.dfy`: the rank of a key among the keys of a sequence (`row_number()` over an id column).
- `text.dfy`: substring matching (`LIKE '%input%'`).
- `model.dfy`: the tables, the id invariant `Valid` and request outcomes.
- `registration.dfy`, `ledger.dfy`, `follows.dfy`: the writing handlers.
- `feed.dfy`, `search.dfy`: the subscriptions page and the user search.
- `app.dfy`: all writing requests as one transition function, with the invariant kept over any run.

The central invariant is `Model.Valid`. User and post ids are exactly
`1..N` and user names are unique. Both inserts choose "row count + 1" as the
new id. The comment at `app.js:318` says this works only because a delete
renumbers the surviving posts. The model proves that every request keeps
`Valid`, so "count + 1" is always fresh.

Three points about the handlers shape the model:
- Posting while logged out: the handler sends no reply and writes nothing (`Outcome.NoReply`).
- A delete of a missing post gets the same `NotOwner` page as a delete of someone else's post (`app.js:309-312`).
- Search augmentation first matches each hit to a follow-flag row by `user_id`, then merges the i-th match into the i-th hit by position (`app.js:463-477`). `Search.Search` proves that these positions always line up.

## Model

| member | source | states |
|---|---|---|
| Registration.Register | app.js:64-111 | The checks run in this order: missing username, missing password or confirmation, taken name, mismatch. The first failure is reported and nothing is written. The request succeeds iff all checks pass. Then exactly one user is appended with id `count + 1`, the hash of the password, the picture `default` and the fixed greeting bio. |
| Registration.RegisterPreservesValid | app.js:86-91 | From a valid store, registration keeps user ids exactly `1..N` and names unique. The id `count + 1` it hands out belongs to no existing user. |
| Registration.SecondRegistrationRejected | app.js:80-82 | Registering a name that was just registered fails with "name taken". The first account stays as created. |
| Ledger.CreatePost | app.js:280-303 | Empty text is rejected before the session is checked. A logged-out poster gets no reply. Either way the store is unchanged. Otherwise exactly one post `(count + 1, viewer, text, now)` is appended and the other tables stay the same. |
| Ledger.CreatePreservesValid | app.js:288-291 | If post ids are `1..N`, then `N + 1` is fresh and afterwards the ids are `1..N+1`. |
| Ledger.RenumberFacts | app.js:319 | Renumbering by rank keeps author, text and time. It keeps the relative order of ids in both directions and maps ids into `1..N`. It makes distinct ids dense and leaves a dense table unchanged. |
| Ledger.DeletePost | app.js:306-330 | Logged out or not owning a post with that id means refusal with the store unchanged. A delete succeeds iff the viewer owns such a post. Then the posts are the survivors without that id, renumbered by rank, and the other tables stay the same. |
| Ledger.DeleteShiftsIds | app.js:315-319 | In a valid store a permitted delete removes exactly the post with id `k`. Every other post keeps its position and contents; its id drops by one iff it was above `k`. |
| Ledger.DeletePreservesValid | app.js:318-319 | After a permitted delete the ids are exactly `1..N-1`. A refused delete keeps the store valid. |
| Ledger.DeleteUndoesCreate | app.js:288-319 | Deleting the post one has just created restores the original store. |
| FollowGraph.Follow | app.js:374-386 | Logged out means refusal with the store unchanged. Otherwise exactly the edge `(viewer, target)` is appended, without checking for duplicates, self-follows or unknown targets. |
| FollowGraph.Unfollow | app.js:388-400 | Logged out means refusal with the store unchanged. Otherwise the follows table is filtered to drop the edge `(viewer, target)`. |
| FollowGraph.UnfollowRemovesOnlyThatEdge | app.js:392 | After unfollowing, the edge is gone. Every other edge keeps its number of copies and the remaining edges keep their order. |
| FollowGraph.ProfileCountsAreEdgeCounts | app.js:185-187 | The two profile counts are the numbers of follow rows with `followee = u` and with `follower = u`. |
| FollowGraph.FollowCounts | app.js:378 | A follow raises the target's followee count and the viewer's follower count by one, even for a duplicate edge. No other count changes. |
| FollowGraph.UnfollowCounts | app.js:392 | An unfollow lowers the two ends' counts by the number of copies of the edge. No other count changes. |
| Feed.Join | app.js:406 | A row is in the join iff it pairs a post with a user whose id is the post's author. |
| Feed.JoinDistinct | app.js:406 | With unique post ids and unique user ids, each post id appears in at most one join row. |
| Feed.ByCreatedDesc | app.js:406 | The sort is a permutation (same multiset of rows) and is newest first. |
| Feed.FollowFlags | app.js:405 | Every flag row belongs to an existing user other than the viewer, and every such user has a flag row. Every flag is true exactly when the viewer follows that user. |
| Feed.FlagsAgree | app.js:405 | For an existing user, some flag row says "followed" iff the user is not the viewer and the edge `(viewer, user)` exists. |
| Feed.PushIfFollowed | app.js:411-416 | The inner loop appends the feed row exactly when some flag row for its author says "followed", and appends it at most once. |
| Feed.CollectFollowed | app.js:410-417 | The outer loop over the feed keeps exactly the rows that the inner flag test accepts, in feed order. |
| Feed.FlagKeepIsFollowedBy | app.js:405-417 | On the joined feed, the flag-row test selects the same rows as "author is not the viewer and is followed by the viewer". |
| Feed.Subscriptions | app.js:403-434 | Only a logged-out viewer is denied. The nested loop computes exactly the declarative subscribed feed. The "nothing subscribed" message appears iff that feed is empty. |
| Feed.SubscribedFeedFacts | app.js:405-417 | The subscribed feed is a subsequence of the newest-first joined feed and stays newest first. A row is in it iff it is a join row whose author is not the viewer and is followed by the viewer. In a valid store every post appears at most once. |
| Text.ContainsIffOccurs | app.js:454 | The left-to-right substring scan succeeds iff some window of the name equals the input. |
| Search.SearchHitsMembers | app.js:454 | The hits are the users, in table order with each row once, whose name contains the input, minus the excluded viewer. |
| Search.EmptySearchListsEveryone | app.js:490 | An anonymous search for the empty string lists the whole user table. |
| Search.LoggedInSearchDropsOnlySelf | app.js:454 | The logged-in hits are the anonymous hits with only the searcher's own rows removed. |
| Search.HitFlag | app.js:454-458 | Every logged-in hit has a flag row with its id, since both queries exclude only the viewer. Every such row carries the true follow state. |
| Search.PushFirstMatch | app.js:465-471 | The inner loop appends the first flag row with the hit's id when one exists, and nothing otherwise. |
| Search.Search | app.js:447-499 | An empty hit list selects "no results". Anonymous searchers get the plain hits. Logged-in searchers get one row per hit, in order. The row for hit `i` is hit `i` itself with its true follow state, so the positional merge never misaligns. |
| Search.FollowShowsInSearch | app.js:502-514 | After following from the search page, the target's row in the next search shows "followed" and no other row changes. |
| Search.UnfollowShowsInSearch | app.js:516-528 | After unfollowing, the target's row shows "not followed" and no other row changes. |
| App.Handle | app.js:64-400 | A refused or unanswered request of any kind leaves the store unchanged. |
| App.HandlePreservesValid | app.js:318 | Every write request keeps the id invariant. |
| App.RunPreservesValid | app.js:318 | After any sequence of requests from a valid store, user and post ids are exactly `1..N` and "count + 1" is fresh in both tables. |

## Left out

- Login, logout and the bcrypt comparison are not modelled. Hashing is the parameter `hash`; the comparison is an external library.
- The dashboard, the other users' pages and the `/users` positional merge are not modelled. That merge relies on two unordered queries returning rows in the same order, which nothing establishes.
- Bio updates and profile-picture upload are not modelled. They are unconditional overwrites plus file-system I/O.
- `import.js` is not part of this model. It is CSV parsing and bulk inserts.
- Express routing, sessions, redirects and template rendering are not modelled. Each outcome is a datatype value instead of a rendered page.
- Date formatting with `toLocaleString` is not modelled. Times are abstract integers.
- Concurrency is not modelled. Requests are atomic and sequential. Two concurrent inserts could read the same row count, and the compaction at `app.js:319` is fired without waiting; neither race is modelled.
- Ids taken from a URL (`req.params.id`) are modelled as integers. Non-numeric ids, which the database would reject, are not modelled.
- Search.NameMatches: treats the input's own `%`, `_` and `\` literally. PostgreSQL `LIKE` reads `%` and `_` as wildcards and `\` as its escape character (`app.js:454`, `app.js:490`).
- Ledger.Renumber: uses rank by id (one plus the number of smaller ids) instead of `row_number()`. The two agree whenever ids are distinct, which `Valid` guarantees. They differ only on duplicate ids, where `row_number()` breaks ties arbitrarily.
- Feed.ByCreatedDesc: a stable insertion sort stands for `ORDER BY created DESC`. Rows with equal timestamps come in one fixed order; SQL leaves that order unspecified.
- Feed.Subscriptions: a follow edge from the viewer to themself never shows the viewer's own posts. The flag query excludes the viewer, and the model keeps this quirk.
- Registration.Register: a missing form field is modelled as the empty string. The request's `undefined` is not modelled separately.
- Ledger.CreatePost: a missing `othern_input` field is not modelled. It passes the check `undefined !== ""` (`app.js:284`) and would be inserted as NULL text; the model's text is always a string.
- Every query is assumed to succeed. The handlers ignore database errors and reply or redirect anyway (`app.js:91`, `app.js:291`, `app.js:315`, `app.js:319`, `app.js:378`, `app.js:392`). In particular `Valid` is kept only because the compaction `UPDATE` at `app.js:319` is assumed to succeed.
