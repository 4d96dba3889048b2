/** The subscriptions page (`GET /subscriptions`): the joined feed of posts
    and authors, newest first, filtered in memory by a nested loop against
    the per-user "does the viewer follow this user" rows. */
module Feed {
  import opened Seqs
  import opened Model

  /** A row of `others o JOIN users u ON u.user_id = o.user_id`. */
  datatype FeedRow = FeedRow(name: string, postId: int, userId: int, text: string,
                             created: int, profilePic: string)

  function RowOf(p: Post, u: User): FeedRow
  {
    FeedRow(u.name, p.id, p.author, p.text, p.created, u.profilePic)
  }

  function RowKey(r: FeedRow): int { r.postId }

  /** The join rows of one post: one per user whose id is the post's author. */
  function AuthorRows(p: Post, users: seq<User>): (r: seq<FeedRow>)
    ensures forall x :: x in r <==>
              exists j :: 0 <= j < |users| && users[j].id == p.author && x == RowOf(p, users[j])
  {
    if |users| == 0 then []
    else
      var u := users[|users| - 1];
      AuthorRows(p, users[..|users| - 1]) + (if u.id == p.author then [RowOf(p, u)] else [])
  }

  /** The inner join, post by post. */
  function Join(posts: seq<Post>, users: seq<User>): (r: seq<FeedRow>)
    ensures forall x :: x in r <==>
              exists i, j :: 0 <= i < |posts| && 0 <= j < |users|
                             && users[j].id == posts[i].author && x == RowOf(posts[i], users[j])
  {
    if |posts| == 0 then []
    else Join(posts[..|posts| - 1], users) + AuthorRows(posts[|posts| - 1], users)
  }

  /** With unique user ids a post has at most one join row. */
  lemma {:induction false} AuthorRowsAtMostOne(p: Post, users: seq<User>)
    requires DistinctBy(users, UserKey)
    ensures |AuthorRows(p, users)| <= 1
  {
    if |users| > 0 {
      var prefix := users[..|users| - 1];
      assert DistinctBy(prefix, UserKey);
      AuthorRowsAtMostOne(p, prefix);
      if users[|users| - 1].id == p.author {
        forall j | 0 <= j < |prefix|
          ensures prefix[j].id != p.author
        {
          assert prefix[j] == users[j];
        }
        NoAuthorRows(p, prefix);
      }
    }
  }

  lemma {:induction false} NoAuthorRows(p: Post, users: seq<User>)
    requires forall j :: 0 <= j < |users| ==> users[j].id != p.author
    ensures AuthorRows(p, users) == []
  {
    if |users| > 0 {
      NoAuthorRows(p, users[..|users| - 1]);
    }
  }

  /** Unique post ids and unique user ids give every join row its own post id. */
  lemma {:induction false} JoinDistinct(posts: seq<Post>, users: seq<User>)
    requires DistinctBy(posts, PostKey) && DistinctBy(users, UserKey)
    ensures DistinctBy(Join(posts, users), RowKey)
  {
    if |posts| > 0 {
      var prefix, p := posts[..|posts| - 1], posts[|posts| - 1];
      assert DistinctBy(prefix, PostKey);
      JoinDistinct(prefix, users);
      AuthorRowsAtMostOne(p, users);
      var a, b := Join(prefix, users), AuthorRows(p, users);
      forall i, j | 0 <= i < |a| && 0 <= j < |b|
        ensures RowKey(a[i]) != RowKey(b[j])
      {
        assert a[i] in a && b[j] in b;
        var i', j' :| 0 <= i' < |prefix| && 0 <= j' < |users|
                     && users[j'].id == prefix[i'].author && a[i] == RowOf(prefix[i'], users[j']);
        assert posts[i'] == prefix[i'];
      }
      DistinctByAppend(a, b, RowKey);
    }
  }

  /** Ordered by `created`, newest first. */
  predicate NewestFirst(rows: seq<FeedRow>)
  {
    forall i, j :: 0 <= i < j < |rows| ==> rows[i].created >= rows[j].created
  }

  function InsertByCreated(x: FeedRow, rows: seq<FeedRow>): seq<FeedRow>
  {
    if |rows| == 0 then [x]
    else if x.created >= rows[0].created then [x] + rows
    else [rows[0]] + InsertByCreated(x, rows[1..])
  }

  lemma NewestFirstCons(h: FeedRow, t: seq<FeedRow>)
    requires NewestFirst(t)
    requires forall j :: 0 <= j < |t| ==> h.created >= t[j].created
    ensures NewestFirst([h] + t)
  {
  }

  lemma {:induction false} InsertMembers(x: FeedRow, rows: seq<FeedRow>)
    ensures multiset(InsertByCreated(x, rows)) == multiset(rows) + multiset{x}
    ensures forall y :: y in InsertByCreated(x, rows) <==> y == x || y in rows
  {
    if |rows| > 0 && x.created < rows[0].created {
      InsertMembers(x, rows[1..]);
      assert rows == [rows[0]] + rows[1..];
    }
  }

  lemma {:induction false} InsertFacts(x: FeedRow, rows: seq<FeedRow>)
    requires NewestFirst(rows)
    ensures NewestFirst(InsertByCreated(x, rows))
    ensures multiset(InsertByCreated(x, rows)) == multiset(rows) + multiset{x}
  {
    InsertMembers(x, rows);
    if |rows| > 0 {
      var tail := rows[1..];
      assert NewestFirst(tail);
      if x.created < rows[0].created {
        InsertFacts(x, tail);
        InsertMembers(x, tail);
        var t := InsertByCreated(x, tail);
        forall j | 0 <= j < |t|
          ensures rows[0].created >= t[j].created
        {
          assert t[j] in t;
          if t[j] != x {
            var m :| 0 <= m < |tail| && tail[m] == t[j];
            assert rows[m + 1] == tail[m];
          }
        }
        NewestFirstCons(rows[0], t);
      } else {
        NewestFirstCons(x, rows);
      }
    }
  }

  /** `ORDER BY created DESC`, as an insertion sort. */
  function ByCreatedDesc(rows: seq<FeedRow>): (r: seq<FeedRow>)
    ensures NewestFirst(r)
    ensures multiset(r) == multiset(rows)
  {
    if |rows| == 0 then []
    else
      var sorted := ByCreatedDesc(rows[1..]);
      SortStep(rows, sorted);
      InsertByCreated(rows[0], sorted)
  }

  /** Inserting the head into the sorted tail sorts the whole sequence. */
  lemma SortStep(rows: seq<FeedRow>, sorted: seq<FeedRow>)
    requires |rows| > 0 && NewestFirst(sorted) && multiset(sorted) == multiset(rows[1..])
    ensures NewestFirst(InsertByCreated(rows[0], sorted))
    ensures multiset(InsertByCreated(rows[0], sorted)) == multiset(rows)
  {
    InsertFacts(rows[0], sorted);
    assert rows == [rows[0]] + rows[1..];
  }

  lemma {:induction false} InsertKeepsDistinct(x: FeedRow, rows: seq<FeedRow>)
    requires NewestFirst(rows) && DistinctBy(rows, RowKey)
    requires forall i :: 0 <= i < |rows| ==> rows[i].postId != x.postId
    ensures DistinctBy(InsertByCreated(x, rows), RowKey)
  {
    if |rows| == 0 {
    } else if x.created >= rows[0].created {
      DistinctByAppend([x], rows, RowKey);
    } else {
      var tail := rows[1..];
      assert DistinctBy(tail, RowKey);
      InsertKeepsDistinct(x, tail);
      InsertMembers(x, tail);
      var r := InsertByCreated(x, tail);
      forall j | 0 <= j < |r|
        ensures RowKey(rows[0]) != RowKey(r[j])
      {
        assert r[j] in r;
        if r[j] != x {
          var m :| 0 <= m < |tail| && tail[m] == r[j];
          assert rows[m + 1] == tail[m];
        }
      }
      DistinctByAppend([rows[0]], r, RowKey);
    }
  }

  lemma {:induction false} SortKeepsDistinct(rows: seq<FeedRow>)
    requires DistinctBy(rows, RowKey)
    ensures DistinctBy(ByCreatedDesc(rows), RowKey)
  {
    if |rows| > 0 {
      var tail := rows[1..];
      assert DistinctBy(tail, RowKey);
      SortKeepsDistinct(tail);
      var sorted := ByCreatedDesc(tail);
      forall i | 0 <= i < |sorted|
        ensures sorted[i].postId != rows[0].postId
      {
        assert sorted[i] in multiset(tail);
      }
      InsertKeepsDistinct(rows[0], sorted);
    }
  }

  /** The rows the subscriptions page starts from. */
  function JoinedFeed(st: Store): seq<FeedRow>
  {
    ByCreatedDesc(Join(st.posts, st.users))
  }

  /** A row is in the joined feed exactly when it pairs a post with a user
      whose id is the post's author. */
  lemma JoinedFeedMembers(st: Store)
    ensures forall x :: x in JoinedFeed(st) <==>
              exists i, j :: 0 <= i < |st.posts| && 0 <= j < |st.users|
                             && st.users[j].id == st.posts[i].author && x == RowOf(st.posts[i], st.users[j])
  {
    var joined := Join(st.posts, st.users);
    forall x
      ensures x in JoinedFeed(st) <==> x in joined
    {
      assert x in JoinedFeed(st) <==> x in multiset(JoinedFeed(st));
      assert x in joined <==> x in multiset(joined);
    }
  }

  /** Every row of the joined feed has an author in `users`. */
  lemma FeedAuthorsExist(st: Store)
    ensures forall x :: x in JoinedFeed(st) ==> UserExists(st.users, x.userId)
  {
    JoinedFeedMembers(st);
  }

  /** `SELECT user_id, exists (SELECT ... FROM follows WHERE follower = viewer
      AND followee = users.user_id) FROM users WHERE user_id != viewer`. */
  datatype FlagRow = FlagRow(userId: int, followed: bool)

  predicate UserExists(users: seq<User>, uid: int)
  {
    exists j :: 0 <= j < |users| && users[j].id == uid
  }

  function FollowFlags(users: seq<User>, edges: seq<Edge>, viewer: int): (r: seq<FlagRow>)
    ensures forall k :: 0 <= k < |r| ==>
              && r[k].userId != viewer
              && r[k].followed == Follows(edges, viewer, r[k].userId)
    ensures forall j :: 0 <= j < |users| && users[j].id != viewer ==>
              FlagRow(users[j].id, Follows(edges, viewer, users[j].id)) in r
    ensures forall k :: 0 <= k < |r| ==> UserExists(users, r[k].userId)
  {
    if |users| == 0 then []
    else
      var u := users[|users| - 1];
      var prefix := users[..|users| - 1];
      assert forall j :: 0 <= j < |prefix| ==> prefix[j] == users[j];
      FollowFlags(prefix, edges, viewer)
        + (if u.id != viewer then [FlagRow(u.id, Follows(edges, viewer, u.id))] else [])
  }

  /** What the inner loop finds: a flag row for `uid` that is marked followed. */
  predicate FlaggedFollowed(flags: seq<FlagRow>, uid: int)
  {
    exists k :: 0 <= k < |flags| && flags[k].userId == uid && flags[k].followed
  }

  /** For an existing user, the flag rows say "followed" exactly when the user
      is not the viewer and the edge is there. */
  lemma FlagsAgree(st: Store, viewer: int, uid: int)
    requires UserExists(st.users, uid)
    ensures FlaggedFollowed(FollowFlags(st.users, st.follows, viewer), uid)
            <==> uid != viewer && Follows(st.follows, viewer, uid)
  {
  }

  /** The declarative reading of the page: keep a row when its author is not
      the viewer and the viewer follows the author. */
  function FollowedBy(edges: seq<Edge>, viewer: int): FeedRow -> bool
  {
    (r: FeedRow) => r.userId != viewer && Follows(edges, viewer, r.userId)
  }

  function SubscribedFeed(st: Store, viewer: int): seq<FeedRow>
  {
    Filter(JoinedFeed(st), FollowedBy(st.follows, viewer))
  }

  /** The test the nested loop applies to a feed row. */
  function FlagKeep(flags: seq<FlagRow>): FeedRow -> bool
  {
    (r: FeedRow) => FlaggedFollowed(flags, r.userId)
  }

  /** On the joined feed the loop's test and the declarative one select the same rows. */
  lemma FlagKeepIsFollowedBy(st: Store, viewer: int)
    ensures Filter(JoinedFeed(st), FlagKeep(FollowFlags(st.users, st.follows, viewer)))
            == SubscribedFeed(st, viewer)
  {
    var feed := JoinedFeed(st);
    forall i | 0 <= i < |feed|
      ensures FlagKeep(FollowFlags(st.users, st.follows, viewer))(feed[i])
              == FollowedBy(st.follows, viewer)(feed[i])
    {
      assert feed[i] in feed;
      FlagDecides(st, viewer, feed[i]);
    }
    FilterCongruent(feed, FlagKeep(FollowFlags(st.users, st.follows, viewer)), FollowedBy(st.follows, viewer));
  }

  lemma FlagDecides(st: Store, viewer: int, x: FeedRow)
    requires x in JoinedFeed(st)
    ensures FlaggedFollowed(FollowFlags(st.users, st.follows, viewer), x.userId)
            == FollowedBy(st.follows, viewer)(x)
  {
    FeedAuthorsExist(st);
    FlagsAgree(st, viewer, x.userId);
  }

  /** The inner loop for one feed row: scan the flag rows and push the row at
      the first flag row for its author that is marked followed, then stop. */
  method PushIfFollowed(row: FeedRow, flags: seq<FlagRow>, subscribed: seq<FeedRow>)
    returns (pushed: seq<FeedRow>)
    ensures pushed == subscribed + (if FlaggedFollowed(flags, row.userId) then [row] else [])
  {
    pushed := subscribed;
    var k := 0;
    while k < |flags|
      invariant 0 <= k <= |flags|
      invariant pushed == subscribed
      invariant forall k' :: 0 <= k' < k ==> !(flags[k'].userId == row.userId && flags[k'].followed)
    {
      if row.userId == flags[k].userId && flags[k].followed {
        pushed := pushed + [row];
        break;
      }
      k := k + 1;
    }
  }

  datatype SubscriptionsView = Denied | NothingSubscribed | Subscribed(rows: seq<FeedRow>)

  /** The outer loop: every feed row, in order, goes through the inner loop. */
  method CollectFollowed(feed: seq<FeedRow>, flags: seq<FlagRow>) returns (subscribed: seq<FeedRow>)
    ensures subscribed == Filter(feed, FlagKeep(flags))
  {
    subscribed := [];
    var i := 0;
    while i < |feed|
      invariant 0 <= i <= |feed|
      invariant subscribed == Filter(feed[..i], FlagKeep(flags))
    {
      assert feed[..i + 1] == feed[..i] + [feed[i]];
      FilterSnoc(feed[..i], feed[i], FlagKeep(flags));
      subscribed := PushIfFollowed(feed[i], flags, subscribed);
      i := i + 1;
    }
    assert feed[..|feed|] == feed;
  }

  /** The handler: the nested loop over feed rows and flag rows computes the
      declarative subscribed feed; an empty result selects the error message. */
  method Subscriptions(st: Store, viewer: Viewer) returns (view: SubscriptionsView)
    ensures viewer.None? <==> view == Denied
    ensures viewer.Some? ==> (view == NothingSubscribed <==> SubscribedFeed(st, viewer.value) == [])
    ensures view.Subscribed? ==> view.rows == SubscribedFeed(st, viewer.value) && view.rows != []
  {
    if viewer.None? {
      return Denied;
    }
    var flags := FollowFlags(st.users, st.follows, viewer.value);
    var subscribed := CollectFollowed(JoinedFeed(st), flags);
    FlagKeepIsFollowedBy(st, viewer.value);
    if |subscribed| == 0 {
      view := NothingSubscribed;
    } else {
      view := Subscribed(subscribed);
    }
  }

  /** Filtering a newest-first sequence leaves it newest first. */
  lemma {:induction false} FilterNewestFirst(rows: seq<FeedRow>, keep: FeedRow -> bool)
    requires NewestFirst(rows)
    ensures NewestFirst(Filter(rows, keep))
  {
    if |rows| > 0 {
      var prefix := rows[..|rows| - 1];
      FilterNewestFirst(prefix, keep);
      FilterMembers(prefix, keep);
      var kept := Filter(prefix, keep);
      forall i | 0 <= i < |kept|
        ensures kept[i].created >= rows[|rows| - 1].created
      {
        assert kept[i] in prefix;
      }
    }
  }

  /** The subscribed feed is an order-preserving selection of the joined
      feed (each row used at most once), holds exactly the posts of users the
      viewer follows other than the viewer, stays newest first, and in a
      valid store lists every post at most once. */
  lemma SubscribedFeedFacts(st: Store, viewer: int)
    ensures var feed := SubscribedFeed(st, viewer);
            && IsSubsequence(feed, JoinedFeed(st))
            && NewestFirst(feed)
            && (forall x :: x in feed <==>
                  exists i, j :: 0 <= i < |st.posts| && 0 <= j < |st.users|
                                 && st.users[j].id == st.posts[i].author && x == RowOf(st.posts[i], st.users[j])
                                 && st.posts[i].author != viewer && Follows(st.follows, viewer, st.posts[i].author))
            && (Valid(st) ==> DistinctBy(feed, RowKey))
  {
    var joined := JoinedFeed(st);
    var keep := FollowedBy(st.follows, viewer);
    FilterIsSubsequence(joined, keep);
    FilterNewestFirst(joined, keep);
    FilterMembers(joined, keep);
    JoinedFeedMembers(st);
    if Valid(st) {
      JoinDistinct(st.posts, st.users);
      SortKeepsDistinct(Join(st.posts, st.users));
      SubsequenceDistinct(SubscribedFeed(st, viewer), joined, RowKey);
    }
  }
}
