/** The follow graph (`/subscribeUser/:id`, `/unsubscribeUser/:id` and their
    `...Search` twins, and the two counts on a profile page). Edges are rows
    of `follows`; nothing stops the same edge from being inserted twice. */
module FollowGraph {
  import opened Seqs
  import opened Model

  /** `INSERT INTO follows (follower, followee) VALUES (viewer, target)`, with
      no check that `target` exists, differs from the viewer, or is not
      already followed. */
  function Follow(st: Store, viewer: Viewer, target: int): (r: Step)
    ensures viewer.None? ==> r == Step(st, Rejected(NotLoggedIn))
    ensures viewer.Some? ==>
              && r.outcome == Done
              && r.store.users == st.users && r.store.posts == st.posts
              && |r.store.follows| == |st.follows| + 1
              && r.store.follows[..|st.follows|] == st.follows
              && r.store.follows[|st.follows|] == Edge(viewer.value, target)
              && Follows(r.store.follows, viewer.value, target)
  {
    if viewer.None? then Step(st, Rejected(NotLoggedIn))
    else Step(st.(follows := st.follows + [Edge(viewer.value, target)]), Done)
  }

  function NotEdge(e: Edge): Edge -> bool
  {
    (x: Edge) => x != e
  }

  /** `DELETE FROM follows WHERE follower = viewer AND followee = target`. */
  function Unfollow(st: Store, viewer: Viewer, target: int): (r: Step)
    ensures viewer.None? ==> r == Step(st, Rejected(NotLoggedIn))
    ensures viewer.Some? ==>
              && r.outcome == Done
              && r.store.users == st.users && r.store.posts == st.posts
              && r.store.follows == Filter(st.follows, NotEdge(Edge(viewer.value, target)))
  {
    if viewer.None? then Step(st, Rejected(NotLoggedIn))
    else Step(st.(follows := Filter(st.follows, NotEdge(Edge(viewer.value, target)))), Done)
  }

  /** Unfollowing removes every copy of the edge and no other row, and keeps
      the remaining rows in order. */
  lemma UnfollowRemovesOnlyThatEdge(st: Store, viewer: int, target: int)
    ensures var after := Unfollow(st, Some(viewer), target).store.follows;
            && !Follows(after, viewer, target)
            && (forall e :: e != Edge(viewer, target) ==> multiset(after)[e] == multiset(st.follows)[e])
            && (forall e :: e in after <==> e in st.follows && e != Edge(viewer, target))
            && IsSubsequence(after, st.follows)
  {
    var keep := NotEdge(Edge(viewer, target));
    FilterMembers(st.follows, keep);
    FilterMultiset(st.follows, keep);
    FilterIsSubsequence(st.follows, keep);
  }

  function FolloweeIs(u: int): Edge -> bool
  {
    (e: Edge) => e.followee == u
  }

  function FollowerIs(u: int): Edge -> bool
  {
    (e: Edge) => e.follower == u
  }

  /** The two numbers a profile page shows, named as the page names them:
      `followee` counts the rows `SELECT * FROM follows WHERE followee = u`
      returns (the user's followers), `follower` the rows with `follower = u`. */
  datatype ProfileCounts = ProfileCounts(followee: nat, follower: nat)

  function Counts(edges: seq<Edge>, u: int): ProfileCounts
  {
    ProfileCounts(|Filter(edges, FolloweeIs(u))|, |Filter(edges, FollowerIs(u))|)
  }

  /** The two counts are the numbers of follow rows whose `followee`,
      respectively `follower`, is `u`. */
  lemma ProfileCountsAreEdgeCounts(edges: seq<Edge>, u: int)
    ensures Counts(edges, u).followee == |set i | 0 <= i < |edges| && edges[i].followee == u|
    ensures Counts(edges, u).follower == |set i | 0 <= i < |edges| && edges[i].follower == u|
  {
    FilterCount(edges, FolloweeIs(u));
    FilterCount(edges, FollowerIs(u));
    assert KeptPositions(edges, FolloweeIs(u)) == set i | 0 <= i < |edges| && edges[i].followee == u;
    assert KeptPositions(edges, FollowerIs(u)) == set i | 0 <= i < |edges| && edges[i].follower == u;
  }

  /** A follow adds one to the target's `followee` count and one to the
      viewer's `follower` count, and to no one else's, even when the edge
      was already there. */
  lemma FollowCounts(st: Store, viewer: int, target: int, u: int)
    ensures var after := Follow(st, Some(viewer), target).store.follows;
            && Counts(after, u).followee == Counts(st.follows, u).followee + (if u == target then 1 else 0)
            && Counts(after, u).follower == Counts(st.follows, u).follower + (if u == viewer then 1 else 0)
  {
  }

  /** Removing every copy of `e` lowers the counts of its two ends by the
      number of copies and leaves every other count alone. */
  lemma {:induction false} RemoveEdgeCounts(edges: seq<Edge>, e: Edge, u: int)
    ensures var after := Filter(edges, NotEdge(e));
            var copies := multiset(edges)[e];
            && Counts(after, u).followee == Counts(edges, u).followee - (if e.followee == u then copies else 0)
            && Counts(after, u).follower == Counts(edges, u).follower - (if e.follower == u then copies else 0)
  {
    if |edges| > 0 {
      var rest, x := edges[..|edges| - 1], edges[|edges| - 1];
      assert edges == rest + [x];
      RemoveEdgeCounts(rest, e, u);
      var kept := Filter(rest, NotEdge(e));
      FilterSnoc(rest, x, FolloweeIs(u));
      FilterSnoc(rest, x, FollowerIs(u));
      assert multiset(edges)[e] == multiset(rest)[e] + (if x == e then 1 else 0);
      if x != e {
        assert Filter(edges, NotEdge(e)) == kept + [x];
        FilterSnoc(kept, x, FolloweeIs(u));
        FilterSnoc(kept, x, FollowerIs(u));
      } else {
        assert Filter(edges, NotEdge(e)) == kept;
      }
    }
  }

  lemma UnfollowCounts(st: Store, viewer: int, target: int, u: int)
    ensures var after := Unfollow(st, Some(viewer), target).store.follows;
            var copies := multiset(st.follows)[Edge(viewer, target)];
            && Counts(after, u).followee == Counts(st.follows, u).followee - (if u == target then copies else 0)
            && Counts(after, u).follower == Counts(st.follows, u).follower - (if u == viewer then copies else 0)
  {
    RemoveEdgeCounts(st.follows, Edge(viewer, target), u);
  }
}
