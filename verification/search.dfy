/** The user search (`POST /search`): users whose name contains the input;
    a logged-in searcher does not see themself, and each hit is annotated
    with whether the searcher follows that user. */
module Search {
  import opened Seqs
  import opened Model
  import opened Text
  import opened Feed
  import opened FollowGraph

  /** `name LIKE '%input%'`, plus `user_id != viewer` when `exclude` names a viewer. */
  function NameMatches(input: string, exclude: Option<int>): User -> bool
  {
    (u: User) => Contains(u.name, input) && (exclude.None? || u.id != exclude.value)
  }

  function SearchHits(users: seq<User>, input: string, exclude: Option<int>): seq<User>
  {
    Filter(users, NameMatches(input, exclude))
  }

  /** The hits are the users, in table order, whose name has `input` at some
      position, without the excluded id; each user row is used once. */
  lemma SearchHitsMembers(users: seq<User>, input: string, exclude: Option<int>)
    ensures var hits := SearchHits(users, input, exclude);
            && IsSubsequence(hits, users)
            && forall u :: u in hits <==>
                 && u in users
                 && (exists i :: OccursAt(u.name, input, i))
                 && (exclude.Some? ==> u.id != exclude.value)
  {
    FilterMembers(users, NameMatches(input, exclude));
    FilterIsSubsequence(users, NameMatches(input, exclude));
    forall u: User
      ensures Contains(u.name, input) <==> exists i :: OccursAt(u.name, input, i)
    {
      ContainsIffOccurs(u.name, input);
    }
  }

  /** An empty input matches every name, so an anonymous search for nothing
      lists the whole user table. */
  lemma EmptySearchListsEveryone(users: seq<User>)
    ensures SearchHits(users, "", None) == users
  {
    forall i | 0 <= i < |users|
      ensures NameMatches("", None)(users[i])
    {
      EmptyInputMatchesAll(users[i].name);
    }
    FilterKeepsAll(users, NameMatches("", None));
  }

  function NotUser(v: int): User -> bool
  {
    (u: User) => u.id != v
  }

  /** The logged-in search is the anonymous one with the searcher's own rows removed. */
  lemma LoggedInSearchDropsOnlySelf(users: seq<User>, input: string, viewer: int)
    ensures SearchHits(users, input, Some(viewer))
            == Filter(SearchHits(users, input, None), NotUser(viewer))
  {
    FilterTwice(users, NameMatches(input, None), NotUser(viewer), NameMatches(input, Some(viewer)));
  }

  /** A result row of the logged-in search: the user row with the `exists`
      flag of the follow query merged in. */
  datatype SearchRow = SearchRow(user: User, followed: bool)

  datatype SearchView =
    | NoResults
    | Found(users: seq<User>)
    | FoundWithFollowState(rows: seq<SearchRow>)

  /** What the logged-in page should show: every hit, in order, with the
      state of the searcher's follow edge to it. */
  function FollowState(st: Store, viewer: int, input: string): (r: seq<SearchRow>)
    ensures |r| == |SearchHits(st.users, input, Some(viewer))|
  {
    var hits := SearchHits(st.users, input, Some(viewer));
    seq(|hits|, i requires 0 <= i < |hits| => SearchRow(hits[i], Follows(st.follows, viewer, hits[i].id)))
  }

  /** A flag row for `uid` exists. */
  predicate HasFlag(flags: seq<FlagRow>, uid: int)
  {
    exists k :: 0 <= k < |flags| && flags[k].userId == uid
  }

  /** The inner loop for one hit: push the first flag row with the hit's
      user id, then stop. */
  method PushFirstMatch(uid: int, flags: seq<FlagRow>, matches: seq<FlagRow>)
    returns (pushed: seq<FlagRow>)
    ensures !HasFlag(flags, uid) ==> pushed == matches
    ensures HasFlag(flags, uid) ==>
              && |pushed| == |matches| + 1
              && pushed[..|matches|] == matches
              && pushed[|matches|] in flags
              && pushed[|matches|].userId == uid
    ensures HasFlag(flags, uid) ==>
              exists b :: && 0 <= b < |flags|
                          && pushed == matches + [flags[b]]
                          && flags[b].userId == uid
                          && forall k :: 0 <= k < b ==> flags[k].userId != uid
  {
    pushed := matches;
    var b := 0;
    while b < |flags|
      invariant 0 <= b <= |flags|
      invariant pushed == matches
      invariant forall k :: 0 <= k < b ==> flags[k].userId != uid
    {
      if uid == flags[b].userId {
        pushed := pushed + [flags[b]];
        break;
      }
      b := b + 1;
    }
  }

  /** Every hit of a logged-in search has a flag row, and any flag row with
      its id carries the true follow state. */
  lemma HitFlag(st: Store, viewer: int, input: string, u: User)
    requires u in SearchHits(st.users, input, Some(viewer))
    ensures var flags := FollowFlags(st.users, st.follows, viewer);
            && HasFlag(flags, u.id)
            && forall f :: f in flags && f.userId == u.id ==> f == FlagRow(u.id, Follows(st.follows, viewer, u.id))
  {
    var flags := FollowFlags(st.users, st.follows, viewer);
    FilterMembers(st.users, NameMatches(input, Some(viewer)));
    var j :| 0 <= j < |st.users| && st.users[j] == u;
    var k :| 0 <= k < |flags| && flags[k] == FlagRow(u.id, Follows(st.follows, viewer, u.id));
  }

  /** The handler. Logged in: the hits without the searcher, then a nested
      loop that collects, per hit, the first flag row with its id, then a
      loop that merges the i-th collected flag row into the i-th hit.
      Anonymous: the plain hits. */
  method Search(st: Store, viewer: Viewer, input: string) returns (view: SearchView)
    ensures viewer.None? ==>
              && (view == NoResults <==> SearchHits(st.users, input, None) == [])
              && (view != NoResults ==> view == Found(SearchHits(st.users, input, None)))
    ensures viewer.Some? ==>
              && (view == NoResults <==> SearchHits(st.users, input, viewer) == [])
              && (view != NoResults ==> view == FoundWithFollowState(FollowState(st, viewer.value, input)))
  {
    if viewer.None? {
      var hits := SearchHits(st.users, input, None);
      if |hits| == 0 {
        return NoResults;
      }
      return Found(hits);
    }
    var v := viewer.value;
    var hits := SearchHits(st.users, input, Some(v));
    if |hits| == 0 {
      return NoResults;
    }
    var flags := FollowFlags(st.users, st.follows, v);
    var matches: seq<FlagRow> := [];
    var a := 0;
    while a < |hits|
      invariant 0 <= a <= |hits|
      invariant |matches| == a
      invariant forall j :: 0 <= j < a ==> matches[j] == FlagRow(hits[j].id, Follows(st.follows, v, hits[j].id))
    {
      assert hits[a] in hits;
      HitFlag(st, v, input, hits[a]);
      matches := PushFirstMatch(hits[a].id, flags, matches);
      a := a + 1;
    }
    var rows: seq<SearchRow> := [];
    var i := 0;
    while i < |hits|
      invariant 0 <= i <= |hits|
      invariant |rows| == i
      invariant forall j :: 0 <= j < i ==> rows[j] == SearchRow(hits[j], Follows(st.follows, v, hits[j].id))
    {
      rows := rows + [SearchRow(hits[i].(id := matches[i].userId), matches[i].followed)];
      i := i + 1;
    }
    view := FoundWithFollowState(rows);
  }

  /** Following a user from the search page turns that user's flag on in
      the next search and changes no other row. */
  lemma FollowShowsInSearch(st: Store, viewer: int, target: int, input: string)
    ensures var before := FollowState(st, viewer, input);
            var after := FollowState(Follow(st, Some(viewer), target).store, viewer, input);
            && |after| == |before|
            && forall i :: 0 <= i < |before| ==>
                 && after[i].user == before[i].user
                 && after[i].followed == (before[i].followed || before[i].user.id == target)
  {
  }

  /** Unfollowing turns that user's flag off and changes no other row. */
  lemma UnfollowShowsInSearch(st: Store, viewer: int, target: int, input: string)
    ensures var before := FollowState(st, viewer, input);
            var after := FollowState(Unfollow(st, Some(viewer), target).store, viewer, input);
            && |after| == |before|
            && forall i :: 0 <= i < |before| ==>
                 && after[i].user == before[i].user
                 && after[i].followed == (before[i].followed && before[i].user.id != target)
  {
    UnfollowRemovesOnlyThatEdge(st, viewer, target);
  }
}
