/** The post ledger (`POST /othern`, `GET /deleteOther/:id`): posts get the id
    "row count + 1" and a deletion renumbers every surviving post to its rank
    by id, so that the ids stay `1..N` and the next "count + 1" is fresh. */
module Ledger {
  import opened Seqs
  import opened Ranks
  import opened Model

  /** Posting checks the text first and the session second; a visitor who
      is not logged in gets no answer at all and nothing is written. */
  function CreatePost(st: Store, viewer: Viewer, text: string, now: int): (r: Step)
    ensures text == "" ==> r == Step(st, Rejected(EmptyPost))
    ensures text != "" && viewer.None? ==> r == Step(st, NoReply)
    ensures text != "" && viewer.Some? ==>
              && r.outcome == Done
              && r.store.users == st.users && r.store.follows == st.follows
              && |r.store.posts| == |st.posts| + 1
              && r.store.posts[..|st.posts|] == st.posts
              && r.store.posts[|st.posts|] == Post(|st.posts| + 1, viewer.value, text, now)
  {
    if text == "" then Step(st, Rejected(EmptyPost))
    else if viewer.None? then Step(st, NoReply)
    else
      var post := Post(|st.posts| + 1, viewer.value, text, now);
      Step(st.(posts := st.posts + [post]), Done)
  }

  /** If the ids are `1..N`, "count + 1" is a fresh id and afterwards the ids
      are `1..N+1`. */
  lemma CreatePreservesValid(st: Store, viewer: Viewer, text: string, now: int)
    requires Valid(st)
    ensures var r := CreatePost(st, viewer, text, now);
            && Valid(r.store)
            && (r.outcome == Done ==>
                  && (forall i :: 0 <= i < |st.posts| ==> st.posts[i].id != |st.posts| + 1)
                  && KeySet(r.store.posts, PostKey) == UpTo(|st.posts| + 1))
  {
    var r := CreatePost(st, viewer, text, now);
    if r.outcome == Done {
      var post := r.store.posts[|st.posts|];
      assert r.store.posts == st.posts + [post];
      DenseSnoc(st.posts, post, PostKey);
      DenseIffRange(r.store.posts, PostKey);
    }
  }

  /** `SELECT post_id FROM others WHERE user_id = $1 AND post_id = $2` returns a row. */
  predicate Owns(posts: seq<Post>, viewer: int, k: int)
  {
    exists i :: 0 <= i < |posts| && posts[i].author == viewer && posts[i].id == k
  }

  /** `DELETE FROM others WHERE post_id = k` keeps the posts this accepts. */
  function WithoutId(k: int): Post -> bool
  {
    (p: Post) => p.id != k
  }

  /** The compaction `UPDATE others SET post_id = row_number() OVER (ORDER BY post_id)`:
      every post takes its 1-based rank by ascending id. */
  function Renumber(posts: seq<Post>): (r: seq<Post>)
    ensures |r| == |posts|
  {
    seq(|posts|, i requires 0 <= i < |posts| => posts[i].(id := Rank(posts, PostKey, posts[i].id)))
  }

  /** Renumbering changes nothing but ids, keeps the order of ids, lands in
      `1..N`, makes distinct ids dense, and leaves a dense table as it is. */
  lemma RenumberFacts(posts: seq<Post>)
    ensures var r := Renumber(posts);
            && (forall i :: 0 <= i < |posts| ==>
                  && r[i].author == posts[i].author
                  && r[i].text == posts[i].text
                  && r[i].created == posts[i].created
                  && 1 <= r[i].id <= |posts|)
            && (forall i, j :: 0 <= i < |posts| && 0 <= j < |posts| ==>
                  (posts[i].id < posts[j].id <==> r[i].id < r[j].id))
            && (DistinctBy(posts, PostKey) ==> Dense(r, PostKey))
            && (Dense(posts, PostKey) ==> r == posts)
  {
    var r := Renumber(posts);
    forall i | 0 <= i < |posts|
      ensures 1 <= r[i].id <= |posts|
    {
      CountBelowOwn(posts, PostKey, i);
    }
    forall i, j | 0 <= i < |posts| && 0 <= j < |posts|
      ensures posts[i].id < posts[j].id <==> r[i].id < r[j].id
    {
      if posts[i].id < posts[j].id {
        CountBelowStrict(posts, PostKey, i, posts[i].id, posts[j].id);
      } else {
        CountBelowMonotone(posts, PostKey, posts[j].id, posts[i].id);
      }
    }
    if Dense(posts, PostKey) {
      forall i | 0 <= i < |posts|
        ensures r[i] == posts[i]
      {
        CountBelowDense(posts, PostKey, posts[i].id);
      }
    }
  }

  /** Deleting needs a session and a post of one's own with that id; anything
      else leaves the store as it was. */
  function DeletePost(st: Store, viewer: Viewer, k: int): (r: Step)
    ensures viewer.None? ==> r == Step(st, Rejected(NotLoggedIn))
    ensures viewer.Some? && !Owns(st.posts, viewer.value, k) ==> r == Step(st, Rejected(NotOwner))
    ensures r.outcome == Done <==> viewer.Some? && Owns(st.posts, viewer.value, k)
    ensures r.outcome == Done ==>
              && r.store.users == st.users && r.store.follows == st.follows
              && r.store.posts == Renumber(Filter(st.posts, WithoutId(k)))
  {
    if viewer.None? then Step(st, Rejected(NotLoggedIn))
    else if !Owns(st.posts, viewer.value, k) then Step(st, Rejected(NotOwner))
    else Step(st.(posts := Renumber(Filter(st.posts, WithoutId(k)))), Done)
  }

  /** Removing the only post with id `k` by filtering leaves the other posts in order. */
  lemma FilterRemovesOne(posts: seq<Post>, j: int)
    requires DistinctBy(posts, PostKey) && 0 <= j < |posts|
    ensures Filter(posts, WithoutId(posts[j].id)) == posts[..j] + posts[j + 1..]
  {
    var k := posts[j].id;
    var a, x, b := posts[..j], posts[j], posts[j + 1..];
    forall i | 0 <= i < |a|
      ensures WithoutId(k)(a[i])
    {
      assert posts[i] == a[i];
    }
    forall i | 0 <= i < |b|
      ensures WithoutId(k)(b[i])
    {
      assert posts[j + 1 + i] == b[i];
    }
    FilterDropsOne(a, x, b, WithoutId(k));
    assert posts == a + [x] + b;
  }

  /** In a dense table, once the post at index `j` is gone, a remaining id
      `v` has `v - 1` smaller ids left, less one if the removed id was smaller. */
  lemma CountBelowAfterRemoval(posts: seq<Post>, j: int, v: int)
    requires Dense(posts, PostKey) && 0 <= j < |posts|
    requires 1 <= v <= |posts|
    ensures CountBelow(posts[..j] + posts[j + 1..], PostKey, v)
            == v - 1 - (if posts[j].id < v then 1 else 0)
  {
    var a, x, b := posts[..j], posts[j], posts[j + 1..];
    assert posts == a + [x] + b;
    CountBelowAppend(a + [x], b, PostKey, v);
    CountBelowAppend(a, [x], PostKey, v);
    CountBelowAppend(a, b, PostKey, v);
    CountBelowDense(posts, PostKey, v);
  }

  /** A permitted delete in a dense table removes exactly the post with id
      `k` and moves every later id down by one; order and contents stay. */
  lemma DeleteShiftsIds(st: Store, viewer: int, k: int, j: int)
    requires Valid(st)
    requires 0 <= j < |st.posts| && st.posts[j].id == k && st.posts[j].author == viewer
    ensures var after := DeletePost(st, Some(viewer), k).store.posts;
            var rest := st.posts[..j] + st.posts[j + 1..];
            && |after| == |st.posts| - 1
            && forall i :: 0 <= i < |rest| ==>
                 after[i] == rest[i].(id := if rest[i].id < k then rest[i].id else rest[i].id - 1)
  {
    assert Owns(st.posts, viewer, k);
    FilterRemovesOne(st.posts, j);
    var rest := st.posts[..j] + st.posts[j + 1..];
    forall i | 0 <= i < |rest|
      ensures Renumber(rest)[i] == rest[i].(id := if rest[i].id < k then rest[i].id else rest[i].id - 1)
    {
      ShiftAt(st.posts, j, i);
    }
  }

  /** The renumbered id of the `i`-th survivor of removing index `j` from a dense table. */
  lemma ShiftAt(posts: seq<Post>, j: int, i: int)
    requires Dense(posts, PostKey) && 0 <= j < |posts|
    requires 0 <= i < |posts| - 1
    ensures var rest := posts[..j] + posts[j + 1..];
            var k := posts[j].id;
            Renumber(rest)[i] == rest[i].(id := if rest[i].id < k then rest[i].id else rest[i].id - 1)
  {
    var rest := posts[..j] + posts[j + 1..];
    var src := if i < j then i else i + 1;
    assert rest[i] == posts[src];
    assert rest[i].id != posts[j].id;
    CountBelowAfterRemoval(posts, j, rest[i].id);
  }

  /** After a permitted delete the ids are `1..N-1`; a refused one keeps `1..N`. */
  lemma DeletePreservesValid(st: Store, viewer: Viewer, k: int)
    requires Valid(st)
    ensures var r := DeletePost(st, viewer, k);
            && Valid(r.store)
            && (r.outcome == Done ==>
                  && |r.store.posts| == |st.posts| - 1
                  && KeySet(r.store.posts, PostKey) == UpTo(|st.posts| - 1))
  {
    var r := DeletePost(st, viewer, k);
    if r.outcome == Done {
      var j :| 0 <= j < |st.posts| && st.posts[j].author == viewer.value && st.posts[j].id == k;
      DeleteShiftsIds(st, viewer.value, k, j);
      var survivors := Filter(st.posts, WithoutId(k));
      FilterIsSubsequence(st.posts, WithoutId(k));
      SubsequenceDistinct(survivors, st.posts, PostKey);
      RenumberFacts(survivors);
      DenseIffRange(r.store.posts, PostKey);
    }
  }

  /** Deleting the post one has just created gives back the store one started from. */
  lemma DeleteUndoesCreate(st: Store, viewer: int, text: string, now: int)
    requires Valid(st) && text != ""
    ensures var created := CreatePost(st, Some(viewer), text, now).store;
            DeletePost(created, Some(viewer), |st.posts| + 1) == Step(st, Done)
  {
    var created := CreatePost(st, Some(viewer), text, now).store;
    var k := |st.posts| + 1;
    assert created.posts[|st.posts|].id == k;
    assert Owns(created.posts, viewer, k);
    FilterSnoc(st.posts, created.posts[|st.posts|], WithoutId(k));
    assert created.posts == st.posts + [created.posts[|st.posts|]];
    FilterKeepsAll(st.posts, WithoutId(k));
    assert Filter(created.posts, WithoutId(k)) == st.posts;
    RenumberFacts(st.posts);
    assert Renumber(st.posts) == st.posts;
    assert created.(posts := st.posts) == st;
  }
}
