/** The application as a whole: the write requests of the core as one
    transition function over the store, and the id invariant kept along any
    run of them. */
module App {
  import opened Seqs
  import opened Model
  import opened Registration
  import opened Ledger
  import opened FollowGraph

  /** The requests that change the store. `now` is the server clock at the
      time of the request; `hash` (below) stands for bcrypt. */
  datatype Request =
    | SignUp(username: string, birthday: string, password: string, passwordCheck: string, now: int)
    | Publish(viewer: Viewer, text: string, now: int)
    | Remove(viewer: Viewer, postId: int)
    | Subscribe(viewer: Viewer, target: int)
    | Unsubscribe(viewer: Viewer, target: int)

  /** Route a request to its handler; a request that is refused or left
      unanswered writes nothing. */
  function Handle(st: Store, req: Request, hash: string -> string): (r: Step)
    ensures !r.outcome.Done? ==> r.store == st
  {
    match req
    case SignUp(username, birthday, password, passwordCheck, now) =>
      Register(st, username, birthday, password, passwordCheck, hash, now)
    case Publish(viewer, text, now) => CreatePost(st, viewer, text, now)
    case Remove(viewer, postId) => DeletePost(st, viewer, postId)
    case Subscribe(viewer, target) => Follow(st, viewer, target)
    case Unsubscribe(viewer, target) => Unfollow(st, viewer, target)
  }

  lemma HandlePreservesValid(st: Store, req: Request, hash: string -> string)
    requires Valid(st)
    ensures Valid(Handle(st, req, hash).store)
  {
    match req
    case SignUp(username, birthday, password, passwordCheck, now) =>
      RegisterPreservesValid(st, username, birthday, password, passwordCheck, hash, now);
    case Publish(viewer, text, now) =>
      CreatePreservesValid(st, viewer, text, now);
    case Remove(viewer, postId) =>
      DeletePreservesValid(st, viewer, postId);
    case Subscribe(viewer, target) =>
    case Unsubscribe(viewer, target) =>
  }

  /** The store after serving `reqs` one after another, starting from `st`. */
  function Run(st: Store, reqs: seq<Request>, hash: string -> string): Store
    decreases |reqs|
  {
    if |reqs| == 0 then st
    else Run(Handle(st, reqs[0], hash).store, reqs[1..], hash)
  }

  /** From any valid store, after any sequence of requests the user and
      post ids are exactly `1..N`, so "row count + 1" is always a fresh id
      and user names stay unique. */
  lemma {:induction false} RunPreservesValid(st: Store, reqs: seq<Request>, hash: string -> string)
    requires Valid(st)
    ensures var end := Run(st, reqs, hash);
            && Valid(end)
            && KeySet(end.users, UserKey) == UpTo(|end.users|)
            && KeySet(end.posts, PostKey) == UpTo(|end.posts|)
            && (forall i :: 0 <= i < |end.users| ==> end.users[i].id != |end.users| + 1)
            && (forall i :: 0 <= i < |end.posts| ==> end.posts[i].id != |end.posts| + 1)
    decreases |reqs|
  {
    if |reqs| == 0 {
      DenseIffRange(st.users, UserKey);
      DenseIffRange(st.posts, PostKey);
    } else {
      HandlePreservesValid(st, reqs[0], hash);
      RunPreservesValid(Handle(st, reqs[0], hash).store, reqs[1..], hash);
    }
  }
}
