/** The three tables the application keeps (`users`, `others` i.e. posts,
    `follows`), the invariant the id scheme depends on, and the outcomes a
    request can have. */
module Model {
  import opened Seqs

  datatype Option<+T> = None | Some(value: T)

  /** The session's user id, or `None` for an anonymous visitor. */
  type Viewer = Option<int>

  datatype User = User(
    id: int,
    name: string,
    passwordHash: string,
    birthday: string,
    profilePic: string,
    bio: string,
    created: int)

  /** A post (an "other"): `post_id`, `user_id`, `text`, `created`. */
  datatype Post = Post(id: int, author: int, text: string, created: int)

  /** A row of `follows`: `follower` follows `followee`. */
  datatype Edge = Edge(follower: int, followee: int)

  /** The database. Sequence order is the physical row order; queries that
      say `ORDER BY` sort explicitly. */
  datatype Store = Store(users: seq<User>, posts: seq<Post>, follows: seq<Edge>)

  function UserKey(u: User): int { u.id }

  function PostKey(p: Post): int { p.id }

  predicate NamesUnique(users: seq<User>)
  {
    forall i, j :: 0 <= i < j < |users| ==> users[i].name != users[j].name
  }

  /** Both id columns are assigned as "row count + 1", which is only a fresh
      id while the ids in the table are exactly `1..N`; names are unique
      because registration refuses a taken name. */
  predicate Valid(st: Store)
  {
    && Dense(st.users, UserKey)
    && NamesUnique(st.users)
    && Dense(st.posts, PostKey)
  }

  predicate Follows(edges: seq<Edge>, follower: int, followee: int)
  {
    Edge(follower, followee) in edges
  }

  datatype Error =
    | MissingUsername
    | MissingPassword
    | UsernameTaken
    | PasswordMismatch
    | EmptyPost
    | NotLoggedIn
    | NotOwner

  /** `NoReply` is a request the handler never answers. */
  datatype Outcome = Done | Rejected(error: Error) | NoReply

  /** The store after a request, and what the request produced. */
  datatype Step = Step(store: Store, outcome: Outcome)
}
