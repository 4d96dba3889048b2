/** Sign-up (`POST /registration`): an ordered chain of rejections, then an
    insert whose `user_id` is the current row count plus one. */
module Registration {
  import opened Seqs
  import opened Model

  const DefaultProfilePic := "default"
  const DefaultBio := "Hallo, bin neu hier. Komme jetzt öfters."

  /** `SELECT * FROM users WHERE name = $1` returns a row. */
  predicate NameTaken(users: seq<User>, name: string)
  {
    exists i :: 0 <= i < |users| && users[i].name == name
  }

  /** Every check passes, so the account is created. */
  predicate Admissible(st: Store, username: string, password: string, passwordCheck: string)
  {
    && username != ""
    && password != "" && passwordCheck != ""
    && !NameTaken(st.users, username)
    && password == passwordCheck
  }

  /** `hash` stands for bcrypt; the stored hash is that of the confirmation
      field, which equals the password whenever the insert happens. */
  function Register(st: Store, username: string, birthday: string, password: string,
                    passwordCheck: string, hash: string -> string, now: int): (r: Step)
    ensures r.outcome.Done? || r.outcome.Rejected?
    ensures r.outcome.Rejected? ==> r.store == st
    // the checks run in this order and the first failing one is reported
    ensures username == "" ==> r.outcome == Rejected(MissingUsername)
    ensures username != "" && (password == "" || passwordCheck == "") ==>
              r.outcome == Rejected(MissingPassword)
    ensures username != "" && password != "" && passwordCheck != "" && NameTaken(st.users, username) ==>
              r.outcome == Rejected(UsernameTaken)
    ensures username != "" && password != "" && passwordCheck != "" && !NameTaken(st.users, username)
            && password != passwordCheck ==>
              r.outcome == Rejected(PasswordMismatch)
    ensures r.outcome == Done <==> Admissible(st, username, password, passwordCheck)
    // on success exactly one user is added, after every existing one
    ensures r.outcome == Done ==>
              && r.store.posts == st.posts && r.store.follows == st.follows
              && |r.store.users| == |st.users| + 1
              && r.store.users[..|st.users|] == st.users
              && r.store.users[|st.users|]
                 == User(|st.users| + 1, username, hash(password), birthday, DefaultProfilePic, DefaultBio, now)
  {
    if username == "" then Step(st, Rejected(MissingUsername))
    else if password == "" || passwordCheck == "" then Step(st, Rejected(MissingPassword))
    else if NameTaken(st.users, username) then Step(st, Rejected(UsernameTaken))
    else if password != passwordCheck then Step(st, Rejected(PasswordMismatch))
    else
      var user := User(|st.users| + 1, username, hash(passwordCheck), birthday,
                       DefaultProfilePic, DefaultBio, now);
      Step(st.(users := st.users + [user]), Done)
  }

  /** Registration keeps user ids dense and names unique, and the id
      "count + 1" it hands out belongs to no existing user. */
  lemma RegisterPreservesValid(st: Store, username: string, birthday: string, password: string,
                               passwordCheck: string, hash: string -> string, now: int)
    requires Valid(st)
    ensures var r := Register(st, username, birthday, password, passwordCheck, hash, now);
            && Valid(r.store)
            && (r.outcome == Done ==> forall i :: 0 <= i < |st.users| ==> st.users[i].id != |st.users| + 1)
            && KeySet(r.store.users, UserKey) == UpTo(|r.store.users|)
  {
    var r := Register(st, username, birthday, password, passwordCheck, hash, now);
    if r.outcome == Done {
      var user := r.store.users[|st.users|];
      assert r.store.users == st.users + [user];
      DenseSnoc(st.users, user, UserKey);
    }
    DenseIffRange(r.store.users, UserKey);
  }

  /** Registering a name a second time fails and leaves the first account as it was. */
  lemma SecondRegistrationRejected(st: Store, username: string, birthday: string, password: string,
                                   hash: string -> string, now: int,
                                   birthday2: string, password2: string, now2: int)
    requires Register(st, username, birthday, password, password, hash, now).outcome == Done
    requires password2 != ""
    ensures var st1 := Register(st, username, birthday, password, password, hash, now).store;
            var r := Register(st1, username, birthday2, password2, password2, hash, now2);
            && r.outcome == Rejected(UsernameTaken)
            && r.store.users[|st.users|] == User(|st.users| + 1, username, hash(password), birthday,
                                                 DefaultProfilePic, DefaultBio, now)
  {
  }
}
