/** The `auth` slice of the Redux store: its initial state, read from the
    `currentUser` slot, and its four reducers, which read and write the two
    local-storage slots. A reducer that throws leaves the state and the slots
    as they were. */
module AuthSlice {
  import opened Wrappers
  import opened Accounts

  const UserExists := "User already exists"
  const InvalidCredentials := "Invalid credentials"
  const BiometricNotFound := "Biometric credentials not found"

  /** How a dispatched reducer ends: normally, or by throwing an `Error` with a message. */
  datatype Status = Completed | Thrown(message: string)

  /** The `users` slot after `signUp`, or the error it throws. */
  function SignUpOutcome(users: seq<Record>, email: string, password: string, now: string): (r: Result<seq<Record>, string>)
    ensures r.Failure? <==> exists i :: 0 <= i < |users| && users[i].email == email
    ensures r.Failure? ==> r.error == UserExists
    ensures r.Success? ==> |r.value| == |users| + 1 && r.value[..|users|] == users
    ensures r.Success? ==> r.value[|users|] == Record(email, password, now, None)
    ensures r.Success? && UniqueEmails(users) ==> UniqueEmails(r.value)
  {
    if FindIndex(users, ByEmail(email)).Some? then Failure(UserExists)
    else Success(users + [Record(email, password, now, None)])
  }

  /** The session `signIn` establishes, or the error it throws. */
  function SignInOutcome(users: seq<Record>, email: string, password: string): (r: Result<PublicUser, string>)
    ensures r.Success? <==> exists i :: 0 <= i < |users| && users[i].email == email && users[i].password == password
    ensures r.Failure? ==> r.error == InvalidCredentials
    ensures r.Success? ==> r.value.email == email
  {
    match FindIndex(users, ByCredentials(email, password))
    case None => Failure(InvalidCredentials)
    case Some(i) => Success(Public(users[i]))
  }

  /** The session `signInWithBiometric` establishes, or the error it throws. It is given
      only an email: no challenge, assertion or signature takes part. */
  function BiometricSignInOutcome(users: seq<Record>, email: string): (r: Result<PublicUser, string>)
    ensures r.Success? <==> exists i :: 0 <= i < |users| && users[i].email == email && users[i].biometricCredentials.Some?
    ensures r.Failure? ==> r.error == BiometricNotFound
    ensures r.Success? ==> r.value.email == email
  {
    match FindIndex(users, ByEnrolledEmail(email))
    case None => Failure(BiometricNotFound)
    case Some(i) => Success(Public(users[i]))
  }

  /** Looking up a list extended at the end finds an earlier match first, else the new record. */
  lemma {:induction false} FindIndexAppend(users: seq<Record>, u: Record, q: Query)
    ensures FindIndex(users + [u], q) ==
      match FindIndex(users, q)
      case Some(i) => Some(i)
      case None => if Matches(u, q) then Some(|users|) else None
  {
    var both := users + [u];
    match FindIndex(users, q)
    case Some(i) =>
      FindIndexIsFirst(both, q, i);
    case None =>
      if Matches(u, q) {
        FindIndexIsFirst(both, q, |users|);
      } else {
        assert forall j :: 0 <= j < |both| ==> !Matches(both[j], q) by {
          forall j | 0 <= j < |both| ensures !Matches(both[j], q) {
            if j < |users| { assert both[j] == users[j]; }
          }
        }
      }
  }

  /** Signing up and then signing in with the same password yields the session
      signUp created. */
  lemma SignUpThenSignIn(users: seq<Record>, email: string, password: string, now: string)
    requires SignUpOutcome(users, email, password, now).Success?
    ensures SignInOutcome(SignUpOutcome(users, email, password, now).value, email, password)
         == Success(PublicUser(email, now))
  {
    var u := Record(email, password, now, None);
    FindIndexAppend(users, u, ByCredentials(email, password));
    assert FindIndex(users, ByCredentials(email, password)).None? by {
      assert FindIndex(users, ByEmail(email)).None?;
    }
  }

  /** From an empty store: sign-up creates one unenrolled record; afterwards a wrong
      password is refused and the right one restores the session. */
  lemma SignUpScenario(now: string)
    ensures SignUpOutcome([], "a@x.com", "p1", now) == Success([Record("a@x.com", "p1", now, None)])
    ensures SignInOutcome([Record("a@x.com", "p1", now, None)], "a@x.com", "wrong") == Failure(InvalidCredentials)
    ensures SignInOutcome([Record("a@x.com", "p1", now, None)], "a@x.com", "p1") == Success(PublicUser("a@x.com", now))
  {
    SignUpThenSignIn([], "a@x.com", "p1", now);
    assert "wrong" != "p1";
  }

  /** With one record per email, password sign-in succeeds exactly when that record's
      password is the one given, and the session carries that record's creation time. */
  lemma SignInWithUniqueEmails(users: seq<Record>, email: string, password: string, i: nat)
    requires UniqueEmails(users)
    requires i < |users| && users[i].email == email
    ensures SignInOutcome(users, email, password) ==
      if users[i].password == password then Success(PublicUser(email, users[i].createdAt))
      else Failure(InvalidCredentials)
  {
    if users[i].password == password {
      FindIndexIsFirst(users, ByCredentials(email, password), i);
    }
  }

  /** When the first record with the email is enrolled, biometric sign-in succeeds and
      yields that record's public part. */
  lemma BiometricSignInWhenEnrolled(users: seq<Record>, email: string)
    requires HasBiometric(users, email)
    ensures BiometricSignInOutcome(users, email) == Success(Public(users[FindIndex(users, ByEmail(email)).value]))
  {
    var i := FindIndex(users, ByEmail(email)).value;
    FindIndexIsFirst(users, ByEnrolledEmail(email), i);
  }

  /** With one record per email, biometric sign-in succeeds exactly when the email is enrolled. */
  lemma BiometricSignInWithUniqueEmails(users: seq<Record>, email: string)
    requires UniqueEmails(users)
    ensures BiometricSignInOutcome(users, email).Success? <==> HasBiometric(users, email)
  {
    if HasBiometric(users, email) {
      BiometricSignInWhenEnrolled(users, email);
    }
  }

  /** The Redux `auth` state. */
  class AuthState {
    var user: Option<PublicUser>
    var isAuthenticated: bool

    /** `isAuthenticated` is true exactly when `user` is not null. */
    predicate Valid()
      reads this
    {
      isAuthenticated == user.Some?
    }

    /** The state mirrors the `currentUser` slot. */
    predicate InSync(storage: LocalStorage)
      reads this, storage
    {
      user == storage.currentUser
    }

    /** `initialState`: the session persisted in the `currentUser` slot, if any. */
    constructor (storage: LocalStorage)
      ensures Valid() && InSync(storage)
      ensures isAuthenticated <==> storage.currentUser.Some?
    {
      user := storage.currentUser;
      isAuthenticated := storage.currentUser.Some?;
    }

    method SignUp(storage: LocalStorage, email: string, password: string, now: string) returns (status: Status)
      requires Valid()
      modifies this, storage
      ensures Valid()
      ensures match SignUpOutcome(old(storage.users), email, password, now)
        case Failure(m) =>
          status == Thrown(m) && unchanged(this, storage)
        case Success(users) =>
          && status == Completed
          && storage.users == users
          && storage.currentUser == Some(PublicUser(email, now))
          && InSync(storage) && isAuthenticated
    {
      var users := storage.users;
      if FindIndex(users, ByEmail(email)).Some? {
        return Thrown(UserExists);
      }
      var newUser := Record(email, password, now, None);
      users := users + [newUser];
      storage.users := users;
      var userWithoutPassword := PublicUser(email, newUser.createdAt);
      storage.currentUser := Some(userWithoutPassword);
      user := Some(userWithoutPassword);
      isAuthenticated := true;
      status := Completed;
    }

    method SignIn(storage: LocalStorage, email: string, password: string) returns (status: Status)
      requires Valid()
      modifies this, storage
      ensures Valid() && storage.users == old(storage.users)
      ensures match SignInOutcome(old(storage.users), email, password)
        case Failure(m) =>
          status == Thrown(m) && unchanged(this, storage)
        case Success(session) =>
          status == Completed && storage.currentUser == Some(session) && InSync(storage) && isAuthenticated
    {
      var users := storage.users;
      var found := FindIndex(users, ByCredentials(email, password));
      if found.None? {
        return Thrown(InvalidCredentials);
      }
      var userWithoutPassword := PublicUser(users[found.value].email, users[found.value].createdAt);
      storage.currentUser := Some(userWithoutPassword);
      user := Some(userWithoutPassword);
      isAuthenticated := true;
      status := Completed;
    }

    method SignInWithBiometric(storage: LocalStorage, email: string) returns (status: Status)
      requires Valid()
      modifies this, storage
      ensures Valid() && storage.users == old(storage.users)
      ensures match BiometricSignInOutcome(old(storage.users), email)
        case Failure(m) =>
          status == Thrown(m) && unchanged(this, storage)
        case Success(session) =>
          status == Completed && storage.currentUser == Some(session) && InSync(storage) && isAuthenticated
    {
      var users := storage.users;
      var found := FindIndex(users, ByEnrolledEmail(email));
      if found.None? {
        return Thrown(BiometricNotFound);
      }
      var userWithoutPassword := PublicUser(users[found.value].email, users[found.value].createdAt);
      storage.currentUser := Some(userWithoutPassword);
      user := Some(userWithoutPassword);
      isAuthenticated := true;
      status := Completed;
    }

    /** `logout` clears the session whatever the prior state; it cannot fail. */
    method Logout(storage: LocalStorage)
      modifies this, storage
      ensures Valid() && InSync(storage)
      ensures user.None? && !isAuthenticated && storage.currentUser.None?
      ensures storage.users == old(storage.users)
    {
      storage.currentUser := None;
      user := None;
      isAuthenticated := false;
    }
  }
}
