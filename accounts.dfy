/** The account records kept in the browser's local storage, the queries the
    application runs over them, and the two storage slots themselves. */
module Accounts {
  import opened Wrappers

  /** One element of a `Uint8Array` / `ArrayBuffer`. */
  newtype byte = x: int | 0 <= x < 256

  /** The attestation part of a stored credential descriptor; every buffer is kept
      as a list of numbers (`Array.from(new Uint8Array(buffer))`). */
  datatype AttestationLists = AttestationLists(clientDataJSON: seq<int>, attestationObject: seq<int>)

  /** The descriptor `registerBiometric` returns and enrollment stores in the record.
      `credType` is the JavaScript property `type`. */
  datatype RegistrationDescriptor =
    RegistrationDescriptor(id: string, rawId: seq<int>, credType: string, response: AttestationLists)

  /** An element of the `users` slot. `biometricCredentials` is `null` until enrollment. */
  datatype Record = Record(email: string, password: string, createdAt: string,
                           biometricCredentials: Option<RegistrationDescriptor>)

  /** What the session (`currentUser` slot and `state.user`) holds: a record without
      its password. The type has no room for a password. */
  datatype PublicUser = PublicUser(email: string, createdAt: string)

  /** The public part of a record. */
  function Public(u: Record): (p: PublicUser)
    ensures p.email == u.email && p.createdAt == u.createdAt
  {
    PublicUser(u.email, u.createdAt)
  }

  /** The three `users.find` / `users.findIndex` predicates the application uses. */
  datatype Query =
    | ByEmail(email: string)                       // u.email === email
    | ByCredentials(email: string, password: string) // u.email === email && u.password === password
    | ByEnrolledEmail(email: string)               // u.email === email && u.biometricCredentials

  predicate Matches(u: Record, q: Query) {
    match q
    case ByEmail(e) => u.email == e
    case ByCredentials(e, p) => u.email == e && u.password == p
    case ByEnrolledEmail(e) => u.email == e && u.biometricCredentials.Some?
  }

  /** `Array.prototype.findIndex`: the first index whose record matches, or none
      (JavaScript's -1). `find` is the record at that index. */
  function FindIndex(users: seq<Record>, q: Query): (r: Option<nat>)
    ensures r.Some? ==> r.value < |users| && Matches(users[r.value], q)
    ensures r.Some? ==> forall j :: 0 <= j < r.value ==> !Matches(users[j], q)
    ensures r.None? <==> forall j :: 0 <= j < |users| ==> !Matches(users[j], q)
  {
    if |users| == 0 then None
    else if Matches(users[0], q) then Some(0)
    else match FindIndex(users[1..], q)
      case None => None
      case Some(i) => Some(i + 1)
  }

  /** The first-match characterisation determines FindIndex: any index that matches
      and has no match before it is the one FindIndex returns. */
  lemma FindIndexIsFirst(users: seq<Record>, q: Query, i: nat)
    requires i < |users| && Matches(users[i], q)
    requires forall j :: 0 <= j < i ==> !Matches(users[j], q)
    ensures FindIndex(users, q) == Some(i)
  {
  }

  /** The invariant of the `users` slot: at most one record per email. */
  predicate UniqueEmails(users: seq<Record>) {
    forall i, j :: 0 <= i < j < |users| ==> users[i].email != users[j].email
  }

  /** Whether the first record with this email carries a credential descriptor
      (`!!users.find(u => u.email === email)?.biometricCredentials`). */
  predicate HasBiometric(users: seq<Record>, email: string) {
    match FindIndex(users, ByEmail(email))
    case None => false
    case Some(i) => users[i].biometricCredentials.Some?
  }

  /** The read-modify-write both enrollment and removal perform on the `users` slot:
      `users[findIndex(u => u.email === email)].biometricCredentials = c`, or the
      list unchanged when no record has that email. */
  function SetBiometric(users: seq<Record>, email: string, c: Option<RegistrationDescriptor>): (r: seq<Record>)
    ensures |r| == |users|
    ensures forall j :: 0 <= j < |users| ==>
      r[j].email == users[j].email && r[j].password == users[j].password && r[j].createdAt == users[j].createdAt
    ensures FindIndex(users, ByEmail(email)).None? ==> r == users
    ensures FindIndex(users, ByEmail(email)).Some? ==>
      var i := FindIndex(users, ByEmail(email)).value;
      r[i].biometricCredentials == c && forall j :: 0 <= j < |users| && j != i ==> r[j] == users[j]
  {
    match FindIndex(users, ByEmail(email))
    case None => users
    case Some(i) => users[i := users[i].(biometricCredentials := c)]
  }

  /** Lists with the same emails at every position answer every email query alike. */
  lemma FindIndexSameEmails(a: seq<Record>, b: seq<Record>, email: string)
    requires |a| == |b|
    requires forall j :: 0 <= j < |a| ==> a[j].email == b[j].email
    ensures FindIndex(a, ByEmail(email)) == FindIndex(b, ByEmail(email))
  {
    match FindIndex(a, ByEmail(email))
    case None =>
      assert forall j :: 0 <= j < |b| ==> !Matches(b[j], ByEmail(email)) by {
        forall j | 0 <= j < |b| ensures !Matches(b[j], ByEmail(email)) {
          assert !Matches(a[j], ByEmail(email));
        }
      }
    case Some(i) =>
      FindIndexIsFirst(b, ByEmail(email), i);
  }

  /** Attaching or clearing a credential never moves the record an email query finds. */
  lemma SetBiometricKeepsIndex(users: seq<Record>, email: string, c: Option<RegistrationDescriptor>, other: string)
    ensures FindIndex(SetBiometric(users, email, c), ByEmail(other)) == FindIndex(users, ByEmail(other))
  {
    FindIndexSameEmails(SetBiometric(users, email, c), users, other);
  }

  /** Setting the same credential twice is the same as setting it once. */
  lemma SetBiometricIdempotent(users: seq<Record>, email: string, c: Option<RegistrationDescriptor>)
    ensures SetBiometric(SetBiometric(users, email, c), email, c) == SetBiometric(users, email, c)
  {
    var once := SetBiometric(users, email, c);
    SetBiometricKeepsIndex(users, email, c, email);
    match FindIndex(users, ByEmail(email))
    case None =>
    case Some(i) =>
      assert once[i := once[i].(biometricCredentials := c)] == once;
  }

  /** Credential updates keep "at most one record per email". */
  lemma SetBiometricKeepsUnique(users: seq<Record>, email: string, c: Option<RegistrationDescriptor>)
    requires UniqueEmails(users)
    ensures UniqueEmails(SetBiometric(users, email, c))
  {
  }

  /** After `SetBiometric(users, email, c)` the email's enrollment status is that of `c`,
      provided some record has the email; no other email's status changes. */
  lemma HasBiometricAfterSet(users: seq<Record>, email: string, c: Option<RegistrationDescriptor>, other: string)
    ensures HasBiometric(SetBiometric(users, email, c), other) ==
      if other == email && FindIndex(users, ByEmail(email)).Some? then c.Some? else HasBiometric(users, other)
  {
    SetBiometricKeepsIndex(users, email, c, other);
    SetBiometricKeepsIndex(users, email, c, email);
  }

  /** The two local-storage slots. An absent `users` slot reads as the empty list
      (`localStorage.getItem('users') || '[]'`); an absent `currentUser` slot is `None`. */
  class LocalStorage {
    var users: seq<Record>
    var currentUser: Option<PublicUser>

    constructor (users: seq<Record>, currentUser: Option<PublicUser>)
      ensures this.users == users && this.currentUser == currentUser
    {
      this.users := users;
      this.currentUser := currentUser;
    }
  }
}
