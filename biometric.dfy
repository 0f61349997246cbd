/** The WebAuthn helpers: the platform-capability probe, the registration and
    assertion ceremonies with the options they pass to the platform and the
    descriptors they return, and credential removal.

    The platform is an oracle. `apiPresent` is whether `window.PublicKeyCredential`
    exists; a ceremony's outcome is a `Ceremony` value (the promise rejected with a
    message, or resolved with a credential or with null); the random challenge and
    user handle are byte sequences of the lengths the code allocates. */
module Biometric {
  import opened Wrappers
  import opened Accounts

  const NotSupported := "WebAuthn not supported"
  const RegistrationCancelled := "Biometric registration cancelled"
  const RegistrationFailed := "Biometric registration failed"
  const NoCredentials := "No biometric credentials found for this account"
  const AuthenticationCancelled := "Biometric authentication cancelled"
  const AuthenticationFailed := "Biometric authentication failed"

  const RelyingPartyName := "AuthApp"
  const ChallengeLength := 32
  const UserIdLength := 16
  const CeremonyTimeout := 60000   // milliseconds
  /** COSE algorithm identifiers: ES256 (section 8.1 of RFC 8152), RS256 (section 2 of RFC 8812). */
  const Es256 := -7
  const Rs256 := -257

  // ---------------------------------------------------------------- capability probe

  /** `isBiometricAvailable`: false when the API is absent or the probe
      (`isUserVerifyingPlatformAuthenticatorAvailable`) rejects, else the probe's answer.
      It never throws: its result is a plain boolean. */
  function IsBiometricAvailable(apiPresent: bool, probe: Result<bool, string>): (available: bool)
    ensures !apiPresent ==> !available
    ensures probe.Failure? ==> !available
    ensures apiPresent && probe.Success? ==> available == probe.value
  {
    if !apiPresent then false
    else match probe
      case Failure(_) => false
      case Success(answer) => answer
  }

  // ---------------------------------------------------------------- ceremony options

  datatype RelyingPartyEntity = RelyingPartyEntity(name: string, id: string)
  datatype UserEntity = UserEntity(id: seq<byte>, name: string, displayName: string)
  datatype CredentialParameters = CredentialParameters(alg: int, credType: string)
  datatype AuthenticatorSelection = AuthenticatorSelection(authenticatorAttachment: string, userVerification: string)

  /** `PublicKeyCredentialCreationOptions` (section 5.4 of W3C Web Authentication Level 2). */
  datatype CreationOptions = CreationOptions(
    challenge: seq<byte>,
    rp: RelyingPartyEntity,
    user: UserEntity,
    pubKeyCredParams: seq<CredentialParameters>,
    authenticatorSelection: AuthenticatorSelection,
    timeout: nat,
    attestation: string)

  /** `PublicKeyCredentialRequestOptions` (section 5.5 of W3C Web Authentication Level 2). */
  datatype RequestOptions = RequestOptions(challenge: seq<byte>, timeout: nat, userVerification: string)

  /** Web Authentication Level 2's constraints on a creation request: a challenge of at least
      16 bytes (section 13.4.3), a user handle of 1 to 64 bytes (section 5.4.3), a non-empty
      list of "public-key" parameters (section 5.3), and enumeration values from
      sections 5.4.5, 5.8.6 and 5.4.7. */
  predicate ValidCreationOptions(o: CreationOptions) {
    && |o.challenge| >= 16
    && 1 <= |o.user.id| <= 64
    && |o.pubKeyCredParams| > 0
    && (forall p <- o.pubKeyCredParams :: p.credType == "public-key")
    && o.authenticatorSelection.authenticatorAttachment in {"platform", "cross-platform"}
    && o.authenticatorSelection.userVerification in {"required", "preferred", "discouraged"}
    && o.timeout > 0
    && o.attestation in {"none", "indirect", "direct", "enterprise"}
  }

  /** The same constraints on an assertion request (sections 5.5 and 13.4.3). */
  predicate ValidRequestOptions(o: RequestOptions) {
    |o.challenge| >= 16 && o.timeout > 0 && o.userVerification in {"required", "preferred", "discouraged"}
  }

  /** The algorithm identifiers of a parameter list, in order of preference. */
  function Algorithms(ps: seq<CredentialParameters>): (algs: seq<int>)
    ensures |algs| == |ps| && forall k :: 0 <= k < |ps| ==> algs[k] == ps[k].alg
  {
    if ps == [] then [] else [ps[0].alg] + Algorithms(ps[1..])
  }

  /** The creation options `registerBiometric` builds: well-formed per Web Authentication,
      bound to the serving host, naming the user by email, preferring ES256 then RS256,
      restricted to platform authenticators with verification preferred. */
  function CreationOptionsFor(challenge: seq<byte>, userId: seq<byte>, hostname: string, email: string): (o: CreationOptions)
    requires |challenge| == ChallengeLength && |userId| == UserIdLength
    ensures ValidCreationOptions(o)
    ensures o.challenge == challenge && o.user.id == userId
    ensures o.rp == RelyingPartyEntity(RelyingPartyName, hostname)
    ensures o.user.name == email && o.user.displayName == email
    ensures Algorithms(o.pubKeyCredParams) == [Es256, Rs256]
    ensures o.authenticatorSelection == AuthenticatorSelection("platform", "preferred")
    ensures o.timeout == CeremonyTimeout && o.attestation == "direct"
  {
    CreationOptions(
      challenge,
      RelyingPartyEntity(RelyingPartyName, hostname),
      UserEntity(userId, email, email),
      [CredentialParameters(Es256, "public-key"), CredentialParameters(Rs256, "public-key")],
      AuthenticatorSelection("platform", "preferred"),
      CeremonyTimeout,
      "direct")
  }

  /** The request options `authenticateWithBiometric` builds. */
  function RequestOptionsFor(challenge: seq<byte>): (o: RequestOptions)
    requires |challenge| == ChallengeLength
    ensures ValidRequestOptions(o)
    ensures o.challenge == challenge && o.timeout == CeremonyTimeout && o.userVerification == "preferred"
  {
    RequestOptions(challenge, CeremonyTimeout, "preferred")
  }

  // ---------------------------------------------------------------- serialisation

  /** `Array.from(new Uint8Array(buffer))`: the buffer's bytes as a list of numbers. */
  function ByteList(buffer: seq<byte>): (list: seq<int>)
    ensures |list| == |buffer|
    ensures forall k :: 0 <= k < |buffer| ==> list[k] == buffer[k] as int
  {
    if buffer == [] then [] else [buffer[0] as int] + ByteList(buffer[1..])
  }

  /** The inverse reading, `new Uint8Array(list)` for a list of byte values:
      none when some element is not a byte. */
  function BufferOf(list: seq<int>): (buffer: Option<seq<byte>>)
    ensures buffer.Some? <==> forall k :: 0 <= k < |list| ==> 0 <= list[k] < 256
    ensures buffer.Some? ==> |buffer.value| == |list|
  {
    if list == [] then Some([])
    else if !(0 <= list[0] < 256) then None
    else match BufferOf(list[1..])
      case None => None
      case Some(rest) => Some([list[0] as byte] + rest)
  }

  /** The stored list reads back as the original buffer. */
  lemma {:induction false} BufferOfByteList(buffer: seq<byte>)
    ensures BufferOf(ByteList(buffer)) == Some(buffer)
  {
    if buffer != [] {
      BufferOfByteList(buffer[1..]);
      assert ByteList(buffer)[1..] == ByteList(buffer[1..]);
      assert [buffer[0]] + buffer[1..] == buffer;
    }
  }

  /** A list of byte values is exactly the list of the buffer it reads back as. */
  lemma {:induction false} ByteListOfBufferOf(list: seq<int>)
    requires BufferOf(list).Some?
    ensures ByteList(BufferOf(list).value) == list
  {
    if list != [] {
      ByteListOfBufferOf(list[1..]);
      var b := BufferOf(list).value;
      assert b[1..] == BufferOf(list[1..]).value;
    }
  }

  datatype AttestationResponse = AttestationResponse(clientDataJSON: seq<byte>, attestationObject: seq<byte>)
  datatype AssertionResponse = AssertionResponse(clientDataJSON: seq<byte>, authenticatorData: seq<byte>, signature: seq<byte>)

  /** The `PublicKeyCredential` objects the platform returns from `create` and `get`. */
  datatype AttestationCredential = AttestationCredential(id: string, rawId: seq<byte>, credType: string, response: AttestationResponse)
  datatype AssertionCredential = AssertionCredential(id: string, rawId: seq<byte>, credType: string, response: AssertionResponse)

  datatype AssertionLists = AssertionLists(clientDataJSON: seq<int>, authenticatorData: seq<int>, signature: seq<int>)
  /** The descriptor `authenticateWithBiometric` returns. */
  datatype AssertionDescriptor = AssertionDescriptor(id: string, rawId: seq<int>, credType: string, response: AssertionLists)

  /** The descriptor of a new credential: `id` and `type` verbatim, each buffer as a list
      that reads back as that buffer. */
  function DescribeAttestation(c: AttestationCredential): (d: RegistrationDescriptor)
    ensures d.id == c.id && d.credType == c.credType
    ensures BufferOf(d.rawId) == Some(c.rawId)
    ensures BufferOf(d.response.clientDataJSON) == Some(c.response.clientDataJSON)
    ensures BufferOf(d.response.attestationObject) == Some(c.response.attestationObject)
  {
    BufferOfByteList(c.rawId);
    BufferOfByteList(c.response.clientDataJSON);
    BufferOfByteList(c.response.attestationObject);
    RegistrationDescriptor(c.id, ByteList(c.rawId), c.credType,
      AttestationLists(ByteList(c.response.clientDataJSON), ByteList(c.response.attestationObject)))
  }

  /** The descriptor of an assertion, built the same way. */
  function DescribeAssertion(c: AssertionCredential): (d: AssertionDescriptor)
    ensures d.id == c.id && d.credType == c.credType
    ensures BufferOf(d.rawId) == Some(c.rawId)
    ensures BufferOf(d.response.clientDataJSON) == Some(c.response.clientDataJSON)
    ensures BufferOf(d.response.authenticatorData) == Some(c.response.authenticatorData)
    ensures BufferOf(d.response.signature) == Some(c.response.signature)
  {
    BufferOfByteList(c.rawId);
    BufferOfByteList(c.response.clientDataJSON);
    BufferOfByteList(c.response.authenticatorData);
    BufferOfByteList(c.response.signature);
    AssertionDescriptor(c.id, ByteList(c.rawId), c.credType,
      AssertionLists(ByteList(c.response.clientDataJSON), ByteList(c.response.authenticatorData),
                     ByteList(c.response.signature)))
  }

  // ---------------------------------------------------------------- ceremonies

  /** What `navigator.credentials.create` / `get` does: reject with an error message
      (possibly empty), or resolve with a credential or with null. */
  datatype Ceremony<C> = Rejected(message: string) | Resolved(credential: Option<C>)

  /** One call of `registerBiometric` or `authenticateWithBiometric`: the options it passed
      to the platform if it started a ceremony, and what it returned or threw. */
  datatype Attempt<O, T> = Attempt(started: Option<O>, result: Result<T, string>)

  /** The error a ceremony that produced no credential turns into:
      `new Error(error.message || fallback)`, where a null credential threw `cancelled`. */
  function CeremonyError<C>(ceremony: Ceremony<C>, cancelled: string, fallback: string): (m: string)
    requires ceremony.Rejected? || ceremony.credential.None?
    requires cancelled != "" && fallback != ""
    ensures m != ""
    ensures ceremony.Resolved? ==> m == cancelled
    ensures ceremony.Rejected? && ceremony.message != "" ==> m == ceremony.message
    ensures ceremony.Rejected? && ceremony.message == "" ==> m == fallback
  {
    match ceremony
    case Rejected(message) => OrElse(message, fallback)
    case Resolved(_) => OrElse(cancelled, fallback)
  }

  /** `registerBiometric(email)`. */
  function RegisterBiometric(apiPresent: bool, email: string, hostname: string,
                             challenge: seq<byte>, userId: seq<byte>,
                             ceremony: Ceremony<AttestationCredential>): (a: Attempt<CreationOptions, RegistrationDescriptor>)
    requires |challenge| == ChallengeLength && |userId| == UserIdLength
    ensures !apiPresent ==> a == Attempt(None, Failure(NotSupported))
    ensures apiPresent ==> a.started == Some(CreationOptionsFor(challenge, userId, hostname, email))
    ensures a.result.Success? <==> apiPresent && ceremony.Resolved? && ceremony.credential.Some?
    ensures a.result.Success? ==> a.result.value == DescribeAttestation(ceremony.credential.value)
    ensures apiPresent && a.result.Failure? ==> a.result.error == CeremonyError(ceremony, RegistrationCancelled, RegistrationFailed)
    ensures a.result.Failure? ==> a.result.error != ""
  {
    if !apiPresent then Attempt(None, Failure(NotSupported))
    else
      var options := CreationOptionsFor(challenge, userId, hostname, email);
      match ceremony
      case Resolved(Some(credential)) => Attempt(Some(options), Success(DescribeAttestation(credential)))
      case _ => Attempt(Some(options), Failure(CeremonyError(ceremony, RegistrationCancelled, RegistrationFailed)))
  }

  /** `authenticateWithBiometric(email)`. It checks that the first record with the email has
      a credential descriptor, but never compares the assertion with that descriptor. */
  function AuthenticateWithBiometric(apiPresent: bool, users: seq<Record>, email: string,
                                     challenge: seq<byte>,
                                     ceremony: Ceremony<AssertionCredential>): (a: Attempt<RequestOptions, AssertionDescriptor>)
    requires |challenge| == ChallengeLength
    ensures !apiPresent ==> a == Attempt(None, Failure(NotSupported))
    ensures apiPresent && !HasBiometric(users, email) ==> a == Attempt(None, Failure(NoCredentials))
    ensures a.started.Some? <==> apiPresent && HasBiometric(users, email)
    ensures a.started.Some? ==> a.started.value == RequestOptionsFor(challenge)
    ensures a.result.Success? <==> a.started.Some? && ceremony.Resolved? && ceremony.credential.Some?
    ensures a.result.Success? ==> a.result.value == DescribeAssertion(ceremony.credential.value)
    ensures a.started.Some? && a.result.Failure? ==>
      a.result.error == CeremonyError(ceremony, AuthenticationCancelled, AuthenticationFailed)
    ensures a.result.Failure? ==> a.result.error != ""
  {
    if !apiPresent then Attempt(None, Failure(NotSupported))
    else if !HasBiometric(users, email) then Attempt(None, Failure(NoCredentials))
    else
      var options := RequestOptionsFor(challenge);
      match ceremony
      case Resolved(Some(assertion)) => Attempt(Some(options), Success(DescribeAssertion(assertion)))
      case _ => Attempt(Some(options), Failure(CeremonyError(ceremony, AuthenticationCancelled, AuthenticationFailed)))
  }

  /** Any assertion the platform returns is accepted: two successful ceremonies for an
      enrolled email succeed alike, whatever their ids, client data and signatures. */
  lemma AssertionContentIgnored(users: seq<Record>, email: string, challenge: seq<byte>,
                                c1: AssertionCredential, c2: AssertionCredential)
    requires |challenge| == ChallengeLength
    requires HasBiometric(users, email)
    ensures var a1 := AuthenticateWithBiometric(true, users, email, challenge, Resolved(Some(c1)));
            var a2 := AuthenticateWithBiometric(true, users, email, challenge, Resolved(Some(c2)));
            a1.started == a2.started && a1.result.Success? && a2.result.Success?
  {
  }

  /** After a credential is attached to an existing account, authentication for that email
      starts a ceremony instead of failing with "no credentials". */
  lemma EnrollThenAuthenticate(users: seq<Record>, email: string, d: RegistrationDescriptor,
                               challenge: seq<byte>, ceremony: Ceremony<AssertionCredential>)
    requires |challenge| == ChallengeLength
    requires exists i :: 0 <= i < |users| && users[i].email == email
    ensures AuthenticateWithBiometric(true, SetBiometric(users, email, Some(d)), email, challenge, ceremony).started
         == Some(RequestOptionsFor(challenge))
  {
    HasBiometricAfterSet(users, email, Some(d), email);
  }

  /** After removal, authentication for that email fails with "no credentials" before any
      ceremony. */
  lemma RemoveThenAuthenticate(users: seq<Record>, email: string, challenge: seq<byte>,
                               ceremony: Ceremony<AssertionCredential>)
    requires |challenge| == ChallengeLength
    ensures AuthenticateWithBiometric(true, SetBiometric(users, email, None), email, challenge, ceremony)
         == Attempt(None, Failure(NoCredentials))
  {
    HasBiometricAfterSet(users, email, None, email);
  }

  // ---------------------------------------------------------------- removal

  /** `removeBiometric(email)`: clears the credential of the first record with the email and
      writes the list back, answering true; answers false and writes nothing when no record
      has the email. */
  method RemoveBiometric(storage: LocalStorage, email: string) returns (removed: bool)
    modifies storage
    ensures removed <==> exists i :: 0 <= i < |old(storage.users)| && old(storage.users)[i].email == email
    ensures removed ==> storage.users == SetBiometric(old(storage.users), email, None)
    ensures !removed ==> storage.users == old(storage.users)
    ensures storage.currentUser == old(storage.currentUser)
  {
    var users := storage.users;
    var userIndex := FindIndex(users, ByEmail(email));
    if userIndex.Some? {
      var i := userIndex.value;
      users := users[i := users[i].(biometricCredentials := None)];
      storage.users := users;
      return true;
    }
    return false;
  }

  /** A second removal finds the same record and leaves the list as the first left it. */
  lemma RemoveBiometricIdempotent(users: seq<Record>, email: string)
    ensures var once := SetBiometric(users, email, None);
      && SetBiometric(once, email, None) == once
      && FindIndex(once, ByEmail(email)).Some? == FindIndex(users, ByEmail(email)).Some?
  {
    SetBiometricIdempotent(users, email, None);
    SetBiometricKeepsIndex(users, email, None, email);
  }
}
