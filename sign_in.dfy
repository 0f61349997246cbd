/** The `SignIn` component's state and its two handlers: the password form and the
    biometric button. Navigation to `/user` is reported as an out-parameter. */
module SignInPage {
  import opened Wrappers
  import opened Accounts
  import opened AuthSlice
  import opened Biometric

  const FieldsRequired := "All fields are required"
  const InvalidEmailOrPassword := "Invalid email or password"
  const EnterEmail := "Please enter your email address"
  const EmailNotFound := "Email not found"
  const NoCredentialsRegistered := "No biometric credentials registered for this account"
  const BiometricFailed := "Biometric authentication failed"

  /** The early exits of the biometric button, in the order the handler tries them:
      the error it shows, or none when it goes on to the ceremony. */
  function BiometricGate(users: seq<Record>, email: string): (error: Option<string>)
    ensures error.None? <==> email != "" && HasBiometric(users, email)
    ensures email == "" ==> error == Some(EnterEmail)
    ensures email != "" && FindIndex(users, ByEmail(email)).None? ==> error == Some(EmailNotFound)
    ensures email != "" && FindIndex(users, ByEmail(email)).Some? && !HasBiometric(users, email) ==>
      error == Some(NoCredentialsRegistered)
  {
    if email == "" then Some(EnterEmail)
    else match FindIndex(users, ByEmail(email))
      case None => Some(EmailNotFound)
      case Some(i) => if users[i].biometricCredentials.None? then Some(NoCredentialsRegistered) else None
  }

  /** Past the gate, the reducer dispatched after the ceremony cannot throw: the enrolled
      record the gate found is the one `signInWithBiometric` finds. */
  lemma GatePassedSignInSucceeds(users: seq<Record>, email: string)
    requires BiometricGate(users, email).None?
    ensures BiometricSignInOutcome(users, email) == Success(Public(users[FindIndex(users, ByEmail(email)).value]))
  {
    BiometricSignInWhenEnrolled(users, email);
  }

  /** The text the biometric handler's catch shows for a dispatch: none when the reducer
      completed (the error stays as cleared), else `err.message || fallback`. */
  function DispatchError(status: Status): (m: string)
    ensures status.Completed? ==> m == ""
    ensures status.Thrown? ==> m == OrElse(status.message, BiometricFailed) && m != ""
  {
    match status
    case Completed => ""
    case Thrown(message) => OrElse(message, BiometricFailed)
  }

  class SignInForm {
    var email: string
    var password: string
    var error: string
    var biometricEmail: string
    var biometricLoading: bool
    var isBiometricSupported: bool

    /** The hooks' initial values. */
    constructor ()
      ensures email == "" && password == "" && error == "" && biometricEmail == ""
      ensures !biometricLoading && !isBiometricSupported
    {
      email, password, error, biometricEmail := "", "", "", "";
      biometricLoading, isBiometricSupported := false, false;
    }

    /** `checkBiometricSupport`: the probe's answer decides whether the button is shown. */
    method CheckBiometricSupport(apiPresent: bool, probe: Result<bool, string>)
      modifies this
      ensures isBiometricSupported == IsBiometricAvailable(apiPresent, probe)
      ensures email == old(email) && password == old(password) && error == old(error)
      ensures biometricEmail == old(biometricEmail) && biometricLoading == old(biometricLoading)
    {
      isBiometricSupported := IsBiometricAvailable(apiPresent, probe);
    }

    /** `handleSubmit`: with an empty field nothing is dispatched; otherwise `signIn` is,
        and a throw becomes the generic "invalid" message. */
    method HandleSubmit(auth: AuthState, storage: LocalStorage) returns (navigated: bool)
      requires auth.Valid()
      modifies this, auth, storage
      ensures auth.Valid() && storage.users == old(storage.users)
      ensures email == old(email) && password == old(password)
      ensures biometricEmail == old(biometricEmail) && biometricLoading == old(biometricLoading)
      ensures isBiometricSupported == old(isBiometricSupported)
      ensures email == "" || password == "" ==>
        error == FieldsRequired && !navigated && unchanged(auth, storage)
      ensures email != "" && password != "" ==>
        match SignInOutcome(old(storage.users), email, password)
        case Failure(_) => error == InvalidEmailOrPassword && !navigated && unchanged(auth, storage)
        case Success(session) =>
          error == "" && navigated && auth.user == Some(session) && storage.currentUser == Some(session)
    {
      error := "";
      if email == "" || password == "" {
        error := FieldsRequired;
        return false;
      }
      var status := auth.SignIn(storage, email, password);
      navigated := status.Completed?;
      if status.Thrown? {
        error := InvalidEmailOrPassword;
      }
    }

    /** `handleBiometricLogin`: the gate's early exits, then the assertion ceremony, then
        the `signInWithBiometric` dispatch. The session changes only after a successful
        ceremony; `biometricLoading` is false on every exit. */
    method HandleBiometricLogin(auth: AuthState, storage: LocalStorage, apiPresent: bool,
                                challenge: seq<byte>, ceremony: Ceremony<AssertionCredential>)
      returns (ceremonyStarted: bool, navigated: bool)
      requires |challenge| == ChallengeLength
      requires auth.Valid()
      modifies this, auth, storage
      ensures auth.Valid() && !biometricLoading && storage.users == old(storage.users)
      ensures email == old(email) && password == old(password) && biometricEmail == old(biometricEmail)
      ensures isBiometricSupported == old(isBiometricSupported)
      ensures var users := old(storage.users);
        match BiometricGate(users, biometricEmail)
        case Some(m) =>
          error == m && !ceremonyStarted && !navigated && unchanged(auth, storage)
        case None =>
          var attempt := AuthenticateWithBiometric(apiPresent, users, biometricEmail, challenge, ceremony);
          && ceremonyStarted == apiPresent
          && (match attempt.result
              case Failure(m) =>
                error == OrElse(m, BiometricFailed) && !navigated && unchanged(auth, storage)
              case Success(_) =>
                && navigated && error == ""
                && auth.user == Some(BiometricSignInOutcome(users, biometricEmail).value)
                && storage.currentUser == auth.user)
    {
      error := "";
      biometricLoading := true;
      ceremonyStarted, navigated := false, false;

      if biometricEmail == "" {
        error := EnterEmail;
        biometricLoading := false;
        return;
      }

      var users := storage.users;
      var found := FindIndex(users, ByEmail(biometricEmail));
      if found.None? {
        error := EmailNotFound;
        biometricLoading := false;
        return;
      }

      if users[found.value].biometricCredentials.None? {
        error := NoCredentialsRegistered;
        biometricLoading := false;
        return;
      }

      var attempt := AuthenticateWithBiometric(apiPresent, users, biometricEmail, challenge, ceremony);
      ceremonyStarted := attempt.started.Some?;
      if attempt.result.Failure? {
        error := OrElse(attempt.result.error, BiometricFailed);
      } else {
        var status := auth.SignInWithBiometric(storage, biometricEmail);
        navigated := status.Completed?;
        error := DispatchError(status);
      }
      biometricLoading := false;
    }
  }
}
