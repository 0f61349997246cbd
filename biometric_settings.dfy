/** The `BiometricSettings` component's state and its three handlers: the status
    check run when it mounts, enrollment and removal. The component is mounted only
    behind the protected `/user` route, so the enrollment and removal handlers are
    given the signed-in user. */
module BiometricSettings {
  import opened Wrappers
  import opened Accounts
  import opened Biometric

  const EnrollFailed := "Failed to enroll biometric"
  const EnrollSucceeded := "Biometric authentication enabled successfully!"
  const RemoveSucceeded := "Biometric authentication removed"

  /** The banner: a kind ("", "success" or "error") and a text. */
  datatype Message = Message(kind: string, text: string)

  class SettingsPanel {
    var isAvailable: bool
    var isEnrolled: bool
    var loading: bool
    var message: Message

    /** The hooks' initial values. */
    constructor ()
      ensures !isAvailable && !isEnrolled && !loading && message == Message("", "")
    {
      isAvailable := false;
      isEnrolled := false;
      loading := false;
      message := Message("", "");
    }

    /** `checkBiometricStatus`: records the probe's answer, and only when a user with a
        non-empty email is signed in and the platform is available, whether that user's
        record is enrolled. */
    method CheckBiometricStatus(storage: LocalStorage, user: Option<PublicUser>,
                                apiPresent: bool, probe: Result<bool, string>)
      modifies this
      ensures isAvailable == IsBiometricAvailable(apiPresent, probe)
      ensures user.Some? && user.value.email != "" && isAvailable ==>
        isEnrolled == HasBiometric(storage.users, user.value.email)
      ensures !(user.Some? && user.value.email != "" && isAvailable) ==> isEnrolled == old(isEnrolled)
      ensures loading == old(loading) && message == old(message)
    {
      var available := IsBiometricAvailable(apiPresent, probe);
      isAvailable := available;
      if user.Some? && user.value.email != "" && available {
        var users := storage.users;
        var found := FindIndex(users, ByEmail(user.value.email));
        isEnrolled := found.Some? && users[found.value].biometricCredentials.Some?;
      }
    }

    /** `handleEnrollBiometric`: registers a credential and attaches it to the first record
        with the user's email. A failed registration leaves the storage alone and shows the
        error; `loading` is false on every exit. */
    method HandleEnrollBiometric(storage: LocalStorage, user: PublicUser, apiPresent: bool, hostname: string,
                                 challenge: seq<byte>, userId: seq<byte>,
                                 ceremony: Ceremony<AttestationCredential>)
      requires |challenge| == ChallengeLength && |userId| == UserIdLength
      modifies this, storage
      ensures !loading && isAvailable == old(isAvailable)
      ensures storage.currentUser == old(storage.currentUser)
      ensures var users := old(storage.users);
        match RegisterBiometric(apiPresent, user.email, hostname, challenge, userId, ceremony).result
        case Failure(m) =>
          && storage.users == users && isEnrolled == old(isEnrolled)
          && message == Message("error", OrElse(m, EnrollFailed))
        case Success(d) =>
          if FindIndex(users, ByEmail(user.email)).Some? then
            && storage.users == SetBiometric(users, user.email, Some(d))
            && isEnrolled && message == Message("success", EnrollSucceeded)
          else
            storage.users == users && isEnrolled == old(isEnrolled) && message == Message("", "")
    {
      loading := true;
      message := Message("", "");
      var attempt := RegisterBiometric(apiPresent, user.email, hostname, challenge, userId, ceremony);
      match attempt.result {
        case Failure(m) =>
          message := Message("error", OrElse(m, EnrollFailed));
        case Success(credential) =>
          var users := storage.users;
          var userIndex := FindIndex(users, ByEmail(user.email));
          if userIndex.Some? {
            var i := userIndex.value;
            users := users[i := users[i].(biometricCredentials := Some(credential))];
            storage.users := users;
            isEnrolled := true;
            message := Message("success", EnrollSucceeded);
          }
      }
      loading := false;
    }

    /** `handleRemoveBiometric`: once confirmed, removes the credential and marks the panel
        not enrolled, whatever `removeBiometric` answered. */
    method HandleRemoveBiometric(storage: LocalStorage, user: PublicUser, confirmed: bool)
      modifies this, storage
      ensures confirmed ==> storage.users == SetBiometric(old(storage.users), user.email, None)
      ensures confirmed ==> !isEnrolled && message == Message("success", RemoveSucceeded)
      ensures !confirmed ==> unchanged(this, storage)
      ensures storage.currentUser == old(storage.currentUser)
      ensures loading == old(loading) && isAvailable == old(isAvailable)
    {
      if confirmed {
        var _ := RemoveBiometric(storage, user.email);
        isEnrolled := false;
        message := Message("success", RemoveSucceeded);
      }
    }
  }

  /** Registration never throws an empty message, so the enrollment banner shows the
      registration error itself and never falls back to the component's own text. */
  lemma EnrollFallbackUnused(apiPresent: bool, email: string, hostname: string,
                             challenge: seq<byte>, userId: seq<byte>, ceremony: Ceremony<AttestationCredential>)
    requires |challenge| == ChallengeLength && |userId| == UserIdLength
    requires RegisterBiometric(apiPresent, email, hostname, challenge, userId, ceremony).result.Failure?
    ensures var m := RegisterBiometric(apiPresent, email, hostname, challenge, userId, ceremony).result.error;
      OrElse(m, EnrollFailed) == m
  {
  }
}
