# Local account store and biometric sign-in, modelled in Dafny

This project models the core of a browser demo of email/password and WebAuthn platform-authenticator sign-in. It has no server. Its account records live in a `users` local-storage slot, and its session lives in a `currentUser` slot mirrored by the Redux `auth` state.

The model covers:

- **Account records and storage** (`accounts.dfy`). A `Record` holds email, password, `createdAt` and an optional credential descriptor. A `PublicUser` is the session value, `{email, createdAt}`; its type has no password field. The `Query` datatype gives the three `find` predicates, and `FindIndex` models `findIndex`. `SetBiometric` is the read-modify-write that attaches or clears a credential at the first matching record. `LocalStorage` is a class holding the two slots. An absent `users` slot reads as the empty list.
- **The `auth` slice** (`auth_slice.dfy`). `AuthState` is a class with `user` and `isAuthenticated`. Its constructor is `initialState`, and its four methods are the reducers. Each reducer is proved against a pure outcome function (`SignUpOutcome`, `SignInOutcome`, `BiometricSignInOutcome`). A reducer that throws returns `Thrown(message)` and leaves the state and both slots unchanged.
- **The WebAuthn helpers** (`biometric.dfy`):
  - the capability probe;
  - the `PublicKeyCredentialCreationOptions` and `PublicKeyCredentialRequestOptions` dictionaries (sections 5.4 and 5.5 of W3C Web Authentication Level 2). COSE algorithm -7 is ES256 (section 8.1 of RFC 8152) and -257 is RS256 (section 2 of RFC 8812);
  - serialisation of buffers into byte lists;
  - `registerBiometric` and `authenticateWithBiometric`, written as functions over oracle inputs;
  - `removeBiometric`, written as a method on the storage.
  
  An `Attempt` records which options were handed to the platform, if a ceremony was started, and what the call returned or threw.
- **The components** (`biometric_settings.dfy`, `sign_in.dfy`). `SettingsPanel` and `SignInForm` are classes holding the React state of `BiometricSettings` and `SignIn`. Their methods are the event handlers, including the ordered early exits of the biometric sign-in button (`BiometricGate`).

The platform is modelled as oracle parameters:

- `apiPresent` stands for `window.PublicKeyCredential`.
- A probe result stands for `isUserVerifyingPlatformAuthenticatorAvailable`.
- A `Ceremony` value (rejected with a message, or resolved with a credential or null) stands for `navigator.credentials.create/get`.
- Random bytes of the allocated lengths stand for `crypto.getRandomValues`.
- `now` stands for `new Date().toISOString()`, and `hostname` for `window.location.hostname`.
- `confirmed` stands for the answer to `window.confirm`.

The model follows the code as written, including where a reader might expect otherwise:

- Removal answers `true` for any existing email, even when the record has no credential.
- Errors are plain messages (`error.message || fallback`), not a typed taxonomy.
- Passwords are compared in clear text.
- The assertion's signature is never checked.

## Model

| member | source | states |
|---|---|---|
| Accounts.FindIndex | src/utils/biometric.js:118 | the first index whose record matches the query, or none exactly when no record matches |
| Accounts.SetBiometric | src/utils/biometric.js:118-122 | only the first record with the email gets the new credential field; every other record, and every email, password and creation time, is unchanged; no match leaves the list as it was |
| Accounts.SetBiometricKeepsIndex | src/components/BiometricSettings.jsx:45-50 | attaching or clearing a credential never changes which record an email lookup finds |
| Accounts.SetBiometricIdempotent | src/utils/biometric.js:116-127 | applying the same credential update twice equals applying it once |
| Accounts.SetBiometricKeepsUnique | src/components/BiometricSettings.jsx:45-50 | credential updates preserve at most one record per email |
| Accounts.HasBiometricAfterSet | src/components/BiometricSettings.jsx:31-34 | after an update the email's enrolled status is that of the new value (if the email exists); other emails keep their status |
| AuthSlice.SignUpOutcome | src/redux/slices/authSlice.js:17-33 | fails with 'User already exists' exactly when the email is present; otherwise appends one unenrolled record at the end, keeps earlier records, and preserves unique emails |
| AuthSlice.SignInOutcome | src/redux/slices/authSlice.js:41-50 | succeeds exactly when some record has an equal email and an equal password; otherwise 'Invalid credentials' |
| AuthSlice.BiometricSignInOutcome | src/redux/slices/authSlice.js:56-65 | succeeds exactly when some record with the email has a credential; it is given no challenge or signature |
| AuthSlice.SignUpThenSignIn | src/redux/slices/authSlice.js:26-50 | after a successful sign-up, sign-in with the same password yields the session sign-up created |
| AuthSlice.SignUpScenario | src/redux/slices/authSlice.js:17-55 | from an empty store: one record is created, a wrong password is refused, and the right one restores the session |
| AuthSlice.SignInWithUniqueEmails | src/redux/slices/authSlice.js:45-50 | with unique emails, sign-in succeeds exactly when that record's password matches, and the session carries its creation time |
| AuthSlice.BiometricSignInWhenEnrolled | src/redux/slices/authSlice.js:60-65 | when the first record with the email is enrolled, biometric sign-in yields that record's public part |
| AuthSlice.BiometricSignInWithUniqueEmails | src/redux/slices/authSlice.js:60-63 | with unique emails, biometric sign-in succeeds exactly when the email is enrolled |
| AuthSlice.AuthState.constructor | src/redux/slices/authSlice.js:3-11 | the initial state is the persisted session; authenticated exactly when one is present |
| AuthSlice.AuthState.SignUp | src/redux/slices/authSlice.js:17-40 | a duplicate throws and changes nothing; otherwise the new list is stored, and the slot and state hold `{email, createdAt}` with authentication on |
| AuthSlice.AuthState.SignIn | src/redux/slices/authSlice.js:41-55 | a failure throws and changes nothing; success stores the public session; `users` is never written |
| AuthSlice.AuthState.SignInWithBiometric | src/redux/slices/authSlice.js:56-70 | same as sign-in, gated on a stored credential |
| AuthSlice.AuthState.Logout | src/redux/slices/authSlice.js:71-75 | clears the slot, sets `user` to null and `isAuthenticated` to false whatever the prior state; `users` is untouched |
| Biometric.IsBiometricAvailable | src/utils/biometric.js:1-12 | false when the API is absent or the probe fails, otherwise the probe's answer; never throws |
| Biometric.CreationOptionsFor | src/utils/biometric.js:19-46 | well-formed creation options: 32-byte challenge, 16-byte user id, name and display name equal to the email, algorithms [-7, -257], platform attachment, preferred verification, 60000 ms timeout, direct attestation |
| Biometric.RequestOptionsFor | src/utils/biometric.js:83-90 | well-formed request options: 32-byte challenge, 60000 ms timeout, preferred verification |
| Biometric.ByteList | src/utils/biometric.js:59 | a buffer becomes a list of the same length with the same byte values |
| Biometric.BufferOfByteList | src/utils/biometric.js:57-65 | a stored byte list reads back as the original buffer |
| Biometric.ByteListOfBufferOf | src/utils/biometric.js:101-110 | a list of byte values is exactly the list of the buffer it reads back as |
| Biometric.DescribeAttestation | src/utils/biometric.js:57-65 | the registration descriptor copies `id` and `type` verbatim, and each buffer as a list that reads back as it |
| Biometric.DescribeAssertion | src/utils/biometric.js:101-110 | the assertion descriptor copies `id` and `type` verbatim, and each buffer as a list that reads back as it |
| Biometric.CeremonyError | src/utils/biometric.js:53-55 | a null credential becomes the cancel message; a rejection keeps its message, or the fallback when that message is empty; never empty |
| Biometric.RegisterBiometric | src/utils/biometric.js:14-69 | without the API it throws 'WebAuthn not supported' before any ceremony; otherwise it starts the ceremony with the built options; it succeeds exactly when a credential comes back, and then returns its descriptor; thrown messages are never empty |
| Biometric.AuthenticateWithBiometric | src/utils/biometric.js:71-114 | it throws before any ceremony when the API is absent, or when the email's record is missing or unenrolled; otherwise it starts the ceremony with the request options, and succeeds exactly when an assertion comes back |
| Biometric.AssertionContentIgnored | src/utils/biometric.js:92-110 | for an enrolled email any two assertions the platform returns are both accepted, with the same request options, whatever their ids, client data and signatures |
| Biometric.EnrollThenAuthenticate | src/utils/biometric.js:76-90 | after a credential is attached to an existing account, authentication starts a ceremony instead of failing |
| Biometric.RemoveThenAuthenticate | src/utils/biometric.js:76-81 | after removal, authentication for that email fails with the no-credentials error before any ceremony |
| Biometric.RemoveBiometric | src/utils/biometric.js:116-127 | answers true exactly when some record has the email; then only that record's credential is cleared; on false nothing is written |
| Biometric.RemoveBiometricIdempotent | src/utils/biometric.js:116-127 | a second removal gives the same list and the same answer |
| BiometricSettings.SettingsPanel.constructor | src/components/BiometricSettings.jsx:18-21 | not available, not enrolled, not loading, empty message |
| BiometricSettings.SettingsPanel.CheckBiometricStatus | src/components/BiometricSettings.jsx:27-36 | records availability; sets the enrolled flag from the user's record only when a user with an email is present and the platform is available, otherwise keeps it |
| BiometricSettings.SettingsPanel.HandleEnrollBiometric | src/components/BiometricSettings.jsx:38-65 | a registration failure leaves storage and the enrolled flag alone and shows the error text or 'Failed to enroll biometric'; success attaches the credential to the first matching record only; no match writes nothing; `loading` ends false |
| BiometricSettings.SettingsPanel.HandleRemoveBiometric | src/components/BiometricSettings.jsx:67-83 | once confirmed, removes the credential and sets the enrolled flag to false whatever removal answered |
| BiometricSettings.EnrollFallbackUnused | src/components/BiometricSettings.jsx:57-61 | registration errors are never empty, so the banner always shows the registration's own message |
| SignInPage.BiometricGate | src/components/SignIn.jsx:50-69 | the early exits in order: empty email, unknown email, unenrolled record; it passes exactly when the email is non-empty and enrolled |
| SignInPage.GatePassedSignInSucceeds | src/components/SignIn.jsx:71-73 | past the gate, the biometric sign-in reducer cannot throw |
| SignInPage.SignInForm.constructor | src/components/SignIn.jsx:10-15 | empty fields, no error, not loading, not supported |
| SignInPage.SignInForm.CheckBiometricSupport | src/components/SignIn.jsx:23-26 | support is the probe's answer |
| SignInPage.SignInForm.HandleSubmit | src/components/SignIn.jsx:28-43 | an empty field shows 'All fields are required' and dispatches nothing; otherwise a failed sign-in shows 'Invalid email or password' and changes nothing, and success sets the session and navigates |
| SignInPage.SignInForm.HandleBiometricLogin | src/components/SignIn.jsx:45-80 | a gate failure shows its message with no ceremony and no dispatch; past the gate, the session changes only after the ceremony succeeds; a ceremony failure shows its message and changes nothing; `biometricLoading` ends false |

## Left out

- Platform ceremonies, the probe, `crypto.getRandomValues`, the clock, the hostname and `window.confirm` are oracle parameters. Randomness and single use of challenges cannot be stated.
- JSON parsing and serialisation, and the local-storage API, are left out. The slots are held as values. Malformed stored JSON would make `JSON.parse` throw out of `loadUserFromStorage` (src/redux/slices/authSlice.js:5), the reducers, `authenticateWithBiometric` (src/utils/biometric.js:76) and `removeBiometric`; that path is not modelled. The catch branch of `handleRemoveBiometric` (src/components/BiometricSettings.jsx:76-81) is reached only by a throw the model does not have: malformed JSON, a throwing `localStorage.setItem` inside `removeBiometric` (src/utils/biometric.js:122), or a null `user` at `user.email` (src/components/BiometricSettings.jsx:70).
- Exceptions from `localStorage.setItem`, such as a full quota, are not modelled.
- Serialising a credential whose response lacks a buffer would throw inside the try block. The platform's credential is taken as well-formed.
- Async interleaving is not modelled, such as another tab writing `users` while a ceremony is pending. Each handler runs as one atomic step.
- React rendering, `navigate` (reported as a `navigated` flag), routing, and the presentation-only files (src/App.jsx, src/pages/Home.jsx, src/components/UserPage.jsx) are left out.
- BiometricSettings.SettingsPanel.HandleEnrollBiometric: it takes a signed-in user. With a null user the source would throw a TypeError inside its try block and show that error's text. The component is only mounted behind the protected route, so that case is not modelled.
- BiometricSettings.SettingsPanel.HandleRemoveBiometric: it takes a signed-in user, for the same reason.
- No password hashing and no assertion-signature check are added. The source does neither, and `AssertionContentIgnored` states the gap.
