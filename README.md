# Session manager of the notes backend, in Dafny

This project models the authentication service of a small notes backend
(`AuthService`, in `src/main/kotlin/com/mynotes/notes/security/AuthService.kt`) and proves
properties of that model. The service works on two stores:

- the **user directory**: users with an id, an email and a password digest;
- the **refresh-token ledger**: records `(userId, expiresAt, hashedToken)`. Each record holds the
  fingerprint of a refresh token, never the raw token.

It has three operations:

- `register` refuses an email whose trimmed form is already in the directory (`Conflict`).
  Otherwise it saves a new user with the hashed password.
- `login` authenticates by exact email and password (`InvalidCredentials` otherwise). It then
  mints an access/refresh token pair and records the refresh token's fingerprint.
- `refresh` is one-time-use rotation. It checks that the token is valid, that its subject exists
  and that the ledger holds its `(userId, fingerprint)` (`Unauthorized` otherwise). It then
  deletes the matching records, mints a new pair and records the new fingerprint.

Layout:

- `wrappers.dfy`: `Option` and `Result`.
- `text.dfy`: Kotlin's `String.trim()`, with the JVM's `Char.isWhitespace()`.
- `repository.dfy`: the two record types and the repository queries the service calls.
- `session.dfy`: the operations as functions from a `Store` to a `Step`. A `Step` is the new store
  plus the result or error.
- `session_properties.dfy`: lemmas that span several calls. These cover invariant preservation,
  replay rejection, both right after a rotation and after any sequence of later calls
  (`Request`, `ServeAll`), redeemability of issued tokens, an end-to-end session and the
  padded-email duplicate.
- `auth_service.dfy`: the class `AuthService`. It has `users` and `ledger` fields, which its methods
  update in place, and a ghost `issued` set. Each method is proved to leave exactly the store that
  the matching `Session` function describes, and to keep `Session.Invariant`.

The collaborators are abstract. They are the fields of `Session.Env`, which the class receives
when it is built:

- the JWT codec: `validateRefreshToken`, `getUserIdFromToken`, the two generators and
  `refreshTokenValidityMs`;
- the password hasher: `encode` and `matches`;
- `hashToken`: an arbitrary, deterministic function of the raw token.

The clock is a `now` parameter. The codec's generators and its validation take that time as an
argument.

Notes on the code as written:

- `register` looks up `email.trim()` but saves the untrimmed `email`. So the directory does not keep
  emails unique. `SessionProperties.PaddedEmailRegistersTwice` shows that an email with surrounding
  whitespace registers successfully twice.
- What does hold is `Session.EmailsFresh`: no user's email equals the trimmed email of a user saved
  after it. Its consequence, `SessionProperties.TrimmedEmailsUnique`, is that emails already in
  trimmed form are unique.
- `login` looks up the email exactly as given.
- `deleteByUserIdAndHashedToken` removes every matching record, not just one.
- The record's `expiresAt` is written but never read. Expiry is enforced only by the codec's
  validation.

## Model

| member | source | states |
|---|---|---|
| Text.TrimStart | src/main/kotlin/com/mynotes/notes/security/AuthService.kt:31 | result is a suffix of the input; every dropped character is whitespace; the result does not start with whitespace |
| Text.TrimEnd | src/main/kotlin/com/mynotes/notes/security/AuthService.kt:31 | result is a prefix of the input; every dropped character is whitespace; the result does not end with whitespace |
| Text.Trim | src/main/kotlin/com/mynotes/notes/security/AuthService.kt:31 | `trim()` is a slice of the input with only whitespace outside it, and it neither starts nor ends with whitespace |
| Text.TrimOfTrimmed | src/main/kotlin/com/mynotes/notes/security/AuthService.kt:31 | a string with no leading or trailing whitespace is its own trim |
| Text.TrimIdempotent | src/main/kotlin/com/mynotes/notes/security/AuthService.kt:31 | trimming twice equals trimming once |
| Text.WhitespaceEnumerated | src/main/kotlin/com/mynotes/notes/security/AuthService.kt:31 | `Char.isWhitespace()` on the JVM holds of exactly the 28 listed characters: TAB..CR, FS..US, the space, NBSP, the Unicode space separators, and the line and paragraph separators |
| Repository.FindFirst | src/main/kotlin/com/mynotes/notes/security/AuthService.kt:45 | a found element is in the collection and satisfies the query; nothing is found exactly when no element satisfies it |
| Repository.FindByEmail | src/main/kotlin/com/mynotes/notes/security/AuthService.kt:45 | `findByEmail` returns a stored user with that exact email, and returns nothing exactly when no user has it |
| Repository.FindById | src/main/kotlin/com/mynotes/notes/security/AuthService.kt:70-72 | `findById` returns a stored user with that id, and returns nothing exactly when no user has it |
| Repository.FindByUserIdAndHashedToken | src/main/kotlin/com/mynotes/notes/security/AuthService.kt:75-76 | returns a ledger record with that owner and fingerprint, and returns nothing exactly when no record is recognised |
| Repository.DeleteByUserIdAndHashedToken | src/main/kotlin/com/mynotes/notes/security/AuthService.kt:78 | the delete never grows the ledger and leaves no record with that owner and fingerprint |
| Repository.DeleteKeepsOthers | src/main/kotlin/com/mynotes/notes/security/AuthService.kt:78 | after the delete no record matches; every remaining record was there before; every non-matching record survives |
| Repository.DeleteCounts | src/main/kotlin/com/mynotes/notes/security/AuthService.kt:78 | the delete keeps each non-matching record with its multiplicity and keeps no matching record |
| Repository.Save | src/main/kotlin/com/mynotes/notes/security/AuthService.kt:97-103 | save appends one element and leaves every existing element in place |
| Session.LedgerRecord | src/main/kotlin/com/mynotes/notes/security/AuthService.kt:93-103 | the record saved for a token carries its owner and the token's fingerprint, so the lookup at line 75 matches it, and expires `refreshTokenValidityMs` after `now` |
| Session.StoreRefreshToken | src/main/kotlin/com/mynotes/notes/security/AuthService.kt:92-104 | exactly one record is appended, holding the owner, `hashToken(raw)` and `now + refreshTokenValidityMs`; all earlier records are unchanged |
| Session.Register | src/main/kotlin/com/mynotes/notes/security/AuthService.kt:30-41 | Conflict exactly when some user has the trimmed email, with the store unchanged; otherwise exactly one user is appended, under the untrimmed email with the digest `encode(password)`, and the ledger is untouched |
| Session.Login | src/main/kotlin/com/mynotes/notes/security/AuthService.kt:44-61 | InvalidCredentials exactly when no user has the email or the password does not match, with the store unchanged; on success the pair is minted for that user, the directory is unchanged and exactly one record is appended for the returned refresh token |
| Session.Refresh | src/main/kotlin/com/mynotes/notes/security/AuthService.kt:63-90 | succeeds exactly when the token is valid, its subject exists and the ledger recognises (subject, fingerprint); any failure is Unauthorized with the store unchanged; on success no remaining record matches the old fingerprint, every other record survives and the new record is last |
| SessionProperties.RegisterPreservesInvariant | src/main/kotlin/com/mynotes/notes/security/AuthService.kt:30-40 | register keeps the invariant: ids are positions, emails are fresh, ledger owners exist, fingerprints come from issued tokens |
| SessionProperties.LoginPreservesInvariant | src/main/kotlin/com/mynotes/notes/security/AuthService.kt:44-61 | login keeps the invariant once its refresh token counts as issued |
| SessionProperties.RefreshPreservesInvariant | src/main/kotlin/com/mynotes/notes/security/AuthService.kt:63-90 | refresh keeps the invariant once its new refresh token counts as issued |
| SessionProperties.DeletePreservesInvariant | src/main/kotlin/com/mynotes/notes/security/AuthService.kt:78 | deleting records keeps the invariant |
| SessionProperties.RefreshLedgerCounts | src/main/kotlin/com/mynotes/notes/security/AuthService.kt:78-83 | a successful refresh, counted record by record: matching records go to zero, others keep their multiplicity, exactly one new record is added |
| SessionProperties.RedeemedTokenRetired | src/main/kotlin/com/mynotes/notes/security/AuthService.kt:74-83 | after a rotation the old (owner, fingerprint) is no longer recognised, unless the new token has the same fingerprint |
| SessionProperties.ReplayRejected | src/main/kotlin/com/mynotes/notes/security/AuthService.kt:74-83 | right after a rotation, the next refresh with the redeemed token fails with Unauthorized, whatever the clock value |
| SessionProperties.AtMostOneRotation | src/main/kotlin/com/mynotes/notes/security/AuthService.kt:63-90 | of two refreshes with the same token, at most one succeeds |
| SessionProperties.ServeKeepsRetired | src/main/kotlin/com/mynotes/notes/security/AuthService.kt:30-104 | an (owner, fingerprint) the ledger does not recognise stays unrecognised through any register, login or refresh, unless that call hands out a token with the same fingerprint |
| SessionProperties.ServeAllKeepsRetired | src/main/kotlin/com/mynotes/notes/security/AuthService.kt:30-104 | the same through any sequence of calls |
| SessionProperties.RedeemedTokenNeverAccepted | src/main/kotlin/com/mynotes/notes/security/AuthService.kt:63-90 | once a token is redeemed, refreshing with it fails with Unauthorized after any calls in between, unless one of them hands out a token with its fingerprint |
| SessionProperties.LoginTokenRedeemable | src/main/kotlin/com/mynotes/notes/security/AuthService.kt:51-54 | the refresh token from a successful login is accepted by refresh while the codec validates it |
| SessionProperties.RefreshTokenRedeemable | src/main/kotlin/com/mynotes/notes/security/AuthService.kt:80-83 | the refresh token from a successful refresh is itself accepted by refresh while the codec validates it |
| SessionProperties.EndToEnd | src/main/kotlin/com/mynotes/notes/security/AuthService.kt:30-90 | register, login, rotate T1 into T2, replay T1 (Unauthorized), redeem T2 (success) |
| SessionProperties.PaddedEmailRegistersTwice | src/main/kotlin/com/mynotes/notes/security/AuthService.kt:31-40 | an email that differs from its trim registers successfully twice, giving two users with the same email |
| SessionProperties.PaddedEmailExample | src/main/kotlin/com/mynotes/notes/security/AuthService.kt:31 | such emails exist: " a" trims to "a" |
| SessionProperties.TrimmedEmailsUnique | src/main/kotlin/com/mynotes/notes/security/AuthService.kt:31-34 | under the invariant, two users whose emails are already trimmed have different emails |
| Auth.AuthService.constructor | src/main/kotlin/com/mynotes/notes/security/AuthService.kt:18-25 | the service starts with empty stores, no issued tokens and the invariant |
| Auth.AuthService.StoreRefreshToken | src/main/kotlin/com/mynotes/notes/security/AuthService.kt:92-104 | the ledger field gains exactly the record (owner, now + validity, hashToken(raw)); the raw token is only added to the ghost issued set; the invariant holds |
| Auth.AuthService.Register | src/main/kotlin/com/mynotes/notes/security/AuthService.kt:30-41 | the fields become the store that Session.Register gives; Conflict exactly when the trimmed email is taken, with the directory unchanged; otherwise exactly one user is appended |
| Auth.AuthService.IssueTokens | src/main/kotlin/com/mynotes/notes/security/AuthService.kt:51-54 | mints the pair for the user and appends exactly one ledger record for the new refresh token |
| Auth.AuthService.Login | src/main/kotlin/com/mynotes/notes/security/AuthService.kt:44-61 | the fields become the store that Session.Login gives; on failure the error is InvalidCredentials and the ledger is unchanged |
| Auth.AuthService.Rotate | src/main/kotlin/com/mynotes/notes/security/AuthService.kt:78-83 | the ledger becomes the matching records deleted, then one record for the new refresh token appended |
| Auth.AuthService.Refresh | src/main/kotlin/com/mynotes/notes/security/AuthService.kt:63-90 | the fields become the store that Session.Refresh gives; on failure the error is Unauthorized and the ledger is unchanged; the invariant holds |
| Auth.ReplayAgainstService | src/main/kotlin/com/mynotes/notes/security/AuthService.kt:74-83 | on the object, a second refresh with an already redeemed token returns Unauthorized |

## Left out

- SHA-256 (FIPS 180-4) and Base64 (section 4 of RFC 4648) inside `hashToken` are foreign library calls. `hashToken` is an arbitrary deterministic function.
- Collision resistance of `hashToken` cannot be proved. Where it matters, the lemmas take as a premise that the new token's fingerprint differs from the old one's (ReplayRejected, AtMostOneRotation, RedeemedTokenNeverAccepted, EndToEnd).
- JWT signing, validation, claims and subject extraction are abstract functions of `Session.TokenCodec`. The source injects the codec twice, as `jwtServie` and `jwtService` (lines 20 and 24). Both are the same codec here.
- The codec's own guarantees are not assumed. A minted token carrying its subject and passing validation is a premise (`SessionProperties.MintsValid`) of the lemmas that need it.
- `ObjectId(userId)` at line 70 throws on a malformed hex string. This path is not modelled: `getUserIdFromToken` returns the id directly.
- MongoDB's `ObjectId.get()` is modelled as the user's position in the directory. This id is unique because users are never deleted.
- `Instant.now()` becomes the `now` parameter, read once per call. The source reads the clock separately in the codec and in `storeRefreshToken`. `Instant` range overflow (`DateTimeException`) is not modelled.
- `hashEncoder.encode`/`matches` are abstract. Session.Register: states that the stored digest is `encode(password)`. It does not state that the digest differs from the raw password, because that is the hasher's property.
- When several users share an email, or several records share a key, Spring Data's single-result queries throw. Repository.FindByEmail and Repository.FindByUserIdAndHashedToken return the first match instead.
- Concurrency and the locking behind `@Transactional` are left out. `refresh` is one atomic call. Its failures all occur before the delete, so a failed call changes nothing.
- HTTP statuses and exception types (`ResponseStatusException`, `BadCredentialsException`) collapse to `Session.AuthError`.
- The service starts from empty stores. Records issued before this service instance existed are not covered by the ghost `issued` set.
- `Note.kt` and `NoteRepository.kt` have no behaviour; they are not part of this model.
