# Referral service model

A Dafny model of the referral service of a phone-number authentication
system (`UserService` in `users/users/services.py`). Users are records in a
store keyed by phone number; each record holds an auth code, the user's own
invite code, and the invite code the user has redeemed ("activated"). The
service has four operations:

- **authenticate**: get-or-create the record for a phone number, then give it
  a freshly generated invite code if its invite code is still blank;
- **verify auth code**: succeed with the user exactly when the candidate code
  equals the stored auth code, otherwise fail with an invalid-auth-code error;
- **activate invite code**: if some record hands out the given invite code,
  record it as the user's activated invite code and save the user, otherwise
  fail with an invalid-invite-code error;
- **get user profile**: return the user's phone, invite code and activated
  invite code, and the phone numbers of every record that activated this
  user's invite code (the user's downline).

Files:

- `wrappers.dfy` (`Wrappers`): `Option` for nullable columns, `Result` for
  raised errors.
- `users.dfy` (`Users`): the `User` record, the `Store` map, the record
  assumed to be inserted by `get_or_create`, and the store-wide notions `WellFormed`,
  `InviteExists` and `Downline`.
- `services.dfy` (`Services`): the four operations, each a pure function of
  the store returning the new store, except the profile query, which is a
  method that walks the store's keys.
- `properties.dfy` (`ServiceProperties`): lemmas relating several calls.
- `history.dfy` (`History`): arbitrary sequences of the two store-changing
  requests and the invariants they keep.

Modelling decisions:

- The three code columns are nullable, so they are `Option<string>`. Python's
  `==` on a possibly-null field and the ORM's `filter(field=None)` (an IS NULL
  test) both agree with equality on `Option`, so a null code is compared like
  any other value.
- The user model class is not part of this model. The record inserted for a
  new phone number is assumed (`Users.Blank`) to have a null auth code, a
  blank (`""`) invite code and a null activated code; with any other default
  invite code the service would never generate one, since it only fills a
  code equal to `''`. `History.NullInviteNeverGenerated` proves that a record
  whose invite code is null keeps it null through every sequence of requests.
- The random code drawn by `generate_invite_code` is a parameter of
  `Authenticate`. Nothing is assumed about it; the idempotence lemma needs it
  to be non-empty, and `AuthenticateEmptyCodeNotIdempotent` shows why.
- The service receives ORM user instances, and `save()` writes the whole
  instance back under its key. `ActivateInviteCode` therefore takes the user
  record itself and writes it under its phone number. When the record is the
  stored one (`ServiceProperties.Stored`), only its activated code changes.
- The downline lists store keys. The phone-number column is the key, and in a
  `WellFormed` store each record's phone equals its key.
- The service never writes `auth_code`, and nothing in it issues a code. The
  model never writes `authCode`, and `History.RunKeepsRecords` proves that no
  auth code ever changes.
- Redeemed codes stay backed by an existing invite code over any history
  (`History.RunKeepsInvariant`), except the null and blank codes: a record
  can redeem the blank code of a record that has not been given one yet, and
  that record's next authentication replaces it.

## Model

| member | source | states |
|---|---|---|
| Services.Authenticate | users/users/services.py:6-12 | the key set grows by exactly the phone (no second record for a known phone); other records are untouched; the returned user is the stored one; a blank invite code becomes the generated code while auth code, phone and activated code stay; a non-blank invite code leaves the whole store unchanged |
| Services.VerifyAuthCode | users/users/services.py:15-18 | succeeds iff the candidate equals the stored auth code, returning the same user; otherwise fails with the invalid-auth-code error; it takes no store, so it changes none |
| Services.ActivateInviteCode | users/users/services.py:21-26 | succeeds iff some record's invite code equals the code, otherwise fails with the invalid-invite-code error and returns no store; on success only the user's activated code changes, to the code, and every other record is unchanged |
| Services.GetUserProfile | users/users/services.py:29-35 | returns the user's phone, invite code and activated code; the used-by list holds exactly the phones of records whose activated code equals the user's invite code, each once, with no order promised |
| ServiceProperties.AuthenticateIdempotent | users/users/services.py:7-12 | with a non-empty generated code, a second authentication of the same phone returns the same store and the same user, so the same invite code |
| ServiceProperties.AuthenticateEmptyCodeNotIdempotent | users/users/services.py:9-10 | if the generated code were empty the record would stay blank and the next authentication would change its invite code |
| ServiceProperties.AuthenticateKeepsWellFormed | users/users/services.py:7-11 | authentication keeps every record under its own phone number and returns the stored record |
| ServiceProperties.AuthenticateKeepsVerification | users/users/services.py:9-18 | authentication leaves the auth code alone, so a candidate verifies after it iff it verified before |
| ServiceProperties.AuthenticateDownline | users/users/services.py:7-11 | authentication changes no downline except that a new record joins the downline of the null code |
| ServiceProperties.ActivateSelfReferral | users/users/services.py:21-25 | a stored user can always redeem the user's own invite code: self-referral is not refused |
| ServiceProperties.ActivateKeepsInviteCodes | users/users/services.py:22-24 | a successful redemption keeps the key set and every invite code, so which codes exist is unchanged |
| ServiceProperties.ActivateOverwrites | users/users/services.py:21-25 | a second redemption is not refused: it succeeds, replaces the first, and leaves the store as if only it had happened |
| ServiceProperties.ActivateDownline | users/users/services.py:22-24 | redeeming a code puts the redeemer into that code's downline and takes it out of every other downline; nobody else moves |
| History.StepKeepsRecords | users/users/services.py:7-25 | one authenticate or activate request removes no record, rewrites no non-blank invite code and no auth code |
| History.StepKeepsInvariant | users/users/services.py:7-25 | one request keeps records under their own phones and keeps every redeemed code null, blank, or some record's invite code |
| History.StepKeepsWellFormed | users/users/services.py:7-25 | one request keeps every record under its own phone number |
| History.RunKeepsInvariant | users/users/services.py:7-25 | every sequence of requests keeps one record per phone and every redeemed code backed by an existing invite code (or null or blank) |
| History.RunKeepsRecords | users/users/services.py:7-25 | over every sequence of requests no record is removed, an invite code once generated is never regenerated, and no auth code changes |
| History.AuthenticatedCodeIsFinal | users/users/services.py:9-12 | after authenticating with a non-empty generated code, the phone's record keeps that non-blank invite code for the rest of any history |
| History.NullInviteNeverGenerated | users/users/services.py:9-11 | a record whose invite code is null is never given a generated code: over every sequence of requests it stays null, because only a code equal to `''` is filled |

## Left out

- The `asyncio.sleep(1)` delay in authenticate: it only affects timing, not state.
- Randomness of `generate_invite_code`: the generated code is a parameter of `Authenticate`.
- Users.Blank: the defaults of a newly created record are assumed, not taken from the user model class, which is not part of this model. A blank `""` invite code is assumed because the service tests for `''`. The only model definition among the repository's files (`referalnaya sistema.py:10`) declares `invite_code` nullable with no default, which would insert NULL; that file cannot be the model the service uses, since it has no `activated_invite_code` column. Under a NULL default no invite code would ever be generated, as `History.NullInviteNeverGenerated` shows for any record whose code is null.
- Concurrency and async suspension: the race between two `get_or_create` calls for the same new phone is settled by the database's uniqueness constraint. The model is sequential, and a map holds one record per key by construction.
- The numeric `id` of a record, which the authenticate handler returns as `user_id`: the model identifies a user by phone number only.
- The REST handlers, URL routing and serializer (`PythonProject1/users/views.py`, `urls.py`, `serializers.py`): request parsing, lookup by phone with its not-found response, and HTTP status mapping are framework plumbing. `History.Step` only says that a request naming an unknown phone changes nothing.
- Issuing and delivering auth codes: the service never issues one, so the model never writes `authCode`.
