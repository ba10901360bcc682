# User accounts: credentials and the two-table store

A Dafny model of the core of a small user-account web service. The service
keeps users and one optional profile per user in two relational tables
(`users`, `user_profiles`) and exposes create/read/update/delete operations on
them. Its only logic of its own is in the repository layer (`db/crud.py`): a
salted password credential, and the operations over the tables, whose
behaviour is fixed by the table declarations (`db/models.py`) and the input
schemas (`db/schemas.py`).

The model has these parts:

- `Credential` (`credential.dfy`): the stored credential `salt$digest` and its
  verification. The key-derivation function, PBKDF2 (section 5.2 of RFC 8018)
  with HMAC-SHA-256 and 100000 iterations, is a parameter `kdf` of type `Kdf`.
  The only thing known about it is that it always returns 64 lowercase hex
  characters. The 32-character lowercase-hex salt is a parameter too, so no
  randomness is involved. `Split` is Python's `str.split('$')`.
- `Models` (`models.dfy`): rows (`User`, `Profile`), the `Store` holding both
  tables and the scan order, and `Valid`. `Valid` collects every constraint the
  schema declares: primary keys, UNIQUE email, one profile per user, profiles
  only for existing users, and unique profile ids. It also includes the
  credential format, which no declaration imposes (password_hash is a plain
  NOT NULL string). That format holds because user creation stores only a hash
  and a patch cannot touch the column. NOT NULL columns are plain values and nullable columns are
  `Option`s. It also has the row-level writes and one lemma per write showing
  that the write keeps `Valid`.
- `Schemas` (`schemas.dfy`): operation inputs and the public user view.
  Merge-patch inputs use `Field<Option<T>>`. `Omitted` means the field was not
  sent and `Given(None)` means an explicit null. User creation takes a
  required email and password and an optional full name. A patch has no field
  for id or password, so it cannot change them. The public view has no field
  for the password hash.
- `Crud` (`crud.dfy`): each repository function as a pure transition from a
  store to a `Step(out, next)`, where `out` is what the function returns and
  `next` is the store after commit or rollback. Every transition keeps `Valid`
  and states which rows change.
- `CrudProperties` (`crud_properties.dfy`): laws relating several
  operations, such as create-then-delete restoring the store, idempotent
  patches, profile writes merging, the cascade, and pages of the listing
  fitting together.

Row ids are assigned the way SQLite assigns rowids to an `INTEGER PRIMARY KEY`
table without AUTOINCREMENT: one more than the largest id present, or 1 for an
empty table. An unordered `SELECT` on `users` visits rows in rowid order, so
the listing order is ascending id. Both facts describe the database engine and
are not written in the repository's source.

Verification does not check that either part of the stored string is hex: it
splits on `$` and compares digests. A non-hex digest part can never match,
because the derived key is always hex (`Credential.VerifyPassword`). A non-hex
salt part is passed to the key-derivation function as it is, and can verify.

User ids are integers, as the repository functions take them, so a lookup of a
negative or zero id can be expressed. Within the signed 64-bit range such a
lookup finds nothing, because stored rows carry ids from 1 upward. Integers
outside that range are not modelled (see "## Left out").

## Model

| member | source | states |
|---|---|---|
| Credential.Split | db/crud.py:19 | `str.split('$')`: one more part than there are separators, no part contains a separator, and joining the parts with `$` gives back the input |
| Credential.SplitJoin | db/crud.py:19 | splitting undoes joining when no part contains the separator |
| Credential.HashPassword | db/crud.py:9-13 | the credential has the stored shape (32 hex, `$`, 64 hex) and exactly one `$`, and it parses back into exactly the salt and the digest of the password under that salt |
| Credential.StoredCredentialHasOneSeparator | db/crud.py:11-13 | because salt and digest are both hex, a credential of the stored shape contains exactly one `$` |
| Credential.VerifyPassword | db/crud.py:16-22 | a stored string that does not split into exactly two parts is rejected with false, never an error, and acceptance implies the part after `$` is a 64-character lowercase-hex digest |
| Credential.VerifyAcceptsOwnHash | db/crud.py:11-20 | a credential verifies against the password it was made from, whatever the salt |
| Credential.VerifyExactly | db/crud.py:19-20 | on `a$b`, where neither part contains `$`, verification succeeds exactly when the digest of the password under `a` equals `b` |
| Credential.VerifyOtherPassword | db/crud.py:12-20 | another password verifies against a credential exactly when the key-derivation function gives both passwords the same digest under that salt |
| Credential.OneSeparatorDecomposes | db/crud.py:19 | any string with exactly one `$` is its first part, `$`, then its second part |
| Models.NextUserId | db/models.py:14 | a new user id is the largest id present plus 1, or 1 for an empty table: it is larger than every stored id and either is 1 or follows a stored id, so it is not in use and the scan order stays ascending |
| Models.NextProfileId | db/models.py:38 | a new profile id is the largest profile id present plus 1, or 1 when there is no profile: it is larger than every profile id and either is 1 or follows an existing profile id |
| Models.WithoutAscending | db/models.py:14 | removing a row keeps the scan order ascending |
| Models.InsertUserValid | db/models.py:14-18 | inserting a row with a fresh id, an unused email and a hashed credential keeps every table constraint |
| Models.ReplaceUserValid | db/models.py:15-18 | rewriting a row, with its password hash unchanged and an email no other row holds, keeps every table constraint |
| Models.RemoveUserValid | db/models.py:27-31 | deleting a user together with its profile keeps every constraint, including "no profile without its user" |
| Models.PutProfileValid | db/models.py:36-39 | writing a profile for an existing user under a profile id no other profile uses keeps every constraint, and that user still has at most one profile |
| Schemas.ViewHidesCredential | db/schemas.py:42-47 | the public user view does not depend on the password hash |
| Crud.Flush | db/models.py:15-18 | a commit succeeds exactly when email and is_active are non-null and the table with the row written under its id still has unique emails; the committed row is the pending row with those columns filled; a failure is a unique violation exactly when both columns were filled |
| Crud.CreateUser | db/crud.py:26-40 | fails with a unique violation, store unchanged, exactly when the email is taken. Otherwise it adds exactly one row at the end of the scan order, with a fresh id, the given email and full_name, is_active true, and as password only the hash, which verifies. The new id is the one the table assigns next. The constraints still hold afterwards |
| Crud.GetUser | db/crud.py:43-45 | returns a user exactly when the id is present, and that user carries the id |
| Crud.FirstWithEmail | db/crud.py:50 | the position of the first user in scan order with the email: that user has it and no earlier one does; none when no listed user has it |
| Crud.GetUserByEmail | db/crud.py:48-50 | returns a user exactly when some user holds the email, and then it is the one user holding it |
| Crud.RowsOf | db/crud.py:55 | the rows under the given ids, in the same order |
| Crud.GetUsers | db/crud.py:53-55 | the page is the users at positions skip, skip+1, ... of the scan order, with min(limit, remaining) entries and never more than limit |
| Crud.GetUsersDefault | db/crud.py:53 | without arguments, the listing is the first min(100, count) users in scan order |
| Crud.UpdateUser | db/crud.py:58-75 | succeeds exactly when the id exists, neither email nor is_active is sent as null, and no other user holds a supplied email. On failure the store is unchanged. On success only that row changes, only in the supplied fields, and id and password hash never change |
| Crud.DeleteUser | db/crud.py:78-85 | returns true exactly when the user exists. It then removes that user and that user's profile and nothing else, and the constraints still hold. Otherwise the store is unchanged |
| Crud.CreateUserProfile | db/crud.py:89-110 | for an existing user: supplied fields are written, omitted fields keep the old profile's values (or are null for a new profile), a new profile gets the next profile id (largest plus 1), and only that user's profile entry changes |
| Crud.GetUserProfile | db/crud.py:113-117 | returns a profile exactly when the user has one, and it belongs to that user |
| Crud.DeleteUserProfile | db/crud.py:120-127 | returns true exactly when a profile exists. It then removes only that profile and keeps the user. Otherwise the store is unchanged |
| CrudProperties.CreateThenDeleteRestores | db/crud.py:26-85 | creating a user with a free email and then deleting it restores the original store exactly |
| CrudProperties.DuplicateEmailConflicts | db/crud.py:34-40 | a second creation with an email already registered fails with a unique violation and leaves the store as it was |
| CrudProperties.CreatedUserIsFound | db/crud.py:26-50 | a created user is found by its id and by its email |
| CrudProperties.DeleteCascades | db/models.py:27-31 | after deleting a user, neither the user nor its profile can be found, and every other user and profile answers as before |
| CrudProperties.UpdateWithNoChanges | db/crud.py:64-66 | an empty patch returns the user unchanged and leaves the store unchanged |
| CrudProperties.UpdateIdempotent | db/crud.py:58-75 | applying a successful patch a second time changes nothing and returns the same user |
| CrudProperties.UpdateToTakenEmailRollsBack | db/crud.py:69-75 | moving a user onto another user's email returns nothing and leaves the store unchanged |
| CrudProperties.UpdateToNullRollsBack | db/crud.py:69-75 | an explicit null for email or is_active returns nothing and leaves the store unchanged |
| CrudProperties.PagesConcatenate | db/crud.py:53-55 | the page at (skip, a) followed by the page at (skip + a, b) is the page at (skip, a + b) |
| CrudProperties.FullListing | db/crud.py:53-55 | a page large enough for the table lists every user, in strictly ascending id order and so once each |
| CrudProperties.ProfileWritesMerge | db/crud.py:97-99 | after two profile writes, the fields the second write omits keep the values the first write left, and it is the same profile row |
| CrudProperties.ProfileWriteIdempotent | db/crud.py:93-110 | writing the same profile input twice gives the same result and store as writing it once |
| CrudProperties.ProfileCreateThenDeleteRestores | db/crud.py:89-127 | creating a profile for a user without one and then deleting it restores the original store |
| CrudProperties.ViewShowsProfileWrites | db/schemas.py:42-47 | the public view of a user shows the profile the last profile write returned, and no profile after that profile is deleted |
| CrudProperties.ProfileDeleteKeepsUser | db/crud.py:120-127 | deleting a profile does not change the lookup of its user |
| CrudProperties.AccountLifecycle | db/crud.py:26-85 | in an empty database: creation yields id 1 and a credential with one `$`, a second registration with that email conflicts, the user can be read back, deletion succeeds, and afterwards the user is gone |

## Left out

- HTTP routing and status codes (`fastapi.py`) are glue. The handlers map a failed update to 404 and check for a duplicate email before inserting. In the model, `CreateUser` reports the conflict itself.
- Engine and session setup, table creation and the health probe (`db/session.py`, `db/init_db.py`) are I/O.
- The internals of PBKDF2 and SHA-256 are foreign calls, and `secrets.token_hex` is randomness. The key-derivation function and the salt are parameters.
- `created_at` and `updated_at` are wall-clock timestamps and are not modelled.
- Concurrency is not modelled: two requests racing between the email pre-check and the insert, or two racing profile inserts.
- Email validation, done by the validation library, is not modelled. That includes its normalisation: the library lower-cases the domain and reduces `Name <addr>` to the address. Emails enter the model as the validator returns them, so `a@X.com` and `a@x.com` are different emails here but the same one in the service. Neither are the VARCHAR length limits, which SQLite does not enforce.
- Crud.CreateUserProfile: the rollback branch (db/crud.py:108-110) is not modelled. In a single-request history no commit of this function can fail: every profile column is nullable, and the unique user_id can only be violated by a concurrent insert.
- Crud.CreateUserProfile: the repository function does not check that the user exists. With SQLite's default of foreign keys off, it would store a profile for a missing user. The model includes the handler's existence check (fastapi.py:93-98), so an unknown user yields nothing and the store is unchanged.
- Crud.GetUser, Crud.UpdateUser, Crud.DeleteUser, Crud.CreateUserProfile, Crud.GetUserProfile, Crud.DeleteUserProfile: an id outside the signed 64-bit range makes the SQLite driver raise OverflowError when it binds the parameter (db/crud.py:45, 94, 116). The model's integers are unbounded, so these members answer nothing or false for such an id instead of failing.
- Crud.GetUsers: a skip or limit above 2^63 - 1 makes the driver raise OverflowError (db/crud.py:55), which is not modelled. Here, too, the model returns a page. Also, skip and limit are natural numbers. The database's treatment of negative OFFSET and LIMIT values is not modelled.
- Crud.CreateUser: the re-raised IntegrityError is modelled as a `Failure` result rather than an exception.
- Credential.VerifyPassword: the source also answers false when encoding the password fails, because of a lone surrogate. Dafny strings cannot hold lone surrogates, so that path cannot be expressed.
- Credential.VerifyPassword: the digest comparison is plain string equality, as in the source. Timing behaviour is not modelled.
