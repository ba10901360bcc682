/**
 * The repository operations as pure state transitions: each takes the store
 * (and its arguments) and yields what the operation returns together with the
 * store after its transaction, committed or rolled back.
 */
module Crud {
  import opened Wrappers
  import opened Credential
  import opened Models
  import opened Schemas

  /** What an operation returns, and the store it leaves behind. */
  datatype Step<R> = Step(out: R, next: Store)

  /** The store-level constraint violations a commit can raise. */
  datatype IntegrityError = NotNullViolation(column: string) | UniqueViolation(column: string)

  /**
   * A `users` row as the session holds it before commit: the NOT NULL columns
   * a patch may have set to null are still optional here.
   */
  datatype PendingUser = PendingUser(
    id: UserId,
    email: Option<string>,
    fullName: Option<string>,
    passwordHash: string,
    isActive: Option<bool>)

  /**
   * Committing a pending row: NOT NULL on email and is_active, then UNIQUE on
   * email against every other row. The commit goes through exactly when both
   * columns are filled and the table with the row written under its id still
   * has unique emails; the committed row is the pending one, filled in. A null
   * column is reported before a clash.
   */
  function Flush(s: Store, row: PendingUser): (r: Result<User, IntegrityError>)
    requires EmailsUnique(s)
    ensures r.Success? <==>
      && row.email.Some? && row.isActive.Some?
      && EmailsUnique(s.(users := s.users[row.id := User(row.id, row.email.value, row.fullName, row.passwordHash, row.isActive.value)]))
    ensures r.Success? ==>
      row == PendingUser(r.value.id, Some(r.value.email), r.value.fullName, r.value.passwordHash, Some(r.value.isActive))
    ensures r.Failure? ==> (r.error == UniqueViolation("email") <==> row.email.Some? && row.isActive.Some?)
  {
    if row.email.None? then Failure(NotNullViolation("email"))
    else if row.isActive.None? then Failure(NotNullViolation("is_active"))
    else
      var u := User(row.id, row.email.value, row.fullName, row.passwordHash, row.isActive.value);
      EmailsUniqueAfterWrite(s, u);
      if EmailTakenByOther(s, row.id, row.email.value) then Failure(UniqueViolation("email"))
      else Success(u)
  }

  // ---------------------------------------------------------------- users

  /**
   * `create_user`: hash the password with the given salt and insert a row with
   * is_active defaulting to true. A taken email fails the commit: the store is
   * rolled back and the error is passed on. Otherwise exactly one row is added
   * at the end of the scan order, no profile is created, and the stored
   * credential is the hash, which verifies against the password.
   */
  function CreateUser(s: Store, input: UserCreate, kdf: Kdf, salt: Salt): (r: Step<Result<User, IntegrityError>>)
    requires Valid(s)
    ensures Valid(r.next)
    ensures r.out.Failure? <==> EmailTaken(s, input.email)
    ensures r.out.Failure? ==> r.next == s && r.out.error == UniqueViolation("email")
    ensures r.out.Success? ==>
      var u := r.out.value;
      && u.id == NextUserId(s)
      && u.id !in s.users
      && r.next == Store(s.users[u.id := u], s.profiles, s.order + [u.id])
      && u.email == input.email && u.fullName == input.fullName && u.isActive
      && u.passwordHash == HashPassword(kdf, input.password, salt)
      && VerifyPassword(kdf, input.password, u.passwordHash)
  {
    var id := NextUserId(s);
    var row := PendingUser(id, Some(input.email), input.fullName, HashPassword(kdf, input.password, salt), Some(true));
    match Flush(s, row)
    case Failure(e) => Step(Failure(e), s)
    case Success(u) =>
      VerifyAcceptsOwnHash(kdf, input.password, salt);
      InsertUserValid(s, u);
      Step(Success(u), InsertUser(s, u))
  }

  /** `get_user`: the row with that id, or nothing. */
  function GetUser(s: Store, id: UserId): (r: Option<User>)
    requires Valid(s)
    ensures r.Some? <==> id in s.users
    ensures r.Some? ==> r.value.id == id && r.value == s.users[id]
  {
    if id in s.users then Some(s.users[id]) else None
  }

  /**
   * The position of the first id in `ids` whose user has the given email:
   * `.first()` over the scan order.
   */
  function FirstWithEmail(ids: seq<UserId>, users: map<UserId, User>, email: string): (r: Option<nat>)
    requires forall i :: 0 <= i < |ids| ==> ids[i] in users
    ensures r.Some? ==> r.value < |ids| && users[ids[r.value]].email == email
    ensures r.Some? ==> forall j :: 0 <= j < r.value ==> users[ids[j]].email != email
    ensures r.None? ==> forall i :: 0 <= i < |ids| ==> users[ids[i]].email != email
  {
    if ids == [] then None
    else if users[ids[0]].email == email then Some(0)
    else
      match FirstWithEmail(ids[1..], users, email)
      case Some(i) => Some(i + 1)
      case None => None
  }

  /**
   * `get_user_by_email`: the first row in scan order with that email. Since
   * emails are unique it is the one user holding the email, and there is a
   * result exactly when some user holds it.
   */
  function GetUserByEmail(s: Store, email: string): (r: Option<User>)
    requires Valid(s)
    ensures r.Some? <==> EmailTaken(s, email)
    ensures forall k :: k in s.users && s.users[k].email == email ==> r == Some(s.users[k])
  {
    match FirstWithEmail(s.order, s.users, email)
    case Some(i) => Some(s.users[s.order[i]])
    case None => None
  }

  /** The limit `get_users` applies when the caller gives none. */
  const DefaultLimit: nat := 100

  function Min(a: int, b: int): int {
    if a <= b then a else b
  }

  /** The rows stored under `ids`, in the same order. */
  function RowsOf(users: map<UserId, User>, ids: seq<UserId>): (rows: seq<User>)
    requires forall i :: 0 <= i < |ids| ==> ids[i] in users
    ensures |rows| == |ids|
    ensures forall i :: 0 <= i < |ids| ==> rows[i] == users[ids[i]]
  {
    if ids == [] then [] else [users[ids[0]]] + RowsOf(users, ids[1..])
  }

  /**
   * `get_users(skip, limit)`: OFFSET skip LIMIT limit over the scan order — the
   * users at positions skip, skip + 1, ... of the scan order, at most `limit`
   * of them, fewer only when the table runs out.
   */
  function GetUsers(s: Store, skip: nat, limit: nat): (page: seq<User>)
    requires Valid(s)
    ensures |page| <= limit
    ensures |page| == if skip >= |s.order| then 0 else Min(limit, |s.order| - skip)
    ensures forall i :: 0 <= i < |page| ==> skip + i < |s.order| && page[i] == s.users[s.order[skip + i]]
  {
    var lo := Min(skip, |s.order|);
    var hi := Min(lo + limit, |s.order|);
    RowsOf(s.users, s.order[lo..hi])
  }

  /** `get_users` called without `skip` and `limit`. */
  function GetUsersDefault(s: Store): (page: seq<User>)
    requires Valid(s)
    ensures |page| == Min(DefaultLimit, |s.order|)
    ensures forall i :: 0 <= i < |page| ==> page[i] == s.users[s.order[i]]
  {
    GetUsers(s, 0, DefaultLimit)
  }

  /** The row a patch leaves in the session: supplied fields overwrite, the rest stay. */
  function ApplyPatch(u: User, patch: UserUpdate): PendingUser {
    PendingUser(
      u.id,
      patch.email.Over(Some(u.email)),
      patch.fullName.Over(u.fullName),
      u.passwordHash,
      patch.isActive.Over(Some(u.isActive)))
  }

  /** A patch the users table accepts for row `id`. */
  predicate PatchAdmissible(s: Store, id: UserId, patch: UserUpdate) {
    && patch.email != Given(None)
    && patch.isActive != Given(None)
    && (patch.email.Given? && patch.email.value.Some? ==> !EmailTakenByOther(s, id, patch.email.value.value))
  }

  /** `after` is `before` with exactly the supplied fields of `patch` written into it. */
  ghost predicate Patched(before: User, patch: UserUpdate, after: User) {
    && after.id == before.id
    && after.passwordHash == before.passwordHash
    && (if patch.email.Given? then patch.email.value == Some(after.email) else after.email == before.email)
    && (if patch.fullName.Given? then after.fullName == patch.fullName.value else after.fullName == before.fullName)
    && (if patch.isActive.Given? then patch.isActive.value == Some(after.isActive) else after.isActive == before.isActive)
  }

  /**
   * `update_user`: nothing for an unknown id. Otherwise the supplied fields are
   * written and committed; a commit the table rejects (null email or
   * is_active, or an email another user holds) is rolled back and reported as
   * nothing. On success only that row changes, and only in the supplied fields.
   */
  function UpdateUser(s: Store, id: UserId, patch: UserUpdate): (r: Step<Option<User>>)
    requires Valid(s)
    ensures Valid(r.next)
    ensures r.out.Some? <==> id in s.users && PatchAdmissible(s, id, patch)
    ensures r.out.None? ==> r.next == s
    ensures r.out.Some? ==> r.next == s.(users := s.users[id := r.out.value])
    ensures r.out.Some? ==> Patched(s.users[id], patch, r.out.value)
  {
    if id !in s.users then Step(None, s)
    else
      match Flush(s, ApplyPatch(s.users[id], patch))
      case Failure(_) => Step(None, s)
      case Success(u) =>
        ReplaceUserValid(s, u);
        Step(Some(u), ReplaceUser(s, u))
  }

  /**
   * `delete_user`: false and no change for an unknown id. Otherwise the user
   * row goes, and with it that user's profile (the delete-orphan cascade);
   * every other row stays.
   */
  function DeleteUser(s: Store, id: UserId): (r: Step<bool>)
    requires Valid(s)
    ensures Valid(r.next)
    ensures r.out <==> id in s.users
    ensures !r.out ==> r.next == s
    ensures r.out ==> r.next.users == s.users - {id} && r.next.profiles == s.profiles - {id}
    ensures r.out ==> forall k :: k in r.next.order <==> k in s.order && k != id
  {
    if id !in s.users then Step(false, s)
    else
      RemoveUserValid(s, id);
      Step(true, RemoveUser(s, id))
  }

  // ------------------------------------------------------------- profiles

  /** `before` with exactly the supplied fields of `input` written into it. */
  function MergeProfile(before: Profile, input: ProfileCreate): Profile {
    before.(
      phone := input.phone.Over(before.phone),
      city := input.city.Over(before.city),
      country := input.country.Over(before.country),
      timezone := input.timezone.Over(before.timezone))
  }

  /** A fresh profile row: every field from the input, omitted ones null. */
  function NewProfile(id: nat, userId: UserId, input: ProfileCreate): Profile {
    Profile(id, userId, Dumped(input.phone), Dumped(input.city), Dumped(input.country), Dumped(input.timezone))
  }

  /** A nullable column after a write of `f` onto `before`. */
  ghost predicate Written(f: Field<Option<string>>, before: Option<string>, after: Option<string>) {
    if f.Given? then after == f.value else after == before
  }

  /**
   * `create_user_profile` behind the handler's check that the user exists:
   * nothing for an unknown user. If the user has a profile, only the supplied
   * fields are overwritten; otherwise a profile is inserted whose omitted
   * fields are null. Either way the user ends with exactly this one profile
   * and no other row changes.
   */
  function CreateUserProfile(s: Store, userId: UserId, input: ProfileCreate): (r: Step<Option<Profile>>)
    requires Valid(s)
    ensures Valid(r.next)
    ensures r.out.Some? <==> userId in s.users
    ensures r.out.None? ==> r.next == s
    ensures r.out.Some? ==> r.next == s.(profiles := s.profiles[userId := r.out.value])
    ensures r.out.Some? ==>
      var p := r.out.value;
      && p.userId == userId
      && (userId in s.profiles ==> p.id == s.profiles[userId].id)
      && (userId !in s.profiles ==> p.id == NextProfileId(s))
      && (userId !in s.profiles ==> forall k :: k in s.profiles ==> s.profiles[k].id != p.id)
      && Written(input.phone, if userId in s.profiles then s.profiles[userId].phone else None, p.phone)
      && Written(input.city, if userId in s.profiles then s.profiles[userId].city else None, p.city)
      && Written(input.country, if userId in s.profiles then s.profiles[userId].country else None, p.country)
      && Written(input.timezone, if userId in s.profiles then s.profiles[userId].timezone else None, p.timezone)
  {
    if userId !in s.users then Step(None, s)
    else
      var p := if userId in s.profiles then MergeProfile(s.profiles[userId], input)
               else NewProfile(NextProfileId(s), userId, input);
      PutProfileValid(s, p);
      Step(Some(p), PutProfile(s, p))
  }

  /** `get_user_profile`: the profile of that user, or nothing. */
  function GetUserProfile(s: Store, userId: UserId): (r: Option<Profile>)
    requires Valid(s)
    ensures r.Some? <==> userId in s.profiles
    ensures r.Some? ==> r.value.userId == userId && r.value == s.profiles[userId]
  {
    if userId in s.profiles then Some(s.profiles[userId]) else None
  }

  /**
   * `delete_user_profile`: false and no change when the user has no profile;
   * otherwise that profile goes and everything else, the user included, stays.
   */
  function DeleteUserProfile(s: Store, userId: UserId): (r: Step<bool>)
    requires Valid(s)
    ensures Valid(r.next)
    ensures r.out <==> userId in s.profiles
    ensures !r.out ==> r.next == s
    ensures r.out ==> r.next == s.(profiles := s.profiles - {userId})
  {
    if userId !in s.profiles then Step(false, s)
    else Step(true, s.(profiles := s.profiles - {userId}))
  }
}
