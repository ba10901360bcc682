/**
 * The two tables, `users` and `user_profiles`, as one immutable store value,
 * and the constraints the table declarations impose on every store state.
 *
 * Columns declared NOT NULL (email, password_hash, is_active) are plain
 * values; nullable columns (full_name and the four profile fields) are
 * `Option`s. Timestamps are not modelled.
 */
module Models {
  import opened Wrappers
  import Credential

  /**
   * A `users.id` value as callers pass it: any integer. Stored rows only ever
   * carry ids from 1 upward, which is how SQLite hands out rowids.
   */
  type UserId = int

  /** One `users` row. */
  datatype User = User(
    id: UserId,
    email: string,
    fullName: Option<string>,
    passwordHash: string,
    isActive: bool)

  /** One `user_profiles` row; `userId` refers to the owning user. */
  datatype Profile = Profile(
    id: nat,
    userId: UserId,
    phone: Option<string>,
    city: Option<string>,
    country: Option<string>,
    timezone: Option<string>)

  /**
   * The database. `users` and `profiles` are keyed by user id (a profile by its
   * owner, which the unique `user_id` column makes possible); `order` is the
   * order in which an unordered `SELECT` visits the users rows.
   */
  datatype Store = Store(
    users: map<UserId, User>,
    profiles: map<UserId, Profile>,
    order: seq<UserId>)

  const EmptyStore: Store := Store(map[], map[], [])

  ghost predicate Ascending(q: seq<UserId>) {
    forall i, j :: 0 <= i < j < |q| ==> q[i] < q[j]
  }

  /** The primary key: each row sits under its own id, and ids start at 1. */
  ghost predicate UsersKeyedById(s: Store) {
    forall k :: k in s.users ==> s.users[k].id == k && k >= 1
  }

  /** `email` is UNIQUE. */
  ghost predicate EmailsUnique(s: Store) {
    forall a, b :: a in s.users && b in s.users && s.users[a].email == s.users[b].email ==> a == b
  }

  /** Only hashed credentials are ever stored, never a plaintext password. */
  ghost predicate CredentialsHashed(s: Store) {
    forall k :: k in s.users ==> Credential.IsStoredCredential(s.users[k].passwordHash)
  }

  /** Each profile belongs to an existing user, the one it is filed under. */
  ghost predicate ProfilesOwned(s: Store) {
    forall k :: k in s.profiles ==> k in s.users && s.profiles[k].userId == k && s.profiles[k].id >= 1
  }

  /** `user_profiles.id` is a primary key too. */
  ghost predicate ProfileIdsUnique(s: Store) {
    forall a, b :: a in s.profiles && b in s.profiles && s.profiles[a].id == s.profiles[b].id ==> a == b
  }

  /** The scan order visits every user exactly once, in ascending rowid order. */
  ghost predicate OrderListsUsers(s: Store) {
    && Ascending(s.order)
    && (forall i :: 0 <= i < |s.order| ==> s.order[i] in s.users)
    && (forall k :: k in s.users ==> k in s.order)
  }

  /** Every constraint the schema declares, plus the credential format. */
  ghost predicate Valid(s: Store) {
    && UsersKeyedById(s)
    && EmailsUnique(s)
    && CredentialsHashed(s)
    && ProfilesOwned(s)
    && ProfileIdsUnique(s)
    && OrderListsUsers(s)
  }

  predicate EmailTaken(s: Store, email: string) {
    exists k :: k in s.users && s.users[k].email == email
  }

  predicate EmailTakenByOther(s: Store, id: UserId, email: string) {
    exists k :: k in s.users && k != id && s.users[k].email == email
  }

  /**
   * The rowid SQLite gives a new users row (no AUTOINCREMENT): one more than
   * the largest id present, or 1 for an empty table. The scan order is
   * ascending, so its last entry is the largest id.
   */
  function NextUserId(s: Store): (id: UserId)
    requires Valid(s)
    ensures id >= 1 && id !in s.users
    ensures forall k :: k in s.users ==> k < id
    ensures id == 1 || id - 1 in s.users
    ensures forall i :: 0 <= i < |s.order| ==> s.order[i] < id
  {
    if |s.order| == 0 then 1 else s.order[|s.order| - 1] + 1
  }

  /** Largest profile id among the profiles of the users in `ids`, or 0. */
  function MaxProfileId(ids: seq<UserId>, profiles: map<UserId, Profile>): (m: nat)
    ensures forall i :: 0 <= i < |ids| && ids[i] in profiles ==> profiles[ids[i]].id <= m
    ensures m == 0 || exists i :: 0 <= i < |ids| && ids[i] in profiles && profiles[ids[i]].id == m
  {
    if ids == [] then 0
    else
      var rest := MaxProfileId(ids[1..], profiles);
      if ids[0] in profiles && profiles[ids[0]].id > rest then profiles[ids[0]].id else rest
  }

  /** The rowid SQLite gives a new `user_profiles` row: one past the largest present. */
  function NextProfileId(s: Store): (id: nat)
    requires Valid(s)
    ensures id >= 1
    ensures forall k :: k in s.profiles ==> s.profiles[k].id < id
    ensures id == 1 || exists k :: k in s.profiles && s.profiles[k].id == id - 1
  {
    var m := MaxProfileId(s.order, s.profiles);
    assert forall k :: k in s.profiles ==> k in s.order;
    m + 1
  }

  // ------------------------------------------------------ row-level writes

  /** Inserts `u` as the newest users row. */
  function InsertUser(s: Store, u: User): Store {
    Store(s.users[u.id := u], s.profiles, s.order + [u.id])
  }

  /** Overwrites the users row `u.id` in place. */
  function ReplaceUser(s: Store, u: User): Store {
    s.(users := s.users[u.id := u])
  }

  /** Writes `p` as the profile of user `p.userId`, replacing any it had. */
  function PutProfile(s: Store, p: Profile): Store {
    s.(profiles := s.profiles[p.userId := p])
  }

  /** `order` without `id`. */
  function Without(order: seq<UserId>, id: UserId): (r: seq<UserId>)
    ensures forall x :: x in r <==> x in order && x != id
  {
    if order == [] then []
    else if order[0] == id then Without(order[1..], id)
    else [order[0]] + Without(order[1..], id)
  }

  /** Deletes user `id` and, by the cascade, its profile. */
  function RemoveUser(s: Store, id: UserId): Store {
    Store(s.users - {id}, s.profiles - {id}, Without(s.order, id))
  }

  lemma AscendingCons(a: UserId, rest: seq<UserId>)
    requires Ascending(rest)
    requires forall x :: x in rest ==> a < x
    ensures Ascending([a] + rest)
  {
    var q := [a] + rest;
    forall i, j | 0 <= i < j < |q| ensures q[i] < q[j] {
      assert q[j] == rest[j - 1] && rest[j - 1] in rest;
      if i > 0 {
        assert q[i] == rest[i - 1];
      }
    }
  }

  /** Removing an entry keeps the scan order ascending. */
  lemma {:induction false} WithoutAscending(order: seq<UserId>, id: UserId)
    requires Ascending(order)
    ensures Ascending(Without(order, id))
  {
    if order != [] {
      var rest := order[1..];
      assert Ascending(rest) by {
        forall i, j | 0 <= i < j < |rest| ensures rest[i] < rest[j] {
          assert rest[i] == order[i + 1] && rest[j] == order[j + 1];
        }
      }
      WithoutAscending(rest, id);
      if order[0] != id {
        forall x | x in Without(rest, id) ensures order[0] < x {
          var j :| 0 <= j < |rest| && rest[j] == x;
          assert order[j + 1] == x;
        }
        AscendingCons(order[0], Without(rest, id));
      }
    }
  }

  /**
   * Writing `u` under its id keeps emails unique exactly when no other row
   * already holds its email.
   */
  lemma EmailsUniqueAfterWrite(s: Store, u: User)
    requires EmailsUnique(s)
    ensures EmailsUnique(s.(users := s.users[u.id := u])) <==> !EmailTakenByOther(s, u.id, u.email)
  {
    var t := s.(users := s.users[u.id := u]);
    if EmailTakenByOther(s, u.id, u.email) {
      var k :| k in s.users && k != u.id && s.users[k].email == u.email;
      assert t.users[k].email == t.users[u.id].email;
    }
  }

  lemma InsertUserValid(s: Store, u: User)
    requires Valid(s)
    requires u.id == NextUserId(s)
    requires !EmailTaken(s, u.email)
    requires Credential.IsStoredCredential(u.passwordHash)
    ensures Valid(InsertUser(s, u))
  {
  }

  lemma ReplaceUserValid(s: Store, u: User)
    requires Valid(s)
    requires u.id in s.users
    requires u.passwordHash == s.users[u.id].passwordHash
    requires !EmailTakenByOther(s, u.id, u.email)
    ensures Valid(ReplaceUser(s, u))
  {
  }

  lemma RemoveUserValid(s: Store, id: UserId)
    requires Valid(s)
    ensures Valid(RemoveUser(s, id))
  {
    WithoutAscending(s.order, id);
    var t := RemoveUser(s, id);
    forall i | 0 <= i < |t.order| ensures t.order[i] in t.users {
      assert t.order[i] in t.order;
    }
  }

  lemma PutProfileValid(s: Store, p: Profile)
    requires Valid(s)
    requires p.userId in s.users && p.id >= 1
    requires forall k :: k in s.profiles && k != p.userId ==> s.profiles[k].id != p.id
    ensures Valid(PutProfile(s, p))
  {
  }
}
