/**
 * Properties that relate several repository operations: creation undone by
 * deletion, lookups after writes, the cascade, merge-patch laws, and how
 * pages of the listing fit together.
 */
module CrudProperties {
  import opened Wrappers
  import opened Credential
  import opened Models
  import opened Schemas
  import opened Crud

  // -------------------------------------------------------------- helpers

  lemma {:induction false} WithoutLast(order: seq<UserId>, id: UserId)
    requires id !in order
    ensures Without(order + [id], id) == order
  {
    if order == [] {
      assert order + [id] == [id];
      assert [id][1..] == [];
    } else {
      assert (order + [id])[1..] == order[1..] + [id];
      WithoutLast(order[1..], id);
      assert [order[0]] + order[1..] == order;
    }
  }

  /** Removing the row just inserted gives back the store before the insert. */
  lemma InsertThenRemove(s: Store, u: User)
    requires u.id !in s.users && u.id !in s.profiles && u.id !in s.order
    ensures RemoveUser(InsertUser(s, u), u.id) == s
  {
    var t := InsertUser(s, u);
    WithoutLast(s.order, u.id);
    assert t.users - {u.id} == s.users;
    assert t.profiles - {u.id} == s.profiles;
  }

  // ---------------------------------------------------------------- users

  /**
   * Creating a user with a free email and then deleting it gives back the
   * original store exactly: creation adds one row and nothing else.
   */
  lemma CreateThenDeleteRestores(s: Store, input: UserCreate, kdf: Kdf, salt: Salt)
    requires Valid(s)
    requires !EmailTaken(s, input.email)
    ensures var c := CreateUser(s, input, kdf, salt);
            c.out.Success? && DeleteUser(c.next, c.out.value.id) == Step(true, s)
  {
    var c := CreateUser(s, input, kdf, salt);
    var u := c.out.value;
    assert c.next == InsertUser(s, u);
    InsertThenRemove(s, u);
  }

  /**
   * After a user is created, a second creation with the same email is a
   * conflict that leaves the store as the first creation left it.
   */
  lemma DuplicateEmailConflicts(s: Store, first: UserCreate, second: UserCreate, kdf: Kdf, salt1: Salt, salt2: Salt)
    requires Valid(s)
    requires CreateUser(s, first, kdf, salt1).out.Success?
    requires second.email == first.email
    ensures var c := CreateUser(s, first, kdf, salt1);
            CreateUser(c.next, second, kdf, salt2) == Step(Failure(UniqueViolation("email")), c.next)
  {
  }

  /** A created user is found both by its id and by its email. */
  lemma CreatedUserIsFound(s: Store, input: UserCreate, kdf: Kdf, salt: Salt)
    requires Valid(s)
    requires CreateUser(s, input, kdf, salt).out.Success?
    ensures var c := CreateUser(s, input, kdf, salt);
            && GetUser(c.next, c.out.value.id) == Some(c.out.value)
            && GetUserByEmail(c.next, input.email) == Some(c.out.value)
  {
  }

  /**
   * Deleting a user removes the user and its profile, and no other user or
   * profile: every other lookup answers as before.
   */
  lemma DeleteCascades(s: Store, id: UserId, other: UserId)
    requires Valid(s)
    requires other != id
    ensures var d := DeleteUser(s, id);
            && GetUser(d.next, id).None?
            && GetUserProfile(d.next, id).None?
            && GetUser(d.next, other) == GetUser(s, other)
            && GetUserProfile(d.next, other) == GetUserProfile(s, other)
  {
  }

  /** A patch that supplies nothing changes nothing and returns the user as it is. */
  lemma UpdateWithNoChanges(s: Store, id: UserId)
    requires Valid(s)
    requires id in s.users
    ensures UpdateUser(s, id, NoChanges) == Step(Some(s.users[id]), s)
  {
  }

  /** Applying the same patch a second time is a no-op. */
  lemma UpdateIdempotent(s: Store, id: UserId, patch: UserUpdate)
    requires Valid(s)
    requires UpdateUser(s, id, patch).out.Some?
    ensures var r := UpdateUser(s, id, patch);
            UpdateUser(r.next, id, patch) == r
  {
  }

  /** Moving a user onto an email another user holds is rolled back. */
  lemma UpdateToTakenEmailRollsBack(s: Store, id: UserId, other: UserId, patch: UserUpdate)
    requires Valid(s)
    requires id in s.users && other in s.users && other != id
    requires patch.email == Given(Some(s.users[other].email))
    ensures UpdateUser(s, id, patch) == Step(None, s)
  {
  }

  /** Sending null for a NOT NULL column is rolled back. */
  lemma UpdateToNullRollsBack(s: Store, id: UserId, patch: UserUpdate)
    requires Valid(s)
    requires patch.email == Given(None) || patch.isActive == Given(None)
    ensures UpdateUser(s, id, patch) == Step(None, s)
  {
  }

  // -------------------------------------------------------------- listing

  /** Two consecutive pages together are the page that spans both. */
  lemma PagesConcatenate(s: Store, skip: nat, a: nat, b: nat)
    requires Valid(s)
    ensures GetUsers(s, skip, a) + GetUsers(s, skip + a, b) == GetUsers(s, skip, a + b)
  {
  }

  /**
   * A page large enough for the whole table lists every user, each exactly
   * once, in ascending id order.
   */
  lemma FullListing(s: Store, limit: nat)
    requires Valid(s)
    requires limit >= |s.order|
    ensures var page := GetUsers(s, 0, limit);
            && (forall k :: k in s.users ==> s.users[k] in page)
            && (forall i, j :: 0 <= i < j < |page| ==> page[i].id < page[j].id)
  {
  }

  // ------------------------------------------------------------- profiles

  /**
   * Two profile writes merge: a field the second write omits keeps the value
   * the first one left, and the profile row is the same row.
   */
  lemma ProfileWritesMerge(s: Store, userId: UserId, first: ProfileCreate, second: ProfileCreate)
    requires Valid(s)
    requires userId in s.users
    ensures var r1 := CreateUserProfile(s, userId, first);
            var r2 := CreateUserProfile(r1.next, userId, second);
            var p1 := r1.out.value;
            var p2 := r2.out.value;
            && p2.id == p1.id
            && p2.phone == second.phone.Over(p1.phone)
            && p2.city == second.city.Over(p1.city)
            && p2.country == second.country.Over(p1.country)
            && p2.timezone == second.timezone.Over(p1.timezone)
  {
  }

  /** Writing the same profile input twice is the same as writing it once. */
  lemma ProfileWriteIdempotent(s: Store, userId: UserId, input: ProfileCreate)
    requires Valid(s)
    ensures var r := CreateUserProfile(s, userId, input);
            CreateUserProfile(r.next, userId, input) == r
  {
    var r := CreateUserProfile(s, userId, input);
    if userId in s.users {
      var r2 := CreateUserProfile(r.next, userId, input);
      assert r2.out.value == r.out.value;
      assert r.next.profiles[userId := r.out.value] == r.next.profiles;
    }
  }

  /**
   * Creating a profile for a user that has none and then deleting it gives
   * back the original store.
   */
  lemma ProfileCreateThenDeleteRestores(s: Store, userId: UserId, input: ProfileCreate)
    requires Valid(s)
    requires userId in s.users && userId !in s.profiles
    ensures var c := CreateUserProfile(s, userId, input);
            DeleteUserProfile(c.next, userId) == Step(true, s)
  {
  }

  /** Deleting a profile leaves its user in place, still findable. */
  lemma ProfileDeleteKeepsUser(s: Store, userId: UserId)
    requires Valid(s)
    ensures GetUser(DeleteUserProfile(s, userId).next, userId) == GetUser(s, userId)
  {
  }

  /**
   * The public view of a user shows the profile the last profile write
   * returned, and no profile once that profile is deleted.
   */
  lemma ViewShowsProfileWrites(s: Store, id: UserId, input: ProfileCreate)
    requires Valid(s)
    requires id in s.users
    ensures var w := CreateUserProfile(s, id, input);
            var d := DeleteUserProfile(w.next, id);
            && ViewOf(w.next, w.next.users[id]).profile == w.out
            && ViewOf(d.next, d.next.users[id]).profile.None?
  {
  }

  // ------------------------------------------------------------- scenario

  /**
   * The lifecycle of one account in an empty database: creation yields id 1
   * and a credential with one separator, a second registration with the same
   * email conflicts, the user can be read back, deleted, and is then gone.
   */
  lemma AccountLifecycle(kdf: Kdf, salt: Salt, salt2: Salt)
    ensures var input := UserCreate("a@x.com", None, "secret");
            var c := CreateUser(EmptyStore, input, kdf, salt);
            && c.out.Success?
            && c.out.value.id == 1
            && Count(c.out.value.passwordHash, Separator) == 1
            && CreateUser(c.next, input, kdf, salt2).out == Failure(UniqueViolation("email"))
            && GetUser(c.next, 1) == Some(c.out.value)
            && DeleteUser(c.next, 1).out
            && GetUser(DeleteUser(c.next, 1).next, 1).None?
  {
  }
}
