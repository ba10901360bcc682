/**
 * The operation inputs and the public view of a user.
 *
 * Inputs whose omitted fields must stay distinguishable from fields sent as
 * null (the merge-patch inputs) use `Field`, which records whether the field
 * was supplied at all; a supplied field carries an `Option`, `None` being an
 * explicit null.
 */
module Schemas {
  import opened Wrappers
  import opened Models

  /** A field of a partial input: left out, or supplied with a value. */
  datatype Field<T> = Omitted | Given(value: T) {

    /** What a merge-patch writes into a column that currently holds `current`. */
    function Over(current: T): T {
      match this
      case Given(v) => v
      case Omitted => current
    }
  }

  /** Without the presence flag: an omitted nullable field reads as null. */
  function Dumped<T>(f: Field<Option<T>>): Option<T> {
    match f
    case Given(v) => v
    case Omitted => None
  }

  /** Input to user creation: email and password are required, full_name may be absent. */
  datatype UserCreate = UserCreate(email: string, fullName: Option<string>, password: string)

  /**
   * A user patch. Only these three columns can be patched; id and password
   * have no field here. Each field may be omitted, given a value, or given null.
   */
  datatype UserUpdate = UserUpdate(
    email: Field<Option<string>>,
    fullName: Field<Option<string>>,
    isActive: Field<Option<bool>>)

  const NoChanges: UserUpdate := UserUpdate(Omitted, Omitted, Omitted)

  /** Profile input; every field is optional and nullable. */
  datatype ProfileCreate = ProfileCreate(
    phone: Field<Option<string>>,
    city: Field<Option<string>>,
    country: Field<Option<string>>,
    timezone: Field<Option<string>>)

  /** The user as the service returns it: no password or password hash. */
  datatype UserView = UserView(
    id: UserId,
    email: string,
    fullName: Option<string>,
    isActive: bool,
    profile: Option<Profile>)

  /** Serialises a stored user, attaching its profile when it has one. */
  function ViewOf(s: Store, u: User): UserView {
    UserView(u.id, u.email, u.fullName, u.isActive,
             if u.id in s.profiles then Some(s.profiles[u.id]) else None)
  }

  /**
   * The view cannot reveal the credential: two users that differ only in
   * their password hash serialise identically.
   */
  lemma ViewHidesCredential(s: Store, u: User, hash: string)
    ensures ViewOf(s, u) == ViewOf(s, u.(passwordHash := hash))
  {
  }
}
