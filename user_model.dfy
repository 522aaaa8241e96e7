/** The `users` table: one record per account, with the constraints its columns declare. */
module UserModel {

  /** Declared column lengths. */
  const USERNAME_LENGTH: nat := 50
  const EMAIL_LENGTH: nat := 100
  const PASSWORD_HASH_LENGTH: nat := 128

  /** A user account. `id` is assigned by the table; strings are never null. */
  datatype User = User(id: nat, username: string, email: string, passwordHash: string)

  /** The three string columns fit their declared lengths. */
  predicate FitsColumns(username: string, email: string, passwordHash: string)
  {
    |username| <= USERNAME_LENGTH && |email| <= EMAIL_LENGTH && |passwordHash| <= PASSWORD_HASH_LENGTH
  }

  ghost predicate UniqueIds(rows: seq<User>)
  {
    forall i, j :: 0 <= i < |rows| && 0 <= j < |rows| && rows[i].id == rows[j].id ==> i == j
  }

  ghost predicate UniqueUsernames(rows: seq<User>)
  {
    forall i, j :: 0 <= i < |rows| && 0 <= j < |rows| && rows[i].username == rows[j].username ==> i == j
  }

  ghost predicate UniqueEmails(rows: seq<User>)
  {
    forall i, j :: 0 <= i < |rows| && 0 <= j < |rows| && rows[i].email == rows[j].email ==> i == j
  }

  /** The table's constraints: a unique key assigned below the next free id, unique username and email,
      and every column within its declared length. */
  ghost predicate TableInvariant(rows: seq<User>, nextId: nat)
  {
    && UniqueIds(rows) && UniqueUsernames(rows) && UniqueEmails(rows)
    && (forall i :: 0 <= i < |rows| ==> 1 <= rows[i].id < nextId)
    && (forall i :: 0 <= i < |rows| ==> FitsColumns(rows[i].username, rows[i].email, rows[i].passwordHash))
    && nextId >= 1
  }

  /** `__repr__`: the developer-facing text of a record. */
  function Repr(u: User): string
  {
    "<User(username='" + u.username + "', email='" + u.email + "')>"
  }

  /** The text shows the username and email and is blind to the password hash. */
  lemma ReprRedactsHash(u: User, otherHash: string)
    ensures Repr(u) == Repr(u.(passwordHash := otherHash))
    ensures Repr(u)[|"<User(username='"|..|"<User(username='"| + |u.username|] == u.username
  {
  }
}
