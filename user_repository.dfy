/** `UserRepository`: lookups on the users table and the insert that registration uses. */
module UserRepository {
  import opened Wrappers
  import opened Http
  import opened UserModel
  import Query

  /** `get_by_email`: the first record with that email. */
  function GetByEmail(rows: seq<User>, email: string): (r: Option<User>)
    ensures r.Some? ==> r.value in rows && r.value.email == email
    ensures r.None? ==> forall u :: u in rows ==> u.email != email
  {
    Query.First(rows, (u: User) => u.email == email)
  }

  /** `get_by_username`: the first record with that username. */
  function GetByUsername(rows: seq<User>, username: string): (r: Option<User>)
    ensures r.Some? ==> r.value in rows && r.value.username == username
    ensures r.None? ==> forall u :: u in rows ==> u.username != username
  {
    Query.First(rows, (u: User) => u.username == username)
  }

  /** `get_by_id`: the record with that primary key. */
  function GetById(rows: seq<User>, id: int): (r: Option<User>)
    ensures r.Some? ==> r.value in rows && r.value.id == id
    ensures r.None? ==> forall u :: u in rows ==> u.id != id
  {
    Query.First(rows, (u: User) => u.id == id)
  }

  /** `get_all_users`: every record, in scan order. */
  function GetAllUsers(rows: seq<User>): seq<User>
  {
    rows
  }

  /** An insert of these values that the table's unique or length constraints refuse. */
  predicate ViolatesConstraints(rows: seq<User>, username: string, email: string, passwordHash: string)
  {
    GetByUsername(rows, username).Some? || GetByEmail(rows, email).Some?
    || !FitsColumns(username, email, passwordHash)
  }

  /** In a table with unique ids, the lookup by id finds exactly the record that has it. */
  lemma GetByIdFindsRow(rows: seq<User>, u: User)
    requires UniqueIds(rows) && u in rows
    ensures GetById(rows, u.id) == Some(u)
  {
    var r := GetById(rows, u.id);
    var i :| 0 <= i < |rows| && rows[i] == u;
    var j :| 0 <= j < |rows| && rows[j] == r.value;
  }

  /** In a table with unique usernames, the lookup by username finds exactly the record that has it. */
  lemma GetByUsernameFindsRow(rows: seq<User>, u: User)
    requires UniqueUsernames(rows) && u in rows
    ensures GetByUsername(rows, u.username) == Some(u)
  {
    var r := GetByUsername(rows, u.username);
    var i :| 0 <= i < |rows| && rows[i] == u;
    var j :| 0 <= j < |rows| && rows[j] == r.value;
  }

  /** In a table with unique emails, the lookup by email finds exactly the record that has it. */
  lemma GetByEmailFindsRow(rows: seq<User>, u: User)
    requires UniqueEmails(rows) && u in rows
    ensures GetByEmail(rows, u.email) == Some(u)
  {
    var r := GetByEmail(rows, u.email);
    var i :| 0 <= i < |rows| && rows[i] == u;
    var j :| 0 <= j < |rows| && rows[j] == r.value;
  }

  /** Every listed record is the one its id, username and email look up, and every record that a
      lookup by id returns is listed. */
  lemma GetAllUsersAgreesWithLookups(rows: seq<User>, nextId: nat, u: User)
    requires TableInvariant(rows, nextId)
    ensures u in GetAllUsers(rows) <==> GetById(rows, u.id) == Some(u)
    ensures u in GetAllUsers(rows) ==> GetByUsername(rows, u.username) == Some(u) && GetByEmail(rows, u.email) == Some(u)
  {
    if u in rows {
      GetByIdFindsRow(rows, u);
      GetByUsernameFindsRow(rows, u);
      GetByEmailFindsRow(rows, u);
    }
  }

  /** An insert the constraints accept keeps them all, and the new record is what each lookup finds. */
  lemma {:induction false} InsertKeepsInvariant(rows: seq<User>, nextId: nat, username: string, email: string,
                                                passwordHash: string)
    requires TableInvariant(rows, nextId)
    requires !ViolatesConstraints(rows, username, email, passwordHash)
    ensures var u := User(nextId, username, email, passwordHash);
            && TableInvariant(rows + [u], nextId + 1)
            && GetById(rows + [u], nextId) == Some(u)
            && GetByUsername(rows + [u], username) == Some(u)
            && GetByEmail(rows + [u], email) == Some(u)
  {
    var u := User(nextId, username, email, passwordHash);
    var s := rows + [u];
    assert s[|rows|] == u;
    forall i | 0 <= i < |rows| ensures s[i] == rows[i] && s[i] in rows { }
    assert u in s;
    assert TableInvariant(s, nextId + 1);
    GetByIdFindsRow(s, u);
    GetByUsernameFindsRow(s, u);
    GetByEmailFindsRow(s, u);
  }

  /** The users table as the repository's session sees it, with the id the next insert receives. */
  class Repository {
    var rows: seq<User>
    var nextId: nat

    ghost predicate Valid()
      reads this
    {
      TableInvariant(rows, nextId)
    }

    /** An empty table. */
    constructor ()
      ensures Valid() && rows == [] && nextId == 1
    {
      rows := [];
      nextId := 1;
    }

    /** `create_user`: the repository itself checks nothing; a duplicate username or email, or a value
        longer than its column, is refused by the table and surfaces as a server error with nothing
        written. Otherwise exactly one record is added under a fresh id and returned. */
    method CreateUser(username: string, passwordHash: string, email: string) returns (r: Result<User, Error>)
      requires Valid()
      modifies this
      ensures Valid()
      ensures ViolatesConstraints(old(rows), username, email, passwordHash)
              ==> r == Err(INTERNAL_SERVER_ERROR) && rows == old(rows) && nextId == old(nextId)
      ensures !ViolatesConstraints(old(rows), username, email, passwordHash)
              ==> && r == Ok(User(old(nextId), username, email, passwordHash))
                  && rows == old(rows) + [r.value] && nextId == old(nextId) + 1
      ensures r.Ok? ==> GetByUsername(rows, username) == Some(r.value) && GetByEmail(rows, email) == Some(r.value)
    {
      if ViolatesConstraints(rows, username, email, passwordHash) {
        return Err(INTERNAL_SERVER_ERROR);
      }
      InsertKeepsInvariant(rows, nextId, username, email, passwordHash);
      var user := User(nextId, username, email, passwordHash);
      rows := rows + [user];
      nextId := nextId + 1;
      r := Ok(user);
    }
  }
}
