/** UsersService (users/users.service.ts): lookups of the user table and
    registration. */
module Users {

  import opened Common
  import opened Store
  import opened UserDto

  /** `findById`: the user row with that id, or null. */
  function FindById(users: map<int, User>, id: int): (r: Option<UserRow>)
    ensures r.Some? <==> id in users
    ensures r.Some? ==> r.value == UserRow(id, users[id])
  {
    if id in users then Some(UserRow(id, users[id])) else None
  }

  /** `existsByEmail`: whether some user row has that e-mail. */
  function ExistsByEmail(users: map<int, User>, email: string): (b: bool)
    ensures b <==> exists id :: id in users && users[id].email == email
  {
    exists id :: id in users && users[id].email == email
  }

  /** `findByEmail`: the user row with that e-mail, or null; the unique index
      on the column makes the row unique. */
  function FindByEmail(users: map<int, User>, email: string): (r: Option<UserRow>)
    requires UniqueEmails(users)
    ensures r.Some? <==> ExistsByEmail(users, email)
    ensures r.Some? ==> r.value.id in users && r.value.record == users[r.value.id] && r.value.record.email == email
  {
    if ExistsByEmail(users, email) then
      var id :| id in users && users[id].email == email;
      Some(UserRow(id, users[id]))
    else None
  }

  /** The bcrypt cost factor `register` hashes with. */
  const HashRounds: nat := 12

  /** The row `register` saves for a normalised body: the same fields, with
      the password replaced by its digest. */
  function StoredUser(d: UserDto): (u: User)
    ensures u.username == d.username && u.email == d.email && u.phone == d.phone
    ensures u.nickname == d.nickname && u.birthdate == d.birthdate
    ensures u.password == Bcrypt(d.password, HashRounds)
  {
    User(d.username, Bcrypt(d.password, HashRounds), d.email, d.phone, d.nickname, d.birthdate)
  }

  /** Adding a user whose e-mail is not yet taken keeps e-mails unique, and
      the new row is the one `findByEmail` then returns. */
  lemma RegisteredIsFound(users: map<int, User>, id: int, u: User)
    requires UniqueEmails(users) && id !in users && !ExistsByEmail(users, u.email)
    ensures UniqueEmails(users[id := u])
    ensures FindByEmail(users[id := u], u.email) == Some(UserRow(id, u))
  {
    var users' := users[id := u];
    forall a, b | a in users' && b in users' && users'[a].email == users'[b].email
      ensures a == b
    {
      if a != id && b != id {
        assert users[a].email == users[b].email;
      }
    }
    assert users'[id].email == u.email;
    var r := FindByEmail(users', u.email);
    assert r.value.id == id;
  }

  /** The driver code of a unique-constraint violation. */
  const UniqueViolation: string := "23505"

  /** What `register` answers, from the storage failure injected and whether
      the normalised e-mail is already taken. Storage calls: 0 is the e-mail
      lookup, 1 the save; neither is wrapped into a generic error, and a
      unique-constraint violation on the save is reported as a bad request. */
  function RegisterOutcome(fault: Fault, taken: bool): (r: Result<()>)
    ensures fault.At(0) ==> r == Err(DbError(fault.code))
    ensures !fault.At(0) && taken ==> r == Err(BadRequest)
    ensures !fault.At(0) && !taken && fault.At(1) ==>
      r == Err(if fault.code == UniqueViolation then BadRequest else DbError(fault.code))
    ensures r.Ok? <==> !fault.At(0) && !fault.At(1) && !taken
  {
    if fault.At(0) then Err(DbError(fault.code))
    else if taken then Err(BadRequest)
    else if fault.At(1) then
      Err(if fault.code == UniqueViolation then BadRequest else DbError(fault.code))
    else Ok(())
  }

  class UsersService {
    const db: Database

    constructor (db: Database)
      ensures this.db == db
    {
      this.db := db;
    }

    /** `register`: normalise the body, reject a taken e-mail, store the
        normalised record with the password digest under the next user id. */
    method Register(data: UserDto, fault: Fault) returns (r: Result<()>)
      requires db.Valid()
      modifies db`users, db`userSeq
      ensures db.Valid()
      ensures r == RegisterOutcome(fault, ExistsByEmail(old(db.users), Transform(data).email))
      ensures r.Ok? ==> db.users == old(db.users)[old(db.userSeq) := StoredUser(Transform(data))]
      ensures r.Err? ==> db.users == old(db.users)
    {
      var normalized := Transform(data);
      r := RegisterOutcome(fault, ExistsByEmail(db.users, normalized.email));
      if r.Ok? {
        var user := StoredUser(normalized);
        RegisteredIsFound(db.users, db.userSeq, user);
        db.users := db.users[db.userSeq := user];
        db.userSeq := db.userSeq + 1;
      }
    }
  }
}
