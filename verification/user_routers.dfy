/**
 * The four request handlers of the user API, each a function from the table
 * and a validated request to the new table and the handler's result. A
 * handler that raises leaves the table as it was: nothing is committed.
 */
module UserRouters {
  import opened Text
  import opened UserModel
  import opened UserSchemas
  import opened Exceptions

  const EmailAlreadyRegistered := "Email already registered"
  const UserNotFound := "User not found"
  const EmailAlreadyInUse := "Email already in use"
  const UserDeleted := "User deleted successfully"

  /** What a handler returns, or the exception it raises. */
  datatype Result<T> = Ok(value: T) | Raised(failure: Failure)

  /** The table after the request, and the handler's result. */
  datatype Reply<T> = Reply(db: Db, result: Result<T>)

  /** The raise of a 404 for an id that no row has. */
  const NotFound: Failure := HttpException(404, UserNotFound)

  /** `create_user`. The email check comes first; only a fresh email is
      inserted. A clash of the sequence with an existing id is refused by
      the primary key at commit, which surfaces as a database error. */
  function CreateUser(db: Db, user: UserCreate, now: int): (r: Reply<UserResponse>)
    ensures r.result.Raised? ==> r.db == db
    ensures EmailTaken(db.users, user.email) ==>
      r.result == Raised(HttpException(400, EmailAlreadyRegistered))
    ensures r.result.Ok? <==> !EmailTaken(db.users, user.email) && db.nextId !in db.users
    ensures r.result.Ok? ==>
      var id := r.result.value.id;
      && id !in db.users
      && r.db.users.Keys == db.users.Keys + {id}
      && r.db.users[id] == User(id, user.name, user.email, now)
      && (forall k :: k in db.users ==> r.db.users[k] == db.users[k])
      && r.result.value == FromRecord(r.db.users[id])
    ensures Consistent(db) ==> Consistent(r.db) && r.result.Ok? == !EmailTaken(db.users, user.email)
  {
    if EmailTaken(db.users, user.email) then
      Reply(db, Raised(HttpException(400, EmailAlreadyRegistered)))
    else if db.nextId in db.users then
      // Unreachable in a consistent table, whose ids all lie below the
      // sequence; the model keeps the sequence where it was, where
      // PostgreSQL would have consumed the value.
      Reply(db, Raised(DatabaseError("duplicate key value violates unique constraint \"users_pkey\"")))
    else
      var db' := Insert(db, user.name, user.email, now);
      Reply(db', Ok(FromRecord(db'.users[db.nextId])))
  }

  /** `get_user`. */
  function GetUser(db: Db, id: int): (r: Reply<UserResponse>)
    ensures r.db == db
    ensures id !in db.users <==> r.result == Raised(NotFound)
    ensures id in db.users ==> r.result == Ok(FromRecord(db.users[id]))
  {
    if id in db.users then Reply(db, Ok(FromRecord(db.users[id])))
    else Reply(db, Raised(NotFound))
  }

  /** The row `user` with the supplied fields of `upd` assigned; a field
      that is left out, null or empty keeps its old value. */
  function Assign(user: User, upd: UserUpdate): (u: User)
    ensures u.id == user.id && u.createdAt == user.createdAt
    ensures u.name == (if Supplied(upd.name) then upd.name.value else user.name)
    ensures u.email == (if Supplied(upd.email) then upd.email.value else user.email)
  {
    var named := if Supplied(upd.name) then user.(name := upd.name.value) else user;
    if Supplied(upd.email) then named.(email := upd.email.value) else named
  }

  /** The email of `upd` would clash with another row: it is supplied,
      differs from the row's current email, and some row holds it. */
  predicate EmailClash(db: Db, id: int, upd: UserUpdate)
    requires id in db.users
  {
    Supplied(upd.email) && upd.email.value != db.users[id].email && EmailTaken(db.users, upd.email.value)
  }

  /** `update_user`: a partial update. The email clash check runs before any
      field is assigned, so a refused update changes nothing. */
  function UpdateUser(db: Db, id: int, upd: UserUpdate): (r: Reply<UserResponse>)
    ensures r.result.Raised? ==> r.db == db
    ensures id !in db.users ==> r.result == Raised(NotFound)
    ensures id in db.users && EmailClash(db, id, upd) ==>
      r.result == Raised(HttpException(400, EmailAlreadyInUse))
    ensures r.result.Ok? <==> id in db.users && !EmailClash(db, id, upd)
    ensures r.result.Ok? ==>
      && r.db.nextId == db.nextId
      && r.db.users.Keys == db.users.Keys
      && (forall k :: k in db.users && k != id ==> r.db.users[k] == db.users[k])
      && r.db.users[id].id == db.users[id].id
      && r.db.users[id].createdAt == db.users[id].createdAt
      && r.db.users[id].name == (if Supplied(upd.name) then upd.name.value else db.users[id].name)
      && r.db.users[id].email == (if Supplied(upd.email) then upd.email.value else db.users[id].email)
      && r.result.value == FromRecord(r.db.users[id])
    ensures Consistent(db) ==> Consistent(r.db)
  {
    if id !in db.users then Reply(db, Raised(NotFound))
    else if EmailClash(db, id, upd) then Reply(db, Raised(HttpException(400, EmailAlreadyInUse)))
    else
      var user := Assign(db.users[id], upd);
      var db' := db.(users := db.users[id := user]);
      Reply(db', Ok(FromRecord(user)))
  }

  /** `delete_user`. */
  function DeleteUser(db: Db, id: int): (r: Reply<string>)
    ensures r.result.Raised? ==> r.db == db
    ensures id !in db.users <==> r.result == Raised(NotFound)
    ensures id in db.users ==> r.result == Ok(UserDeleted)
    ensures id in db.users ==> r.db == db.(users := db.users - {id})
    ensures Consistent(db) ==> Consistent(r.db)
  {
    if id !in db.users then Reply(db, Raised(NotFound))
    else Reply(db.(users := db.users - {id}), Ok(UserDeleted))
  }

  /** After a delete the id is gone: reading or deleting it again gives 404. */
  lemma DeleteIsFinal(db: Db, id: int)
    requires id in db.users
    ensures GetUser(DeleteUser(db, id).db, id).result == Raised(NotFound)
    ensures DeleteUser(DeleteUser(db, id).db, id).result == Raised(NotFound)
  {
  }

  /** Creating a row and reading it back by the id the create returned gives
      the same response. */
  lemma CreateThenGet(db: Db, user: UserCreate, now: int)
    requires CreateUser(db, user, now).result.Ok?
    ensures var r := CreateUser(db, user, now);
      GetUser(r.db, r.result.value.id).result == r.result
  {
  }

  /** Two emails that differ only in case are one email once lowered: after
      a create with one, a create with the other is refused as a duplicate. */
  lemma CaseVariantIsDuplicate(db: Db, name: string, name': string, e: string, e': string, now: int, now': int)
    requires EqualIgnoringCase(e, e')
    requires CreateUser(db, UserCreate(name, Lower(e)), now).result.Ok?
    ensures var db' := CreateUser(db, UserCreate(name, Lower(e)), now).db;
      CreateUser(db', UserCreate(name', Lower(e')), now').result ==
        Raised(HttpException(400, EmailAlreadyRegistered))
  {
  }
}
