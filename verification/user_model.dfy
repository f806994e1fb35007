/**
 * The `users` table: one record type and the table as a map from primary key
 * to record, together with the id sequence that backs the serial primary key.
 */
module UserModel {

  /** A row of `users`. `name` and `email` are non-nullable columns, which a
      Dafny string already is; `createdAt` is the insertion instant, in
      seconds, as the store's clock gave it. */
  datatype User = User(id: int, name: string, email: string, createdAt: int)

  /** The rows, keyed by primary key: at most one row per id. */
  type Users = map<int, User>

  /** The table and the next value its id sequence hands out. */
  datatype Db = Db(users: Users, nextId: int)

  /** A freshly created table: no rows, and a sequence that starts at 1. */
  const EmptyDb := Db(map[], 1)

  /** Every row is stored under its own id. */
  predicate KeyedById(users: Users) {
    forall k :: k in users ==> users[k].id == k
  }

  /** The sequence starts at 1 and every id in use was handed out by it
      already. */
  predicate IdsIssued(db: Db) {
    1 <= db.nextId && forall k :: k in db.users ==> 1 <= k < db.nextId
  }

  /** Some row holds `email`: `query(User).filter(User.email == email).first()`
      returns a row. */
  predicate EmailTaken(users: Users, email: string) {
    exists k :: k in users && users[k].email == email
  }

  /** The unique constraint on the `email` column. */
  predicate EmailsUnique(users: Users) {
    forall a, b :: a in users && b in users && a != b ==> users[a].email != users[b].email
  }

  /** The structural invariant of the table. */
  predicate Consistent(db: Db) {
    KeyedById(db.users) && IdsIssued(db) && EmailsUnique(db.users)
  }

  /** `db.add(User(name=..., email=...))` followed by the commit: the row
      gets the next id of the sequence and the current instant as
      `created_at`. */
  function Insert(db: Db, name: string, email: string, now: int): (r: Db)
    requires db.nextId !in db.users
    ensures r.users.Keys == db.users.Keys + {db.nextId}
    ensures r.users[db.nextId] == User(db.nextId, name, email, now)
    ensures forall k :: k in db.users ==> r.users[k] == db.users[k]
    ensures r.nextId > db.nextId
    ensures Consistent(db) && !EmailTaken(db.users, email) ==> Consistent(r)
    ensures |r.users| == |db.users| + 1
  {
    var users := db.users[db.nextId := User(db.nextId, name, email, now)];
    assert users.Keys == db.users.Keys + {db.nextId};
    Db(users, db.nextId + 1)
  }
}
