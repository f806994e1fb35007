/**
 * The request pipeline around the handlers: a body is validated before any
 * handler runs, the handler's result becomes a 200 response, and a raised
 * failure goes through the error translator. Requests are served one after
 * another against one table.
 */
module Api {
  import opened Text
  import opened UserModel
  import opened UserSchemas
  import opened Exceptions
  import opened UserRouters

  /** The four user routes: POST /users/, GET, PUT and DELETE /users/{id}. */
  datatype Request =
    | Create(body: RawUser)
    | Get(id: int)
    | Update(id: int, body: RawUser)
    | Delete(id: int)

  /** A response body: a user, a confirmation message, an error, or the
      field errors of a rejected body. */
  datatype Body =
    | UserBody(user: UserResponse)
    | MessageBody(message: string)
    | ErrorBody(message: string, statusCode: int)
    | ValidationBody(errors: seq<FieldError>)

  datatype Response = Response(status: int, body: Body)

  /** The table after a request, and the response sent. */
  datatype Exchange = Exchange(db: Db, response: Response)

  /** The table invariant holds and every row is one the schema, checking
      names under `rule`, lets through: its email lowercase and grammatical,
      its name within the bounds (and not blank under the corrected check). */
  predicate WellFormedDb(db: Db, rule: NameRule, f: Foreign) {
    && Consistent(db)
    && forall k :: k in db.users ==>
         StoredName(rule, db.users[k].name) && WellFormedEmail(db.users[k].email, f)
  }

  /** A table state `db'` reached from `db` has not handed out an id below
      `db.nextId` anew. */
  predicate IdsNotReissued(db: Db, db': Db) {
    && db'.nextId >= db.nextId
    && forall k :: k in db'.users ==> k in db.users || k >= db.nextId
  }

  /** A raised failure, through the error translator. */
  function Failed(db: Db, e: Failure): (r: Exchange)
    ensures r.db == db
  {
    var t := Translate(e);
    Exchange(db, Response(t.status, ErrorBody(t.message, t.statusCode)))
  }

  /** A handler's reply as the response sent for it. */
  function Send<T>(reply: Reply<T>, render: T -> Body): (r: Exchange)
    ensures r.db == reply.db
  {
    match reply.result
    case Ok(v) => Exchange(reply.db, Response(200, render(v)))
    case Raised(e) => Failed(reply.db, e)
  }

  /** A rejected body: 422 with the field errors. */
  function Unprocessable(db: Db, errors: seq<FieldError>): Exchange {
    Exchange(db, Response(422, ValidationBody(errors)))
  }

  /** One request served against `db`, at instant `now`, with names
      checked under `rule`. */
  function Serve(db: Db, req: Request, rule: NameRule, f: Foreign, now: int): (r: Exchange)
    ensures r.response.status != 200 ==> r.db == db
    ensures r.response.body.ErrorBody? ==> r.response.body.statusCode == r.response.status
    ensures r.response.status == 422 <==> r.response.body.ValidationBody?
    ensures IdsNotReissued(db, r.db)
  {
    match req
    case Create(body) =>
      (match ValidateCreate(body, rule, f)
       case Invalid(errors) => Unprocessable(db, errors)
       case Valid(user) => Send(CreateUser(db, user, now), u => UserBody(u)))
    case Get(id) => Send(GetUser(db, id), u => UserBody(u))
    case Update(id, body) =>
      (match ValidateUpdate(body, rule, f)
       case Invalid(errors) => Unprocessable(db, errors)
       case Valid(upd) => Send(UpdateUser(db, id, upd), u => UserBody(u)))
    case Delete(id) => Send(DeleteUser(db, id), m => MessageBody(m))
  }

  /** A body the schema rejects never reaches the table: the response is
      422 whatever the table holds, and the table is left as it was. */
  lemma RejectedBodyNeverReachesStore(db: Db, db': Db, req: Request, rule: NameRule, f: Foreign, now: int, now': int)
    requires || (req.Create? && ValidateCreate(req.body, rule, f).Invalid?)
             || (req.Update? && ValidateUpdate(req.body, rule, f).Invalid?)
    ensures Serve(db, req, rule, f, now).db == db
    ensures Serve(db, req, rule, f, now).response.status == 422
    ensures Serve(db, req, rule, f, now).response == Serve(db', req, rule, f, now').response
  {
  }

  /** End to end: a create body whose email the grammar refuses answers 422
      naming the email, whatever the name and whatever the table holds, and
      the table is left as it was. */
  lemma InvalidEmailRefused(db: Db, name: Raw, e: string, rule: NameRule, f: Foreign, now: int)
    requires !f.isEmail(Lower(e))
    ensures var r := Serve(db, Create(RawUser(name, Str(e))), rule, f, now);
      && r.db == db
      && r.response.status == 422
      && BadEmail in r.response.body.errors
  {
  }

  /** Serving any request keeps every row well formed and the table
      invariant intact. */
  lemma ServePreservesWellFormed(db: Db, req: Request, rule: NameRule, f: Foreign, now: int)
    requires WellFormedDb(db, rule, f)
    ensures WellFormedDb(Serve(db, req, rule, f, now).db, rule, f)
  {
  }

  /** In a well-formed table emails are unique even ignoring case: two rows
      whose emails differ only in the case of their letters are one row. */
  lemma EmailsUniqueIgnoringCase(db: Db, rule: NameRule, f: Foreign, a: int, b: int)
    requires WellFormedDb(db, rule, f)
    requires a in db.users && b in db.users
    requires EqualIgnoringCase(db.users[a].email, db.users[b].email)
    ensures a == b
  {
  }

  /** A request and the instant at which it is served. */
  datatype Call = Call(request: Request, now: int)

  /** The table after serving `calls` in order. */
  function Run(db: Db, calls: seq<Call>, rule: NameRule, f: Foreign): Db
    decreases |calls|
  {
    if calls == [] then db
    else Run(Serve(db, calls[0].request, rule, f, calls[0].now).db, calls[1..], rule, f)
  }

  /** However many requests are served, no two rows share an email and
      every row stays well formed: under the check as written names stay
      within the bounds, under the corrected check they are also never
      blank. */
  lemma {:induction false} RunPreservesWellFormed(db: Db, calls: seq<Call>, rule: NameRule, f: Foreign)
    requires WellFormedDb(db, rule, f)
    ensures WellFormedDb(Run(db, calls, rule, f), rule, f)
    ensures EmailsUnique(Run(db, calls, rule, f).users)
    ensures rule == Corrected ==>
      forall k :: k in Run(db, calls, rule, f).users ==> !Blank(Run(db, calls, rule, f).users[k].name)
    decreases |calls|
  {
    if calls != [] {
      ServePreservesWellFormed(db, calls[0].request, rule, f, calls[0].now);
      RunPreservesWellFormed(Serve(db, calls[0].request, rule, f, calls[0].now).db, calls[1..], rule, f);
    }
  }

  /** An id is never reused: one that the sequence handed out and that no
      row holds any more is held by no row after any further requests. */
  lemma {:induction false} RunNeverReusesIds(db: Db, calls: seq<Call>, rule: NameRule, f: Foreign, k: int)
    requires k < db.nextId && k !in db.users
    ensures k !in Run(db, calls, rule, f).users
    decreases |calls|
  {
    if calls != [] {
      var db' := Serve(db, calls[0].request, rule, f, calls[0].now).db;
      RunNeverReusesIds(db', calls[1..], rule, f, k);
    }
  }

  /** End to end: a valid create body with a free email answers 200 with
      the new id, the stripped and sanitised name and the lowered email. */
  lemma CreateEchoesNormalisedInput(db: Db, n: string, e: string, rule: NameRule, f: Foreign, now: int)
    requires NameAccepted(rule, n, f) && f.isEmail(Lower(e))
    requires !EmailTaken(db.users, Lower(e)) && db.nextId !in db.users
    ensures Serve(db, Create(RawUser(Str(n), Str(e))), rule, f, now).response
      == Response(200, UserBody(UserResponse(db.nextId, f.clean(Strip(n)), Lower(e), now)))
  {
  }

  /** End to end: once a body with email `e` has been created, a body whose
      email differs from `e` only in case is refused with 400. */
  lemma CaseVariantRefused(db: Db, n: string, n': string, e: string, e': string, rule: NameRule, f: Foreign, now: int, now': int)
    requires NameAccepted(rule, n, f) && NameAccepted(rule, n', f) && f.isEmail(Lower(e))
    requires !EmailTaken(db.users, Lower(e)) && db.nextId !in db.users
    requires EqualIgnoringCase(e, e')
    ensures var r := Serve(db, Create(RawUser(Str(n), Str(e))), rule, f, now);
      && r.response.status == 200
      && Serve(r.db, Create(RawUser(Str(n'), Str(e'))), rule, f, now').response
           == Response(400, ErrorBody(EmailAlreadyRegistered, 400))
  {
    LowerCollision(e, e');
    var user := ValidateCreate(RawUser(Str(n), Str(e)), rule, f).value;
    CaseVariantIsDuplicate(db, user.name, f.clean(Strip(n')), e, e', now, now');
  }

  /** End to end: deleting an existing user answers the confirmation, and
      a later read or delete of the id answers 404 "User not found". */
  lemma DeleteThenRead(db: Db, id: int, rule: NameRule, f: Foreign, now: int, now': int)
    requires id in db.users
    ensures var r := Serve(db, Delete(id), rule, f, now);
      && r.response == Response(200, MessageBody(UserDeleted))
      && Serve(r.db, Get(id), rule, f, now').response == Response(404, ErrorBody(UserNotFound, 404))
      && Serve(r.db, Delete(id), rule, f, now').response == Response(404, ErrorBody(UserNotFound, 404))
  {
  }

  /** The two name checks serve every request alike, except that the
      corrected one answers 422 where the one as written lets a name through
      that sanitises to blank. */
  lemma CorrectedDiffersOnlyByRefusing(db: Db, req: Request, f: Foreign, now: int)
    ensures var c := Serve(db, req, Corrected, f, now);
      c.response.status != 422 ==> c == Serve(db, req, AsWritten, f, now)
  {
  }

  /** End to end, the finding on the name validators: with a markup stripper
      that turns `<b> </b>` into a single space, a create with that name is
      stored with a blank name and answered 200 as written, and refused with
      422 under the corrected check. */
  lemma AsWrittenStoresBlankName()
    ensures var f := Foreign(v => if v == "<b> </b>" then " " else v, e => true);
      var body := Create(RawUser(Str("<b> </b>"), Str("a@b")));
      var w := Serve(EmptyDb, body, AsWritten, f, 0);
      && w.response == Response(200, UserBody(UserResponse(1, " ", "a@b", 0)))
      && Blank(w.db.users[1].name)
      && Serve(EmptyDb, body, Corrected, f, 0) == Exchange(EmptyDb, Response(422, ValidationBody([BlankName])))
  {
    AsWrittenAcceptsBlankName();
  }
}
