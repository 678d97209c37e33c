/**
 * The registration handler of app/api/register/route.ts: ordered checks on the
 * JSON body, a duplicate-email lookup in the `users` collection, then the
 * insertion of a record that holds the password's digest.
 *
 * The password hash is a parameter: any function from plaintext to digest.
 */
module Register {
  import opened Wrappers
  import opened Documents

  const MinPasswordLength: nat := 6

  /** The two fields read from the parsed JSON body; None when a field is absent. */
  datatype Credentials = Credentials(email: Option<string>, password: Option<string>)

  const MissingFields: Reply := Reply(400, Message("Email and password are required."))
  const ShortPassword: Reply := Reply(400, Message("Password must be at least 6 characters"))
  const DuplicateEmail: Reply := Reply(409, Message("User with this email already exists."))
  const Registered: Reply := Reply(201, Message("Registration successful! You can now log in."))
  const InternalError: Reply := Reply(500, Message("An internal server error occurred."))

  /** The guards on the body, in the handler's order: None when the body passes both. */
  function Validate(c: Credentials): (r: Option<Reply>)
    ensures r.None? <==>
      !Falsy(c.email) && !Falsy(c.password) && |c.password.value| >= MinPasswordLength
    ensures r.Some? ==> r.value.status == 400
    ensures Falsy(c.email) || Falsy(c.password) ==> r == Some(MissingFields)
  {
    if Falsy(c.email) || Falsy(c.password) then Some(MissingFields)
    else if |c.password.value| < MinPasswordLength then Some(ShortPassword)
    else None
  }

  /** `users.findOne({ email })`: the first user with that email, in collection order. */
  function FindByEmail(users: seq<UserDoc>, email: string): (r: Option<UserDoc>)
    ensures r.Some? <==> exists i :: 0 <= i < |users| && users[i].email == email
    ensures r.Some? ==> r.value in users && r.value.email == email
  {
    if users == [] then None
    else if users[0].email == email then Some(users[0])
    else FindByEmail(users[1..], email)
  }

  /** The unique-email invariant the handler's lookup maintains, with MongoDB's unique `_id`. */
  predicate WellFormed(users: seq<UserDoc>)
  {
    && (forall i, j :: 0 <= i < j < |users| ==> users[i].email != users[j].email)
    && UniqueUserIds(users)
  }

  /** The document `insertOne` stores: no username or image yet, and the digest, not the password. */
  function NewUser(id: ObjectId, email: string, hashed: Digest, now: Time): UserDoc
  {
    UserDoc(id, email, hashed, None, None, now)
  }

  /**
   * One request as one atomic step over the `users` collection: the reply and
   * the collection after it. `body` is None when `request.json()` fails;
   * `newId` is the `_id` the driver assigns, and a clash with an existing one
   * makes `insertOne` fail, which the handler reports as a 500.
   */
  function RegisterStep(users: seq<UserDoc>, body: Option<Credentials>, hash: string -> Digest,
                        newId: ObjectId, now: Time): (Reply, seq<UserDoc>)
  {
    match body
    case None => (InternalError, users)
    case Some(c) =>
      match Validate(c)
      case Some(rejection) => (rejection, users)
      case None =>
        if FindByEmail(users, c.email.value).Some? then (DuplicateEmail, users)
        else if UserIdTaken(users, newId) then (InternalError, users)
        else (Registered, users + [NewUser(newId, c.email.value, hash(c.password.value), now)])
  }

  // ---------------------------------------------------------------------------
  // What a registration does to the collection

  /** A missing or empty field is rejected first, whatever the rest of the request. */
  lemma MissingFieldRejected(users: seq<UserDoc>, c: Credentials, hash: string -> Digest,
                             newId: ObjectId, now: Time)
    requires Falsy(c.email) || Falsy(c.password)
    ensures RegisterStep(users, Some(c), hash, newId, now) == (MissingFields, users)
  {
  }

  /** A short password is rejected before the collection is consulted. */
  lemma ShortPasswordRejected(users: seq<UserDoc>, c: Credentials, hash: string -> Digest,
                              newId: ObjectId, now: Time)
    requires !Falsy(c.email) && !Falsy(c.password) && |c.password.value| < MinPasswordLength
    ensures RegisterStep(users, Some(c), hash, newId, now) == (ShortPassword, users)
  {
  }

  /** A registered email is rejected with 409 once the body passes validation. */
  lemma DuplicateEmailRejected(users: seq<UserDoc>, c: Credentials, hash: string -> Digest,
                               newId: ObjectId, now: Time, i: nat)
    requires Validate(c).None?
    requires i < |users| && users[i].email == c.email.value
    ensures RegisterStep(users, Some(c), hash, newId, now) == (DuplicateEmail, users)
  {
  }

  /** Exactly when registration succeeds, and what it adds. */
  lemma RegisterOutcome(users: seq<UserDoc>, body: Option<Credentials>, hash: string -> Digest,
                        newId: ObjectId, now: Time)
    ensures RegisterStep(users, body, hash, newId, now).0.status == 201 <==>
      && body.Some?
      && Validate(body.value).None?
      && (forall i :: 0 <= i < |users| ==> users[i].email != body.value.email.value)
      && !UserIdTaken(users, newId)
    ensures RegisterStep(users, body, hash, newId, now).0.status == 201 ==>
      RegisterStep(users, body, hash, newId, now).1 ==
        users + [UserDoc(newId, body.value.email.value, hash(body.value.password.value), None, None, now)]
    ensures RegisterStep(users, body, hash, newId, now).0.status != 201 ==>
      RegisterStep(users, body, hash, newId, now).1 == users
  {
  }

  /** Registration keeps emails and ids unique. */
  lemma RegisterKeepsWellFormed(users: seq<UserDoc>, body: Option<Credentials>, hash: string -> Digest,
                                newId: ObjectId, now: Time)
    requires WellFormed(users)
    ensures WellFormed(RegisterStep(users, body, hash, newId, now).1)
  {
    var (reply, after) := RegisterStep(users, body, hash, newId, now);
    if reply.status == 201 {
      var c := body.value;
      assert FindByEmail(users, c.email.value).None?;
      assert !UserIdTaken(users, newId);
      assert after == users + [NewUser(newId, c.email.value, hash(c.password.value), now)];
    }
  }

  /** After a successful registration, registering the same email again conflicts. */
  lemma SecondRegistrationConflicts(users: seq<UserDoc>, first: Credentials, second: Credentials,
                                    hash: string -> Digest, id1: ObjectId, id2: ObjectId,
                                    now1: Time, now2: Time)
    requires RegisterStep(users, Some(first), hash, id1, now1).0.status == 201
    requires Validate(second).None? && second.email == first.email
    ensures var after := RegisterStep(users, Some(first), hash, id1, now1).1;
      RegisterStep(after, Some(second), hash, id2, now2) == (DuplicateEmail, after)
  {
    var after := RegisterStep(users, Some(first), hash, id1, now1).1;
    assert after[|users|].email == second.email.value;
  }

  // ---------------------------------------------------------------------------
  // The handler over the `users` collection

  class UserCollection {
    var users: seq<UserDoc>

    predicate Valid()
      reads this
    {
      WellFormed(users)
    }

    constructor ()
      ensures Valid() && users == []
    {
      users := [];
    }

    /** `POST /api/register` */
    method Post(body: Option<Credentials>, hash: string -> Digest, newId: ObjectId, now: Time)
      returns (reply: Reply)
      requires Valid()
      modifies this
      ensures Valid()
      ensures (reply, users) == RegisterStep(old(users), body, hash, newId, now)
    {
      RegisterKeepsWellFormed(users, body, hash, newId, now);
      if body.None? {
        return InternalError;
      }
      var c := body.value;
      if Falsy(c.email) || Falsy(c.password) {
        return MissingFields;
      }
      if |c.password.value| < MinPasswordLength {
        return ShortPassword;
      }
      var existing := FindByEmail(users, c.email.value);
      if existing.Some? {
        return DuplicateEmail;
      }
      var hashed := hash(c.password.value);
      if UserIdTaken(users, newId) {
        return InternalError;
      }
      users := users + [NewUser(newId, c.email.value, hashed, now)];
      reply := Registered;
    }
  }
}
