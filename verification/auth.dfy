/**
 * Account handlers of `src/auth/authController.js`: `signup` and `login` as
 * transitions of the user table. Hashing, hash comparison and token signing
 * belong to bcrypt and jsonwebtoken and enter as the oracles of `Crypto`.
 */
module Auth {
  import opened Js
  import opened Tables
  import opened Schema

  /**
   * `hash` is bcrypt's hash (its salt folded into the oracle), `compare` is
   * bcrypt's check of a plain password against a stored hash, and `sign`
   * issues the one-day token for a user id under the server's secret.
   */
  datatype Crypto = Crypto(hash: string -> string, compare: (string, string) -> bool, sign: Id -> string)

  /** The one promise of bcrypt the model relies on: a password matches its own hash. */
  ghost predicate HashSound(crypto: Crypto) {
    forall p :: crypto.compare(p, crypto.hash(p))
  }

  /** Some stored user has this email. */
  ghost predicate EmailTaken(users: Table<User>, email: string) {
    exists k :: k in users.rows && users.rows[k].email == email
  }

  /** `prisma.user.findUnique({ where: { email } })`. */
  function FindByEmail(users: Table<User>, email: string): (r: Option<Id>)
    requires Tables.Valid(users)
    ensures r.Some? ==> r.value in users.rows && users.rows[r.value].email == email
    ensures r.None? <==> !EmailTaken(users, email)
  {
    FindFirst(users, (u: User) => u.email == email)
  }

  datatype SignupInput = SignupInput(name: Option<string>, email: Option<string>, password: Option<string>)

  /** The three fields `signup` insists on are all truthy. */
  predicate SignupComplete(input: SignupInput) {
    Truthy(input.name) && Truthy(input.email) && Truthy(input.password)
  }

  /** The row a successful signup stores: hashed password, already verified. */
  function NewUser(input: SignupInput, crypto: Crypto): User
    requires SignupComplete(input)
  {
    User(input.name.value, input.email.value, crypto.hash(input.password.value), true)
  }

  /**
   * `signup`: 400 when a field is missing, 400 when the email is taken, and
   * otherwise 201 with exactly one new user; only the user table changes.
   */
  function Signup(db: Db, input: SignupInput, crypto: Crypto): (r: Reply<(Id, User)>)
    requires Consistent(db)
    ensures Consistent(r.db)
    ensures r.db == db.(users := r.db.users)
    ensures !SignupComplete(input) ==> r == Reply(db, 400, "All fields are required", None)
    ensures SignupComplete(input) && EmailTaken(db.users, input.email.value) ==>
              r == Reply(db, 400, "Email already exists", None)
    ensures r.status == 201 <==> SignupComplete(input) && !EmailTaken(db.users, input.email.value)
    ensures r.status == 201 ==>
              && r.message == "Signup successful"
              && r.body.Some?
              && r.body.value.0 !in db.users.rows
              && r.db.users.rows.Keys == db.users.rows.Keys + {r.body.value.0}
              && r.body.value.1 == r.db.users.rows[r.body.value.0]
              && r.body.value.1.name == input.name.value
              && r.body.value.1.email == input.email.value
              && r.body.value.1.password == crypto.hash(input.password.value)
              && r.body.value.1.isVerified
              && (forall k :: k in db.users.rows ==> r.db.users.rows[k] == db.users.rows[k])
  {
    if !SignupComplete(input) then Reply(db, 400, "All fields are required", None)
    else if FindByEmail(db.users, input.email.value).Some? then Reply(db, 400, "Email already exists", None)
    else
      var user := NewUser(input, crypto);
      var (users, id) := Insert(db.users, user);
      Reply(db.(users := users), 201, "Signup successful", Some((id, user)))
  }

  /** What a successful login returns: the token and the stored user row. */
  datatype Session = Session(token: string, id: Id, user: User)

  /**
   * `login`: 400 when a field is missing, 404 for an unknown email, 401 when
   * the password does not match the stored hash, and otherwise 200 with a
   * token signed over that user's id. It never changes the store.
   */
  function Login(db: Db, email: Option<string>, password: Option<string>, crypto: Crypto): (r: Reply<Session>)
    requires Consistent(db)
    ensures r.db == db
    ensures !Truthy(email) || !Truthy(password) ==> r.status == 400 && r.message == "All fields are required"
    ensures Truthy(email) && Truthy(password) && !EmailTaken(db.users, email.value) ==>
              r.status == 404 && r.message == "User not found"
    ensures Truthy(email) && Truthy(password) ==>
              forall k :: k in db.users.rows && db.users.rows[k].email == email.value ==>
                if crypto.compare(password.value, db.users.rows[k].password)
                then r.status == 200 && r.body == Some(Session(crypto.sign(k), k, db.users.rows[k]))
                else r.status == 401 && r.message == "Invalid credentials"
    ensures r.status == 200 ==> r.message == "Login successful" && r.body.Some?
    ensures r.status != 200 ==> r.body.None?
  {
    if !Truthy(email) || !Truthy(password) then Reply(db, 400, "All fields are required", None)
    else match FindByEmail(db.users, email.value)
      case None => Reply(db, 404, "User not found", None)
      case Some(id) =>
        var user := db.users.rows[id];
        if !crypto.compare(password.value, user.password) then Reply(db, 401, "Invalid credentials", None)
        else Reply(db, 200, "Login successful", Some(Session(crypto.sign(id), id, user)))
  }

  /** After a successful signup, logging in with the same credentials succeeds for the new user. */
  lemma SignupThenLogin(db: Db, input: SignupInput, crypto: Crypto)
    requires Consistent(db) && HashSound(crypto)
    requires Signup(db, input, crypto).status == 201
    ensures var s := Signup(db, input, crypto);
            var l := Login(s.db, input.email, input.password, crypto);
            l.status == 200 && l.body == Some(Session(crypto.sign(s.body.value.0), s.body.value.0, s.body.value.1))
  {
    var s := Signup(db, input, crypto);
    var id := s.body.value.0;
    assert crypto.compare(input.password.value, crypto.hash(input.password.value));
    assert s.db.users.rows[id].email == input.email.value;
  }

  /** Once an email is registered, every further signup with it is refused. */
  lemma SignupEmailOnce(db: Db, first: SignupInput, second: SignupInput, crypto: Crypto)
    requires Consistent(db)
    requires Signup(db, first, crypto).status == 201
    requires SignupComplete(second) && second.email == first.email
    ensures var s := Signup(db, first, crypto);
            Signup(s.db, second, crypto) == Reply(s.db, 400, "Email already exists", None)
  {
    var s := Signup(db, first, crypto);
    assert s.db.users.rows[s.body.value.0].email == second.email.value;
  }
}
