/** POST /api/admin/register, /login and /logout. These routes are not behind
    the token guard. */
module AuthRoutes {
  import opened Seqs
  import opened Services
  import opened Tables
  import opened Http
  import opened Store

  const CredentialsRequired := "Email and password are required."
  const UserExists := "User already exists with this email."
  const Registered := "User registered successfully."
  const InvalidCredentials := "Invalid credentials."
  const LoggedIn := "Logged in successfully."
  const LoggedOut := "Logged out successfully. Please clear your token client-side."

  /** The public fields `{ id, email }` of an account: both the token payload
      and the `user` of the response. */
  function PublicUser(u: AdminUser): (c: Claims)
    ensures c.id == u.id && c.email == u.email
  {
    Claims(u.id, u.email)
  }

  /** The public form leaves the password hash out: two accounts that differ
      only in their hash look the same in tokens and responses. */
  lemma PublicUserOmitsHash(u: AdminUser, hash: string)
    ensures PublicUser(u.(passwordHash := hash)) == PublicUser(u)
  {}

  /** The session body register and login both send. */
  function SessionBody(message: string, u: AdminUser, crypto: Crypto): Body {
    Session(message, crypto.sign(PublicUser(u)), PublicUser(u))
  }

  /** `POST /register`: 400 unless both fields are non-empty, 409 when the
      email is taken, otherwise one new AdminUsers row holding
      `bcrypt.hash(password, salt)` — never the password — and 201 with the
      token and `{ id, email }`. `salt` is the value `bcrypt.genSalt(10)`
      produced. */
  method Register(db: Db, email: string, password: string, salt: string, crypto: Crypto)
    returns (r: Response)
    requires db.Valid()
    modifies db
    ensures db.Valid()
    ensures email == "" || password == "" ==>
              r == Response(BadRequest, Message(CredentialsRequired)) && unchanged(db)
    ensures email != "" && password != "" && Filter(old(db.users), WithEmail(email)) != [] ==>
              r == Response(Conflict, Message(UserExists)) && unchanged(db)
    ensures email != "" && password != "" && Filter(old(db.users), WithEmail(email)) == [] ==>
              var u := AdminUser(old(db.nextUserId), email, crypto.hash(password, salt));
              && db.users == old(db.users) + [u]
              && db.nextUserId == old(db.nextUserId) + 1
              && r == Response(Created, SessionBody(Registered, u, crypto))
              && db.exhibitions == old(db.exhibitions) && db.stations == old(db.stations)
              && db.nextExhibitionId == old(db.nextExhibitionId)
              && db.nextStationId == old(db.nextStationId) && db.clock == old(db.clock)
  {
    if email == "" || password == "" {
      return Response(BadRequest, Message(CredentialsRequired));
    }
    var existing := Filter(db.users, WithEmail(email));
    if existing != [] {
      return Response(Conflict, Message(UserExists));
    }
    var u := AdminUser(db.nextUserId, email, crypto.hash(password, salt));
    forall i | 0 <= i < |db.users| ensures db.users[i].email != email {
      assert db.users[i] in db.users && db.users[i] !in existing;
    }
    AppendIncreasing(db.users, u, UserId);
    db.users := db.users + [u];
    db.nextUserId := db.nextUserId + 1;
    r := Response(Created, SessionBody(Registered, u, crypto));
  }

  /** `POST /login`: looks the email up and compares the password with the
      stored hash; never changes the store. */
  function Login(users: seq<AdminUser>, email: string, password: string, crypto: Crypto): (r: Response)
    ensures email == "" || password == "" ==> r == Response(BadRequest, Message(CredentialsRequired))
    ensures r.status == BadRequest <==> email == "" || password == ""
    ensures r.status == Ok <==>
              && email != "" && password != "" && Filter(users, WithEmail(email)) != []
              && crypto.compare(password, Filter(users, WithEmail(email))[0].passwordHash)
    ensures r.status == Unauthorized <==>
              && email != "" && password != ""
              && (Filter(users, WithEmail(email)) == []
                  || !crypto.compare(password, Filter(users, WithEmail(email))[0].passwordHash))
    ensures r.status == Unauthorized ==> r == Response(Unauthorized, Message(InvalidCredentials))
    ensures r.status == Ok ==>
              exists u :: u in users && u.email == email && crypto.compare(password, u.passwordHash)
                          && r == Response(Ok, SessionBody(LoggedIn, u, crypto))
    ensures r.status in {Ok, BadRequest, Unauthorized}
  {
    if email == "" || password == "" then Response(BadRequest, Message(CredentialsRequired))
    else
      var rows := Filter(users, WithEmail(email));
      if rows == [] then Response(Unauthorized, Message(InvalidCredentials))
      else if !crypto.compare(password, rows[0].passwordHash) then
        Response(Unauthorized, Message(InvalidCredentials))
      else
        assert rows[0] in rows;
        Response(Ok, SessionBody(LoggedIn, rows[0], crypto))
  }

  /** A login with an unknown email and one with a known email but the wrong
      password get the very same response. */
  lemma LoginFailuresIndistinguishable(
      users: seq<AdminUser>, crypto: Crypto,
      unknownEmail: string, anyPassword: string, knownEmail: string, wrongPassword: string)
    requires unknownEmail != "" && anyPassword != "" && knownEmail != "" && wrongPassword != ""
    requires forall u :: u in users ==> u.email != unknownEmail
    requires forall u :: u in users && u.email == knownEmail ==> !crypto.compare(wrongPassword, u.passwordHash)
    ensures Login(users, unknownEmail, anyPassword, crypto)
         == Login(users, knownEmail, wrongPassword, crypto)
         == Response(Unauthorized, Message(InvalidCredentials))
  {
    var rows := Filter(users, WithEmail(knownEmail));
    assert rows != [] ==> rows[0] in rows;
  }

  /** With unique emails, the account a lookup finds is the one with that email. */
  lemma {:induction false} LookupFindsAccount(users: seq<AdminUser>, nextId: nat, k: nat)
    requires UsersWellFormed(users, nextId)
    requires k < |users|
    ensures Filter(users, WithEmail(users[k].email)) == [users[k]]
    decreases |users|
  {
    var p := WithEmail(users[k].email);
    if k == 0 {
      forall x | x in users[1..] ensures !p(x) {
        var m := InIndex(users[1..], x);
        assert users[m + 1] == x;
      }
      FilterNone(users[1..], p);
    } else {
      assert users[0].email != users[k].email;
      var tail := users[1..];
      assert UsersWellFormed(tail, nextId) by {
        forall i, j | 0 <= i < j < |tail|
          ensures UserId(tail[i]) < UserId(tail[j]) && tail[i].email != tail[j].email
        {
          assert tail[i] == users[i + 1] && tail[j] == users[j + 1];
        }
      }
      assert tail[k - 1] == users[k];
      LookupFindsAccount(tail, nextId, k - 1);
    }
  }

  /** Registering and then logging in with the same email and password
      succeeds for the new account, with the same payload register's token
      carries. */
  lemma RegisterThenLogin(
      users: seq<AdminUser>, id: nat, email: string, password: string, salt: string, crypto: Crypto)
    requires HashSound(crypto)
    requires email != "" && password != ""
    requires Filter(users, WithEmail(email)) == []
    ensures var u := AdminUser(id, email, crypto.hash(password, salt));
            Login(users + [u], email, password, crypto) == Response(Ok, SessionBody(LoggedIn, u, crypto))
  {
    var u := AdminUser(id, email, crypto.hash(password, salt));
    FilterAppend(users, u, WithEmail(email));
    assert Filter(users + [u], WithEmail(email)) == [u];
  }

  /** A token issued at registration or login passes the guard as `{ id, email }`
      of that account. */
  lemma SessionTokenVerifies(message: string, u: AdminUser, crypto: Crypto)
    requires TokensSound(crypto)
    ensures crypto.verify(SessionBody(message, u, crypto).token) == Some(Claims(u.id, u.email))
  {}

  /** `POST /logout`: a fixed acknowledgement; no input, no state. */
  function Logout(): (r: Response)
    ensures r.status == Ok && r.body == Message(LoggedOut)
  {
    Response(Ok, Message(LoggedOut))
  }
}
