/**
 * The authentication routes of `auth.js`: login by email lookup and an
 * exact comparison with the stored password, and registration that refuses
 * an email already in use. The issued token is modelled as a value that
 * carries only the user id it is signed for.
 */
module Auth {
  import opened Collections
  import opened Tables

  /** The signed token; the secret, the signature and the 24-hour expiry are not modelled. */
  datatype Token = Token(userId: int)

  /** The user as the login response shows it, without the password. */
  datatype PublicUser = PublicUser(id: int, name: string, email: string)

  datatype LoginOutcome =
    | InvalidCredentials   // 401
    | LoggedIn(token: Token, userId: int, user: PublicUser)

  datatype RegisterOutcome =
    | EmailTaken           // 400
    | Registered(userId: int)

  function HasEmail(email: string): UserRow -> bool {
    (u: UserRow) => u.email == email
  }

  /** `SELECT id, name, email, password_hash FROM users WHERE email = ?` */
  function UsersWithEmail(users: seq<UserRow>, email: string): seq<UserRow> {
    Filter(users, HasEmail(email))
  }

  /** `POST /login`: the first user with that email, if the password equals its stored one. */
  function Login(users: seq<UserRow>, email: string, password: string): LoginOutcome {
    var found := UsersWithEmail(users, email);
    if |found| == 0 then InvalidCredentials
    else
      var user := found[0];
      if password != user.passwordHash then InvalidCredentials
      else LoggedIn(Token(user.id), user.id, PublicUser(user.id, user.name, user.email))
  }

  /** No two users share an email. */
  predicate UniqueEmails(users: seq<UserRow>) {
    forall i, j :: 0 <= i < j < |users| ==> users[i].email != users[j].email
  }

  /** Every id is below the next one the table assigns, and no two users share an id. */
  predicate IdsBelow(users: seq<UserRow>, nextId: int) {
    (forall i :: 0 <= i < |users| ==> users[i].id < nextId)
    && (forall i, j :: 0 <= i < j < |users| ==> users[i].id != users[j].id)
  }

  /**
   * Login fails with the same outcome for an unknown email and for a wrong
   * password; it succeeds exactly when the first user with that email has
   * that password, and then the token, the user id and the shown user all
   * name that user.
   */
  lemma LoginFacts(users: seq<UserRow>, email: string, password: string)
    ensures Login(users, email, password).LoggedIn? <==>
      exists i :: 0 <= i < |users| && users[i].email == email && users[i].passwordHash == password &&
        forall k :: 0 <= k < i ==> users[k].email != email
    ensures (forall i :: 0 <= i < |users| ==> users[i].email != email) ==>
      Login(users, email, password) == InvalidCredentials
    ensures Login(users, email, password).LoggedIn? ==>
      var r := Login(users, email, password);
      && r.token == Token(r.userId) && r.user.id == r.userId && r.user.email == email
      && exists u :: u in users && u.id == r.userId && u.email == email && u.passwordHash == password
  {
    FirstWithEmail(users, email);
  }

  /** The first user with the email comes first in the lookup. */
  lemma {:induction false} FirstWithEmail(users: seq<UserRow>, email: string)
    ensures |UsersWithEmail(users, email)| == 0 <==> forall i :: 0 <= i < |users| ==> users[i].email != email
    ensures |UsersWithEmail(users, email)| > 0 ==>
      exists i :: 0 <= i < |users| && users[i] == UsersWithEmail(users, email)[0] && users[i].email == email &&
        forall k :: 0 <= k < i ==> users[k].email != email
  {
    if users != [] {
      FirstWithEmail(users[1..], email);
      if users[0].email != email && |UsersWithEmail(users, email)| > 0 {
        var i :| 0 <= i < |users[1..]| && users[1..][i] == UsersWithEmail(users, email)[0] &&
          users[1..][i].email == email && forall k :: 0 <= k < i ==> users[1..][k].email != email;
        assert users[i + 1] == users[1..][i];
        forall k | 0 <= k < i + 1 ensures users[k].email != email {
          if k > 0 {
            assert users[k] == users[1..][k - 1];
          }
        }
      }
    }
  }

  /**
   * While emails are unique, which registration keeps, login succeeds exactly
   * when some user has both that email and that password.
   */
  lemma LoginWithUniqueEmails(users: seq<UserRow>, email: string, password: string)
    requires UniqueEmails(users)
    ensures Login(users, email, password).LoggedIn? <==>
      exists u :: u in users && u.email == email && u.passwordHash == password
  {
    LoginFacts(users, email, password);
    if u :| u in users && u.email == email && u.passwordHash == password {
      var i :| 0 <= i < |users| && users[i] == u;
      assert forall k :: 0 <= k < i ==> users[k].email != email;
    }
  }

  /** `POST /register`: the outcome for a table of users. */
  function RegisterOutcomeOf(users: seq<UserRow>, nextId: int, email: string): RegisterOutcome {
    if |UsersWithEmail(users, email)| > 0 then EmailTaken else Registered(nextId)
  }

  /** The table after registering: one row appended unless the email is taken. */
  function AfterRegister(users: seq<UserRow>, nextId: int, name: string, email: string, password: string)
    : seq<UserRow>
  {
    if |UsersWithEmail(users, email)| > 0 then users else users + [UserRow(nextId, name, email, password)]
  }

  /**
   * Registering an email in use changes nothing; otherwise exactly one user
   * is added, with the given name, email and password and the returned id.
   * Unique emails and ids stay unique.
   */
  lemma RegisterFacts(users: seq<UserRow>, nextId: int, name: string, email: string, password: string)
    requires UniqueEmails(users) && IdsBelow(users, nextId)
    ensures RegisterOutcomeOf(users, nextId, email) == EmailTaken <==> exists u :: u in users && u.email == email
    ensures RegisterOutcomeOf(users, nextId, email) == EmailTaken ==>
      AfterRegister(users, nextId, name, email, password) == users
    ensures RegisterOutcomeOf(users, nextId, email) == Registered(nextId) ==>
      AfterRegister(users, nextId, name, email, password) == users + [UserRow(nextId, name, email, password)]
    ensures UniqueEmails(AfterRegister(users, nextId, name, email, password))
    ensures IdsBelow(AfterRegister(users, nextId, name, email, password), nextId + 1)
  {
    FirstWithEmail(users, email);
  }

  /** After a successful registration, logging in with the same email and password succeeds as that user. */
  lemma LoginAfterRegister(users: seq<UserRow>, nextId: int, name: string, email: string, password: string)
    requires RegisterOutcomeOf(users, nextId, email) == Registered(nextId)
    ensures Login(AfterRegister(users, nextId, name, email, password), email, password)
      == LoggedIn(Token(nextId), nextId, PublicUser(nextId, name, email))
  {
    var u := UserRow(nextId, name, email, password);
    FilterConcat(users, [u], HasEmail(email));
  }

  /** The `users` table with its auto-increment counter. */
  class UserTable {
    var users: seq<UserRow>
    var nextId: int

    ghost predicate Valid()
      reads this
    {
      UniqueEmails(users) && IdsBelow(users, nextId)
    }

    constructor()
      ensures users == [] && Valid()
    {
      users := [];
      nextId := 1;
    }

    /** `POST /login` */
    function LoginWith(email: string, password: string): LoginOutcome
      reads this
    {
      Login(users, email, password)
    }

    /** `POST /register` */
    method Register(name: string, email: string, password: string) returns (r: RegisterOutcome)
      requires Valid()
      modifies this
      ensures Valid()
      ensures r == RegisterOutcomeOf(old(users), old(nextId), email)
      ensures users == AfterRegister(old(users), old(nextId), name, email, password)
      ensures nextId == if r.Registered? then old(nextId) + 1 else old(nextId)
    {
      RegisterFacts(users, nextId, name, email, password);
      var existing := UsersWithEmail(users, email);
      if |existing| > 0 {
        r := EmailTaken;
      } else {
        r := Registered(nextId);
        users := users + [UserRow(nextId, name, email, password)];
        nextId := nextId + 1;
      }
    }
  }
}
