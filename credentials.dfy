/** The process-wide user list of server.js with the register and login handlers. The password
    hash and the token library stand outside the model: `Hash` is an idealised salted hash and
    `Matches` its comparison, and a token records only the username it is issued for. */
module Credentials {
  import opened Find

  /** A stored password hash: the salt drawn at registration and what was hashed. No member
      of the model reads the password back except `Matches`. */
  datatype PasswordHash = PasswordHash(salt: nat, secret: string)

  /** Hashing `password` with `salt`. */
  function Hash(password: string, salt: nat): PasswordHash {
    PasswordHash(salt, password)
  }

  /** Whether `password` is the one `h` was computed from, whatever the salt. */
  predicate Matches(password: string, h: PasswordHash) {
    h.secret == password
  }

  /** An issued login token; signing and expiry are not modelled. */
  datatype Token = Token(username: string)

  datatype User = User(username: string, password: PasswordHash)

  /** The key `register` and `login` look a user up by. */
  function NameOf(u: User): string {
    u.username
  }

  datatype RegisterResult = RegisterMissingFields | UsernameTaken | Registered(username: string)
  {
    /** The HTTP status the handler sends. */
    function StatusCode(): int {
      match this
      case RegisterMissingFields => 400
      case UsernameTaken => 400
      case Registered(_) => 201
    }
  }

  datatype LoginResult = LoginMissingFields | InvalidCredentials | LoggedIn(token: Token, username: string)
  {
    /** The HTTP status the handler sends. */
    function StatusCode(): int {
      match this
      case LoginMissingFields => 400
      case InvalidCredentials => 401
      case LoggedIn(_, _) => 200
    }
  }


  /** POST /register with body fields `username` and `password` (empty when absent); `salt` is
      the randomness the hash draws. */
  function RegisterUser(users: seq<User>, username: string, password: string, salt: nat)
    : (r: (RegisterResult, seq<User>))
    ensures r.0 == RegisterMissingFields <==> username == "" || password == ""
    ensures r.0 == UsernameTaken <==> username != "" && password != "" && username in Keys(users, NameOf)
    ensures !r.0.Registered? ==> r.1 == users
    ensures r.0.Registered? ==>
      r.0.username == username && |r.1| == |users| + 1 && r.1[..|users|] == users &&
      r.1[|users|].username == username && Matches(password, r.1[|users|].password)
  {
    if username == "" || password == "" then (RegisterMissingFields, users)
    else if IndexOf(Keys(users, NameOf), username) != -1 then (UsernameTaken, users)
    else (Registered(username), users + [User(username, Hash(password, salt))])
  }

  /** POST /login: the first user with the name, and then the password check. */
  function Authenticate(users: seq<User>, username: string, password: string): (r: LoginResult)
    ensures r == LoginMissingFields <==> username == "" || password == ""
    ensures r.StatusCode() == 400 <==> username == "" || password == ""
    ensures username != "" && password != "" && username !in Keys(users, NameOf) ==> r == InvalidCredentials
    ensures r.LoggedIn? ==> r == LoggedIn(Token(username), username) && username in Keys(users, NameOf)
  {
    if username == "" || password == "" then LoginMissingFields
    else
      var i := IndexOf(Keys(users, NameOf), username);
      if i == -1 then InvalidCredentials
      else if !Matches(password, users[i].password) then InvalidCredentials
      else LoggedIn(Token(users[i].username), username)
  }

  /** Registration keeps the usernames pairwise distinct. */
  lemma RegisterKeepsNamesDistinct(users: seq<User>, username: string, password: string, salt: nat)
    requires Distinct(Keys(users, NameOf))
    ensures Distinct(Keys(RegisterUser(users, username, password, salt).1, NameOf))
  {
  }

  /** Login fails with one and the same answer whether the name is unknown or the password is
      wrong, and issues a token only when a user with that name has that password. With distinct
      names this is exactly "some registered user has this name and password". */
  lemma LoginSucceedsIff(users: seq<User>, username: string, password: string)
    requires Distinct(Keys(users, NameOf))
    ensures username != "" && password != "" ==>
      (Authenticate(users, username, password).LoggedIn? || Authenticate(users, username, password) == InvalidCredentials)
    ensures Authenticate(users, username, password).LoggedIn? <==>
      username != "" && password != "" &&
      exists i :: 0 <= i < |users| && users[i].username == username && Matches(password, users[i].password)
    ensures Authenticate(users, username, password).LoggedIn? ==>
      Authenticate(users, username, password) == LoggedIn(Token(username), username)
  {
  }

  /** A user who has just registered can log in with that password, and with no other. */
  lemma RegisteredUserCanLogIn(users: seq<User>, username: string, password: string, salt: nat, other: string)
    requires RegisterUser(users, username, password, salt).0.Registered?
    requires other != password
    ensures
      var after := RegisterUser(users, username, password, salt).1;
      Authenticate(after, username, password) == LoggedIn(Token(username), username) &&
      (other != "" ==> Authenticate(after, username, other) == InvalidCredentials)
  {
  }

  /** Registering a new user leaves every other user's login answer as it was. */
  lemma RegisterPreservesOtherLogins(users: seq<User>, username: string, password: string, salt: nat,
                                     name: string, attempt: string)
    requires name != username
    ensures Authenticate(RegisterUser(users, username, password, salt).1, name, attempt) == Authenticate(users, name, attempt)
  {
  }

  /** The module-level `users` list. */
  class CredentialStore {
    var users: seq<User>

    /** Usernames are pairwise distinct. */
    ghost predicate Valid()
      reads this
    {
      Distinct(Keys(users, NameOf))
    }

    constructor ()
      ensures users == [] && Valid()
    {
      users := [];
    }

    /** POST /register. */
    method Register(username: string, password: string, salt: nat) returns (r: RegisterResult)
      requires Valid()
      modifies this
      ensures Valid()
      ensures (r, users) == RegisterUser(old(users), username, password, salt)
    {
      if username == "" || password == "" {
        return RegisterMissingFields;
      }
      var i := FindIndex(Keys(users, NameOf), username);
      if i != -1 {
        return UsernameTaken;
      }
      RegisterKeepsNamesDistinct(users, username, password, salt);
      users := users + [User(username, Hash(password, salt))];
      r := Registered(username);
    }

    /** POST /login. */
    method Login(username: string, password: string) returns (r: LoginResult)
      ensures r == Authenticate(users, username, password)
      ensures r.LoggedIn? ==> r.token == Token(username) && r.username == username
    {
      if username == "" || password == "" {
        return LoginMissingFields;
      }
      var i := FindIndex(Keys(users, NameOf), username);
      if i == -1 {
        return InvalidCredentials;
      }
      if !Matches(password, users[i].password) {
        return InvalidCredentials;
      }
      r := LoggedIn(Token(users[i].username), username);
    }
  }
}
