/**
 * The user registry behind src/controllers/authController.js and the User
 * record of src/models/User.js. Password hashing (bcrypt) and token
 * signing (jwt) are library calls: the hash and the password comparison
 * are function parameters, and an access token is represented by the
 * claims it is signed over.
 */
module AuthController {
  import opened Wrappers
  import opened NoteModel
  import AuthMiddleware

  const UsernameExists: string := "Username already exists"
  const InvalidCredentials: string := "Invalid credentials"

  /** A stored user: its id, its unique username and the hash of its password. */
  datatype User = User(id: UserId, username: string, password: string)

  /**
   * A controller's answer: `Token` is status 200 with `{ accessToken }`,
   * `BadRequest` status 400, `Unauthorized` status 401 and `ServerError`
   * status 500.
   */
  datatype AuthResult =
    | Token(accessToken: AuthMiddleware.Claims)
    | BadRequest(error: string)
    | Unauthorized(error: string)
    | ServerError

  /** No two users share a username, as the unique index on `username` demands. */
  ghost predicate UniqueUsernames(users: seq<User>) {
    forall i, j :: 0 <= i < j < |users| ==> users[i].username != users[j].username
  }

  /** `User.findOne({ username })`: the position of the first user with that name. */
  function Lookup(users: seq<User>, username: string): (r: Option<nat>)
    ensures r.Some? ==> r.value < |users| && users[r.value].username == username
    ensures r.Some? ==> forall j :: 0 <= j < r.value ==> users[j].username != username
    ensures r.None? <==> forall j :: 0 <= j < |users| ==> users[j].username != username
    decreases |users|
  {
    if users == [] then None
    else if users[0].username == username then Some(0)
    else match Lookup(users[1..], username)
      case None => None
      case Some(k) => Some(k + 1)
  }

  /**
   * login: find the user, then compare the password with the stored hash.
   * An unknown username and a wrong password get the same 401 answer; on
   * success the token names that user's id.
   */
  function Login(users: seq<User>, username: string, password: string,
                 compare: (string, string) -> bool, fault: bool): (r: AuthResult)
    ensures r.ServerError? <==> fault
    ensures r.Token? <==>
      && !fault
      && Lookup(users, username).Some?
      && compare(password, users[Lookup(users, username).value].password)
    ensures r.Token? ==> r.accessToken == AuthMiddleware.Claims(users[Lookup(users, username).value].id)
    ensures !fault && !r.Token? ==> r == Unauthorized(InvalidCredentials)
  {
    if fault then ServerError
    else match Lookup(users, username)
      case None => Unauthorized(InvalidCredentials)
      case Some(k) =>
        if !compare(password, users[k].password) then Unauthorized(InvalidCredentials)
        else Token(AuthMiddleware.Claims(users[k].id))
  }

  /** The two causes of a failed login cannot be told apart by their answers. */
  lemma LoginFailuresIndistinguishable(users: seq<User>, unknown: string, known: string, password: string,
                                       wrong: string, compare: (string, string) -> bool)
    requires Lookup(users, unknown).None?
    requires Lookup(users, known).Some? && !compare(wrong, users[Lookup(users, known).value].password)
    ensures Login(users, unknown, password, compare, false) == Login(users, known, wrong, compare, false)
  {
  }

  /** A name not yet taken is found at the end once appended. */
  lemma {:induction false} LookupAppended(users: seq<User>, u: User)
    requires Lookup(users, u.username).None?
    ensures Lookup(users + [u], u.username) == Some(|users|)
    decreases |users|
  {
    if users != [] {
      assert (users + [u])[1..] == users[1..] + [u];
      LookupAppended(users[1..], u);
    }
  }

  /**
   * A user who has just signed up can log in with the same password and
   * receives a token for the same id, provided the password comparison
   * accepts a password against its own hash.
   */
  lemma SignupThenLogin(users: seq<User>, id: UserId, username: string, password: string,
                        hash: string -> string, compare: (string, string) -> bool)
    requires Lookup(users, username).None?
    requires compare(password, hash(password))
    ensures Login(users + [User(id, username, hash(password))], username, password, compare, false)
         == Token(AuthMiddleware.Claims(id))
  {
    LookupAppended(users, User(id, username, hash(password)));
  }

  class UserRegistry {
    var users: seq<User>
    var nextId: UserId

    /** Ids already handed out are below `nextId`, and usernames are unique and non-empty. */
    ghost predicate Valid()
      reads this
    {
      && (forall i :: 0 <= i < |users| ==> users[i].id < nextId && users[i].username != "")
      && UniqueUsernames(users)
    }

    constructor ()
      ensures Valid() && users == []
    {
      users := [];
      nextId := 0;
    }

    /**
     * signup: refuse a taken username with 400; otherwise store the user with
     * the hash of its password (an empty username fails the schema's
     * `required` check inside `save`, hence 500) and answer with a token
     * for the new id.
     */
    method Signup(username: string, password: string, hash: string -> string, fault: bool)
      returns (r: AuthResult)
      requires Valid()
      modifies this
      ensures Valid()
      ensures fault ==> r == ServerError && users == old(users)
      ensures !fault && Lookup(old(users), username).Some? ==>
        r == BadRequest(UsernameExists) && users == old(users)
      ensures !fault && Lookup(old(users), username).None? && username == "" ==>
        r == ServerError && users == old(users)
      ensures !fault && Lookup(old(users), username).None? && username != "" ==>
        && r == Token(AuthMiddleware.Claims(old(nextId)))
        && users == old(users) + [User(old(nextId), username, hash(password))]
    {
      if fault {
        return ServerError;
      }
      var existing := Lookup(users, username);
      if existing.Some? {
        return BadRequest(UsernameExists);
      }
      if username == "" {
        return ServerError;
      }
      var user := User(nextId, username, hash(password));
      LookupAppended(users, user);
      users := users + [user];
      nextId := nextId + 1;
      r := Token(AuthMiddleware.Claims(user.id));
    }
  }
}
