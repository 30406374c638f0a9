/**
 * The user registry and mock authentication (server/routes/auth.ts): the
 * module state `mockUsers`, `mockPasswords` and `nextUserId`, the mock token
 * `token_<id>_<time>` and the handlers login, register, getCurrentUser and
 * createUser.
 */
module Auth {
  import opened Common
  import opened Text
  import opened Lists
  import opened Api

  // ---------------------------------------------------------------- tokens

  /** generateToken: "token_<id>_<milliseconds>", three fields separated by '_'. */
  function GenerateToken(user: User, nowMs: nat): (t: string)
    ensures StartsWith(t, "token_")
    ensures Split(t, '_') == ["token", NatToString(user.id), NatToString(nowMs)]
  {
    var fields := ["token", NatToString(user.id), NatToString(nowMs)];
    assert Join(fields[2..], '_') == NatToString(nowMs);
    assert Join(fields, '_') == "token_" + NatToString(user.id) + "_" + NatToString(nowMs);
    SplitJoin(fields, '_');
    "token_" + NatToString(user.id) + "_" + NatToString(nowMs)
  }

  /** `parseInt(token.split('_')[1])`: None when there is no second field or it is NaN. */
  function TokenUserId(token: string): Option<nat> {
    var fields := Split(token, '_');
    if |fields| < 2 then None else ParseInt(fields[1])
  }

  /** The user id the handlers read from an Authorization header, past its first 7 characters. */
  function HeaderUserId(header: string): Option<nat> {
    TokenUserId(Substring(header, 7))
  }

  /** A token handed out is read back, after "Bearer ", as the id of its user. */
  lemma TokenRoundTrip(user: User, nowMs: nat)
    ensures HeaderUserId("Bearer " + GenerateToken(user, nowMs)) == Some(user.id)
  {
    var t := GenerateToken(user, nowMs);
    assert Substring("Bearer " + t, 7) == t;
    ParseIntOfNat(user.id, "");
    assert NatToString(user.id) + "" == NatToString(user.id);
  }

  // ---------------------------------------------------------------- lookups

  /** `users.findIndex(u => u.id === id)`, None for -1; a NaN id (None) matches nobody. */
  function UserIndex(users: seq<User>, id: Option<nat>): (r: Option<nat>)
    ensures r.Some? ==> r.value < |users| && id == Some(users[r.value].id)
    ensures r.Some? ==> forall j | 0 <= j < r.value :: users[j].id != id.value
    ensures r.None? <==> id.None? || forall i | 0 <= i < |users| :: users[i].id != id.value
  {
    if id.None? then None else FirstIndex(users, (u: User) => u.id == id.value)
  }

  /** `users.find(u => u.id === id)`: the user at UserIndex. */
  function FindUserById(users: seq<User>, id: Option<nat>): (r: Option<User>)
    ensures r.Some? ==> r.value in users && id == Some(r.value.id)
    ensures r.None? <==> id.None? || forall i | 0 <= i < |users| :: users[i].id != id.value
  {
    var k := UserIndex(users, id);
    if k.Some? then Some(users[k.value]) else None
  }

  /** `users.find(u => u.email === email)`. */
  function FindUserByEmail(users: seq<User>, email: string): (r: Option<User>)
    ensures r.Some? ==> r.value in users && r.value.email == email
    ensures r.None? <==> forall i | 0 <= i < |users| :: users[i].email != email
  {
    var k := FirstIndex(users, (u: User) => u.email == email);
    if k.Some? then Some(users[k.value]) else None
  }

  /**
   * The user a request is made by: the header must be present and start with
   * "Bearer ", and its token must name an existing user.
   */
  function Authenticate(users: seq<User>, header: Option<string>): (r: Option<User>)
    ensures r.Some? <==>
      Truthy(header) && StartsWith(header.value, "Bearer ") && FindUserById(users, HeaderUserId(header.value)).Some?
    ensures r.Some? ==> r.value in users && HeaderUserId(header.value) == Some(r.value.id)
  {
    if !Truthy(header) || !StartsWith(header.value, "Bearer ") then None
    else FindUserById(users, HeaderUserId(header.value))
  }

  // ---------------------------------------------------------------- requests and answers

  datatype LoginRequest = LoginRequest(email: Option<string>, password: Option<string>)

  datatype RegisterRequest = RegisterRequest(
    name: Option<string>, email: Option<string>, password: Option<string>, bio: Option<string>)

  datatype CreateUserRequest = CreateUserRequest(
    name: Option<string>, email: Option<string>, password: Option<string>, role: Option<string>,
    bio: Option<string>)

  /** name, email and password, all truthy. */
  predicate HasRegisterFields(req: RegisterRequest) {
    Truthy(req.name) && Truthy(req.email) && Truthy(req.password)
  }

  /** name, email, password and role, all truthy. */
  predicate HasCreateFields(req: CreateUserRequest) {
    Truthy(req.name) && Truthy(req.email) && Truthy(req.password) && Truthy(req.role)
  }

  datatype AuthResponse = AuthResponse(user: User, token: string)

  /** The account register and createUser push: the next id, a placeholder avatar, zero counts. */
  function NewUser(id: nat, name: string, email: string, bio: string, role: string, now: Timestamp): (u: User)
    ensures u.id == id && u.name == name && u.email == email && u.bio == bio && u.role == role
    ensures u.createdAt == now && u.updatedAt == None && u.avatar == "/placeholder.svg"
    ensures u.followers == Some(0) && u.articles == Some(0)
  {
    User(id, name, email, "/placeholder.svg", bio, role, Some(0), Some(0), now, None)
  }

  // ---------------------------------------------------------------- registry invariant

  /**
   * Ids are below the counter and pairwise distinct, emails are pairwise
   * distinct, and every user's email has a password.
   */
  ghost predicate ValidUsers(users: seq<User>, passwords: map<string, string>, nextUserId: nat) {
    && (forall i | 0 <= i < |users| :: users[i].id < nextUserId)
    && (forall i, j | 0 <= i < j < |users| :: users[i].id != users[j].id)
    && (forall i, j | 0 <= i < j < |users| :: users[i].email != users[j].email)
    && (forall i | 0 <= i < |users| :: users[i].email in passwords)
  }

  /** Appending a user with the next id and a new email, and storing its password, keeps the invariant. */
  lemma ValidAppend(users: seq<User>, passwords: map<string, string>, nextUserId: nat, u: User, password: string)
    requires ValidUsers(users, passwords, nextUserId)
    requires u.id == nextUserId && forall i | 0 <= i < |users| :: users[i].email != u.email
    ensures ValidUsers(users + [u], passwords[u.email := password], nextUserId + 1)
  {
    var s := users + [u];
    assert forall i | 0 <= i < |users| :: s[i] == users[i];
  }

  /** With distinct ids, the user found by id is the one that has it. */
  lemma FindUserByIdUnique(users: seq<User>, passwords: map<string, string>, nextUserId: nat, u: User)
    requires ValidUsers(users, passwords, nextUserId) && u in users
    ensures FindUserById(users, Some(u.id)) == Some(u)
  {
    var i :| 0 <= i < |users| && users[i] == u;
    assert UserIndex(users, Some(u.id)).Some?;
  }

  const SeedUsers: seq<User> := [
    User(1, "Admin User", "admin@blogspace.com", "/placeholder.svg", "Platform Administrator", "admin",
         Some(0), Some(0), 20240101000000, None),
    User(2, "Sarah Chen", "sarah@example.com", "/placeholder.svg", "Senior Full Stack Developer", "user",
         Some(1250), Some(45), 20240105000000, None),
    User(3, "Alex Rodriguez", "alex@example.com", "/placeholder.svg", "React Developer", "user",
         Some(890), Some(23), 20240110000000, None) ]

  const SeedPasswords: map<string, string> := map[
    "admin@blogspace.com" := "admin123",
    "sarah@example.com" := "password123",
    "alex@example.com" := "password123"]

  lemma SeedUsersValid()
    ensures ValidUsers(SeedUsers, SeedPasswords, 4)
  {
    var s := SeedUsers;
    assert s[0].email == "admin@blogspace.com" && s[1].email == "sarah@example.com" && s[2].email == "alex@example.com";
    assert s[0].email != s[1].email by { assert s[0].email[0] != s[1].email[0]; }
    assert s[0].email != s[2].email by { assert s[0].email[1] != s[2].email[1]; }
    assert s[1].email != s[2].email by { assert s[1].email[0] != s[2].email[0]; }
  }

  // ---------------------------------------------------------------- the registry

  /** The module state `mockUsers`, `mockPasswords` and `nextUserId`. */
  class UserRegistry {
    var users: seq<User>
    var passwords: map<string, string>
    var nextUserId: nat

    ghost predicate Valid()
      reads this
    {
      ValidUsers(users, passwords, nextUserId)
    }

    constructor ()
      ensures Valid()
      ensures users == SeedUsers && passwords == SeedPasswords && nextUserId == 4
    {
      users := SeedUsers;
      passwords := SeedPasswords;
      nextUserId := 4;
      new;
      SeedUsersValid();
    }

    /** Whether `password` is the one stored for `email`. */
    predicate PasswordMatches(email: string, password: string)
      reads this
    {
      email in passwords && passwords[email] == password
    }

    /**
     * login: 400 without both credentials, 401 for an unknown email or a wrong
     * password, otherwise the user with that email and a fresh token for it.
     */
    function Login(req: LoginRequest, nowMs: nat): (r: Response<AuthResponse>)
      reads this
      ensures r.BadRequest? <==> !Truthy(req.email) || !Truthy(req.password)
      ensures r.Ok? <==>
        && Truthy(req.email) && Truthy(req.password)
        && (exists i | 0 <= i < |users| :: users[i].email == req.email.value)
        && PasswordMatches(req.email.value, req.password.value)
      ensures r.Ok? || r.BadRequest? || r.Unauthorized?
      ensures r.Ok? ==>
        && r.body.user in users && r.body.user.email == req.email.value
        && HeaderUserId("Bearer " + r.body.token) == Some(r.body.user.id)
      ensures r.Ok? ==> r.body.token == GenerateToken(r.body.user, nowMs)
    {
      if !Truthy(req.email) || !Truthy(req.password) then BadRequest
      else
        var user := FindUserByEmail(users, req.email.value);
        if user.None? then Unauthorized
        else if !PasswordMatches(req.email.value, req.password.value) then Unauthorized
        else
          TokenRoundTrip(user.value, nowMs);
          Ok(AuthResponse(user.value, GenerateToken(user.value, nowMs)))
    }

    /** getCurrentUser: the user the header names, or 401. */
    function GetCurrentUser(header: Option<string>): (r: Response<User>)
      reads this
      ensures r.Ok? || r.Unauthorized?
      ensures r.Ok? <==> Authenticate(users, header).Some?
      ensures r.Ok? ==> r.body in users && HeaderUserId(header.value) == Some(r.body.id)
    {
      var user := Authenticate(users, header);
      if user.None? then Unauthorized else Ok(user.value)
    }

    /** The token a successful login hands out makes getCurrentUser answer with that user. */
    lemma LoginThenCurrentUser(req: LoginRequest, nowMs: nat)
      requires Valid() && Login(req, nowMs).Ok?
      ensures GetCurrentUser(Some("Bearer " + Login(req, nowMs).body.token)) == Ok(Login(req, nowMs).body.user)
    {
      var resp := Login(req, nowMs).body;
      var header := "Bearer " + resp.token;
      assert header[..7] == "Bearer ";
      FindUserByIdUnique(users, passwords, nextUserId, resp.user);
    }

    /**
     * register: 400 without name, email and password, 409 for a known email;
     * otherwise a new "user" account appended with the next id, its password
     * stored, and a token for it.
     */
    method Register(req: RegisterRequest, now: Timestamp, nowMs: nat) returns (r: Response<AuthResponse>)
      requires Valid()
      modifies this
      ensures Valid()
      ensures !HasRegisterFields(req) ==> r == BadRequest && unchanged(this)
      ensures HasRegisterFields(req) && FindUserByEmail(old(users), req.email.value).Some? ==>
        r == Conflict && unchanged(this)
      ensures HasRegisterFields(req) && FindUserByEmail(old(users), req.email.value).None? ==>
        var u := NewUser(old(nextUserId), req.name.value, req.email.value,
                         if Truthy(req.bio) then req.bio.value else "New blogger", "user", now);
        && r == Created(AuthResponse(u, GenerateToken(u, nowMs)))
        && users == old(users) + [u]
        && passwords == old(passwords)[req.email.value := req.password.value]
        && nextUserId == old(nextUserId) + 1
    {
      if !HasRegisterFields(req) {
        return BadRequest;
      }
      var existing := FindUserByEmail(users, req.email.value);
      if existing.Some? {
        return Conflict;
      }
      var u := NewUser(nextUserId, req.name.value, req.email.value,
                       if Truthy(req.bio) then req.bio.value else "New blogger", "user", now);
      ValidAppend(users, passwords, nextUserId, u, req.password.value);
      nextUserId := nextUserId + 1;
      users := users + [u];
      passwords := passwords[req.email.value := req.password.value];
      r := Created(AuthResponse(u, GenerateToken(u, nowMs)));
    }

    /** Whether createUser lets the requester through: the token must name an admin. */
    predicate RequesterIsAdmin(header: string)
      reads this
    {
      var requester := FindUserById(users, HeaderUserId(header));
      requester.Some? && requester.value.role == "admin"
    }

    /**
     * createUser, checked in this order: 401 without a header (its "Bearer "
     * prefix is not checked), 403 unless the token names an admin, 400 without
     * name, email, password and role, 409 for a known email; otherwise a new
     * account with the requested role.
     */
    method CreateUser(header: Option<string>, req: CreateUserRequest, now: Timestamp) returns (r: Response<User>)
      requires Valid()
      modifies this
      ensures Valid()
      ensures !Truthy(header) ==> r == Unauthorized && unchanged(this)
      ensures Truthy(header) && !old(RequesterIsAdmin(header.value)) ==> r == Forbidden && unchanged(this)
      ensures Truthy(header) && old(RequesterIsAdmin(header.value)) && !HasCreateFields(req) ==>
        r == BadRequest && unchanged(this)
      ensures Truthy(header) && old(RequesterIsAdmin(header.value)) && HasCreateFields(req) ==>
        if FindUserByEmail(old(users), req.email.value).Some? then r == Conflict && unchanged(this)
        else
          var u := NewUser(old(nextUserId), req.name.value, req.email.value,
                           if Truthy(req.bio) then req.bio.value else "New user", req.role.value, now);
          && r == Created(u)
          && users == old(users) + [u]
          && passwords == old(passwords)[req.email.value := req.password.value]
          && nextUserId == old(nextUserId) + 1
    {
      if !Truthy(header) {
        return Unauthorized;
      }
      if !RequesterIsAdmin(header.value) {
        return Forbidden;
      }
      if !HasCreateFields(req) {
        return BadRequest;
      }
      var existing := FindUserByEmail(users, req.email.value);
      if existing.Some? {
        return Conflict;
      }
      var u := NewUser(nextUserId, req.name.value, req.email.value,
                       if Truthy(req.bio) then req.bio.value else "New user", req.role.value, now);
      ValidAppend(users, passwords, nextUserId, u, req.password.value);
      nextUserId := nextUserId + 1;
      users := users + [u];
      passwords := passwords[req.email.value := req.password.value];
      r := Created(u);
    }
  }
}
