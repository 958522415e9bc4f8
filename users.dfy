/**
 * The users table and the lookups the server makes on it: by id for the
 * `User-ID` gate, by email for login, by email or username before registering.
 */
module Users {
  import opened Outcomes
  import opened Validation

  /** A row of the users table; `passwordHash` is the bcrypt hash, never sent back. */
  datatype User = User(id: int, username: string, email: string, passwordHash: string)

  /** What the server sends about a user: no password field exists in it. */
  datatype PublicUser = PublicUser(id: int, username: string, email: string)

  function Public(u: User): PublicUser
  {
    PublicUser(u.id, u.username, u.email)
  }

  /** `!x` is false for a JSON string field: it is present and not empty. */
  predicate Present(x: Option<string>)
  {
    x.Some? && x.value != []
  }

  /**
   * The table's invariant: AUTOINCREMENT ids from 1, increasing in insertion
   * order and below `nextId`; usernames and emails each unique (the UNIQUE columns).
   */
  predicate UsersValid(users: seq<User>, nextId: int)
  {
    && 1 <= nextId
    && (forall i :: 0 <= i < |users| ==> 1 <= users[i].id < nextId)
    && (forall i, j :: 0 <= i < j < |users| ==>
          users[i].id < users[j].id && users[i].username != users[j].username && users[i].email != users[j].email)
  }

  /** The ids of the registered users. */
  function UserIds(users: seq<User>): set<int>
  {
    set u | u in users :: u.id
  }

  /** `SELECT ... FROM users WHERE id = ?` */
  function FindById(users: seq<User>, id: int): (r: Option<User>)
    ensures r.Some? <==> id in UserIds(users)
    ensures r.Some? ==> r.value in users && r.value.id == id
  {
    if users == [] then None
    else if users[0].id == id then Some(users[0])
    else
      var r := FindById(users[1..], id);
      assert UserIds(users) == {users[0].id} + UserIds(users[1..]);
      r
  }

  /** `SELECT ... FROM users WHERE email = ?` */
  function FindByEmail(users: seq<User>, email: string): (r: Option<User>)
    ensures r.Some? <==> exists u :: u in users && u.email == email
    ensures r.Some? ==> r.value in users && r.value.email == email
  {
    if users == [] then None
    else if users[0].email == email then Some(users[0])
    else
      var r := FindByEmail(users[1..], email);
      assert forall u :: u in users <==> u == users[0] || u in users[1..];
      r
  }

  /** `SELECT id FROM users WHERE email = ? OR username = ?` returns a row. */
  function Clash(users: seq<User>, email: string, username: string): (taken: bool)
    ensures taken <==> exists u :: u in users && (u.email == email || u.username == username)
  {
    if users == [] then false
    else if users[0].email == email || users[0].username == username then true
    else
      var taken := Clash(users[1..], email, username);
      assert forall u :: u in users <==> u == users[0] || u in users[1..];
      taken
  }

  /**
   * The `validateUser` middleware: a missing header is refused, then the
   * header must name a registered user; the request goes on as that user.
   */
  function Gate(users: seq<User>, header: IdText): (r: Result<PublicUser>)
    ensures header.Blank? ==> r == Err(UserIdRequired)
    ensures r.Ok? <==> header.Key? && header.n in UserIds(users)
    ensures r.Err? ==> r.failure in {UserIdRequired, InvalidUser}
    ensures !header.Blank? && r.Err? ==> r == Err(InvalidUser)
    ensures r.Ok? ==> r.value.id == header.n && exists u :: u in users && r.value == Public(u)
  {
    if header.Blank? then Err(UserIdRequired)
    else if !header.Key? then Err(InvalidUser)
    else
      match FindById(users, header.n)
      case None => Err(InvalidUser)
      case Some(u) => Ok(Public(u))
  }

  /** In a table with unique emails, the user found by email is the only one with it. */
  lemma FindByEmailUnique(users: seq<User>, nextId: int, u: User)
    requires UsersValid(users, nextId)
    requires u in users
    ensures FindByEmail(users, u.email) == Some(u)
  {
    var r := FindByEmail(users, u.email);
    var i :| 0 <= i < |users| && users[i] == r.value;
    var j :| 0 <= j < |users| && users[j] == u;
    if i < j {
      assert users[i].email != users[j].email;
    } else if j < i {
      assert users[j].email != users[i].email;
    }
  }
}
