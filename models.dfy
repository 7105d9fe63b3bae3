/**
 * The persistence layer of app/models.py: user and project rows, the lookups the
 * routes use, `User.update`, `User.add` and the two-attempt insert of `Project.add`.
 * The relational store is a `Database` object whose fields are the committed tables;
 * SQL commits are steps that can fail on a uniqueness constraint.
 */
module Models {
  import opened Common
  import Keys

  /** A row of the `user` table; `password` holds the password hash. */
  datatype User = User(id: int, email: string, username: string, password: string)

  /** A row of the `project` table together with its `participants` (user ids, in relationship order). */
  datatype Project = Project(
    id: string,
    name: string,
    description: Option<string>,
    ownerId: int,
    participants: seq<int>)

  /** The UNIQUE constraints of the user table: id, email and username. */
  ghost predicate UniqueUsers(users: seq<User>)
  {
    forall i, j :: 0 <= i < j < |users| ==>
      users[i].id != users[j].id && users[i].email != users[j].email && users[i].username != users[j].username
  }

  /** `User.get_by_email`: the first row (in table order) whose email is `email`. */
  function GetByEmail(users: seq<User>, email: string): (r: Option<User>)
    ensures r.None? <==> forall u :: u in users ==> u.email != email
    ensures r.Some? ==> r.value.email == email
    ensures r.Some? ==>
      exists i :: 0 <= i < |users| && users[i] == r.value && forall j :: 0 <= j < i ==> users[j].email != email
  {
    if |users| == 0 then None
    else if users[0].email == email then Some(users[0])
    else
      var r := GetByEmail(users[1..], email);
      assert forall u :: u in users[1..] ==> u in users;
      if r.Some? then
        ghost var i :| 0 <= i < |users[1..]| && users[1..][i] == r.value
          && forall j :: 0 <= j < i ==> users[1..][j].email != email;
        assert users[i + 1] == r.value;
        r
      else r
  }

  /** `User.is_email_available`. */
  function IsEmailAvailable(users: seq<User>, email: string): (b: bool)
    ensures b <==> forall u :: u in users ==> u.email != email
  {
    GetByEmail(users, email).None?
  }

  /** `User.is_username_available`: `filter_by(username=…).first() is None`. */
  function IsUsernameAvailable(users: seq<User>, username: string): (b: bool)
    ensures b <==> forall u :: u in users ==> u.username != username
  {
    |users| == 0 || (users[0].username != username && IsUsernameAvailable(users[1..], username))
  }

  /** The id the store assigns to a new user row: one more than the largest id in use. */
  function NextUserId(users: seq<User>): (id: int)
    ensures id >= 1 && forall u :: u in users ==> u.id < id
  {
    if |users| == 0 then 1
    else
      var rest := NextUserId(users[1..]);
      assert forall u :: u in users ==> u == users[0] || u in users[1..];
      if users[0].id + 1 > rest then users[0].id + 1 else rest
  }

  /**
   * The fields of a user after `User.update(email, username, password)`: an argument
   * given (not `None`) replaces its field, the password by its hash; the id never changes.
   */
  function Updated(u: User, email: Option<string>, username: Option<string>, password: Option<string>,
                   hash: string -> string): (r: User)
    ensures r.id == u.id
    ensures r.email == (if email.Some? then email.value else u.email)
    ensures r.username == (if username.Some? then username.value else u.username)
    ensures r.password == (if password.Some? then hash(password.value) else u.password)
  {
    var r := if email.Some? then u.(email := email.value) else u;
    var r := if username.Some? then r.(username := username.value) else r;
    if password.Some? then r.(password := hash(password.value)) else r
  }

  /** `any([email, username, password])`: `User.update` commits only when this holds. */
  function UpdateCommits(email: Option<string>, username: Option<string>, password: Option<string>): (r: bool)
    ensures r <==> exists a :: a in [email, username, password] && a.Some? && a.value != ""
  {
    Truthy(email) || Truthy(username) || Truthy(password)
  }

  /** The user table once the row with `row.id` is written back: that row takes the new fields. */
  function ReplaceRow(users: seq<User>, row: User): (r: seq<User>)
    ensures |r| == |users|
    ensures forall i :: 0 <= i < |users| && users[i].id != row.id ==> r[i] == users[i]
    ensures forall i :: 0 <= i < |users| && users[i].id == row.id ==> r[i] == row
    decreases |users|
  {
    if |users| == 0 then []
    else [if users[0].id == row.id then row else users[0]] + ReplaceRow(users[1..], row)
  }

  /** Writing `row` back keeps the UNIQUE columns: no row with another id has its email or username. */
  predicate KeepsUnique(users: seq<User>, row: User)
  {
    forall u :: u in users && u.id != row.id ==> u.email != row.email && u.username != row.username
  }

  /**
   * Writing back a row that clashes with no other user keeps the table's constraints, and the
   * row is then stored whenever its id was.
   */
  lemma ReplaceRowKeepsConstraints(users: seq<User>, row: User)
    requires UniqueUsers(users) && KeepsUnique(users, row)
    ensures UniqueUsers(ReplaceRow(users, row))
    ensures (exists u :: u in users && u.id == row.id) ==> row in ReplaceRow(users, row)
  {
    var r := ReplaceRow(users, row);
    forall i, j | 0 <= i < j < |r|
      ensures r[i].id != r[j].id && r[i].email != r[j].email && r[i].username != r[j].username
    {
      if users[i].id == row.id {
        assert users[j] in users;
      } else if users[j].id == row.id {
        assert users[i] in users;
      }
    }
    if exists u :: u in users && u.id == row.id {
      var u :| u in users && u.id == row.id;
      var i :| 0 <= i < |users| && users[i] == u;
      assert r[i] == row;
    }
  }

  /** An update that changes nothing: all arguments omitted. */
  lemma UpdateWithoutArgumentsIsIdentity(u: User, hash: string -> string)
    ensures Updated(u, None, None, None, hash) == u
    ensures !UpdateCommits(None, None, None)
  {
  }

  /** An empty string is assigned to its field, yet does not by itself make `update` commit. */
  lemma EmptyEmailAssignedWithoutCommit(u: User, hash: string -> string)
    ensures Updated(u, Some(""), None, None, hash).email == ""
    ensures !UpdateCommits(Some(""), None, None)
  {
  }

  /** The project row `Project.add` builds before its key is chosen: the owner is its first participant. */
  function Draft(name: string, description: Option<string>, owner: User): (p: Project)
    ensures p.ownerId == owner.id && owner.id in p.participants && |p.participants| == 1
    ensures p.name == name && p.description == description
  {
    var p := Project("", name, description, owner.id, []);
    p.(participants := p.participants + [owner.id])
  }

  /** The insert of `row` into the project table collides exactly when its primary key is already taken. */
  predicate Collides(projects: map<string, Project>, key: string)
  {
    key in projects
  }

  /**
   * The outcome of the two insert attempts of `Project.add`: the result and the project table
   * afterwards. The first attempt uses `key1`; only if it collides is `key2` tried.
   */
  function TwoAttemptInsert(projects: map<string, Project>, draft: Project, key1: string, key2: string)
    : (out: (Option<Project>, map<string, Project>))
    ensures out.0.None? <==> Collides(projects, key1) && Collides(projects, key2)
    ensures out.0.None? ==> out.1 == projects
    ensures out.0.Some? ==>
      var p := out.0.value;
      p == draft.(id := p.id) && !Collides(projects, p.id)
      && (p.id == key1 || p.id == key2) && (!Collides(projects, key1) ==> p.id == key1)
      && out.1 == projects[p.id := p]
  {
    if !Collides(projects, key1) then (Some(draft.(id := key1)), projects[key1 := draft.(id := key1)])
    else if !Collides(projects, key2) then (Some(draft.(id := key2)), projects[key2 := draft.(id := key2)])
    else (None, projects)
  }

  /** A project that `Project.add` created is stored under its own key, with its owner among its participants. */
  lemma {:induction false} CreatedProjectIsStoredWithOwner(projects: map<string, Project>, name: string,
                                                          description: Option<string>, owner: User,
                                                          key1: string, key2: string)
    requires forall k :: k in projects ==> projects[k].id == k
    ensures var out := TwoAttemptInsert(projects, Draft(name, description, owner), key1, key2);
      (forall k :: k in out.1 ==> out.1[k].id == k)
      && (out.0.Some? ==> out.0.value.id in out.1 && out.1[out.0.value.id] == out.0.value
                          && out.0.value.ownerId == owner.id && owner.id in out.0.value.participants)
      && (forall k :: k in projects ==> k in out.1 && out.1[k] == projects[k])
  {
    var out := TwoAttemptInsert(projects, Draft(name, description, owner), key1, key2);
    if out.0.Some? {
      var p := out.0.value;
      assert out.1 == projects[p.id := p];
      assert p.id !in projects;
    }
  }

  /** The in-memory ORM instance of a user, whose fields `User.update` assigns. */
  class UserRecord {
    const id: int
    var email: string
    var username: string
    var password: string

    constructor (row: User)
      ensures Row() == row
    {
      id := row.id;
      email := row.email;
      username := row.username;
      password := row.password;
    }

    /** The row this instance holds. */
    function Row(): User
      reads this
    {
      User(id, email, username, password)
    }

    /**
     * `User.update`: assigns the given fields one by one, then commits iff some argument is truthy.
     * The commit writes the instance's row into the user table; a row that would break a UNIQUE
     * column raises an IntegrityError, and the table is left as it was.
     */
    method Update(email: Option<string>, username: Option<string>, password: Option<string>,
                  hash: string -> string, db: Database)
      modifies this, db`users, db`commits
      ensures Row() == Updated(old(Row()), email, username, password, hash)
      ensures db.commits == old(db.commits) + (if UpdateCommits(email, username, password) then 1 else 0)
      ensures db.users == if UpdateCommits(email, username, password) && KeepsUnique(old(db.users), Row())
                          then ReplaceRow(old(db.users), Row()) else old(db.users)
      ensures old(db.Valid()) ==> db.Valid()
    {
      ghost var target := Updated(Row(), email, username, password, hash);
      if email.Some? {
        this.email := email.value;
      }
      if username.Some? {
        this.username := username.value;
      }
      if password.Some? {
        this.password := hash(password.value);
      }
      assert Row() == target;
      if UpdateCommits(email, username, password) {
        var row := Row();
        if KeepsUnique(db.users, row) {
          if db.Valid() {
            ReplaceRowKeepsConstraints(db.users, row);
          }
          db.users := ReplaceRow(db.users, row);
        }
        db.commits := db.commits + 1;
      }
    }
  }

  /** The committed tables of the relational store and the number of commits issued. */
  class Database {
    var users: seq<User>
    var projects: map<string, Project>
    var commits: nat

    /** The table constraints: unique user columns, projects stored under their own primary key. */
    ghost predicate Valid()
      reads this
    {
      UniqueUsers(users) && forall k :: k in projects ==> projects[k].id == k
    }

    constructor ()
      ensures Valid() && users == [] && projects == map[] && commits == 0
    {
      users := [];
      projects := map[];
      commits := 0;
    }

    /**
     * `User.add`: inserts a row with the hashed password and commits. The source does not catch the
     * IntegrityError a taken email or username raises; the model returns `None` and the insert is lost.
     */
    method AddUser(email: string, username: string, password: string, hash: string -> string)
      returns (r: Option<User>)
      requires Valid()
      modifies this`users, this`commits
      ensures Valid()
      ensures commits == old(commits) + 1
      ensures r.Some? <==> IsEmailAvailable(old(users), email) && IsUsernameAvailable(old(users), username)
      ensures r.Some? ==> r.value == User(NextUserId(old(users)), email, username, hash(password))
                          && users == old(users) + [r.value]
      ensures r.None? ==> users == old(users)
    {
      var user := User(NextUserId(users), email, username, hash(password));
      commits := commits + 1;
      if IsEmailAvailable(users, email) && IsUsernameAvailable(users, username) {
        users := users + [user];
        r := Some(user);
      } else {
        r := None;
      }
    }

    /** One `db.session.commit()` of a pending project: fails, and rolls back, when the key is taken. */
    method CommitProject(row: Project) returns (ok: bool)
      requires Valid()
      modifies this`projects, this`commits
      ensures Valid()
      ensures commits == old(commits) + 1
      ensures ok == !Collides(old(projects), row.id)
      ensures projects == if ok then old(projects)[row.id := row] else old(projects)
    {
      commits := commits + 1;
      ok := row.id !in projects;
      if ok {
        projects := projects[row.id := row];
      }
    }

    /**
     * `Project.add`: the owner becomes a participant; the first commit uses the column default key,
     * a collision rolls back and the second commit uses a fresh key; a second collision gives `None`.
     * `random1` and `random2` are the bytes `uuid4` draws for the two keys.
     */
    method AddProject(name: string, description: Option<string>, owner: User,
                      random1: seq<Keys.Byte>, random2: seq<Keys.Byte>) returns (r: Option<Project>)
      requires Valid()
      requires |random1| == 16 && |random2| == 16
      modifies this`projects, this`commits
      ensures Valid()
      ensures (r, projects) == TwoAttemptInsert(old(projects), Draft(name, description, owner),
                                                Keys.GenerateKey(random1), Keys.GenerateKey(random2))
      ensures commits == old(commits) + (if Collides(old(projects), Keys.GenerateKey(random1)) then 2 else 1)
    {
      var project := Project("", name, description, owner.id, []);
      project := project.(participants := project.participants + [owner.id]);
      // The primary key column's default is evaluated when the row is flushed.
      project := project.(id := Keys.GenerateKey(random1));
      var ok := CommitProject(project);
      if !ok {
        project := project.(id := Keys.GenerateKey(random2));
        ok := CommitProject(project);
        if !ok {
          return None;
        }
      }
      return Some(project);
    }
  }
}
