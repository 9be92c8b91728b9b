/**
 * The users table and the single-row operations of backend/models/User.js:
 * `create`, `findByEmail`, `findById`, `update`, `delete`, `setBanStatus`
 * and the admin seed `createAdminUser`. The table is a map from id to row;
 * the database's unique keys on username and email, its auto-increment id
 * and its column defaults are the invariant `Valid()` and the bodies below.
 */
module UserStore {
  import opened Wrappers
  import opened JsString
  import opened Sql
  import opened Users
  import UserQueries

  const AdminUsername := "admin"
  const AdminEmail := "admin@example.com"

  /** What the database throws back to the model's callers. */
  datatype StoreError =
    | NotFound       // findById: 'User not found'
    | Duplicate      // a unique key (username or email) would be repeated
    | InvalidValue   // a value its column cannot hold (MySQL strict mode)
    | UnknownColumn  // an update key outside the writable columns
    | SyntaxError    // an update with no entries: `SET  WHERE id = ?`

  /** No two rows share a username or an email. */
  ghost predicate UniqueKeys(rows: map<int, UserRecord>) {
    forall i, j :: i in rows && j in rows && i != j ==>
      rows[i].username != rows[j].username && rows[i].email != rows[j].email
  }

  /** Every row sits under its own id, below the next auto-increment value, and the unique keys hold. */
  ghost predicate WellFormed(rows: map<int, UserRecord>, nextId: int) {
    && 0 < nextId
    && (forall id :: id in rows ==> 0 < id < nextId && rows[id].id == id)
    && UniqueKeys(rows)
  }

  /** Some row other than `except` already has this username or this email. */
  predicate KeyTaken(rows: map<int, UserRecord>, username: string, email: string, except: int) {
    exists id :: id in rows && id != except && (rows[id].username == username || rows[id].email == email)
  }

  /** Ids of the rows whose email is `email`. */
  function Holders(rows: map<int, UserRecord>, email: string): set<int> {
    set id | id in rows && rows[id].email == email
  }

  /** Unique emails: a row with this email is the only one. */
  lemma SoleHolder(rows: map<int, UserRecord>, email: string, id: int)
    requires UniqueKeys(rows)
    requires id in rows && rows[id].email == email
    ensures Holders(rows, email) == {id}
  {
    forall j | j in Holders(rows, email)
      ensures j == id
    {
    }
  }

  /** Unique emails: at most one row answers `WHERE email = ?`. */
  lemma AtMostOneHolder(rows: map<int, UserRecord>, email: string)
    requires UniqueKeys(rows)
    ensures |Holders(rows, email)| <= 1
  {
    if id :| id in rows && rows[id].email == email {
      SoleHolder(rows, email, id);
    } else {
      forall j | j in Holders(rows, email)
        ensures false
      {
      }
      assert Holders(rows, email) == {};
    }
  }

  /** `role || 'user'`: a falsy role is bound as `'user'`. */
  function RoleOrDefault(role: Option<string>): string {
    if Truthy(role) then role.value else "user"
  }

  /** The parameters of `INSERT INTO users (username, email, password, role) VALUES (?, ?, ?, ?)`. */
  function InsertParams(username: string, email: string, password: string, role: Option<string>): seq<Param> {
    [Text(username), Text(email), Text(password), Text(RoleOrDefault(role))]
  }

  /** A missing or empty role is stored as `user`; `admin` and `user` are stored as given. */
  lemma CreateRoleBinding(username: string, email: string, password: string, role: Option<string>)
    ensures !Truthy(role) ==> InsertParams(username, email, password, role)[3] == Text("user")
    ensures ParseRole(RoleOrDefault(role)).Some? <==> !Truthy(role) || role.value == "admin" || role.value == "user"
    ensures Truthy(role) && role.value == "admin" ==> ParseRole(RoleOrDefault(role)) == Some(Admin)
    ensures !Truthy(role) ==> ParseRole(RoleOrDefault(role)) == Some(User)
  {
  }

  /** The columns an `update` entry may name in this model. */
  predicate Writable(key: string) {
    key in ["username", "email", "password", "role", "banned"]
  }

  /** One `key = ?` item applied to a row, or `None` when the value does not fit the column. */
  function Assign(u: UserRecord, key: string, value: Param): Option<UserRecord>
    requires Writable(key)
  {
    match key
    case "username" => if value.Text? then Some(u.(username := value.s)) else None
    case "email" => if value.Text? then Some(u.(email := value.s)) else None
    case "password" => if value.Text? then Some(u.(password := value.s)) else None
    case "role" => if value.Text? && ParseRole(value.s).Some? then Some(u.(role := ParseRole(value.s).value)) else None
    case _ =>
      match value
      case Bool(b) => Some(u.(banned := b))
      case Int(n) => if n == 0 || n == 1 then Some(u.(banned := n == 1)) else None
      case Text(_) => None
  }

  /** The SET list applied left to right, as MySQL applies single-table assignments. */
  function ApplyEntries(u: UserRecord, data: seq<(string, Param)>): Option<UserRecord>
    requires forall i :: 0 <= i < |data| ==> Writable(data[i].0)
    decreases |data|
  {
    if data == [] then Some(u)
    else match Assign(u, data[0].0, data[0].1)
      case None => None
      case Some(v) => ApplyEntries(v, data[1..])
  }

  /** One item changes only the column it names. */
  lemma AssignFrame(u: UserRecord, key: string, value: Param)
    requires Writable(key)
    requires Assign(u, key, value).Some?
    ensures var v := Assign(u, key, value).value;
      && v.id == u.id && v.createdAt == u.createdAt
      && (key != "username" ==> v.username == u.username)
      && (key != "email" ==> v.email == u.email)
      && (key != "password" ==> v.password == u.password)
      && (key != "role" ==> v.role == u.role)
      && (key != "banned" ==> v.banned == u.banned)
  {
  }

  /** An update never changes the id or the creation time, nor a column no entry names. */
  lemma {:induction false} UpdateTouchesOnlyNamedColumns(u: UserRecord, data: seq<(string, Param)>)
    requires forall i :: 0 <= i < |data| ==> Writable(data[i].0)
    requires ApplyEntries(u, data).Some?
    ensures var v := ApplyEntries(u, data).value;
      && v.id == u.id && v.createdAt == u.createdAt
      && ("username" !in UserQueries.Keys(data) ==> v.username == u.username)
      && ("email" !in UserQueries.Keys(data) ==> v.email == u.email)
      && ("password" !in UserQueries.Keys(data) ==> v.password == u.password)
      && ("role" !in UserQueries.Keys(data) ==> v.role == u.role)
      && ("banned" !in UserQueries.Keys(data) ==> v.banned == u.banned)
    decreases |data|
  {
    if data != [] {
      var key := data[0].0;
      var v := Assign(u, key, data[0].1).value;
      assert UserQueries.Keys(data) == [key] + UserQueries.Keys(data[1..]);
      AssignFrame(u, key, data[0].1);
      UpdateTouchesOnlyNamedColumns(v, data[1..]);
    }
  }

  class UsersTable {
    var rows: map<int, UserRecord>
    var nextId: int

    ghost predicate Valid()
      reads this
    {
      WellFormed(rows, nextId)
    }

    constructor ()
      ensures Valid() && rows == map[] && nextId == 1
    {
      rows := map[];
      nextId := 1;
    }

    /**
     * `create`, lines 72-76: insert a row with the bound role (`'user'` when
     * falsy), banned false and the creation time `now`; return its id.
     */
    method Create(username: string, email: string, password: string, role: Option<string>, now: int)
      returns (r: Result<int, StoreError>)
      requires Valid()
      modifies this
      ensures Valid()
      ensures ParseRole(RoleOrDefault(role)).None? ==> r == Err(InvalidValue)
      ensures ParseRole(RoleOrDefault(role)).Some? && KeyTaken(old(rows), username, email, 0) ==> r == Err(Duplicate)
      ensures r.Err? ==> rows == old(rows) && nextId == old(nextId)
      ensures r.Ok? <==> ParseRole(RoleOrDefault(role)).Some? && !KeyTaken(old(rows), username, email, 0)
      ensures r.Ok? ==>
        && r.value == old(nextId) && r.value !in old(rows)
        && rows == old(rows)[r.value := UserRecord(r.value, username, email, password,
                                                   ParseRole(RoleOrDefault(role)).value, false, now)]
        && nextId == old(nextId) + 1
    {
      var params := InsertParams(username, email, password, role);
      var stored := ParseRole(params[3].s);
      if stored.None? {
        return Err(InvalidValue);
      }
      if exists id :: id in rows && (rows[id].username == username || rows[id].email == email) {
        return Err(Duplicate);
      }
      var id := nextId;
      rows := rows[id := UserRecord(id, username, email, password, stored.value, false, now)];
      nextId := nextId + 1;
      r := Ok(id);
    }

    /** `findByEmail`, lines 78-81: the row with this email, if any (`SELECT *`, password included). */
    method FindByEmail(email: string) returns (row: Option<UserRecord>)
      requires Valid()
      ensures row.Some? <==> Holders(rows, email) != {}
      ensures row.Some? ==> row.value.id in rows && rows[row.value.id] == row.value && row.value.email == email
      ensures row.Some? ==> Holders(rows, email) == {row.value.id}
    {
      if exists id :: id in rows && rows[id].email == email {
        var id :| id in rows && rows[id].email == email;
        SoleHolder(rows, email, id);
        row := Some(rows[id]);
      } else {
        row := None;
      }
    }

    /** `findById`, lines 83-92: the row without its password, or the error 'User not found'. */
    method FindById(id: int) returns (r: Result<PublicUser, StoreError>)
      requires Valid()
      ensures r.Ok? <==> id in rows
      ensures r.Ok? ==> r.value == Public(rows[id]) && r.value.id == id
      ensures r.Err? ==> r.error == NotFound
    {
      if id in rows {
        r := Ok(Public(rows[id]));
      } else {
        r := Err(NotFound);
      }
    }

    /**
     * `update`, lines 130-144: build `UPDATE users SET k = ?, ... WHERE id = ?`
     * and run it; the result is the number of rows the id matched.
     */
    method Update(id: int, data: seq<(string, Param)>) returns (r: Result<nat, StoreError>)
      requires Valid()
      modifies this
      ensures Valid() && nextId == old(nextId)
      ensures data == [] ==> r == Err(SyntaxError)
      ensures data != [] && (exists i :: 0 <= i < |data| && !Writable(data[i].0)) ==> r == Err(UnknownColumn)
      ensures r.Ok? ==> r.value == if id in old(rows) then 1 else 0
      ensures r.Err? || r == Ok(0) ==> rows == old(rows)
      ensures data != [] && (forall i :: 0 <= i < |data| ==> Writable(data[i].0)) && id !in old(rows) ==>
        r == Ok(0) && rows == old(rows)
      ensures r == Ok(1) ==>
        && (forall i :: 0 <= i < |data| ==> Writable(data[i].0))
        && ApplyEntries(old(rows)[id], data).Some?
        && rows == old(rows)[id := ApplyEntries(old(rows)[id], data).value]
      ensures data != [] && (forall i :: 0 <= i < |data| ==> Writable(data[i].0)) && id in old(rows) ==>
        match ApplyEntries(old(rows)[id], data)
        case None => r == Err(InvalidValue)
        case Some(v) => r == (if KeyTaken(old(rows), v.username, v.email, id) then Err(Duplicate) else Ok(1))
    {
      var query, params := UserQueries.BuildUpdate(id, data);
      if data == [] {
        return Err(SyntaxError);
      }
      if exists i :: 0 <= i < |data| && !Writable(data[i].0) {
        return Err(UnknownColumn);
      }
      if id !in rows {
        return Ok(0);
      }
      var updated := ApplyEntries(rows[id], data);
      if updated.None? {
        return Err(InvalidValue);
      }
      var v := updated.value;
      if exists other :: other in rows && other != id && (rows[other].username == v.username || rows[other].email == v.email) {
        return Err(Duplicate);
      }
      UpdateTouchesOnlyNamedColumns(rows[id], data);
      rows := rows[id := v];
      r := Ok(1);
    }

    /** `delete`, lines 146-149: remove the row; return how many rows went. */
    method Delete(id: int) returns (count: nat)
      requires Valid()
      modifies this
      ensures Valid() && nextId == old(nextId)
      ensures count == if id in old(rows) then 1 else 0
      ensures rows == old(rows) - {id}
    {
      count := if id in rows then 1 else 0;
      rows := rows - {id};
    }

    /** `setBanStatus`, lines 151-155: set the banned flag; return how many rows the id matched. */
    method SetBanStatus(id: int, banned: bool) returns (count: nat)
      requires Valid()
      modifies this
      ensures Valid() && nextId == old(nextId)
      ensures count == if id in old(rows) then 1 else 0
      ensures rows == if id in old(rows) then old(rows)[id := old(rows)[id].(banned := banned)] else old(rows)
    {
      if id in rows {
        rows := rows[id := rows[id].(banned := banned)];
        count := 1;
      } else {
        count := 0;
      }
    }

    /**
     * `createAdminUser`, lines 56-70: insert `admin` / admin@example.com with
     * the given password hash and role admin, unless a row already has that
     * email. The result says whether a row was inserted.
     */
    method CreateAdminUser(passwordHash: string, now: int) returns (r: Result<bool, StoreError>)
      requires Valid()
      modifies this
      ensures Valid()
      ensures old(Holders(rows, AdminEmail)) != {} ==> r == Ok(false) && rows == old(rows) && nextId == old(nextId)
      ensures old(Holders(rows, AdminEmail)) == {} ==>
        if KeyTaken(old(rows), AdminUsername, AdminEmail, 0) then
          r == Err(Duplicate) && rows == old(rows) && nextId == old(nextId)
        else
          r == Ok(true) && nextId == old(nextId) + 1
          && rows == old(rows)[old(nextId) := UserRecord(old(nextId), AdminUsername, AdminEmail, passwordHash, Admin, false, now)]
      ensures r.Ok? ==> |Holders(rows, AdminEmail)| == 1
    {
      var existing := FindByEmail(AdminEmail);
      if existing.None? {
        var created := Create(AdminUsername, AdminEmail, passwordHash, Some("admin"), now);
        if created.Err? {
          return Err(created.error);
        }
        assert created.value in Holders(rows, AdminEmail);
        AtMostOneHolder(rows, AdminEmail);
        r := Ok(true);
      } else {
        AtMostOneHolder(rows, AdminEmail);
        r := Ok(false);
      }
    }

    /** The seed runs on every start (line 161); a second run finds the first run's admin and inserts nothing. */
    method SeedTwice(passwordHash: string, now: int, later: int) returns (first: Result<bool, StoreError>, second: Result<bool, StoreError>)
      requires Valid()
      modifies this
      ensures Valid()
      ensures first.Ok? ==> second == Ok(false)
      ensures second.Ok? ==> |Holders(rows, AdminEmail)| == 1
    {
      first := CreateAdminUser(passwordHash, now);
      second := CreateAdminUser(passwordHash, later);
    }
  }
}
