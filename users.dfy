/**
 * The row of the `users` table (backend/models/User.js:36-44): an
 * auto-increment id, unique username and email, a password hash, a role of
 * the ENUM('admin', 'user'), a banned flag that defaults to false, and a
 * creation timestamp assigned by the database.
 */
module Users {
  import opened Wrappers

  datatype Role = Admin | User

  /** The text stored in the ENUM column and sent back to clients. */
  function RoleName(r: Role): string {
    match r
    case Admin => "admin"
    case User => "user"
  }

  /** The ENUM column accepts exactly its two labels (MySQL strict mode rejects anything else). */
  function ParseRole(s: string): (r: Option<Role>)
    ensures r.Some? ==> RoleName(r.value) == s
    ensures r.None? ==> s != "admin" && s != "user"
  {
    if s == "admin" then Some(Admin)
    else if s == "user" then Some(User)
    else None
  }

  lemma ParseRoleName(r: Role)
    ensures ParseRole(RoleName(r)) == Some(r)
  {
  }

  /** A full row, as `SELECT *` returns it. The timestamp is an opaque number. */
  datatype UserRecord = UserRecord(
    id: int,
    username: string,
    email: string,
    password: string,
    role: Role,
    banned: bool,
    createdAt: int)

  /** A row without its password hash: the column list of `findById` and `getAll`. */
  datatype PublicUser = PublicUser(
    id: int,
    username: string,
    email: string,
    role: Role,
    banned: bool,
    createdAt: int)

  function Public(u: UserRecord): PublicUser {
    PublicUser(u.id, u.username, u.email, u.role, u.banned, u.createdAt)
  }
}
