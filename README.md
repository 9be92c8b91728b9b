# Admin panel backend: users model and authentication gate

This project models the two backend pieces of the admin panel that make decisions:

- **The users model** (`backend/models/User.js`).
  - `getAll` turns a filter and a sort into a SELECT statement and its list of bound parameters.
  - `update` turns a field map into an UPDATE statement.
  - `create`, `findByEmail`, `findById`, `delete`, `setBanStatus` and the admin seed `createAdminUser` work on the `users` table.
- **The authentication middleware** (`backend/middleware/auth.js`). It takes the bearer token from the `Authorization` header and verifies it. It then looks the claimed id up in the live table and either answers 401 or 403, or passes the request on with `req.user` rebuilt from the live row.

Modules:

- `Wrappers`: `Option` and `Result`.
- `JsString`: the JavaScript string behaviour the code relies on: truthiness of an optional string, `replace` with a string pattern (first occurrence only), `join`, and a character count.
- `Sql`: bound parameter values and the placeholder count of a statement.
- `Users`: roles (the `ENUM('admin', 'user')` column) and the row types. `PublicUser` is the row without its password, as `findById` and `getAll` select it.
- `UserQueries`: the two statement builders.
  - Each is a method written the way the source writes it (`+=` and `push`, a loop over the entries), proved equal to a specification function.
  - The properties are proved about those functions: placeholders against parameters, clause order, the banned tri-state, the sort whitelist, and that caller values never reach the text.
  - The module also gives the WHERE conditions a meaning. SQL `LIKE` is written out, so the rows a filter selects can be stated.
- `UserStore`: the table as a class `UsersTable` holding `rows: map<int, UserRecord>` and the next auto-increment value.
  - Its invariant `Valid()` is the schema: ids positive, below the next id and stored under themselves, username and email unique.
  - Each operation updates the map in place and returns what the source returns: the new id, the row, or the affected-row count.
  - Database errors are `Err` values.
- `AuthGate`: the middleware's decision as a function `Gate`. `AuthMiddleware` is a method on an `Exchange` (the request header, `req.user`, the response sent and the count of `next()` calls), proved to act out `Gate`.

Inputs from outside the code are parameters:

- `jwt.verify` is a function from token to `Verified(claims)` or `Rejected`.
- The bcrypt hash of the seed password is a string argument.
- `CURRENT_TIMESTAMP` is an integer `now`.

## Model

| member | source | states |
|---|---|---|
| Users.ParseRoleName | backend/models/User.js:41 | the role column holds exactly the labels `admin` and `user`, and each role reads back as itself |
| UserQueries.GetAll | backend/models/User.js:94-119 | the statement and parameters built step by step are the base SELECT, then one condition per truthy role/username/email and per bound banned value, then the whitelisted ORDER BY; the parameters are the conditions' values in order |
| UserQueries.PlaceholdersMatchParams | backend/models/User.js:95-114 | the SELECT statement has exactly as many `?` as there are parameters |
| UserQueries.PlaceholderBinding | backend/models/User.js:95-114 | the k-th `?` of the statement closes the k-th condition's text, and parameter k is that condition's value |
| UserQueries.ColumnsInOrder | backend/models/User.js:98-114 | conditions appear in the order role, username, email, banned, each at most once |
| UserQueries.ClausesOfFilter | backend/models/User.js:98-114 | a role, username or email condition is present iff the value is truthy; its value is the role itself or `%value%`; a banned condition is present iff the tri-state rule binds a value |
| UserQueries.EmptyStringsImposeNothing | backend/models/User.js:98-110 | a filter with empty strings gives the same statement and parameters as the filter with those values missing |
| UserQueries.QueryTextIgnoresValues | backend/models/User.js:102-109 | two filters that turn on the same conditions give the same statement text, whatever their values: caller values reach only the parameters |
| UserQueries.BannedCoercion | backend/models/User.js:110-114 | `undefined` and `''` add no condition; `true` and `'true'` bind 1; `false` and every other string bind 0 |
| UserQueries.FilterMeaning | backend/models/User.js:98-114 | a row satisfies the WHERE conditions iff it has the filtered role, its username/email match `%value%`, and its banned flag equals the bound value |
| UserQueries.SubstringMatch | backend/models/User.js:104 | for a value without `%` or `_`, `LIKE '%value%'` holds iff the value occurs in the column |
| UserQueries.UnlistedSortFieldIgnored | backend/models/User.js:116 | a missing sort field, or one outside username/email/created_at, gives exactly the statement with no sort |
| UserQueries.SortClause | backend/models/User.js:116-119 | a listed field appends ` ORDER BY <field> <dir>` and nothing else; the direction is DESC iff `sort.direction` is `'desc'`, else ASC |
| UserQueries.BuildUpdate | backend/models/User.js:130-140 | the loop builds `UPDATE users SET ` + the `key = ?` items joined by `, ` + ` WHERE id = ?`, with the values in entry order followed by the id |
| UserQueries.UpdateParamOrder | backend/models/User.js:135-140 | parameter i is the value of entry i, and the id is the last of the entries + 1 parameters |
| UserQueries.UpdatePlaceholders | backend/models/User.js:135-139 | the UPDATE statement has one `?` per entry, one for the id, plus every `?` inside the keys, which are spliced into the text unescaped |
| UserQueries.UpdatePlaceholdersMatchParams | backend/models/User.js:135-140 | when no key contains `?`, placeholders and parameters correspond one to one (entries + 1) |
| UserQueries.KeyWithPlaceholderShiftsParams | backend/models/User.js:136 | the key `role = ?, banned` yields three placeholders for two parameters, so the key text shifts the bindings |
| UserStore.SoleHolder | backend/models/User.js:39 | with unique emails, a row holding an email is the only one holding it |
| UserStore.AtMostOneHolder | backend/models/User.js:39 | with unique emails, at most one row answers `WHERE email = ?` |
| UserStore.CreateRoleBinding | backend/models/User.js:74 | a falsy role is bound as `'user'`; the insert is accepted by the role column iff the role is falsy, `admin` or `user` |
| UserStore.UpdateTouchesOnlyNamedColumns | backend/models/User.js:130-143 | an update whose keys are among username/email/password/role/banned changes only the columns it names: never the id or the creation time |
| UserStore.UsersTable.constructor | backend/models/User.js:36-44 | the table starts empty with the auto-increment at 1 and its invariant established |
| UserStore.UsersTable.Create | backend/models/User.js:72-76 | inserts the row with the bound role, banned false and time `now` under the next id and returns that id; a role the ENUM rejects or a taken username/email is an error that leaves the table unchanged |
| UserStore.UsersTable.FindByEmail | backend/models/User.js:78-81 | returns the row with this email (password included) iff one exists, and it is the only one |
| UserStore.UsersTable.FindById | backend/models/User.js:83-92 | returns the row without its password iff the id exists, and otherwise the error 'User not found' |
| UserStore.UsersTable.Update | backend/models/User.js:130-144 | an empty map is a syntax error; an unknown column is an error; with writable keys, a missing id matches 0 rows and changes nothing; otherwise the entries are applied left to right, with an error on a value the column rejects or a duplicate username/email, else 1 row matched and only that row changes |
| UserStore.UsersTable.Delete | backend/models/User.js:146-149 | removes the row and returns 1, or returns 0 for a missing id; nothing else changes |
| UserStore.UsersTable.SetBanStatus | backend/models/User.js:151-155 | sets only that row's banned flag and returns 1, or returns 0 and changes nothing for a missing id |
| UserStore.UsersTable.CreateAdminUser | backend/models/User.js:56-70 | inserts `admin` / admin@example.com with role admin iff no row has that email or the username `admin`; a row with the email means nothing changes, and a row with only the username is a duplicate-key error that changes nothing; on success exactly one row has that email |
| UserStore.UsersTable.SeedTwice | backend/models/User.js:161 | the seed runs on every start: after a successful first run, a second run inserts nothing |
| AuthGate.BearerPrefixStripped | backend/middleware/auth.js:4 | the header `Bearer X` gives the token `X` |
| AuthGate.OnlyFirstPrefixStripped | backend/middleware/auth.js:4 | only the first `Bearer ` is removed: `Bearer Bearer X` gives `Bearer X` |
| AuthGate.HeaderWithoutPrefixIsToken | backend/middleware/auth.js:4 | a header without `Bearer ` is taken whole as the token |
| AuthGate.BareBearerHasNoToken | backend/middleware/auth.js:4-8 | the header `Bearer ` alone leaves an empty token and gets 401 'No token provided' |
| AuthGate.MissingTokenGets401 | backend/middleware/auth.js:4-8 | no header, or an empty token, gets 401 'No token provided' |
| AuthGate.RejectedTokenGets401 | backend/middleware/auth.js:10-31 | a token that fails verification gets 401 'Invalid token' |
| AuthGate.DeletedUserGets401 | backend/middleware/auth.js:16-30 | a verified token whose id has no row gets 401 'Invalid token', because the lookup throws into the catch |
| AuthGate.BannedGets403 | backend/middleware/auth.js:20-22 | a verified token whose live row is banned gets 403 'Account is banned', whatever role it claims |
| AuthGate.NextIffGoodStanding | backend/middleware/auth.js:20-27 | the request goes on iff a non-empty token verifies to an id whose live row exists and is not banned; `req.user` is then that id and the live row's role |
| AuthGate.ClaimedRoleIgnored | backend/middleware/auth.js:25 | the role inside the token plays no part: two verified tokens for the same id get the same outcome |
| AuthGate.OutcomeTable | backend/middleware/auth.js:3-32 | every request ends in 401 'No token provided', 401 'Invalid token', 403 'Account is banned' or `next()`; 404 'User not found' never happens |
| AuthGate.AuthMiddleware | backend/middleware/auth.js:3-32 | sends exactly the response `Gate` decides and never calls `next()`, or calls `next()` once with `req.user` from the live row and sends nothing; `req.user` holds the decoded claims after a verified token that is then refused; the store is left unchanged |

## Left out

- Running the statements is not modelled. `getAll`'s statement and parameters are modelled, and its meaning is given by `UserQueries.FilterMeaning`. The rows returned, their order and MySQL's case-insensitive collation are not modelled. `Like` compares characters exactly and has no escape character.
- MySQL's implicit coercions in comparisons are not modelled. For example, a role filter value that is not a role label compares against the ENUM.
- Filter values are modelled as missing or strings. The banned filter is the exception: undefined, a boolean or a string. Other JavaScript values (numbers, arrays, objects) are not modelled.
- The JWT payload is modelled as an integer `id` and a string `role`. Other payload shapes are not modelled.
- Database and table creation, the connection pool and its retry timer (`initializeDatabase`, `createTable`, backend/config/db.js) are I/O. The schema's unique keys, id and defaults are the `Valid()` invariant and the bodies of `Create`.
- `bcrypt.hash`, `jwt.verify`, `console` logging and `process.exit` are foreign calls or I/O. The hash and the verification are parameters. Logging and exit are not modelled.
- Auto-increment ids are consecutive in the model. MySQL may leave gaps after failed inserts. Timestamps are the parameter `now`.
- The order of `Object.entries` is taken as the order of the given sequence of entries.
- UserStore.UsersTable.Update: only the columns username, email, password, role and banned are interpreted. Any other key is reported as `UnknownColumn`. This includes `id`, `created_at` and keys that splice further SQL into the statement. MySQL would run those or reject them by its own rules.
- UserStore.UsersTable.Create: `Err(Duplicate)` covers a taken username or email. A MySQL error for a value too long for its VARCHAR column is not modelled.
- UserStore.UsersTable.Create: usernames and emails are compared exactly. The columns' case-insensitive collation, which makes `Admin` a duplicate of `admin`, is not modelled, so the model accepts inserts that MySQL refuses as duplicates.
- UserStore.UsersTable.FindByEmail: the email is matched exactly. MySQL's collation would also find `ADMIN@example.com` for `admin@example.com`.
- UserStore.UsersTable.CreateAdminUser: it inherits the exact matching of `FindByEmail` and `Create`. Next to a row `Admin@Example.com` the model inserts the seed, and MySQL does not.
- Users.ParseRole: only the exact labels `admin` and `user` are accepted. The ENUM column also accepts other letter cases (`'Admin'` is stored as `admin`), so `UserStore.CreateRoleBinding` and `UserStore.UsersTable.Create` reject such roles where MySQL stores them.
- UserStore.Assign: values must have the column's own type. MySQL's conversions, such as a number stored into a VARCHAR or `'1'` into the BOOLEAN column, are not modelled and are reported as `InvalidValue`. Values too long for a VARCHAR column are not modelled for updates either.
- UserStore.UpdateTouchesOnlyNamedColumns: the lemma covers only keys among the five writable columns. In the source, the key `id` or `created_at` changes that column. The model refuses those keys as `UnknownColumn` (see the `UserStore.UsersTable.Update` line).
- UserQueries.GetAll: the call's argument is always an object with `filter` and `sort` objects. Calling `getAll` with no argument or with `filter: null` throws a TypeError, and that case is not modelled.
- UserStore.UsersTable.FindById: the only failure is the missing row (`NotFound`). Other database failures also reach the middleware's catch and get 401, but they are not modelled.
- Route handlers, the frontend pages and the axios client are not part of this model.
