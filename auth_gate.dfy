/**
 * The authentication middleware of backend/middleware/auth.js. It takes the
 * token from the Authorization header, has it verified, looks the claimed
 * id up in the live users table and then either answers the request
 * (401 or 403) or passes it on with `req.user` rebuilt from the live row.
 *
 * `jwt.verify` is a parameter: a function from token to the decoded claims
 * or a rejection (a thrown error). The lookup is the table's `findById`.
 */
module AuthGate {
  import opened Wrappers
  import opened JsString
  import opened Users
  import opened UserStore

  const BearerPrefix := "Bearer "
  const NoTokenMessage := "No token provided"
  const InvalidTokenMessage := "Invalid token"
  const BannedMessage := "Account is banned"

  /** The decoded token payload: the id and the role the token was issued with. */
  datatype Claims = Claims(id: int, role: string)

  /** What `jwt.verify` does with a token: return its payload, or throw. */
  datatype Verification = Verified(claims: Claims) | Rejected

  /** The value of `req.user`. */
  datatype Principal = Principal(id: int, role: string)

  /** How a request leaves the middleware: a response is sent, or `next()` is called with `req.user`. */
  datatype Outcome = Respond(status: int, message: string) | Next(user: Principal)

  /** `req.header('Authorization')?.replace('Bearer ', '')`. */
  function TokenOf(header: Option<string>): Option<string> {
    match header
    case None => None
    case Some(h) => Some(ReplaceFirst(h, BearerPrefix, ""))
  }

  /**
   * The decision of the middleware. A verified token whose id has no row
   * makes `findById` throw, and the catch answers 401: the 404 answer the
   * handler also contains is never given.
   */
  function Gate(header: Option<string>, verify: string -> Verification, rows: map<int, UserRecord>): Outcome {
    var token := TokenOf(header);
    if !Truthy(token) then Respond(401, NoTokenMessage)
    else match verify(token.value)
      case Rejected => Respond(401, InvalidTokenMessage)
      case Verified(claims) =>
        if claims.id !in rows then Respond(401, InvalidTokenMessage)
        else if rows[claims.id].banned then Respond(403, BannedMessage)
        else Next(Principal(rows[claims.id].id, RoleName(rows[claims.id].role)))
  }

  // ---------------------------------------------------------------------
  // The token

  /** `Bearer <x>` gives the token `x`. */
  lemma BearerPrefixStripped(x: string)
    ensures TokenOf(Some(BearerPrefix + x)) == Some(x)
  {
    ReplaceFirstAtStart(BearerPrefix, x, "");
    assert "" + x == x;
  }

  /** Only the first `Bearer ` goes: `Bearer Bearer x` gives the token `Bearer x`. */
  lemma OnlyFirstPrefixStripped(x: string)
    ensures TokenOf(Some(BearerPrefix + BearerPrefix + x)) == Some(BearerPrefix + x)
  {
    assert BearerPrefix + BearerPrefix + x == BearerPrefix + (BearerPrefix + x);
    BearerPrefixStripped(BearerPrefix + x);
  }

  /** A header without `Bearer ` is taken as the token itself. */
  lemma HeaderWithoutPrefixIsToken(h: string)
    requires forall j: nat :: !OccursAt(h, BearerPrefix, j)
    ensures TokenOf(Some(h)) == Some(h)
  {
    ReplaceFirstAbsent(h, BearerPrefix, "");
  }

  /** A header that is only `Bearer ` leaves an empty token, which counts as none. */
  lemma BareBearerHasNoToken(verify: string -> Verification, rows: map<int, UserRecord>)
    ensures Gate(Some(BearerPrefix), verify, rows) == Respond(401, NoTokenMessage)
  {
    BearerPrefixStripped("");
    assert BearerPrefix + "" == BearerPrefix;
  }

  // ---------------------------------------------------------------------
  // The outcome table

  /** No header, or an empty token: 401 'No token provided'. */
  lemma MissingTokenGets401(header: Option<string>, verify: string -> Verification, rows: map<int, UserRecord>)
    requires header.None? || TokenOf(header) == Some("")
    ensures Gate(header, verify, rows) == Respond(401, NoTokenMessage)
  {
  }

  /** A token that fails verification: 401 'Invalid token'. */
  lemma RejectedTokenGets401(header: Option<string>, verify: string -> Verification, rows: map<int, UserRecord>)
    requires Truthy(TokenOf(header)) && verify(TokenOf(header).value) == Rejected
    ensures Gate(header, verify, rows) == Respond(401, InvalidTokenMessage)
  {
  }

  /** A verified token for an id with no row: 401 'Invalid token', since `findById` throws. */
  lemma DeletedUserGets401(header: Option<string>, verify: string -> Verification, rows: map<int, UserRecord>)
    requires Truthy(TokenOf(header)) && verify(TokenOf(header).value).Verified?
    requires verify(TokenOf(header).value).claims.id !in rows
    ensures Gate(header, verify, rows) == Respond(401, InvalidTokenMessage)
  {
  }

  /** A verified token whose live row is banned: 403, whatever role the token claims. */
  lemma BannedGets403(header: Option<string>, verify: string -> Verification, rows: map<int, UserRecord>)
    requires Truthy(TokenOf(header)) && verify(TokenOf(header).value).Verified?
    requires var id := verify(TokenOf(header).value).claims.id; id in rows && rows[id].banned
    ensures Gate(header, verify, rows) == Respond(403, BannedMessage)
  {
  }

  /**
   * The request goes on exactly when a non-empty token verifies and its id
   * has a live row that is not banned; `req.user` is then the id and the role
   * of that row.
   */
  lemma NextIffGoodStanding(header: Option<string>, verify: string -> Verification, rows: map<int, UserRecord>, nextId: int)
    requires WellFormed(rows, nextId)
    ensures Gate(header, verify, rows).Next? <==>
      && Truthy(TokenOf(header))
      && verify(TokenOf(header).value).Verified?
      && verify(TokenOf(header).value).claims.id in rows
      && !rows[verify(TokenOf(header).value).claims.id].banned
    ensures Gate(header, verify, rows).Next? ==>
      var id := verify(TokenOf(header).value).claims.id;
      Gate(header, verify, rows).user == Principal(id, RoleName(rows[id].role))
  {
  }

  /** The role in the token plays no part: two tokens for the same id are treated alike. */
  lemma ClaimedRoleIgnored(header: Option<string>, v1: string -> Verification, v2: string -> Verification, rows: map<int, UserRecord>)
    requires Truthy(TokenOf(header))
    requires v1(TokenOf(header).value).Verified? && v2(TokenOf(header).value).Verified?
    requires v1(TokenOf(header).value).claims.id == v2(TokenOf(header).value).claims.id
    ensures Gate(header, v1, rows) == Gate(header, v2, rows)
  {
  }

  /** Every request ends in one of four ways; in particular 404 'User not found' never happens. */
  lemma OutcomeTable(header: Option<string>, verify: string -> Verification, rows: map<int, UserRecord>)
    ensures var o := Gate(header, verify, rows);
      || o == Respond(401, NoTokenMessage)
      || o == Respond(401, InvalidTokenMessage)
      || o == Respond(403, BannedMessage)
      || o.Next?
    ensures Gate(header, verify, rows).Respond? ==> Gate(header, verify, rows).status != 404
  {
  }

  // ---------------------------------------------------------------------
  // The handler on a request and a response

  /** What `res.status(status).json({ message })` sent. */
  datatype Response = Response(status: int, message: string)

  /** One request passing through the middleware: its header, `req.user`, the response and the `next()` calls. */
  class Exchange {
    const authorization: Option<string>
    var user: Option<Principal>
    var response: Option<Response>
    var nextCalls: nat

    constructor (authorization: Option<string>)
      ensures this.authorization == authorization
      ensures user.None? && response.None? && nextCalls == 0
    {
      this.authorization := authorization;
      user := None;
      response := None;
      nextCalls := 0;
    }
  }

  /**
   * `authMiddleware`, lines 3-32. Exactly one of: a response is sent, or
   * `next()` is called once. The store is only read. `req.user` holds the
   * token's claims from the moment the token verifies (line 12) and the live
   * row's id and role once the request goes on (line 25).
   */
  method AuthMiddleware(ex: Exchange, verify: string -> Verification, store: UsersTable)
    requires store.Valid()
    requires ex.response.None? && ex.nextCalls == 0
    modifies ex
    ensures unchanged(store)
    ensures match Gate(ex.authorization, verify, store.rows)
      case Respond(status, message) => ex.response == Some(Response(status, message)) && ex.nextCalls == 0
      case Next(p) => ex.response.None? && ex.nextCalls == 1 && ex.user == Some(p)
    ensures (!Truthy(TokenOf(ex.authorization)) || verify(TokenOf(ex.authorization).value).Rejected?) ==>
      ex.user == old(ex.user)
    ensures (&& Truthy(TokenOf(ex.authorization))
             && verify(TokenOf(ex.authorization).value).Verified?
             && Gate(ex.authorization, verify, store.rows).Respond?) ==>
      var claims := verify(TokenOf(ex.authorization).value).claims;
      ex.user == Some(Principal(claims.id, claims.role))
  {
    var token := TokenOf(ex.authorization);
    if !Truthy(token) {
      ex.response := Some(Response(401, NoTokenMessage));
      return;
    }
    var verification := verify(token.value);
    if verification.Rejected? {
      // jwt.verify threw: the catch answers
      ex.response := Some(Response(401, InvalidTokenMessage));
      return;
    }
    var decoded := verification.claims;
    ex.user := Some(Principal(decoded.id, decoded.role));
    var found := store.FindById(ex.user.value.id);
    if found.Err? {
      // findById threw 'User not found': the catch answers
      ex.response := Some(Response(401, InvalidTokenMessage));
      return;
    }
    var user := found.value;
    // `if (!user)` at line 17 tests a row object, which is always truthy here.
    if user.banned {
      ex.response := Some(Response(403, BannedMessage));
      return;
    }
    ex.user := Some(Principal(user.id, RoleName(user.role)));
    ex.nextCalls := ex.nextCalls + 1;
  }
}
