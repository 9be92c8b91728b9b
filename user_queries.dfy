/**
 * The two statement builders of the users model (backend/models/User.js):
 * `getAll` turns a filter and a sort into a SELECT text and its parameter
 * list (lines 94-119), and `update` turns a field map into an UPDATE text
 * and its parameter list (lines 130-140). The module also gives the
 * meaning of the WHERE conditions `getAll` builds, with SQL `LIKE` written
 * out, so that what the statement selects can be compared with the filter.
 */
module UserQueries {
  import opened Wrappers
  import opened JsString
  import opened Sql
  import opened Users

  /** The statement `getAll` starts from (its column list leaves out the password). */
  const SelectUsers := SelectPart1 + SelectPart2 + SelectPart3 + SelectPart4
  const SelectPart1 := "SELECT id, username, "
  const SelectPart2 := "email, role, banned, "
  const SelectPart3 := "created_at FROM users"
  const SelectPart4 := " WHERE 1=1"

  /** The JavaScript value of `filter.banned`: `undefined`, a boolean, or a string (`''` included). */
  datatype BannedArg = Undefined | BoolArg(b: bool) | StringArg(s: string)

  /** The `filter` object of `getAll`; a missing property is `None`. */
  datatype Filter = Filter(role: Option<string>, username: Option<string>, email: Option<string>, banned: BannedArg)

  /** The `sort` object of `getAll`. */
  datatype Sort = Sort(field: Option<string>, direction: Option<string>)

  const NoSort := Sort(None, None)

  datatype Column = RoleColumn | UsernameColumn | EmailColumn | BannedColumn

  /** One `AND` condition of the WHERE clause, with the value bound to its placeholder. */
  datatype Clause = Clause(column: Column, value: Param)

  /** The text of a condition up to its placeholder. */
  function ClausePrefix(c: Column): string {
    match c
    case RoleColumn => " AND role = "
    case UsernameColumn => " AND username LIKE "
    case EmailColumn => " AND email LIKE "
    case BannedColumn => " AND banned = "
  }

  /** The text appended for a condition: it ends in its one placeholder. */
  function ClauseText(c: Column): string {
    ClausePrefix(c) + "?"
  }

  /** Position of a column in the order `getAll` tests the filter. */
  function Rank(c: Column): nat {
    match c
    case RoleColumn => 0
    case UsernameColumn => 1
    case EmailColumn => 2
    case BannedColumn => 3
  }

  /**
   * The value bound for `filter.banned`: no condition for `undefined` and `''`,
   * 1 for `true` and `'true'`, 0 for everything else.
   */
  function BannedBinding(b: BannedArg): Option<int> {
    if b == Undefined || b == StringArg("") then None
    else if b == BoolArg(true) || b == StringArg("true") then Some(1)
    else Some(0)
  }

  function RoleClauses(f: Filter): seq<Clause> {
    if Truthy(f.role) then [Clause(RoleColumn, Text(f.role.value))] else []
  }

  function UsernameClauses(f: Filter): seq<Clause> {
    if Truthy(f.username) then [Clause(UsernameColumn, Text("%" + f.username.value + "%"))] else []
  }

  function EmailClauses(f: Filter): seq<Clause> {
    if Truthy(f.email) then [Clause(EmailColumn, Text("%" + f.email.value + "%"))] else []
  }

  function BannedClauses(f: Filter): seq<Clause> {
    match BannedBinding(f.banned)
    case None => []
    case Some(v) => [Clause(BannedColumn, Int(v))]
  }

  /** The conditions `getAll` adds for a filter, in the order it tests them. */
  function Clauses(f: Filter): seq<Clause> {
    RoleClauses(f) + UsernameClauses(f) + EmailClauses(f) + BannedClauses(f)
  }

  function WhereText(cs: seq<Clause>): string {
    if cs == [] then "" else WhereText(cs[..|cs| - 1]) + ClauseText(cs[|cs| - 1].column)
  }

  function Bindings(cs: seq<Clause>): seq<Param> {
    seq(|cs|, i requires 0 <= i < |cs| => cs[i].value)
  }

  const SortableFields: seq<string> := ["username", "email", "created_at"]

  /** `sort.field && [...].includes(sort.field)`. */
  predicate Sortable(s: Sort) {
    s.field.Some? && s.field.value != "" && s.field.value in SortableFields
  }

  /** `sort.direction === 'desc' ? 'DESC' : 'ASC'`. */
  function Direction(s: Sort): string {
    if s.direction == Some("desc") then "DESC" else "ASC"
  }

  function OrderBy(s: Sort): string {
    if Sortable(s) then " ORDER BY " + s.field.value + " " + Direction(s) else ""
  }

  /** The statement text `getAll` sends for a filter and a sort. */
  function SelectQuery(f: Filter, s: Sort): string {
    SelectUsers + WhereText(Clauses(f)) + OrderBy(s)
  }

  /** The parameter list `getAll` sends for a filter. */
  function SelectParams(f: Filter): seq<Param> {
    Bindings(Clauses(f))
  }

  lemma AppendNothing<T>(a: seq<T>)
    ensures a + [] == a && [] + a == a
  {
  }

  lemma Assoc<T>(a: seq<T>, b: seq<T>, c: seq<T>)
    ensures a + (b + c) == a + b + c
  {
  }

  /** The text of a list of conditions is that of its parts, in order. */
  lemma {:induction false} WhereTextConcat(a: seq<Clause>, b: seq<Clause>)
    ensures WhereText(a + b) == WhereText(a) + WhereText(b)
  {
    if b == [] {
      assert a + b == a;
    } else {
      var init, last := b[..|b| - 1], b[|b| - 1];
      assert (a + b)[..|a + b| - 1] == a + init;
      assert (a + b)[|a + b| - 1] == last;
      WhereTextConcat(a, init);
      Assoc(WhereText(a), WhereText(init), ClauseText(last.column));
    }
  }

  /** The text and the parameters of a list of conditions are those of its parts, in order. */
  lemma Concat(a: seq<Clause>, b: seq<Clause>)
    ensures WhereText(a + b) == WhereText(a) + WhereText(b)
    ensures Bindings(a + b) == Bindings(a) + Bindings(b)
  {
    WhereTextConcat(a, b);
    var l, r := Bindings(a + b), Bindings(a) + Bindings(b);
    assert |l| == |r|;
    forall i | 0 <= i < |l|
      ensures l[i] == r[i]
    {
      if i < |a| {
        assert l[i] == a[i].value;
      } else {
        assert l[i] == b[i - |a|].value;
      }
    }
  }

  /** What a filter value contributes: the text `getAll` appends for it and the value it pushes. */
  lemma RoleContribution(f: Filter)
    ensures WhereText(RoleClauses(f)) == (if Truthy(f.role) then ClauseText(RoleColumn) else "")
    ensures Bindings(RoleClauses(f)) == (if Truthy(f.role) then [Text(f.role.value)] else [])
  {
  }

  lemma UsernameContribution(f: Filter)
    ensures WhereText(UsernameClauses(f)) == (if Truthy(f.username) then ClauseText(UsernameColumn) else "")
    ensures Bindings(UsernameClauses(f)) == (if Truthy(f.username) then [Text("%" + f.username.value + "%")] else [])
  {
  }

  lemma EmailContribution(f: Filter)
    ensures WhereText(EmailClauses(f)) == (if Truthy(f.email) then ClauseText(EmailColumn) else "")
    ensures Bindings(EmailClauses(f)) == (if Truthy(f.email) then [Text("%" + f.email.value + "%")] else [])
  {
  }

  lemma BannedContribution(f: Filter)
    ensures WhereText(BannedClauses(f)) == (if BannedBinding(f.banned).Some? then ClauseText(BannedColumn) else "")
    ensures Bindings(BannedClauses(f)) == (if BannedBinding(f.banned).Some? then [Int(BannedBinding(f.banned).value)] else [])
  {
  }

  /** The WHERE text and the parameters are what each filter value contributes, in order. */
  lemma WhereParts(f: Filter)
    ensures WhereText(Clauses(f)) ==
      WhereText(RoleClauses(f)) + WhereText(UsernameClauses(f)) + WhereText(EmailClauses(f)) + WhereText(BannedClauses(f))
    ensures SelectParams(f) ==
      Bindings(RoleClauses(f)) + Bindings(UsernameClauses(f)) + Bindings(EmailClauses(f)) + Bindings(BannedClauses(f))
  {
    var r, u, e, b := RoleClauses(f), UsernameClauses(f), EmailClauses(f), BannedClauses(f);
    Concat(r + u + e, b);
    Concat(r + u, e);
    Concat(r, u);
  }

  /**
   * `getAll`, lines 95-119: the statement is built step by step, a condition
   * per truthy filter value, then the whitelisted ORDER BY. The ghost `cs`
   * holds the conditions appended so far.
   */
  method GetAll(filter: Filter, sort: Sort) returns (query: string, params: seq<Param>)
    ensures query == SelectQuery(filter, sort)
    ensures params == SelectParams(filter)
  {
    query := SelectUsers;
    params := [];
    ghost var cs: seq<Clause> := [];
    AppendNothing(query);

    if Truthy(filter.role) {
      ghost var c := Clause(RoleColumn, Text(filter.role.value));
      Extend(query, params, cs, c);
      query := query + ClauseText(RoleColumn);
      params := params + [Text(filter.role.value)];
      cs := cs + [c];
    }
    assert query == SelectUsers + WhereText(cs) && params == Bindings(cs);
    assert cs == RoleClauses(filter);

    if Truthy(filter.username) {
      ghost var c := Clause(UsernameColumn, Text("%" + filter.username.value + "%"));
      Extend(query, params, cs, c);
      query := query + ClauseText(UsernameColumn);
      params := params + [Text("%" + filter.username.value + "%")];
      cs := cs + [c];
    } else {
      AppendNothing(cs);
    }
    assert query == SelectUsers + WhereText(cs) && params == Bindings(cs);
    assert cs == RoleClauses(filter) + UsernameClauses(filter);

    if Truthy(filter.email) {
      ghost var c := Clause(EmailColumn, Text("%" + filter.email.value + "%"));
      Extend(query, params, cs, c);
      query := query + ClauseText(EmailColumn);
      params := params + [Text("%" + filter.email.value + "%")];
      cs := cs + [c];
    } else {
      AppendNothing(cs);
    }
    assert query == SelectUsers + WhereText(cs) && params == Bindings(cs);
    assert cs == RoleClauses(filter) + UsernameClauses(filter) + EmailClauses(filter);

    var bannedValue := BannedBinding(filter.banned);
    if bannedValue.Some? {
      ghost var c := Clause(BannedColumn, Int(bannedValue.value));
      Extend(query, params, cs, c);
      query := query + ClauseText(BannedColumn);
      params := params + [Int(bannedValue.value)];
      cs := cs + [c];
    } else {
      AppendNothing(cs);
    }
    assert query == SelectUsers + WhereText(cs) && params == Bindings(cs);
    assert cs == Clauses(filter);
    Finish(query, params, cs, filter, sort);

    if Sortable(sort) {
      query := query + (" ORDER BY " + sort.field.value + " " + Direction(sort));
    } else {
      AppendNothing(query);
    }
  }

  /** Once every condition is in, the statement lacks only its ORDER BY. */
  lemma Finish(query: string, params: seq<Param>, cs: seq<Clause>, f: Filter, s: Sort)
    requires query == SelectUsers + WhereText(cs) && params == Bindings(cs) && cs == Clauses(f)
    ensures query + OrderBy(s) == SelectQuery(f, s)
    ensures params == SelectParams(f)
  {
  }

  /** Appending one condition to the statement appends its text and its value. */
  lemma Extend(query: string, params: seq<Param>, cs: seq<Clause>, c: Clause)
    requires query == SelectUsers + WhereText(cs) && params == Bindings(cs)
    ensures query + ClauseText(c.column) == SelectUsers + WhereText(cs + [c])
    ensures params + [c.value] == Bindings(cs + [c])
  {
    assert (cs + [c])[..|cs|] == cs;
    Assoc(SelectUsers, WhereText(cs), ClauseText(c.column));
  }


  // ---------------------------------------------------------------------
  // Placeholders and parameters of `getAll`

  lemma {:induction false} ClausePlaceholder(c: Column)
    ensures Placeholders(ClauseText(c)) == 1
    ensures ClauseText(c)[|ClauseText(c)| - 1] == '?'
  {
    CountAbsent(ClausePrefix(c), '?');
    CountConcat(ClausePrefix(c), "?", '?');
  }

  /** Every condition carries exactly one placeholder. */
  lemma {:induction false} WherePlaceholders(cs: seq<Clause>)
    ensures Placeholders(WhereText(cs)) == |cs|
  {
    if cs != [] {
      WherePlaceholders(cs[..|cs| - 1]);
      ClausePlaceholder(cs[|cs| - 1].column);
      CountConcat(WhereText(cs[..|cs| - 1]), ClauseText(cs[|cs| - 1].column), '?');
    }
  }

  /** Only a listed field reaches ORDER BY, so the sort adds no placeholder. */
  lemma OrderByHasNoPlaceholder(s: Sort)
    ensures '?' !in OrderBy(s)
  {
    if Sortable(s) {
      var field := s.field.value;
      assert field == "username" || field == "email" || field == "created_at";
      assert '?' !in field;
      assert '?' !in Direction(s);
    }
  }

  lemma NoPlaceholderInPart1() ensures Placeholders(SelectPart1) == 0 { CountAbsent(SelectPart1, '?'); }
  lemma NoPlaceholderInPart2() ensures Placeholders(SelectPart2) == 0 { CountAbsent(SelectPart2, '?'); }
  lemma NoPlaceholderInPart3() ensures Placeholders(SelectPart3) == 0 { CountAbsent(SelectPart3, '?'); }
  lemma NoPlaceholderInPart4() ensures Placeholders(SelectPart4) == 0 { CountAbsent(SelectPart4, '?'); }

  lemma SelectUsersHasNoPlaceholder()
    ensures Placeholders(SelectUsers) == 0
  {
    NoPlaceholderInPart1();
    NoPlaceholderInPart2();
    NoPlaceholderInPart3();
    NoPlaceholderInPart4();
    CountConcat(SelectPart1, SelectPart2, '?');
    CountConcat(SelectPart1 + SelectPart2, SelectPart3, '?');
    CountConcat(SelectPart1 + SelectPart2 + SelectPart3, SelectPart4, '?');
  }

  /** `getAll` sends as many parameters as its statement has placeholders. */
  lemma PlaceholdersMatchParams(f: Filter, s: Sort)
    ensures Placeholders(SelectQuery(f, s)) == |SelectParams(f)|
  {
    SelectUsersHasNoPlaceholder();
    WherePlaceholders(Clauses(f));
    OrderByHasNoPlaceholder(s);
    CountAbsent(OrderBy(s), '?');
    CountConcat(SelectUsers, WhereText(Clauses(f)), '?');
    CountConcat(SelectUsers + WhereText(Clauses(f)), OrderBy(s), '?');
  }

  /** The text up to condition k is a prefix of the whole statement. */
  lemma HeadIsPrefix(f: Filter, s: Sort, k: nat)
    requires k < |Clauses(f)|
    ensures SelectUsers + WhereText(Clauses(f)[..k + 1]) <= SelectQuery(f, s)
  {
    var cs := Clauses(f);
    var pre, post := cs[..k + 1], cs[k + 1..];
    assert cs == pre + post;
    Concat(pre, post);
    Assoc(SelectUsers, WhereText(pre), WhereText(post));
    Assoc(SelectUsers + WhereText(pre), WhereText(post), OrderBy(s));
  }

  /** The text up to condition k holds k + 1 placeholders and ends in that condition's text. */
  lemma HeadPlaceholders(cs: seq<Clause>, k: nat)
    requires k < |cs|
    ensures var head := SelectUsers + WhereText(cs[..k + 1]);
      && Placeholders(head) == k + 1
      && head == SelectUsers + WhereText(cs[..k]) + ClauseText(cs[k].column)
  {
    var pre := cs[..k + 1];
    SelectUsersHasNoPlaceholder();
    WherePlaceholders(pre);
    CountConcat(SelectUsers, WhereText(pre), '?');
    assert pre[..k] == cs[..k];
    Assoc(SelectUsers, WhereText(cs[..k]), ClauseText(cs[k].column));
  }

  /**
   * The k-th parameter goes to the k-th condition: the statement starts with a
   * text that holds exactly k + 1 placeholders, ends in the placeholder of
   * condition k, and parameter k is that condition's value.
   */
  lemma PlaceholderBinding(f: Filter, s: Sort, k: nat)
    requires k < |Clauses(f)|
    ensures var cs := Clauses(f);
      var head := SelectUsers + WhereText(cs[..k + 1]);
      && head <= SelectQuery(f, s)
      && Placeholders(head) == k + 1
      && head[|head| - 1] == '?'
      && head[|head| - |ClauseText(cs[k].column)|..] == ClauseText(cs[k].column)
      && SelectParams(f)[k] == cs[k].value
  {
    var cs := Clauses(f);
    HeadIsPrefix(f, s, k);
    HeadPlaceholders(cs, k);
    ClausePlaceholder(cs[k].column);
  }

  /** The conditions appear in the order role, username, email, banned, each at most once. */
  lemma ColumnsInOrder(f: Filter)
    ensures forall i, j :: 0 <= i < j < |Clauses(f)| ==> Rank(Clauses(f)[i].column) < Rank(Clauses(f)[j].column)
  {
    var r, u, e, b := RoleClauses(f), UsernameClauses(f), EmailClauses(f), BannedClauses(f);
    var cs := Clauses(f);
    forall i, j | 0 <= i < j < |cs| ensures Rank(cs[i].column) < Rank(cs[j].column) {
      var ri := if i < |r| then 0 else if i < |r + u| then 1 else if i < |r + u + e| then 2 else 3;
      var rj := if j < |r| then 0 else if j < |r + u| then 1 else if j < |r + u + e| then 2 else 3;
      assert Rank(cs[i].column) == ri;
      assert Rank(cs[j].column) == rj;
    }
  }

  /**
   * A condition on role, username or email is added exactly when that filter
   * value is truthy, and binds the value (wrapped in `%` for LIKE); a banned
   * condition is added exactly when the tri-state rule gives a value.
   */
  lemma ClausesOfFilter(f: Filter)
    ensures forall v :: Clause(RoleColumn, v) in Clauses(f) <==> Truthy(f.role) && v == Text(f.role.value)
    ensures forall v :: Clause(UsernameColumn, v) in Clauses(f) <==>
      Truthy(f.username) && v == Text("%" + f.username.value + "%")
    ensures forall v :: Clause(EmailColumn, v) in Clauses(f) <==>
      Truthy(f.email) && v == Text("%" + f.email.value + "%")
    ensures forall v :: Clause(BannedColumn, v) in Clauses(f) <==>
      BannedBinding(f.banned).Some? && v == Int(BannedBinding(f.banned).value)
  {
  }

  /** The tri-state rule for `filter.banned`. */
  lemma BannedCoercion(b: BannedArg)
    ensures BannedBinding(b).None? <==> b == Undefined || b == StringArg("")
    ensures BannedBinding(b) == Some(1) <==> b == BoolArg(true) || b == StringArg("true")
    ensures BannedBinding(b) == Some(0) <==> b == BoolArg(false) || (b.StringArg? && b.s != "" && b.s != "true")
  {
  }

  /** `f` with every empty string replaced by a missing value. */
  function WithoutEmpty(f: Filter): Filter {
    Filter(
      if f.role == Some("") then None else f.role,
      if f.username == Some("") then None else f.username,
      if f.email == Some("") then None else f.email,
      if f.banned == StringArg("") then Undefined else f.banned)
  }

  /** An empty string imposes no constraint: it gives the statement of a missing value. */
  lemma EmptyStringsImposeNothing(f: Filter, s: Sort)
    ensures SelectQuery(f, s) == SelectQuery(WithoutEmpty(f), s)
    ensures SelectParams(f) == SelectParams(WithoutEmpty(f))
  {
    assert Clauses(f) == Clauses(WithoutEmpty(f));
  }

  /** Which conditions a filter turns on: everything of the filter that can reach the text. */
  function Shape(f: Filter): (bool, bool, bool, bool) {
    (Truthy(f.role), Truthy(f.username), Truthy(f.email), BannedBinding(f.banned).Some?)
  }

  /**
   * Caller values never enter the statement text: two filters that turn on the
   * same conditions give the same text, whatever their values.
   */
  lemma QueryTextIgnoresValues(f1: Filter, f2: Filter, s: Sort)
    requires Shape(f1) == Shape(f2)
    ensures SelectQuery(f1, s) == SelectQuery(f2, s)
  {
    WhereParts(f1);
    WhereParts(f2);
    assert WhereText(RoleClauses(f1)) == WhereText(RoleClauses(f2)) by {
      RoleContribution(f1);
      RoleContribution(f2);
    }
    assert WhereText(UsernameClauses(f1)) == WhereText(UsernameClauses(f2)) by {
      UsernameContribution(f1);
      UsernameContribution(f2);
    }
    assert WhereText(EmailClauses(f1)) == WhereText(EmailClauses(f2)) by {
      EmailContribution(f1);
      EmailContribution(f2);
    }
    assert WhereText(BannedClauses(f1)) == WhereText(BannedClauses(f2)) by {
      BannedContribution(f1);
      BannedContribution(f2);
    }
  }

  /** A missing or unlisted sort field is ignored: the statement is that of no sort at all. */
  lemma UnlistedSortFieldIgnored(f: Filter, s: Sort)
    requires s.field.None? || s.field.value !in SortableFields
    ensures SelectQuery(f, s) == SelectQuery(f, NoSort)
  {
  }

  /** A listed field is appended with DESC exactly when the direction is `'desc'`, and ASC otherwise. */
  lemma SortClause(f: Filter, s: Sort)
    requires s.field.Some? && s.field.value in SortableFields
    ensures var n := |SelectQuery(f, NoSort)|;
      && SelectQuery(f, s)[..n] == SelectQuery(f, NoSort)
      && SelectQuery(f, s)[n..] == " ORDER BY " + s.field.value + " " + Direction(s)
    ensures Direction(s) == "DESC" <==> s.direction == Some("desc")
    ensures Direction(s) == "ASC" <==> s.direction != Some("desc")
  {
    assert s.field.value != "";
  }

  // ---------------------------------------------------------------------
  // What the WHERE conditions select

  /** SQL `LIKE` without an escape character: `%` matches any run of characters, `_` exactly one. */
  predicate Like(s: string, p: string)
    decreases |s| + |p|
  {
    if p == [] then s == []
    else if p[0] == '%' then Like(s, p[1..]) || (s != [] && Like(s[1..], p))
    else s != [] && (p[0] == '_' || p[0] == s[0]) && Like(s[1..], p[1..])
  }

  predicate HoldsFor(c: Clause, u: PublicUser) {
    match c.column
    case RoleColumn => c.value == Text(RoleName(u.role))
    case UsernameColumn => c.value.Text? && Like(u.username, c.value.s)
    case EmailColumn => c.value.Text? && Like(u.email, c.value.s)
    case BannedColumn => c.value == Int(if u.banned then 1 else 0)
  }

  /** A row is selected when it satisfies every condition. */
  predicate Selects(cs: seq<Clause>, u: PublicUser) {
    forall i :: 0 <= i < |cs| ==> HoldsFor(cs[i], u)
  }

  /**
   * What `getAll` selects for a filter: each truthy value constrains its
   * column, username and email by LIKE on `%value%`, and the banned rule
   * restricts to the bound 0 or 1; a missing or empty value constrains nothing.
   */
  lemma FilterMeaning(f: Filter, u: PublicUser)
    ensures Selects(Clauses(f), u) <==>
      && (Truthy(f.role) ==> RoleName(u.role) == f.role.value)
      && (Truthy(f.username) ==> Like(u.username, "%" + f.username.value + "%"))
      && (Truthy(f.email) ==> Like(u.email, "%" + f.email.value + "%"))
      && (BannedBinding(f.banned) == Some(1) ==> u.banned)
      && (BannedBinding(f.banned) == Some(0) ==> !u.banned)
  {
    var r, n, e, b := RoleClauses(f), UsernameClauses(f), EmailClauses(f), BannedClauses(f);
    SelectsConcat(r + n + e, b, u);
    SelectsConcat(r + n, e, u);
    SelectsConcat(r, n, u);
    SelectsAtMostOne(r, u);
    SelectsAtMostOne(n, u);
    SelectsAtMostOne(e, u);
    SelectsAtMostOne(b, u);
  }

  /** A list of at most one condition is satisfied when its condition, if any, holds. */
  lemma SelectsAtMostOne(cs: seq<Clause>, u: PublicUser)
    requires |cs| <= 1
    ensures Selects(cs, u) <==> cs == [] || HoldsFor(cs[0], u)
  {
  }

  /** A row satisfies a list of conditions exactly when it satisfies both halves. */
  lemma SelectsConcat(a: seq<Clause>, b: seq<Clause>, u: PublicUser)
    ensures Selects(a + b, u) <==> Selects(a, u) && Selects(b, u)
  {
    if Selects(a, u) && Selects(b, u) {
      forall i | 0 <= i < |a + b|
        ensures HoldsFor((a + b)[i], u)
      {
        if i < |a| {
          assert (a + b)[i] == a[i];
        } else {
          assert (a + b)[i] == b[i - |a|];
        }
      }
    }
    if Selects(a + b, u) {
      forall i | 0 <= i < |a|
        ensures HoldsFor(a[i], u)
      {
        assert (a + b)[i] == a[i];
      }
      forall i | 0 <= i < |b|
        ensures HoldsFor(b[i], u)
      {
        assert (a + b)[|a| + i] == b[i];
      }
    }
  }


  lemma {:induction false} LikeAnything(s: string)
    ensures Like(s, "%")
  {
    assert "%"[1..] == [];
    if s != [] {
      LikeAnything(s[1..]);
    }
  }

  /** A pattern without wildcards followed by `%` matches exactly the texts it starts. */
  lemma {:induction false} LikePrefix(s: string, x: string)
    requires '%' !in x && '_' !in x
    ensures Like(s, x + "%") <==> x <= s
  {
    if x == [] {
      assert x + "%" == "%";
      LikeAnything(s);
    } else {
      assert (x + "%")[1..] == x[1..] + "%";
      assert '%' !in x[1..] && '_' !in x[1..];
      if s != [] {
        LikePrefix(s[1..], x[1..]);
      }
    }
  }

  /** A leading `%` lets the rest of the pattern match any suffix. */
  lemma {:induction false} LikeSuffix(s: string, p: string)
    ensures Like(s, "%" + p) <==> exists i :: 0 <= i <= |s| && Like(s[i..], p)
  {
    assert ("%" + p)[1..] == p;
    if s == [] {
      assert s[0..] == s;
    } else {
      LikeSuffix(s[1..], p);
      assert s[0..] == s;
      forall i | 1 <= i <= |s| ensures s[i..] == s[1..][i - 1..] {}
      if Like(s[1..], "%" + p) {
        var i :| 0 <= i <= |s[1..]| && Like(s[1..][i..], p);
        assert s[i + 1..] == s[1..][i..];
      }
    }
  }

  /**
   * With a filter value free of `%` and `_`, the LIKE condition `%value%`
   * holds exactly when the value occurs in the column.
   */
  lemma SubstringMatch(s: string, x: string)
    requires '%' !in x && '_' !in x
    ensures Like(s, "%" + x + "%") <==> exists i: nat :: OccursAt(s, x, i)
  {
    assert "%" + x + "%" == "%" + (x + "%");
    LikeSuffix(s, x + "%");
    if Like(s, "%" + x + "%") {
      var i :| 0 <= i <= |s| && Like(s[i..], x + "%");
      LikePrefix(s[i..], x);
      assert OccursAt(s, x, i);
    }
    if exists i: nat :: OccursAt(s, x, i) {
      var i: nat :| OccursAt(s, x, i);
      LikePrefix(s[i..], x);
      assert x <= s[i..];
    }
  }

  // ---------------------------------------------------------------------
  // `update`: one `key = ?` per entry, then the id

  /** The keys of the field map, in `Object.entries` order. */
  function Keys(data: seq<(string, Param)>): seq<string> {
    seq(|data|, i requires 0 <= i < |data| => data[i].0)
  }

  /** The entries' values, in the same order. */
  function Values(data: seq<(string, Param)>): seq<Param> {
    seq(|data|, i requires 0 <= i < |data| => data[i].1)
  }

  /** The SET items: each key spliced into the text as it is, followed by ` = ?`. */
  function SetItems(data: seq<(string, Param)>): seq<string> {
    seq(|data|, i requires 0 <= i < |data| => data[i].0 + " = ?")
  }

  const UpdateHead := "UPDATE users SET "
  const UpdateTail := " WHERE id = ?"

  function UpdateQuery(data: seq<(string, Param)>): string {
    UpdateHead + Join(SetItems(data), ", ") + UpdateTail
  }

  function UpdateParams(id: int, data: seq<(string, Param)>): seq<Param> {
    Values(data) + [Int(id)]
  }

  /** `update`, lines 131-140. */
  method BuildUpdate(id: int, data: seq<(string, Param)>) returns (query: string, params: seq<Param>)
    ensures query == UpdateQuery(data)
    ensures params == UpdateParams(id, data)
  {
    query := "UPDATE users SET ";
    params := [];
    var fields: seq<string> := [];
    var i := 0;
    while i < |data|
      invariant 0 <= i <= |data|
      invariant fields == SetItems(data[..i])
      invariant params == Values(data[..i])
    {
      var (key, value) := data[i];
      fields := fields + [key + " = ?"];
      params := params + [value];
      i := i + 1;
    }
    assert data[..i] == data;
    query := query + Join(fields, ", ") + " WHERE id = ?";
    params := params + [Int(id)];
  }

  /** The values are sent in entry order, and the id is the last parameter. */
  lemma UpdateParamOrder(id: int, data: seq<(string, Param)>)
    ensures |UpdateParams(id, data)| == |data| + 1
    ensures forall i :: 0 <= i < |data| ==> UpdateParams(id, data)[i] == data[i].1
    ensures UpdateParams(id, data)[|data|] == Int(id)
  {
  }

  lemma {:induction false} SetItemPlaceholders(data: seq<(string, Param)>)
    ensures CountAll(SetItems(data), '?') == |data| + CountAll(Keys(data), '?')
  {
    if data != [] {
      assert SetItems(data)[1..] == SetItems(data[1..]);
      assert Keys(data)[1..] == Keys(data[1..]);
      SetItemPlaceholders(data[1..]);
      CountAbsent(" = ", '?');
      CountConcat(" = ", "?", '?');
      assert " = ?" == " = " + "?";
      CountConcat(data[0].0, " = ?", '?');
    }
  }

  lemma NoPlaceholderInUpdateHead() ensures Placeholders(UpdateHead) == 0 { CountAbsent(UpdateHead, '?'); }

  lemma OnePlaceholderInUpdateTail()
    ensures Placeholders(UpdateTail) == 1
  {
    assert UpdateTail == " WHERE id = " + "?";
    CountAbsent(" WHERE id = ", '?');
    CountConcat(" WHERE id = ", "?", '?');
  }

  /**
   * The statement of `update` has one placeholder per entry and one for the
   * id, plus every `?` the keys themselves carry, since keys enter the text
   * unescaped.
   */
  lemma UpdatePlaceholders(data: seq<(string, Param)>)
    ensures Placeholders(UpdateQuery(data)) == |data| + 1 + CountAll(Keys(data), '?')
  {
    NoPlaceholderInUpdateHead();
    OnePlaceholderInUpdateTail();
    SetListBetween(UpdateHead, data, UpdateTail);
  }

  /** The SET list between a text without placeholders and a text with one. */
  lemma SetListBetween(head: string, data: seq<(string, Param)>, tail: string)
    requires Placeholders(head) == 0 && Placeholders(tail) == 1
    ensures Placeholders(head + Join(SetItems(data), ", ") + tail) == |data| + 1 + CountAll(Keys(data), '?')
  {
    var list := Join(SetItems(data), ", ");
    CountJoin(SetItems(data), ", ", '?');
    SetItemPlaceholders(data);
    CountConcat(head, list, '?');
    CountConcat(head + list, tail, '?');
  }

  /** With keys free of `?`, placeholders and parameters correspond one to one. */
  lemma UpdatePlaceholdersMatchParams(id: int, data: seq<(string, Param)>)
    requires forall i :: 0 <= i < |data| ==> '?' !in data[i].0
    ensures Placeholders(UpdateQuery(data)) == |UpdateParams(id, data)|
  {
    UpdatePlaceholders(data);
    KeysWithoutPlaceholders(Keys(data));
  }

  lemma {:induction false} KeysWithoutPlaceholders(keys: seq<string>)
    requires forall i :: 0 <= i < |keys| ==> '?' !in keys[i]
    ensures CountAll(keys, '?') == 0
  {
    if keys != [] {
      CountAbsent(keys[0], '?');
      KeysWithoutPlaceholders(keys[1..]);
    }
  }

  /** A key that smuggles a second SET item, with its own placeholder, into the statement. */
  const SplicedKey := "role = " + "?" + ", banned"

  lemma OnePlaceholderInSplicedKey()
    ensures Placeholders(SplicedKey) == 1
  {
    CountAbsent("role = ", '?');
    CountAbsent(", banned", '?');
    CountConcat("role = ", "?", '?');
    CountConcat("role = " + "?", ", banned", '?');
  }

  /**
   * A key carrying SQL text breaks the correspondence: the single entry
   * `{"role = ?, banned": "admin"}` gives three placeholders for two parameters.
   */
  lemma KeyWithPlaceholderShiftsParams()
    ensures var data := [(SplicedKey, Text("admin"))];
      Placeholders(UpdateQuery(data)) == 3 && |UpdateParams(7, data)| == 2
  {
    var data := [(SplicedKey, Text("admin"))];
    UpdatePlaceholders(data);
    assert Keys(data) == [SplicedKey];
    assert Keys(data)[1..] == [];
    OnePlaceholderInSplicedKey();
  }
}
