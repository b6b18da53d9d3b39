/**
 * The in-memory users table and bearer-token authentication: login issues one
 * token and revokes the account's earlier ones, a token resolves to the first
 * account (in table order) holding it, logout clears the resolved account's
 * tokens, and only the `admin` role may change the status.
 */
module Auth {
  import opened Wrappers

  const AdminRole := "admin"
  const ViewerRole := "viewer"

  datatype Account = Account(name: string, password: string, tokens: set<string>, role: string)

  /** The user a request is made by, as `get_current_user` reports it. */
  datatype Principal = Principal(name: string, role: string)

  datatype AuthError =
    | InvalidCredentials  // login: HTTP 401
    | InvalidToken        // no account holds the bearer token: HTTP 401
    | NotAdmin            // HTTP 403

  datatype LoginReply = LoginReply(token: string, role: string)

  /** The table is a dictionary keyed by user name, kept in insertion order. */
  predicate UniqueNames(db: seq<Account>) {
    forall i, j :: 0 <= i < j < |db| ==> db[i].name != db[j].name
  }

  /** The two built-in accounts, neither logged in. */
  function InitialDb(): (db: seq<Account>)
    ensures UniqueNames(db) && |db| == 2
    ensures forall i :: 0 <= i < |db| ==> db[i].tokens == {}
    ensures db[0].name == "admin" && db[0].role == AdminRole
    ensures db[1].name == "monitor" && db[1].role == ViewerRole
  {
    [ Account("admin", "password123", {}, AdminRole),
      Account("monitor", "readonly456", {}, ViewerRole) ]
  }

  /** `USERS_DB.get(name)`: the position of the account with that name. */
  function FindAccount(db: seq<Account>, name: string): (r: Option<nat>)
    ensures r.Some? ==> r.value < |db| && db[r.value].name == name
    ensures r.None? <==> forall i :: 0 <= i < |db| ==> db[i].name != name
  {
    if |db| == 0 then None
    else if db[0].name == name then Some(0)
    else match FindAccount(db[1..], name)
      case None => None
      case Some(k) => Some(k + 1)
  }

  /** The first account, in table order, holding the token. */
  function TokenHolder(db: seq<Account>, token: string): (r: Option<nat>)
    ensures r.Some? ==> r.value < |db| && token in db[r.value].tokens
    ensures r.Some? ==> forall i :: 0 <= i < r.value ==> token !in db[i].tokens
    ensures r.None? <==> forall i :: 0 <= i < |db| ==> token !in db[i].tokens
  {
    if |db| == 0 then None
    else if token in db[0].tokens then Some(0)
    else match TokenHolder(db[1..], token)
      case None => None
      case Some(k) => Some(k + 1)
  }

  /** `get_current_user`. */
  function CurrentUser(db: seq<Account>, token: string): (r: Result<Principal, AuthError>)
    ensures r.Ok? <==> exists i :: 0 <= i < |db| && token in db[i].tokens
    ensures r.Err? ==> r.error == InvalidToken
    ensures r.Ok? ==> exists i :: 0 <= i < |db| && token in db[i].tokens
                        && (forall j :: 0 <= j < i ==> token !in db[j].tokens)
                        && r.value == Principal(db[i].name, db[i].role)
  {
    match TokenHolder(db, token)
    case None => Err(InvalidToken)
    case Some(i) => Ok(Principal(db[i].name, db[i].role))
  }

  /** `check_admin_permissions`. */
  function RequireAdmin(p: Principal): (r: Result<Principal, AuthError>)
    ensures r.Ok? <==> p.role == AdminRole
    ensures r.Ok? ==> r.value == p
    ensures r.Err? ==> r.error == NotAdmin
  {
    if p.role != AdminRole then Err(NotAdmin) else Ok(p)
  }

  /** The table with one account's token set replaced. */
  function WithTokens(db: seq<Account>, i: nat, tokens: set<string>): (r: seq<Account>)
    requires i < |db|
    ensures |r| == |db| && r[i].tokens == tokens
    ensures r[i] == db[i].(tokens := tokens)
    ensures forall j :: 0 <= j < |db| && j != i ==> r[j] == db[j]
  {
    db[i := db[i].(tokens := tokens)]
  }

  /** `POST /login`; the freshly drawn token is a parameter. */
  function Login(db: seq<Account>, name: string, password: string, token: string)
    : (r: Result<(seq<Account>, LoginReply), AuthError>)
    ensures r.Ok? <==> FindAccount(db, name).Some? && db[FindAccount(db, name).value].password == password
    ensures r.Err? ==> r.error == InvalidCredentials
    ensures r.Ok? ==> var i := FindAccount(db, name).value;
                      && r.value.0 == WithTokens(db, i, {token})
                      && r.value.1 == LoginReply(token, db[i].role)
  {
    match FindAccount(db, name)
    case None => Err(InvalidCredentials)
    case Some(i) =>
      if password != db[i].password then Err(InvalidCredentials)
      else Ok((WithTokens(db, i, {token}), LoginReply(token, db[i].role)))
  }

  /** `POST /logout`: the caller's account loses every token. */
  function Logout(db: seq<Account>, token: string): (r: Result<seq<Account>, AuthError>)
    ensures r.Ok? <==> CurrentUser(db, token).Ok?
    ensures r.Err? ==> r.error == InvalidToken
    ensures r.Ok? ==> var i := TokenHolder(db, token).value;
                      r.value == WithTokens(db, i, {})
  {
    match TokenHolder(db, token)
    case None => Err(InvalidToken)
    case Some(i) => Ok(WithTokens(db, i, {}))
  }

  /** Only token sets change, so names stay unique. */
  lemma TokensKeepNamesUnique(db: seq<Account>, i: nat, tokens: set<string>)
    requires i < |db| && UniqueNames(db)
    ensures UniqueNames(WithTokens(db, i, tokens))
  {
  }

  /** With unique names, an account is found exactly at its own position. */
  lemma FindAccountAt(db: seq<Account>, i: nat)
    requires UniqueNames(db) && i < |db|
    ensures FindAccount(db, db[i].name) == Some(i)
  {
    var k := FindAccount(db, db[i].name);
    assert k.Some?;
  }

  /** Nobody is logged in at startup. */
  lemma NoSessionAtStartup(token: string)
    ensures CurrentUser(InitialDb(), token) == Err(InvalidToken)
  {
  }

  /** A successful login's token identifies the user, unless an earlier account
      in the table already happens to hold the same token. */
  lemma LoginTokenIdentifiesUser(db: seq<Account>, name: string, password: string, token: string)
    requires Login(db, name, password, token).Ok?
    requires forall j :: 0 <= j < FindAccount(db, name).value ==> token !in db[j].tokens
    ensures var i := FindAccount(db, name).value;
            CurrentUser(Login(db, name, password, token).value.0, token) == Ok(Principal(name, db[i].role))
  {
    var i := FindAccount(db, name).value;
    var db' := Login(db, name, password, token).value.0;
    assert token in db'[i].tokens;
  }

  /** Logging in again revokes every token the account held before. */
  lemma LoginRevokesEarlierTokens(db: seq<Account>, name: string, password: string, token: string, earlier: string)
    requires UniqueNames(db)
    requires Login(db, name, password, token).Ok? && earlier != token
    ensures CurrentUser(Login(db, name, password, token).value.0, earlier).Ok? ==>
              CurrentUser(Login(db, name, password, token).value.0, earlier).value.name != name
  {
    var i := FindAccount(db, name).value;
    var db' := Login(db, name, password, token).value.0;
    if TokenHolder(db', earlier).Some? {
      var h := TokenHolder(db', earlier).value;
      assert h != i;
      assert db'[h].name == db[h].name;
    }
  }

  /** After logout the token no longer identifies the user who logged out. */
  lemma LogoutEndsSession(db: seq<Account>, token: string)
    requires UniqueNames(db)
    requires Logout(db, token).Ok?
    ensures var user := CurrentUser(db, token).value;
            var after := CurrentUser(Logout(db, token).value, token);
            after.Ok? ==> after.value.name != user.name
  {
    var i := TokenHolder(db, token).value;
    var db' := Logout(db, token).value;
    if TokenHolder(db', token).Some? {
      var h := TokenHolder(db', token).value;
      assert h != i;
      assert db'[h].name == db[h].name;
    }
  }

  /** A token held by several accounts resolves to the first of them in table order. */
  lemma SharedTokenResolvesToFirst(db: seq<Account>, token: string, i: nat, j: nat)
    requires i < j < |db| && token in db[i].tokens && token in db[j].tokens
    requires forall k :: 0 <= k < i ==> token !in db[k].tokens
    ensures CurrentUser(db, token) == Ok(Principal(db[i].name, db[i].role))
  {
    var h := TokenHolder(db, token);
    assert h.Some? && h.value == i;
  }
}
