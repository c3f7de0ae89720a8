/**
 * The identity use case of internal/usecase/user.go: Create, Auth, ChangeState,
 * Validate and UpdateToken over the user store, the handle table and the
 * refresh-token cache. Everything the source learns from a collaborator it
 * cannot see (the driver, bcrypt, the JWT library, uuid, the clock, Redis) is a
 * field of Env.
 */
module UseCase {
  import opened Wrappers
  import opened Model
  import Util
  import Postgres
  import Repo
  import Web

  /** The outcome of comparing a password with a stored bcrypt hash. */
  datatype HashCheck = Match | Mismatch | CheckFailed(cause: Error)

  /** What the access-token verifier reports; an expired token is reported by the error text "Token is expired". */
  datatype TokenStatus = Valid | Expired | Invalid(cause: Error)

  /** The verifier returns the token's id claim whether or not verification succeeded. */
  datatype Verified = Verified(id: Uuid, status: TokenStatus)

  datatype TokenPair = TokenPair(accessToken: string, refreshToken: string)

  /** The outcomes of the collaborators that one use-case call consults. */
  datatype Env = Env(
    readErr: Option<Error>,                  // driver failure of the read query
    hashed: Result<string, Error>,           // util.HashPassword
    check: HashCheck,                        // util.VerifyPasswordFromHash
    acquireErr: Option<Error>,               // pool Acquire
    beginErr: Option<Error>,                 // conn.Begin
    newId: Uuid,                             // the id tbl_user assigns
    execErr: Option<Error>,                  // driver failure of the write statement
    commitErr: Option<Error>,                // tx.Commit
    now: Time,                               // util.NowUTC
    token: Verified,                         // dto.VerifyAccessToken
    accessToken: Result<string, Error>,      // dto.GenerateAccessToken
    refreshToken: Result<string, Error>,     // dto.GenerateRefreshToken
    cacheErr: Option<Error>)                 // webAPI.AddRefreshToken

  // ------------------------------------------------------ error classification

  /** Auth's reading of the password check: a mismatch is Unauthorized, any other failure propagates. */
  function PasswordCheckError(c: HashCheck): (r: Option<Error>)
    ensures r.None? <==> c.Match?
    ensures c.Mismatch? ==> r == Some(Unauthorized)
    ensures c.CheckFailed? ==> r == Some(c.cause)
  {
    match c
    case Match => None
    case Mismatch => Some(Unauthorized)
    case CheckFailed(e) => Some(e)
  }

  /** Validate's gate: only a token that verifies passes, every failure is Unauthorized. */
  function ValidateGate(s: TokenStatus): (r: Option<Error>)
    ensures r.None? <==> s.Valid?
    ensures r.Some? ==> r.value == Unauthorized
  {
    if s.Valid? then None else Some(Unauthorized)
  }

  /**
   * UpdateToken's inverted gate: a failure other than expiry is Unauthorized, a
   * token that still verifies is Forbidden, and only an expired token proceeds.
   */
  function RotationGate(s: TokenStatus): (r: Option<Error>)
    ensures r.None? <==> s.Expired?
    ensures s.Valid? ==> r == Some(Forbidden)
    ensures s.Invalid? ==> r == Some(Unauthorized)
  {
    if s.Invalid? then Some(Unauthorized)
    else if s.Valid? then Some(Forbidden)
    else None
  }

  /** No token passes both gates: a token good for Validate is refused rotation, and the converse. */
  lemma GatesExclusive(s: TokenStatus)
    ensures ValidateGate(s).None? ==> RotationGate(s) == Some(Forbidden)
    ensures RotationGate(s).None? ==> ValidateGate(s) == Some(Unauthorized)
  {
  }

  // ------------------------------------------------------------ table lemmas

  /** Appending a live row whose name no live row has keeps ids and live names unique. */
  lemma AppendKeepsInvariants(t: Table, u: User)
    requires IdsUnique(t) && LiveNamesUnique(t)
    requires forall j | 0 <= j < |t| :: t[j].id != u.id
    requires forall j | 0 <= j < |t| :: !Repo.Selects(t[j], Repo.ByUsername(u.username))
    ensures IdsUnique(t + [u]) && LiveNamesUnique(t + [u])
  {
  }

  /**
   * Updating the live row t[j] by its own id and version changes that row alone,
   * keeps ids and live names unique, and leaves every deleted row as it was.
   */
  lemma UpdateLiveRow(t: Table, j: nat, next: User)
    requires IdsUnique(t) && LiveNamesUnique(t)
    requires j < |t| && t[j].state != Deleted
    ensures var r := Repo.UpdateWhere(t, t[j].id, t[j].version, next);
      |r| == |t| && r[j] == Repo.SetColumns(t[j], next) &&
      (forall i | 0 <= i < |t| && i != j :: r[i] == t[i]) &&
      IdsUnique(r) && LiveNamesUnique(r)
  {
    var r := Repo.UpdateWhere(t, t[j].id, t[j].version, next);
    forall i | 0 <= i < |t| && i != j
      ensures r[i] == t[i]
    {
      assert t[i].id != t[j].id;
    }
    Repo.UpdateKeepsIds(t, t[j].id, t[j].version, next);
  }

  /** The error a failed PgTxBegin reports: an exhausted pool, else Acquire's error, else Begin's. */
  function BeginError(inUse: nat, maxConns: nat, env: Env): Error
  {
    if inUse >= maxConns then PoolExhausted
    else if env.acquireErr.Some? then env.acquireErr.value
    else if env.beginErr.Some? then env.beginErr.value
    else InternalServerError
  }

  // ---------------------------------------------------------------- use case

  class UserUseCase {
    const pg: Postgres.Postgres
    const web: Web.WebAPI

    /** The handle table is consistent, and the table keeps its ids and its live usernames distinct. */
    ghost predicate Valid()
      reads this, pg
    {
      pg.Valid() && IdsUnique(pg.table) && LiveNamesUnique(pg.table)
    }

    constructor (pg: Postgres.Postgres, web: Web.WebAPI)
      requires pg.Valid() && IdsUnique(pg.table) && LiveNamesUnique(pg.table)
      ensures this.pg == pg && this.web == web && Valid()
    {
      this.pg := pg;
      this.web := web;
    }

    /**
     * Auth: looks the user up by name and checks the password; a missing user
     * and a mismatch are Unauthorized. On success it issues an access and a
     * refresh token and caches the refresh token under the user's id.
     */
    method Auth(username: string, password: string, env: Env) returns (r: Result<TokenPair, Error>)
      requires Valid()
      modifies web
      ensures var found := Repo.GetByUsername(pg.table, username, env.readErr);
        && (found.Err? ==> r == Err(found.error))
        && (found == Ok(None) ==> r == Err(Unauthorized))
        && (found.Ok? && found.value.Some? && !env.check.Match? ==> r == Err(PasswordCheckError(env.check).value))
        && (found.Ok? && found.value.Some? && env.check.Match? ==>
              && (env.accessToken.Err? ==> r == Err(env.accessToken.error))
              && (env.accessToken.Ok? && env.refreshToken.Err? ==> r == Err(env.refreshToken.error))
              && (env.accessToken.Ok? && env.refreshToken.Ok? && env.cacheErr.Some? ==> r == Err(env.cacheErr.value)))
        && (r.Ok? <==> found.Ok? && found.value.Some? && env.check.Match? &&
                       env.accessToken.Ok? && env.refreshToken.Ok? && env.cacheErr.None?)
        && (r.Ok? ==> r.value == TokenPair(env.accessToken.value, env.refreshToken.value) &&
                      web.refreshTokens == old(web.refreshTokens)[found.value.value.id := r.value.refreshToken])
      ensures r.Err? ==> web.refreshTokens == old(web.refreshTokens)
    {
      var found := Repo.GetByUsername(pg.table, username, env.readErr);
      if found.Err? {
        return Err(found.error);
      }
      if found.value.None? {
        return Err(Unauthorized);
      }
      var user := found.value.value;
      var checkErr := PasswordCheckError(env.check);
      if checkErr.Some? {
        return Err(checkErr.value);
      }
      if env.accessToken.Err? {
        return Err(env.accessToken.error);
      }
      if env.refreshToken.Err? {
        return Err(env.refreshToken.error);
      }
      var err := web.AddRefreshToken(user.id, env.refreshToken.value, env.cacheErr);
      if err.Some? {
        return Err(err.value);
      }
      r := Ok(TokenPair(env.accessToken.value, env.refreshToken.value));
    }

    /** The row Create inserts once the store has assigned its id. */
    static function NewUserRow(username: string, hash: string, env: Env): User
    {
      Repo.InsertedRow(User(0, username, hash, Enabled, env.now, env.now, 0), env.newId)
    }

    /**
     * Create: refuses a name a live user has (Conflict), hashes the password,
     * then opens a handle, inserts an enabled user with equal timestamps and
     * ends the handle with the insert's error. As in the source, the error
     * returned is the insert's: the deferred TxEnd result, and so a failed
     * commit, is not reported.
     */
    method Create(username: string, password: string, env: Env) returns (err: Option<Error>)
      requires Valid()
      modifies pg
      ensures Valid()
      ensures pg.txMap == old(pg.txMap) && pg.inUse == old(pg.inUse)
      ensures var found := Repo.GetByUsername(old(pg.table), username, env.readErr);
        var begun := found == Ok(None) && env.hashed.Ok? &&
                      old(pg.inUse) < pg.maxConns && env.acquireErr.None? && env.beginErr.None?;
        && (found.Err? ==> err == Some(found.error))
        && (found.Ok? && found.value.Some? ==> err == Some(Conflict))
        && (found == Ok(None) && env.hashed.Err? ==> err == Some(env.hashed.error))
        && (found == Ok(None) && env.hashed.Ok? && !begun ==> err == Some(BeginError(old(pg.inUse), pg.maxConns, env)))
        && (!begun ==> pg.table == old(pg.table) && pg.idTx == old(pg.idTx))
        && (begun ==> pg.idTx == Postgres.NextTxId(old(pg.txMap), old(pg.idTx)))
        && (begun ==> (err.None? <==> env.execErr.None? && forall j | 0 <= j < |old(pg.table)| :: old(pg.table)[j].id != env.newId))
        && (begun && err.Some? ==> err == Some(if env.execErr.Some? then env.execErr.value else ConstraintViolation))
        && (begun && err.None? && env.commitErr.None? ==>
              pg.table == old(pg.table) + [NewUserRow(username, env.hashed.value, env)])
        && (!(begun && err.None? && env.commitErr.None?) ==> pg.table == old(pg.table))
    {
      var found := Repo.GetByUsername(pg.table, username, env.readErr);
      if found.Err? {
        return Some(found.error);
      }
      if found.value.Some? {
        return Some(Conflict);
      }
      if env.hashed.Err? {
        return Some(env.hashed.error);
      }
      var pwdHash := env.hashed.value;
      ghost var t0 := pg.table;
      var txId, beginErr := pg.PgTxBegin(env.acquireErr, env.beginErr);
      if beginErr.Some? {
        return beginErr;
      }
      var userModel := User(0, username, pwdHash, Enabled, env.now, env.now, 0);
      var _, createErr := Repo.Create(pg, userModel, txId, env.newId, env.execErr);
      // deferred: err = TxEnd(txId, err), which does not change the returned value
      var endErr := pg.PgTxEnd(txId, createErr, env.commitErr);
      if createErr.None? && env.commitErr.None? {
        AppendKeepsInvariants(t0, NewUserRow(username, pwdHash, env));
      }
      err := createErr;
    }

    /** The row values ChangeState writes: the target state, the clock, the next version. */
    static function NextRow(user: User, state: State, env: Env): User
    {
      User(0, "", "", state, 0, env.now, Util.VersionInc(user.version))
    }

    /**
     * ChangeState: finds the live user by name (NotFound otherwise), opens a
     * handle, runs the compare-and-set update with the fetched row as baseline
     * and the version incremented, and ends the handle with the update's error.
     * As in the source, a failed commit is not reported.
     */
    method ChangeState(username: string, state: State, env: Env) returns (err: Option<Error>)
      requires Valid()
      modifies pg
      ensures Valid()
      ensures pg.txMap == old(pg.txMap) && pg.inUse == old(pg.inUse)
      ensures var found := Repo.GetByUsername(old(pg.table), username, env.readErr);
        var begun := found.Ok? && found.value.Some? &&
                      old(pg.inUse) < pg.maxConns && env.acquireErr.None? && env.beginErr.None?;
        && (found.Err? ==> err == Some(found.error))
        && (found == Ok(None) ==> err == Some(NotFound))
        && (found.Ok? && found.value.Some? && !begun ==> err == Some(BeginError(old(pg.inUse), pg.maxConns, env)))
        && (!begun ==> pg.table == old(pg.table) && pg.idTx == old(pg.idTx))
        && (begun ==> pg.idTx == Postgres.NextTxId(old(pg.txMap), old(pg.idTx)) && err == env.execErr)
        && (begun && env.execErr.None? && env.commitErr.None? ==>
              var user := found.value.value;
              pg.table == Repo.UpdateWhere(old(pg.table), user.id, user.version, NextRow(user, state, env)))
        && (!(begun && env.execErr.None? && env.commitErr.None?) ==> pg.table == old(pg.table))
        && (begun && env.execErr.None? && env.commitErr.None? && state == Deleted ==>
              Repo.GetByUsername(pg.table, username, None) == Ok(None))
      ensures |pg.table| == |old(pg.table)|
      ensures forall j | 0 <= j < |old(pg.table)| && old(pg.table)[j].state == Deleted :: pg.table[j] == old(pg.table)[j]
    {
      var found := Repo.GetByUsername(pg.table, username, env.readErr);
      if found.Err? {
        return Some(found.error);
      }
      if found.value.None? {
        return Some(NotFound);
      }
      var user := found.value.value;
      ghost var t0 := pg.table;
      ghost var j :| 0 <= j < |t0| && t0[j] == user;
      var txId, beginErr := pg.PgTxBegin(env.acquireErr, env.beginErr);
      if beginErr.Some? {
        return beginErr;
      }
      var userModel := NextRow(user, state, env);
      assert Repo.CasMatch(t0[j], user.id, user.version);
      var changeErr := Repo.ChangeState(pg, user, userModel, txId, env.execErr);
      // deferred: err = TxEnd(txId, err), which does not change the returned value
      var endErr := pg.PgTxEnd(txId, changeErr, env.commitErr);
      UpdateLiveRow(t0, j, userModel);
      if state == Deleted && env.execErr.None? && env.commitErr.None? {
        DeletedNameVanishes(t0, j, userModel);
      }
      err := changeErr;
    }

    /**
     * Validate: a token that does not verify is Unauthorized; otherwise only a
     * failing read is reported, so a token whose user is missing or deleted passes.
     */
    function Validate(env: Env): (err: Option<Error>)
      reads pg
      ensures !env.token.status.Valid? ==> err == Some(Unauthorized)
      ensures env.token.status.Valid? ==> err == env.readErr
    {
      if ValidateGate(env.token.status).Some? then ValidateGate(env.token.status)
      else
        var got := Repo.GetById(pg.table, env.token.id, env.readErr);
        if got.Err? then Some(got.error) else None
    }

    /** Validate with the rule that a token whose user is missing or deleted must fail validation. */
    function ValidateExisting(env: Env): (err: Option<Error>)
      reads pg
      ensures err.None? <==> env.token.status.Valid? && env.readErr.None? &&
                             exists j | 0 <= j < |pg.table| :: Repo.Selects(pg.table[j], Repo.ById(env.token.id))
      ensures !env.token.status.Valid? ==> err == Some(Unauthorized)
      ensures env.token.status.Valid? && env.readErr.None? && err.Some? ==> err == Some(NotFound)
    {
      if ValidateGate(env.token.status).Some? then ValidateGate(env.token.status)
      else
        match Repo.GetById(pg.table, env.token.id, env.readErr)
        case Err(e) => Some(e)
        case Ok(None) => Some(NotFound)
        case Ok(Some(_)) => None
    }

    /** The token of a deleted user still passes Validate as written, and fails the intended check. */
    lemma ValidateAcceptsDeletedUser(env: Env, j: nat)
      requires Valid()
      requires j < |pg.table| && pg.table[j].state == Deleted
      requires env.token == Verified(pg.table[j].id, TokenStatus.Valid) && env.readErr.None?
      ensures Validate(env).None?
      ensures ValidateExisting(env) == Some(NotFound)
    {
      var t := pg.table;
      forall i | 0 <= i < |t|
        ensures !Repo.Selects(t[i], Repo.ById(t[j].id))
      {
        if i != j {
          assert t[i].id != t[j].id;
        }
      }
    }

    /**
     * UpdateToken: refuses a token that verifies (Forbidden) or fails for a reason
     * other than expiry (Unauthorized). For an expired token it looks the claimed
     * user up by id; a failed read or a missing user returns the expiry error.
     * Otherwise it issues a new pair and caches the refresh token under that id.
     */
    method UpdateToken(env: Env) returns (r: Result<TokenPair, Error>)
      requires Valid()
      modifies web
      ensures var status := env.token.status;
        var got := Repo.GetById(pg.table, env.token.id, env.readErr);
        && (RotationGate(status).Some? ==> r == Err(RotationGate(status).value))
        && (status.Expired? && (got.Err? || got.value.None?) ==> r == Err(TokenExpired))
        && (status.Expired? && got.Ok? && got.value.Some? ==>
              && (env.accessToken.Err? ==> r == Err(env.accessToken.error))
              && (env.accessToken.Ok? && env.refreshToken.Err? ==> r == Err(env.refreshToken.error))
              && (env.accessToken.Ok? && env.refreshToken.Ok? && env.cacheErr.Some? ==> r == Err(env.cacheErr.value)))
        && (r.Ok? <==> status.Expired? && got.Ok? && got.value.Some? &&
                       env.accessToken.Ok? && env.refreshToken.Ok? && env.cacheErr.None?)
        && (r.Ok? ==> r.value == TokenPair(env.accessToken.value, env.refreshToken.value) &&
                      web.refreshTokens == old(web.refreshTokens)[env.token.id := r.value.refreshToken])
      ensures r.Err? ==> web.refreshTokens == old(web.refreshTokens)
    {
      var userId := env.token.id;
      var gate := RotationGate(env.token.status);
      if gate.Some? {
        return Err(gate.value);
      }
      var err := TokenExpired;
      var userById := Repo.GetById(pg.table, userId, env.readErr);
      if userById.Err? {
        return Err(err);
      }
      if userById.value.None? {
        return Err(err);
      }
      if env.accessToken.Err? {
        return Err(env.accessToken.error);
      }
      if env.refreshToken.Err? {
        return Err(env.refreshToken.error);
      }
      var cacheErr := web.AddRefreshToken(userId, env.refreshToken.value, env.cacheErr);
      if cacheErr.Some? {
        return Err(cacheErr.value);
      }
      r := Ok(TokenPair(env.accessToken.value, env.refreshToken.value));
    }
  }

  /** After the live row t[j] is set to Deleted, no live row carries its name any more. */
  lemma DeletedNameVanishes(t: Table, j: nat, next: User)
    requires IdsUnique(t) && LiveNamesUnique(t)
    requires j < |t| && t[j].state != Deleted && next.state == Deleted
    ensures Repo.GetByUsername(Repo.UpdateWhere(t, t[j].id, t[j].version, next), t[j].username, None) == Ok(None)
  {
    UpdateLiveRow(t, j, next);
    var r := Repo.UpdateWhere(t, t[j].id, t[j].version, next);
    forall i | 0 <= i < |r|
      ensures !Repo.Selects(r[i], Repo.ByUsername(t[j].username))
    {
      if i != j {
        assert r[i] == t[i];
      }
    }
  }
}
