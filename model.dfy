/**
 * The entities and error values of internal/model: the lifecycle State with
 * ParseState, the error kinds the use case reasons about, and the User row of
 * tbl_user.
 */
module Model {
  import opened Wrappers
  import Util

  /** A uuid.UUID; 0 plays uuid.Nil. */
  type Uuid = nat
  /** An instant as returned by the clock (time.Time in UTC). */
  type Time = int

  /** The closed lifecycle enumeration. */
  datatype State = Enabled | Disabled | Deleted

  /** The string each State constant stands for. */
  function StateName(s: State): string
  {
    match s
    case Enabled => "enabled"
    case Disabled => "disabled"
    case Deleted => "deleted"
  }

  /**
   * The error values of the core. The first nine are the sentinels of
   * internal/model; the rest are errors the core receives from or raises
   * around its collaborators.
   */
  datatype Error =
    | TypeNotMatched
    | Unauthorized
    | NotFound
    | Forbidden
    | AlreadyExists
    | BadRequest
    | Conflict
    | InternalServerError
    | NoRowsAffected
      /** "pgTx not found": the handle is not live. */
    | TxNotFound
      /** No connection could be acquired from the pool. */
    | PoolExhausted
      /** The store refused an insert whose id is already taken. */
    | ConstraintViolation
      /** The token verifier's "Token is expired". */
    | TokenExpired
      /** Any other error of a driver, the cache, the hasher or the token library. */
    | External(cause: string)

  /** Accepts exactly the three state names; any other string is TypeNotMatched. */
  function ParseState(s: string): (r: Result<State, Error>)
    ensures r.Ok? <==> s == "enabled" || s == "disabled" || s == "deleted"
    ensures r.Ok? ==> StateName(r.value) == s
    ensures r.Err? ==> r.error == TypeNotMatched
  {
    if s == StateName(Enabled) then Ok(Enabled)
    else if s == StateName(Disabled) then Ok(Disabled)
    else if s == StateName(Deleted) then Ok(Deleted)
    else Err(TypeNotMatched)
  }

  /** Parsing the name of a declared state gives that state back. */
  lemma ParseStateRoundTrip(s: State)
    ensures ParseState(StateName(s)) == Ok(s)
  {
  }

  /** Distinct states have distinct names, so a parsed name determines its state. */
  lemma StateNameInjective(a: State, b: State)
    requires StateName(a) == StateName(b)
    ensures a == b
  {
  }

  /** A row of tbl_user. */
  datatype User = User(
    id: Uuid,
    username: string,
    password: string,
    state: State,
    createTs: Time,
    updateTs: Time,
    version: Util.Int64)

  /** The rows of tbl_user, in the order the store returns them. */
  type Table = seq<User>

  /** The primary key: no two rows share an id. */
  ghost predicate IdsUnique(t: Table)
  {
    forall i, j :: 0 <= i < j < |t| ==> t[i].id != t[j].id
  }

  /** No two rows that are not deleted share a username. */
  ghost predicate LiveNamesUnique(t: Table)
  {
    forall i, j :: 0 <= i < j < |t| && t[i].state != Deleted && t[j].state != Deleted ==>
      t[i].username != t[j].username
  }
}
