/**
 * The user store of internal/usecase/repo/user_repo.go, given the meaning of its
 * SQL. Reads run against the committed table (the pool, not a transaction) and
 * are functions of it; writes run on the transaction behind a live handle and
 * change that transaction's view. `io`/`execErr` are the driver's outcomes.
 */
module Repo {
  import opened Wrappers
  import opened Model
  import Util
  import Postgres

  /** The version a new row gets: Create does not insert the column, so the column default applies. */
  const DefaultVersion: Util.Int64 := 0

  // ------------------------------------------------------------------ reads

  datatype Key = ById(id: Uuid) | ByUsername(username: string)

  /** The WHERE clause of every read: the key column matches and `state != 'deleted'`. */
  predicate Selects(u: User, k: Key)
  {
    u.state != Deleted &&
    match k
    case ById(id) => u.id == id
    case ByUsername(name) => u.username == name
  }

  /** The first row at or after `from` the WHERE clause selects: the row QueryRow scans. */
  function FirstMatch(t: Table, k: Key, from: nat): (r: Option<nat>)
    requires from <= |t|
    ensures r.Some? ==> from <= r.value < |t| && Selects(t[r.value], k)
    ensures r.Some? ==> forall j | from <= j < r.value :: !Selects(t[j], k)
    ensures r.None? ==> forall j | from <= j < |t| :: !Selects(t[j], k)
    decreases |t| - from
  {
    if from == |t| then None
    else if Selects(t[from], k) then Some(from)
    else FirstMatch(t, k, from + 1)
  }

  /** QueryRow and Scan: the first selected row, (nil, nil) on pgx.ErrNoRows, the driver's error otherwise. */
  function QueryRow(t: Table, k: Key, io: Option<Error>): Result<Option<User>, Error>
  {
    if io.Some? then Err(io.value)
    else
      match FirstMatch(t, k, 0)
      case None => Ok(None)
      case Some(j) => Ok(Some(t[j]))
  }

  /** The row with this id unless it is deleted, without the password column. */
  function GetById(t: Table, id: Uuid, io: Option<Error>): (r: Result<Option<User>, Error>)
    ensures io.Some? ==> r == Err(io.value)
    ensures io.None? ==> r.Ok?
    ensures r.Ok? ==> (r.value.None? <==> forall j | 0 <= j < |t| :: !Selects(t[j], ById(id)))
    ensures r.Ok? && r.value.Some? ==>
      r.value.value.password == "" && r.value.value.state != Deleted &&
      exists j | 0 <= j < |t| :: Selects(t[j], ById(id)) && r.value.value == t[j].(password := "")
  {
    match QueryRow(t, ById(id), io)
    case Err(e) => Err(e)
    case Ok(None) => Ok(None)
    case Ok(Some(u)) => Ok(Some(u.(password := "")))
  }

  /** The row with this id unless it is deleted, with every column. */
  function GetPasswordById(t: Table, id: Uuid, io: Option<Error>): (r: Result<Option<User>, Error>)
    ensures io.Some? ==> r == Err(io.value)
    ensures io.None? ==> r.Ok?
    ensures r.Ok? ==> (r.value.None? <==> forall j | 0 <= j < |t| :: !Selects(t[j], ById(id)))
    ensures r.Ok? && r.value.Some? ==>
      r.value.value.state != Deleted && r.value.value.id == id &&
      exists j | 0 <= j < |t| :: t[j] == r.value.value
  {
    QueryRow(t, ById(id), io)
  }

  /** The first row with this username that is not deleted, with every column. */
  function GetByUsername(t: Table, username: string, io: Option<Error>): (r: Result<Option<User>, Error>)
    ensures io.Some? ==> r == Err(io.value)
    ensures io.None? ==> r.Ok?
    ensures r.Ok? ==> (r.value.None? <==> forall j | 0 <= j < |t| :: !Selects(t[j], ByUsername(username)))
    ensures r.Ok? && r.value.Some? ==>
      r.value.value.state != Deleted && r.value.value.username == username &&
      exists j | 0 <= j < |t| :: t[j] == r.value.value && forall i | 0 <= i < j :: !Selects(t[i], ByUsername(username))
  {
    QueryRow(t, ByUsername(username), io)
  }

  /** With live usernames distinct, GetByUsername finds the one live row with that name. */
  lemma GetByUsernameUnique(t: Table, j: nat)
    requires LiveNamesUnique(t)
    requires j < |t| && t[j].state != Deleted
    ensures GetByUsername(t, t[j].username, None) == Ok(Some(t[j]))
  {
    var k := FirstMatch(t, ByUsername(t[j].username), 0);
    assert k.Some?;
    assert k.value == j;
  }

  // ----------------------------------------------------------------- writes

  /** The row INSERT writes: the given columns, the store-assigned id and the default version. */
  function InsertedRow(row: User, id: Uuid): User
  {
    User(id, row.username, row.password, row.state, row.createTs, row.updateTs, DefaultVersion)
  }

  /** INSERT ... RETURNING id: refused when the id is taken, else the row is appended. */
  function Insert(t: Table, row: User, id: Uuid): (r: Result<Table, Error>)
    ensures r.Ok? <==> forall j | 0 <= j < |t| :: t[j].id != id
    ensures r.Ok? ==> r.value == t + [InsertedRow(row, id)]
    ensures r.Err? ==> r.error == ConstraintViolation
    ensures r.Ok? && IdsUnique(t) ==> IdsUnique(r.value)
  {
    if exists j | 0 <= j < |t| :: t[j].id == id then Err(ConstraintViolation)
    else Ok(t + [InsertedRow(row, id)])
  }

  /** The WHERE clause of ChangeState's UPDATE. */
  predicate CasMatch(u: User, id: Uuid, version: Util.Int64)
  {
    u.id == id && u.version == version
  }

  /** The SET clause: state, update_ts and version from `next`, every other column kept. */
  function SetColumns(u: User, next: User): User
  {
    u.(state := next.state, updateTs := next.updateTs, version := next.version)
  }

  /** UPDATE tbl_user SET state, update_ts, version WHERE id = id AND version = version. */
  function UpdateWhere(t: Table, id: Uuid, version: Util.Int64, next: User): (r: Table)
  {
    seq(|t|, j requires 0 <= j < |t| => if CasMatch(t[j], id, version) then SetColumns(t[j], next) else t[j])
  }

  /** The affected-row count the UPDATE reports. */
  function RowsAffected(t: Table, id: Uuid, version: Util.Int64): (n: nat)
    ensures n == 0 <==> forall j | 0 <= j < |t| :: !CasMatch(t[j], id, version)
    ensures n <= |t|
  {
    if t == [] then 0
    else
      var p := t[..|t| - 1];
      assert forall j | 0 <= j < |p| :: p[j] == t[j];
      RowsAffected(p, id, version) + (if CasMatch(t[|t| - 1], id, version) then 1 else 0)
  }

  /** The update touches only matching rows and only its three columns. */
  lemma UpdateWhereFrame(t: Table, id: Uuid, version: Util.Int64, next: User, j: nat)
    requires j < |t|
    ensures |UpdateWhere(t, id, version, next)| == |t|
    ensures var r := UpdateWhere(t, id, version, next)[j];
      r.id == t[j].id && r.username == t[j].username && r.password == t[j].password && r.createTs == t[j].createTs
    ensures var r := UpdateWhere(t, id, version, next)[j];
      if CasMatch(t[j], id, version)
      then r.state == next.state && r.updateTs == next.updateTs && r.version == next.version
      else r == t[j]
  {
  }

  /** When the update reports no rows affected, the table is unchanged. */
  lemma NoRowsNoChange(t: Table, id: Uuid, version: Util.Int64, next: User)
    requires RowsAffected(t, id, version) == 0
    ensures UpdateWhere(t, id, version, next) == t
  {
  }

  /** The primary key makes the compare-and-set hit at most one row. */
  lemma {:induction false} AtMostOneRow(t: Table, id: Uuid, version: Util.Int64)
    requires IdsUnique(t)
    ensures RowsAffected(t, id, version) <= 1
  {
    if t != [] {
      var p := t[..|t| - 1];
      assert forall j | 0 <= j < |p| :: p[j] == t[j];
      AtMostOneRow(p, id, version);
      if CasMatch(t[|t| - 1], id, version) {
        assert forall j | 0 <= j < |p| :: !CasMatch(p[j], id, version);
      }
    }
  }

  /** Ids never change under the update, so the primary key still holds. */
  lemma UpdateKeepsIds(t: Table, id: Uuid, version: Util.Int64, next: User)
    requires IdsUnique(t)
    ensures IdsUnique(UpdateWhere(t, id, version, next))
  {
    var r := UpdateWhere(t, id, version, next);
    assert forall j | 0 <= j < |t| :: r[j].id == t[j].id;
  }

  /**
   * A lost update: once the row has moved past `version`, a second update that
   * uses the same baseline affects no rows.
   */
  lemma StaleVersionLoses(t: Table, id: Uuid, version: Util.Int64, next: User)
    requires next.version != version
    requires RowsAffected(t, id, version) > 0
    ensures RowsAffected(UpdateWhere(t, id, version, next), id, version) == 0
  {
    var r := UpdateWhere(t, id, version, next);
    forall j | 0 <= j < |r|
      ensures !CasMatch(r[j], id, version)
    {
    }
  }

  /**
   * Create: through the transaction of `txId`, inserts the row and returns `row`
   * with the store-assigned id written back. `newId` is the id the store generates.
   */
  method Create(pg: Postgres.Postgres, row: User, txId: int, newId: Uuid, execErr: Option<Error>)
    returns (out: User, err: Option<Error>)
    requires pg.Valid()
    modifies pg`txMap
    ensures pg.Valid()
    ensures txId !in old(pg.txMap) ==> err == Some(TxNotFound) && pg.txMap == old(pg.txMap) && out == row
    ensures txId in old(pg.txMap) ==>
      var view := old(pg.txMap)[txId].view;
      (err.None? <==> execErr.None? && Insert(view, row, newId).Ok?) &&
      (err.None? ==> out == row.(id := newId) &&
                     pg.txMap == old(pg.txMap)[txId := Postgres.ConnTx(view + [InsertedRow(row, newId)])]) &&
      (err.Some? ==> out == row && pg.txMap == old(pg.txMap) &&
                     err.value == if execErr.Some? then execErr.value else ConstraintViolation)
  {
    out := row;
    var tx := pg.GetTxById(txId);
    if tx.Err? {
      return row, Some(tx.error);
    }
    if execErr.Some? {
      return row, execErr;
    }
    var inserted := Insert(tx.value.view, row, newId);
    if inserted.Err? {
      return row, Some(inserted.error);
    }
    pg.ExecOnTx(txId, inserted.value);
    out := row.(id := newId);
    err := None;
  }

  /**
   * ChangeState: through the transaction of `txId`, the compare-and-set update of
   * the row `prev` names, with the columns of `next`; no rows affected is
   * NoRowsAffected.
   */
  method ChangeState(pg: Postgres.Postgres, prev: User, next: User, txId: int, execErr: Option<Error>)
    returns (err: Option<Error>)
    requires pg.Valid()
    modifies pg`txMap
    ensures pg.Valid()
    ensures txId !in old(pg.txMap) ==> err == Some(TxNotFound) && pg.txMap == old(pg.txMap)
    ensures txId in old(pg.txMap) && execErr.Some? ==> err == execErr && pg.txMap == old(pg.txMap)
    ensures txId in old(pg.txMap) && execErr.None? ==>
      var view := old(pg.txMap)[txId].view;
      pg.txMap == old(pg.txMap)[txId := Postgres.ConnTx(UpdateWhere(view, prev.id, prev.version, next))] &&
      (err.None? <==> RowsAffected(view, prev.id, prev.version) > 0) &&
      (err.Some? ==> err.value == NoRowsAffected)
  {
    var tx := pg.GetTxById(txId);
    if tx.Err? {
      return Some(tx.error);
    }
    if execErr.Some? {
      return execErr;
    }
    var view := tx.value.view;
    var affected := RowsAffected(view, prev.id, prev.version);
    pg.ExecOnTx(txId, UpdateWhere(view, prev.id, prev.version, next));
    if affected == 0 {
      return Some(NoRowsAffected);
    }
    err := None;
  }
}
