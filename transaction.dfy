/**
 * The transaction-handle table of pkg/postgres/transaction.go. A handle is a small
 * integer mapped to one checked-out connection and its open transaction. The pool
 * is a count of checked-out connections bounded by its size, and the database is
 * the committed content of tbl_user: an open transaction works on its own view of
 * that table, which Commit installs and Rollback discards. Each operation is
 * atomic.
 */
module Postgres {
  import opened Wrappers
  import opened Model

  /** A checked-out connection with its open transaction, seen through the rows it sees. */
  datatype ConnTx = ConnTx(view: Table)

  /** The handle getTxIdAddMap gives to the next entry: 0 on an empty table, else one more than the counter. */
  function NextTxId(txMap: map<int, ConnTx>, idTx: int): (id: int)
    requires forall k | k in txMap :: 0 <= k <= idTx
    requires 0 <= idTx
    ensures id !in txMap
    ensures 0 <= id
    ensures |txMap| == 0 ==> id == 0
    ensures |txMap| > 0 ==> id > idTx
  {
    if |txMap| == 0 then 0 else idTx + 1
  }

  /** Handles are reused: once the table is empty the next handle is 0 again, whatever the counter was. */
  lemma HandleReusedAfterEmpty(idTx: int, e: ConnTx)
    requires 0 <= idTx
    ensures NextTxId(map[], idTx) == 0
    ensures NextTxId(map[0 := e], 0) == 1 && NextTxId(map[], 1) == 0
  {
  }

  class Postgres {
    /** The handle table. */
    var txMap: map<int, ConnTx>
    /** The last handle handed out. */
    var idTx: int
    /** Connections currently checked out of the pool. */
    var inUse: nat
    /** The pool size. */
    const maxConns: nat
    /** The committed rows of tbl_user. */
    var table: Table

    /** The table-and-counter bookkeeping: every live handle is at most the counter, every entry holds a connection. */
    ghost predicate Bookkeeping()
      reads this
    {
      0 <= idTx &&
      (forall k | k in txMap :: 0 <= k <= idTx) &&
      |txMap| <= inUse <= maxConns
    }

    /** Bookkeeping, and no connection is checked out without an entry holding it. */
    ghost predicate Valid()
      reads this
    {
      Bookkeeping() && inUse == |txMap|
    }

    constructor (poolSize: nat, rows: Table)
      ensures Valid()
      ensures txMap == map[] && idTx == 0 && inUse == 0 && maxConns == poolSize && table == rows
    {
      txMap := map[];
      idTx := 0;
      inUse := 0;
      maxConns := poolSize;
      table := rows;
    }

    /** The entry of a live handle, or "pgTx not found". */
    function GetTxById(id: int): (r: Result<ConnTx, Error>)
      reads this
      ensures r.Ok? <==> id in txMap
      ensures r.Ok? ==> r.value == txMap[id]
      ensures r.Err? ==> r.error == TxNotFound
    {
      if id in txMap then Ok(txMap[id]) else Err(TxNotFound)
    }

    /** The same lookup, returning the connection side of the entry. */
    function GetConnTxById(id: int): (r: Result<ConnTx, Error>)
      reads this
      ensures r == GetTxById(id)
    {
      if id in txMap then Ok(txMap[id]) else Err(TxNotFound)
    }

    /** Registers an entry under a fresh handle and returns the handle. */
    method GetTxIdAddMap(e: ConnTx) returns (id: int)
      requires 0 <= idTx && forall k | k in txMap :: 0 <= k <= idTx
      modifies this`txMap, this`idTx
      ensures id !in old(txMap)
      ensures id == NextTxId(old(txMap), old(idTx))
      ensures txMap == old(txMap)[id := e] && idTx == id
      ensures forall k | k in txMap :: 0 <= k <= idTx
    {
      idTx := idTx + 1;
      if |txMap| == 0 {
        idTx := 0;
      }
      txMap := txMap[idTx := e];
      id := idTx;
    }

    method DeleteTxFromMap(id: int)
      modifies this`txMap
      ensures txMap == old(txMap) - {id}
    {
      txMap := txMap - {id};
    }

    /**
     * Acquires a connection, begins a transaction on it and registers the pair.
     * `acquireErr` and `beginErr` are the pool's and the driver's outcomes. Waiting
     * for a connection when all maxConns are checked out ends with PoolExhausted.
     * A connection whose Begin failed goes back to the pool.
     */
    method PgTxBegin(acquireErr: Option<Error>, beginErr: Option<Error>) returns (id: int, err: Option<Error>)
      requires Valid()
      modifies this
      ensures Valid() && table == old(table)
      ensures err.None? <==> old(inUse) < maxConns && acquireErr.None? && beginErr.None?
      ensures err.Some? ==> err.value == (if old(inUse) >= maxConns then PoolExhausted
                                          else if acquireErr.Some? then acquireErr.value
                                          else beginErr.value)
      ensures err.Some? ==> id == 0 && txMap == old(txMap) && idTx == old(idTx) && inUse == old(inUse)
      ensures err.None? ==> id !in old(txMap) && id == NextTxId(old(txMap), old(idTx)) &&
                            txMap == old(txMap)[id := ConnTx(old(table))] && idTx == id &&
                            inUse == old(inUse) + 1
    {
      id := 0;
      if inUse >= maxConns {
        return 0, Some(PoolExhausted);
      }
      if acquireErr.Some? {
        return 0, acquireErr;
      }
      inUse := inUse + 1;
      if beginErr.Some? {
        inUse := inUse - 1;
        return 0, beginErr;
      }
      id := GetTxIdAddMap(ConnTx(table));
      err := None;
    }

    /** PgTxBegin as the source writes it: a failed Begin keeps its connection checked out. */
    method PgTxBeginAsWritten(acquireErr: Option<Error>, beginErr: Option<Error>) returns (id: int, err: Option<Error>)
      requires Bookkeeping()
      modifies this
      ensures Bookkeeping() && table == old(table)
      ensures err.None? <==> old(inUse) < maxConns && acquireErr.None? && beginErr.None?
      ensures err.Some? ==> err.value == (if old(inUse) >= maxConns then PoolExhausted
                                          else if acquireErr.Some? then acquireErr.value
                                          else beginErr.value)
      ensures err.Some? ==> id == 0 && txMap == old(txMap) && idTx == old(idTx)
      ensures inUse == if old(inUse) < maxConns && acquireErr.None? then old(inUse) + 1 else old(inUse)
      ensures err.None? ==> id !in old(txMap) && txMap == old(txMap)[id := ConnTx(old(table))] && idTx == id
    {
      id := 0;
      if inUse >= maxConns {
        return 0, Some(PoolExhausted);
      }
      if acquireErr.Some? {
        return 0, acquireErr;
      }
      inUse := inUse + 1;
      if beginErr.Some? {
        return 0, beginErr;
      }
      id := GetTxIdAddMap(ConnTx(table));
      err := None;
    }

    /**
     * Ends a transaction: commits when `errInTx` is None and reports Commit's error
     * (`commitErr`), otherwise rolls back and reports nothing (a rollback failure is
     * only logged). On a live handle the connection always goes back to the pool
     * and the entry is always removed. An unknown handle is reported and nothing
     * else happens.
     */
    method PgTxEnd(txId: int, errInTx: Option<Error>, commitErr: Option<Error>) returns (err: Option<Error>)
      requires Valid()
      modifies this
      ensures Valid() && idTx == old(idTx)
      ensures txId !in old(txMap) ==>
        err == Some(TxNotFound) && txMap == old(txMap) && inUse == old(inUse) && table == old(table)
      ensures txId in old(txMap) ==> txMap == old(txMap) - {txId} && inUse == old(inUse) - 1
      ensures txId in old(txMap) && errInTx.None? ==>
        err == commitErr && table == (if commitErr.None? then old(txMap)[txId].view else old(table))
      ensures txId in old(txMap) && errInTx.Some? ==> err.None? && table == old(table)
    {
      var pgTx := GetConnTxById(txId);
      if pgTx.Err? {
        return Some(pgTx.error);
      }
      var tx := pgTx.value;
      err := None;
      if errInTx.None? {
        // tx.Commit
        err := commitErr;
        if commitErr.None? {
          table := tx.view;
        }
      }
      // The deferred cleanup: rollback (when errInTx is set) leaves `table` as it is;
      // then the connection is closed and released and the entry deleted.
      assert txId in txMap;
      inUse := inUse - 1;
      DeleteTxFromMap(txId);
      assert |txMap| == |old(txMap)| - 1;
    }

    /** The transaction of a live handle executes a statement: its view becomes `view`. */
    method ExecOnTx(txId: int, view: Table)
      requires Valid() && txId in txMap
      modifies this`txMap
      ensures Valid()
      ensures txMap == old(txMap)[txId := ConnTx(view)]
    {
      txMap := txMap[txId := ConnTx(view)];
    }
  }

  /**
   * The leak, concretely: on a one-connection pool, one failed Begin as written
   * leaves the next Begin failing, while the corrected PgTxBegin recovers.
   */
  method LeakBlocksLaterBegin() returns (leakyErr: Option<Error>, fixedErr: Option<Error>)
    ensures leakyErr == Some(PoolExhausted)
    ensures fixedErr == None
  {
    var leaky := new Postgres(1, []);
    var _, e1 := leaky.PgTxBeginAsWritten(None, Some(External("begin failed")));
    assert e1.Some? && leaky.inUse == 1 && leaky.txMap == map[];
    var _, e2 := leaky.PgTxBeginAsWritten(None, None);
    leakyErr := e2;

    var fixed := new Postgres(1, []);
    var _, f1 := fixed.PgTxBegin(None, Some(External("begin failed")));
    assert f1.Some? && fixed.inUse == 0;
    var _, f2 := fixed.PgTxBegin(None, None);
    fixedErr := f2;
  }
}
