/** The write discipline every provider operation follows: take a holder
    from the connection cache, issue BEGIN TRANSACTION, run its statements,
    and COMMIT; in the finally block, issue ROLLBACK when BEGIN was issued
    and COMMIT was not, swallowing its failure, and close the holder. The
    flag that records whether BEGIN was issued is the database's snapshot. */
module Transactions {
  import opened Common
  import opened AccessStore
  import opened Connections
  import ConnectionHelper

  /** Between operations: the database is outside any transaction and no
      cached connection is in use. */
  ghost predicate Quiet(db: Database, connections: ConnectionCache)
    reads db, connections, connections.Holders()
  {
    db.Valid() && db.snapshot.None? && connections.Idle()
  }

  /** The tables the store holds once an unfinished transaction is rolled
      back: those at BEGIN while one is open, the current ones otherwise. */
  function Kept(db: Database): Tables
    reads db
  {
    if db.snapshot.Some? then db.snapshot.value else db.tables
  }

  /** GetConnection as the operations use it: on success only the returned
      holder is in use, and on failure nothing is. */
  method Acquire(db: Database, connections: ConnectionCache, databaseFileName: string, env: Environment,
                 now: int, openSucceeds: bool)
    returns (r: Result<ConnectionHolder, ConnectionHelper.Exception>)
    requires Quiet(db, connections)
    modifies connections, connections.Holders()
    ensures r.Ok? ==> db.Valid() && db.snapshot.None? && connections.InUse(r.value)
    ensures r.Ok? ==> r.value in old(connections.Holders()) || fresh(r.value)
    ensures r.Err? ==> Quiet(db, connections)
    ensures r.Err? ==> r.error == ConnectionHelper.OleDbException || r.error.PlainException?
  {
    r := connections.GetConnection(databaseFileName, env, now, openSucceeds);
  }

  /** The finally block: roll back an unfinished transaction and close the
      holder. Afterwards the tables are those at BEGIN when the transaction
      was not committed, and as they stand otherwise. */
  method Release(db: Database, connections: ConnectionCache, holder: ConnectionHolder)
    requires db.Valid() && connections.InUse(holder)
    modifies db, holder
    ensures Quiet(db, connections)
    ensures db.tables == old(Kept(db))
  {
    if db.snapshot.Some? {
      db.Rollback();
    }
    holder.Close();
  }
}
