/**
 * The storage adapter over the shared connection: how a query is turned into
 * SQL text and arguments, how result rows are collected, and how a batch is
 * turned into the statement list of the native batch call. The native
 * `executeSql` and `sqlBatch` calls are parameters.
 */
module Database {
  import opened Wrappers
  import opened JsValues
  import opened DbConnection

  /** A query: bare SQL text, or SQL with optional positional arguments. */
  datatype QueryLike = Text(text: string) | Query(sql: string, args: Option<seq<Value>>)

  /** The `(sql, args)` pair `dbAll` and `dbExec` hand to `executeSql`. */
  function SqlAndArgs(q: QueryLike): (r: (string, seq<Value>))
    ensures q.Text? ==> r == (q.text, [])
    ensures q.Query? && q.args.None? ==> r == (q.sql, [])
    ensures q.Query? && q.args.Some? ==> r == (q.sql, q.args.value)
  {
    match q
    case Text(text) => (text, [])
    case Query(sql, args) => (sql, match args case Some(a) => a case None => [])
  }

  /** One element of the native batch: SQL alone, or `[sql, args]`. */
  datatype Statement = Bare(sql: string) | WithArgs(sql: string, args: seq<Value>)

  /** The statement `dbBatch` makes of one query. */
  function StatementOf(q: QueryLike): (st: Statement)
    ensures q.Text? ==> st == Bare(q.text)
    ensures q.Query? ==> st.sql == q.sql
    ensures st.WithArgs? <==> q.Query? && q.args.Some? && q.args.value != []
    ensures st.WithArgs? ==> st.args == q.args.value
  {
    match q
    case Text(text) => Bare(text)
    case Query(sql, args) =>
      var a := match args case Some(a) => a case None => [];
      if |a| > 0 then WithArgs(sql, a) else Bare(sql)
  }

  /** What the native batch call runs for one statement. */
  function StatementSqlAndArgs(st: Statement): (string, seq<Value>) {
    match st
    case Bare(sql) => (sql, [])
    case WithArgs(sql, args) => (sql, args)
  }

  /** A batched statement runs the same SQL with the same arguments as the
      query would through `dbExec`. */
  lemma BatchAgreesWithExec(q: QueryLike)
    ensures StatementSqlAndArgs(StatementOf(q)) == SqlAndArgs(q)
  {
  }

  /** The statement list of `dbBatch`: one statement per query, in order. */
  function BatchStatements(queries: seq<QueryLike>): (sts: seq<Statement>)
    ensures |sts| == |queries|
    ensures forall i :: 0 <= i < |queries| ==> sts[i] == StatementOf(queries[i])
  {
    if queries == [] then [] else [StatementOf(queries[0])] + BatchStatements(queries[1..])
  }

  /** The `rows` object of a native result set: a length and an accessor. */
  datatype Rows = Rows(length: nat, item: nat -> Any)

  /** A native result set; `rows` may be missing. */
  datatype ResultSet = ResultSet(rows: Option<Rows>)

  /** `result?.rows?.length || 0`. */
  function RowCount(result: Option<ResultSet>): nat {
    if result.Some? && result.value.rows.Some? then result.value.rows.value.length else 0
  }

  /** The row-collection loop of `dbAll`: `item(0)` up to `item(length - 1)`. */
  method CollectRows(result: Option<ResultSet>) returns (rows: seq<Any>)
    ensures |rows| == RowCount(result)
    ensures RowCount(result) > 0 ==> result.Some? && result.value.rows.Some?
    ensures forall i :: 0 <= i < |rows| ==> rows[i] == result.value.rows.value.item(i)
  {
    rows := [];
    var length := RowCount(result);
    var i := 0;
    while i < length
      invariant 0 <= i <= length
      invariant |rows| == i
      invariant forall k :: 0 <= k < i ==> rows[k] == result.value.rows.value.item(k)
    {
      rows := rows + [result.value.rows.value.item(i)];
      i := i + 1;
    }
  }

  /** The native `executeSql(sql, args)`, resolving to its first result set
      (possibly missing) or rejecting with an error. */
  type ExecuteSql = (Handle, string, seq<Value>) -> Result<Option<ResultSet>, string>

  /** `dbAll`: runs the query on the connected database and collects its rows. */
  method DbAll(conn: Connection, query: QueryLike, executeSql: ExecuteSql) returns (r: Result<seq<Any>, string>)
    ensures conn.db.None? ==> r == Failure(NotConnected)
    ensures conn.db.Some? ==>
      var (sql, args) := SqlAndArgs(query);
      match executeSql(conn.db.value, sql, args)
      case Failure(e) => r == Failure(e)
      case Success(result) =>
        r.Success? && |r.value| == RowCount(result)
        && forall i :: 0 <= i < |r.value| ==> r.value[i] == result.value.rows.value.item(i)
  {
    var sql := if query.Text? then query.text else query.sql;
    var args := if query.Text? then [] else (match query.args case Some(a) => a case None => []);
    var db := conn.GetDb();
    if db.Failure? {
      return Failure(db.error);
    }
    var executed := executeSql(db.value, sql, args);
    if executed.Failure? {
      return Failure(executed.error);
    }
    var rows := CollectRows(executed.value);
    return Success(rows);
  }

  /** `dbExec`: runs the query on the connected database, ignoring its rows. */
  method DbExec(conn: Connection, query: QueryLike, executeSql: ExecuteSql) returns (r: Outcome<string>)
    ensures conn.db.None? ==> r == Fail(NotConnected)
    ensures conn.db.Some? ==>
      var (sql, args) := SqlAndArgs(query);
      r == match executeSql(conn.db.value, sql, args)
           case Failure(e) => Fail(e)
           case Success(_) => Pass
  {
    var sql := if query.Text? then query.text else query.sql;
    var args := if query.Text? then [] else (match query.args case Some(a) => a case None => []);
    var db := conn.GetDb();
    if db.Failure? {
      return Fail(db.error);
    }
    var executed := executeSql(db.value, sql, args);
    if executed.Failure? {
      return Fail(executed.error);
    }
    return Pass;
  }

  /** `dbBatch`: hands the statement list of the queries to the native batch
      call on the connected database. */
  method DbBatch(conn: Connection, queries: seq<QueryLike>, sqlBatch: (Handle, seq<Statement>) -> Outcome<string>)
    returns (r: Outcome<string>)
    ensures conn.db.None? ==> r == Fail(NotConnected)
    ensures conn.db.Some? ==> r == sqlBatch(conn.db.value, BatchStatements(queries))
  {
    var statements := BatchStatements(queries);
    var db := conn.GetDb();
    if db.Failure? {
      return Fail(db.error);
    }
    r := sqlBatch(db.value, statements);
  }
}
