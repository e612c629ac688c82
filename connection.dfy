/**
 * The process-wide SQLite connection: one nullable handle that `getDb`
 * tests, `connectDatabase` fills and `closeDatabase` clears.
 */
module DbConnection {
  import opened Wrappers

  /** An opaque token for a native SQLite database object. */
  datatype Handle = Handle(id: nat)

  /** The options passed to the native `openDatabase`. */
  datatype OpenOptions = OpenOptions(name: string, location: string)

  const NotConnected: string := "Database not connected"

  /** The options `connectDatabase` opens a database named `databaseName` with. */
  function OpenOptionsFor(databaseName: string): (o: OpenOptions)
    ensures o.location == "default"
    ensures |o.name| == |databaseName| + 3 && o.name[..|databaseName|] == databaseName
    ensures o.name[|databaseName|..] == ".db"
  {
    OpenOptions(databaseName + ".db", "default")
  }

  /** The module-level `db` variable, as an object owning an optional handle. */
  class Connection {
    var db: Option<Handle>

    /** The state at module load: nothing is connected. */
    constructor ()
      ensures db == None
    {
      db := None;
    }

    predicate IsConnected()
      reads this
    {
      db.Some?
    }

    /** Returns the held handle, or fails when none is held. */
    method GetDb() returns (r: Result<Handle, string>)
      ensures r.Failure? <==> !IsConnected()
      ensures r.Failure? ==> r.error == NotConnected
      ensures r.Success? ==> db == Some(r.value)
    {
      if db.None? {
        return Failure(NotConnected);
      }
      return Success(db.value);
    }

    /** Opens the database unless a handle is already held. `openDatabase`
        stands for the native open, which may fail; its failure propagates
        and leaves the connection empty. */
    method ConnectDatabase(databaseName: string, openDatabase: OpenOptions -> Result<Handle, string>)
      returns (r: Outcome<string>)
      modifies this
      ensures old(db).Some? ==> db == old(db) && r == Pass
      ensures old(db).None? ==>
        match openDatabase(OpenOptionsFor(databaseName))
        case Success(h) => db == Some(h) && r == Pass
        case Failure(e) => db == None && r == Fail(e)
    {
      if db.Some? {
        return Pass;
      }
      var native := openDatabase(OpenOptions(databaseName + ".db", "default"));
      match native
      case Success(h) =>
        db := Some(h);
        r := Pass;
      case Failure(e) =>
        r := Fail(e);
    }

    /** Closes the held handle, if any. Whatever the native close reports is
        ignored; the connection ends up empty in every case. */
    method CloseDatabase(close: Handle -> Outcome<string>)
      modifies this
      ensures db == None
    {
      if db.None? {
        return;
      }
      // the native close may fail; the failure is swallowed
      var _ := close(db.value);
      db := None;
    }
  }

  /** A full life cycle on a fresh connection: `getDb` fails before connecting,
      returns the opened handle afterwards, and fails again after closing, even
      when the native close fails. */
  method ConnectionLifecycle(databaseName: string, openDatabase: OpenOptions -> Result<Handle, string>, close: Handle -> Outcome<string>)
    returns (before: Result<Handle, string>, during: Result<Handle, string>, after: Result<Handle, string>)
    ensures before == Failure(NotConnected)
    ensures openDatabase(OpenOptionsFor(databaseName)).Success? ==> during == openDatabase(OpenOptionsFor(databaseName))
    ensures openDatabase(OpenOptionsFor(databaseName)).Failure? ==> during == Failure(NotConnected)
    ensures after == Failure(NotConnected)
  {
    var c := new Connection();
    before := c.GetDb();
    var _ := c.ConnectDatabase(databaseName, openDatabase);
    var again := c.ConnectDatabase(databaseName, openDatabase);
    during := c.GetDb();
    c.CloseDatabase(close);
    after := c.GetDb();
  }
}
