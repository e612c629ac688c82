/** The wire shape of an outgoing change set (the push request body). */
module PushTypes {
  import opened JsValues

  /** One projected row: declared column (or `rowid`) to encoded value. */
  type PushJsonRow = Record

  /** The pending inserts and updates of one table. */
  datatype TableChanges = TableChanges(table: string, inserts: seq<PushJsonRow>, updates: seq<PushJsonRow>)

  /** One tombstone: the table and the row id of a locally deleted row. */
  datatype Deletion = Deletion(table: string, rowid: string)

  datatype PushJsonRequest = PushJsonRequest(changes: seq<TableChanges>, deletes: seq<Deletion>)
}
