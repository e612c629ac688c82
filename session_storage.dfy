/**
 * The validator applied to a session read back from persistent storage: it
 * accepts an object only when its three required properties are non-empty
 * strings, and keeps exactly those three.
 */
module SessionStorage {
  import opened Wrappers
  import opened JsValues

  /** A signed-in session. */
  datatype Session = Session(login: string, accessToken: string, syncUrl: string)

  /** A session whose three fields are all non-empty, as a valid one is. */
  predicate IsValidSession(session: Session) {
    session.login != [] && session.accessToken != [] && session.syncUrl != []
  }

  /** A required property: present with a non-empty string value. */
  function RequiredString(record: Record, key: string): Option<string> {
    var v := Get(record, key);
    if v.Str? && |v.s| > 0 then Some(v.s) else None
  }

  /** `normalizeSession(value)`. */
  function NormalizeSession(value: Any): (r: Option<Session>)
    ensures value.Scalar? ==> r.None?
    ensures r.Some? ==> IsValidSession(r.value)
  {
    match value
    case Scalar(_) => None
    case Object(record) =>
      var login := RequiredString(record, "login");
      var accessToken := RequiredString(record, "accessToken");
      var syncUrl := RequiredString(record, "syncUrl");
      if login.None? || accessToken.None? || syncUrl.None? then None
      else Some(Session(login.value, accessToken.value, syncUrl.value))
  }

  /** An object is accepted exactly when each of the three properties holds a
      non-empty string, and the session then carries those strings unchanged. */
  lemma NormalizeSessionSpec(record: Record)
    ensures NormalizeSession(Object(record)).Some? <==>
      && Get(record, "login").Str? && Get(record, "login").s != []
      && Get(record, "accessToken").Str? && Get(record, "accessToken").s != []
      && Get(record, "syncUrl").Str? && Get(record, "syncUrl").s != []
    ensures NormalizeSession(Object(record)).Some? ==>
      NormalizeSession(Object(record)).value ==
        Session(Get(record, "login").s, Get(record, "accessToken").s, Get(record, "syncUrl").s)
  {
  }

  /** The object `{ login, accessToken, syncUrl }` a session is stored as. */
  function SessionRecord(session: Session): Record {
    [Field("login", Str(session.login)),
     Field("accessToken", Str(session.accessToken)),
     Field("syncUrl", Str(session.syncUrl))]
  }

  /** Reading a stored valid session back gives that session; an invalid one
      (an empty field) is rejected. */
  lemma {:induction false} SessionRoundTrip(session: Session)
    ensures IsValidSession(session) ==> NormalizeSession(Object(SessionRecord(session))) == Some(session)
    ensures !IsValidSession(session) ==> NormalizeSession(Object(SessionRecord(session))) == None
  {
    var r := SessionRecord(session);
    assert r[0].key[0] == 'l' && r[1].key[0] == 'a' && r[2].key[0] == 's';
    GetSpec(r, "login");
    GetSpec(r, "accessToken");
    GetSpec(r, "syncUrl");
  }

  /** Normalising the result of a normalisation gives the same session. */
  lemma NormalizeSessionIdempotent(value: Any)
    requires NormalizeSession(value).Some?
    ensures NormalizeSession(Object(SessionRecord(NormalizeSession(value).value))) == NormalizeSession(value)
  {
    SessionRoundTrip(NormalizeSession(value).value);
  }

  /** Properties that are none of the three required ones do not change the
      outcome: they are neither checked nor kept. */
  lemma ExtraFieldsIgnored(record: Record, extra: Record)
    requires !HasOwn(extra, "login") && !HasOwn(extra, "accessToken") && !HasOwn(extra, "syncUrl")
    ensures NormalizeSession(Object(record + extra)) == NormalizeSession(Object(record))
  {
    GetOfAppend(record, extra, "login");
    GetOfAppend(record, extra, "accessToken");
    GetOfAppend(record, extra, "syncUrl");
  }
}
