/**
 * The pure helpers of the sync server client: URL shaping under the
 * `app/ampli-sync` prefix, the endpoint paths, the bearer header, the status
 * check of a response and the list of local database files removed on
 * logout. The network calls and file operations around them are not modelled.
 */
module SyncApi {
  import opened Wrappers
  import opened JsValues

  const AmpliSyncBasePath: string := "app/ampli-sync"

  predicate EndsWithSlash(s: string) {
    |s| > 0 && s[|s| - 1] == '/'
  }

  predicate StartsWithSlash(s: string) {
    |s| > 0 && s[0] == '/'
  }

  /** `toBaseUrl`: the URL with a trailing `/`, added only when missing. */
  function ToBaseUrl(url: string): (base: string)
    ensures EndsWithSlash(base)
    ensures EndsWithSlash(url) ==> base == url
    ensures !EndsWithSlash(url) ==> base == url + "/"
  {
    if EndsWithSlash(url) then url else url + "/"
  }

  /** A base URL is already a base URL. */
  lemma ToBaseUrlIdempotent(url: string)
    ensures ToBaseUrl(ToBaseUrl(url)) == ToBaseUrl(url)
  {
  }

  /** `path.replace(/^\//, '')`: removes one leading `/`, if there is one. */
  function StripLeadingSlash(path: string): (p: string)
    ensures StartsWithSlash(path) ==> "/" + p == path
    ensures !StartsWithSlash(path) ==> p == path
  {
    if StartsWithSlash(path) then path[1..] else path
  }

  /** Only one slash is removed: a path starting with `//` keeps the second. */
  lemma StripRemovesAtMostOneSlash(path: string)
    requires |path| >= 2 && path[0] == '/' && path[1] == '/'
    ensures StartsWithSlash(StripLeadingSlash(path))
  {
  }

  /** `joinUrl(base, path)`. */
  function JoinUrl(base: string, path: string): string {
    ToBaseUrl(base) + StripLeadingSlash(path)
  }

  /** Joining puts exactly one `/` between the two parts when neither
      carries one, keeps the single slash when one of them does, and drops the
      path's slash when both do. */
  lemma JoinUrlCases(base: string, path: string)
    ensures !EndsWithSlash(base) && !StartsWithSlash(path) ==> JoinUrl(base, path) == base + "/" + path
    ensures EndsWithSlash(base) && !StartsWithSlash(path) ==> JoinUrl(base, path) == base + path
    ensures !EndsWithSlash(base) && StartsWithSlash(path) ==> JoinUrl(base, path) == base + path
    ensures EndsWithSlash(base) && StartsWithSlash(path) ==> JoinUrl(base, path) == base + path[1..]
  {
    if StartsWithSlash(path) && !EndsWithSlash(base) {
      var rest := StripLeadingSlash(path);
      assert (base + "/") + rest == base + ("/" + rest);
    }
  }

  /** `ampliSyncUrl(syncUrl, path)`. */
  function AmpliSyncUrl(syncUrl: string, path: string): string {
    JoinUrl(syncUrl, AmpliSyncBasePath + "/" + StripLeadingSlash(path))
  }

  /** A sync URL is the base URL, the `app/ampli-sync/` prefix, and the path
      without (at most one) leading slash. */
  lemma AmpliSyncUrlShape(syncUrl: string, path: string)
    ensures AmpliSyncUrl(syncUrl, path) == ToBaseUrl(syncUrl) + "app/ampli-sync/" + StripLeadingSlash(path)
  {
    var inner := AmpliSyncBasePath + "/" + StripLeadingSlash(path);
    assert inner[0] == 'a';
    assert StripLeadingSlash(inner) == inner;
  }

  // ---------------------------------------------------------------------
  // Endpoints.

  function PrepopulateDbUrl(syncUrl: string, deviceUniqueId: string): string {
    AmpliSyncUrl(syncUrl, "prepopulate-db/" + deviceUniqueId)
  }

  function ReceiveChangesUrl(syncUrl: string): string {
    AmpliSyncUrl(syncUrl, "receive-changes")
  }

  function MigrationsUrl(syncUrl: string, login: string, deviceUniqueId: string): string {
    AmpliSyncUrl(syncUrl, "migrations/" + (login + "/" + deviceUniqueId))
  }

  function MigrationsResultUrl(syncUrl: string): string {
    AmpliSyncUrl(syncUrl, "migrations-result")
  }

  function SyncCompressedUrl(syncUrl: string, tableName: string, deviceUniqueId: string): string {
    AmpliSyncUrl(syncUrl, "sync-compressed/" + (tableName + "/" + deviceUniqueId))
  }

  /** The sync id is a string or a number; the template literal prints it
      as `String(...)` does. */
  function CommitSyncUrl(syncUrl: string, syncId: Value): string
    requires syncId.Str? || syncId.Int?
  {
    AmpliSyncUrl(syncUrl, "commit-sync/" + StringOf(syncId))
  }

  /** A path segment under a fixed endpoint name lands right after the
      prefix. */
  lemma SegmentUrl(syncUrl: string, name: string, rest: string)
    requires |name| > 0 && name[0] != '/'
    ensures AmpliSyncUrl(syncUrl, name + rest) == ToBaseUrl(syncUrl) + "app/ampli-sync/" + name + rest
  {
    assert (name + rest)[0] == name[0];
    AmpliSyncUrlShape(syncUrl, name + rest);
    var base := ToBaseUrl(syncUrl) + "app/ampli-sync/";
    assert base + (name + rest) == base + name + rest;
  }

  /** The full URL of each endpoint, written out. */
  lemma PrepopulateDbUrlShape(syncUrl: string, device: string)
    ensures PrepopulateDbUrl(syncUrl, device) == ToBaseUrl(syncUrl) + "app/ampli-sync/" + "prepopulate-db/" + device
  {
    SegmentUrl(syncUrl, "prepopulate-db/", device);
  }

  lemma ReceiveChangesUrlShape(syncUrl: string)
    ensures ReceiveChangesUrl(syncUrl) == ToBaseUrl(syncUrl) + "app/ampli-sync/" + "receive-changes"
  {
    SegmentUrl(syncUrl, "receive-changes", "");
    assert "receive-changes" + "" == "receive-changes";
  }

  lemma MigrationsUrlShape(syncUrl: string, login: string, device: string)
    ensures MigrationsUrl(syncUrl, login, device) ==
      ToBaseUrl(syncUrl) + "app/ampli-sync/" + "migrations/" + (login + "/" + device)
  {
    SegmentUrl(syncUrl, "migrations/", login + "/" + device);
  }

  lemma MigrationsResultUrlShape(syncUrl: string)
    ensures MigrationsResultUrl(syncUrl) == ToBaseUrl(syncUrl) + "app/ampli-sync/" + "migrations-result"
  {
    SegmentUrl(syncUrl, "migrations-result", "");
    assert "migrations-result" + "" == "migrations-result";
  }

  lemma SyncCompressedUrlShape(syncUrl: string, table: string, device: string)
    ensures SyncCompressedUrl(syncUrl, table, device) ==
      ToBaseUrl(syncUrl) + "app/ampli-sync/" + "sync-compressed/" + (table + "/" + device)
  {
    SegmentUrl(syncUrl, "sync-compressed/", table + "/" + device);
  }

  lemma CommitSyncUrlShape(syncUrl: string, syncId: Value)
    requires syncId.Str? || syncId.Int?
    ensures CommitSyncUrl(syncUrl, syncId) == ToBaseUrl(syncUrl) + "app/ampli-sync/" + "commit-sync/" + StringOf(syncId)
  {
    SegmentUrl(syncUrl, "commit-sync/", StringOf(syncId));
  }

  /** A numeric sync id reaches the server as its decimal text, and two
      different ids give two different commit URLs. */
  lemma CommitSyncUrlInjective(syncUrl: string, a: int, b: int)
    requires CommitSyncUrl(syncUrl, Int(a)) == CommitSyncUrl(syncUrl, Int(b))
    ensures a == b
  {
    var prefix := ToBaseUrl(syncUrl) + "app/ampli-sync/" + "commit-sync/";
    CommitSyncUrlShape(syncUrl, Int(a));
    CommitSyncUrlShape(syncUrl, Int(b));
    assert CommitSyncUrl(syncUrl, Int(a)) == prefix + IntToString(a);
    assert CommitSyncUrl(syncUrl, Int(b)) == prefix + IntToString(b);
    assert IntToString(a) == (prefix + IntToString(a))[|prefix|..];
    assert IntToString(b) == (prefix + IntToString(b))[|prefix|..];
    IntToStringInjective(a, b);
  }

  // ---------------------------------------------------------------------
  // Headers.

  const BearerPrefix: string := "Bearer "

  /** `authHeader(accessToken)`: the one-property headers object. */
  function AuthHeader(accessToken: string): Record {
    [Field("Authorization", Str(BearerPrefix + accessToken))]
  }

  /** The headers of the JSON posts: the authorization header followed by
      the content type. */
  function JsonPostHeaders(accessToken: string): Record {
    AuthHeader(accessToken) + [Field("Content-Type", Str("application/json"))]
  }

  /** The token that a bearer header value carries, if it is one. */
  function BearerToken(value: Value): Option<string> {
    if value.Str? && |value.s| >= |BearerPrefix| && value.s[..|BearerPrefix|] == BearerPrefix
    then Some(value.s[|BearerPrefix|..])
    else None
  }

  /** The header object has the single key `Authorization`, whose value is a
      bearer value carrying the token unchanged; the JSON post headers keep it
      and add only `Content-Type`. */
  lemma AuthHeaderCarriesToken(accessToken: string)
    ensures |AuthHeader(accessToken)| == 1 && AuthHeader(accessToken)[0].key == "Authorization"
    ensures BearerToken(Get(AuthHeader(accessToken), "Authorization")) == Some(accessToken)
    ensures DistinctKeys(JsonPostHeaders(accessToken))
    ensures Get(JsonPostHeaders(accessToken), "Authorization") == Get(AuthHeader(accessToken), "Authorization")
    ensures Get(JsonPostHeaders(accessToken), "Content-Type") == Str("application/json")
  {
    var v := BearerPrefix + accessToken;
    assert v[..|BearerPrefix|] == BearerPrefix;
    assert v[|BearerPrefix|..] == accessToken;
    var h := JsonPostHeaders(accessToken);
    assert h[0].key == "Authorization" && h[1].key == "Content-Type";
    assert h[0].key[0] != h[1].key[0];
    GetSpec(AuthHeader(accessToken), "Authorization");
    GetSpec(h, "Authorization");
    GetSpec(h, "Content-Type");
  }

  // ---------------------------------------------------------------------
  // Status check.

  /** The part of a fetch response the status check reads. */
  datatype Response = Response(ok: bool, status: int)

  /** `assertOk(response, label)`: passes on an ok response and otherwise
      fails with `"<label> failed: <status>"`. */
  function AssertOk(response: Response, labelText: string): (r: Outcome<string>)
    ensures r.Pass? <==> response.ok
  {
    if response.ok then Pass else Fail(labelText + " failed: " + IntToString(response.status))
  }

  const FailedInfix: string := " failed: "

  /** The failure message names the labelText and carries the status as decimal
      text, from which the status can be read back. */
  lemma AssertOkMessage(response: Response, labelText: string)
    requires !response.ok
    ensures var msg := AssertOk(response, labelText).error;
      var n := |labelText| + |FailedInfix|;
      && |msg| > n
      && msg[..|labelText|] == labelText
      && msg[|labelText|..n] == FailedInfix
      && (var digits := msg[n..];
          (IsDigits(digits) || (digits[0] == '-' && IsDigits(digits[1..]))) && ParseInt(digits) == response.status)
  {
    var msg := AssertOk(response, labelText).error;
    var status := IntToString(response.status);
    assert msg == labelText + FailedInfix + status;
    assert msg[..|labelText|] == labelText;
    assert msg[|labelText|..|labelText| + |FailedInfix|] == FailedInfix;
    assert msg[|labelText| + |FailedInfix|..] == status;
    IntToStringRoundTrip(response.status);
  }

  /** Two failing responses with the same labelText and message had the same
      status. */
  lemma AssertOkMessageInjective(r1: Response, r2: Response, labelText: string)
    requires !r1.ok && !r2.ok
    requires AssertOk(r1, labelText) == AssertOk(r2, labelText)
    ensures r1.status == r2.status
  {
    AssertOkMessage(r1, labelText);
    AssertOkMessage(r2, labelText);
  }

  // ---------------------------------------------------------------------
  // Local database files.

  /** `${directory}/${databaseName}.db`, the database file. */
  function DatabasePath(directory: string, databaseName: string): string {
    directory + "/" + databaseName + ".db"
  }

  /** The files `deleteLocalDatabaseFiles` removes, in removal order: the
      database file and its shared-memory, write-ahead-log and rollback
      journal sidecars. */
  function DatabaseFilePaths(directory: string, databaseName: string): seq<string> {
    var basePath := DatabasePath(directory, databaseName);
    [basePath, basePath + "-shm", basePath + "-wal", basePath + "-journal"]
  }

  /** Four different files, the first being the database file itself and
      each other one that path with its suffix appended. */
  lemma DatabaseFilePathsShape(directory: string, databaseName: string)
    ensures var paths := DatabaseFilePaths(directory, databaseName);
      var basePath := DatabasePath(directory, databaseName);
      && |paths| == 4
      && paths[0] == basePath
      && (forall i :: 0 <= i < 4 ==> |paths[i]| >= |basePath| && paths[i][..|basePath|] == basePath)
      && paths[1][|basePath|..] == "-shm" && paths[2][|basePath|..] == "-wal" && paths[3][|basePath|..] == "-journal"
      && (forall i, j :: 0 <= i < j < 4 ==> paths[i] != paths[j])
  {
    var paths := DatabaseFilePaths(directory, databaseName);
    var basePath := DatabasePath(directory, databaseName);
    var n := |basePath|;
    assert paths[1][..n] == basePath && paths[1][n..] == "-shm";
    assert paths[2][..n] == basePath && paths[2][n..] == "-wal";
    assert paths[3][..n] == basePath && paths[3][n..] == "-journal";
    assert paths[1][n + 1] == 's' && paths[2][n + 1] == 'w' && paths[3][n + 1] == 'j';
  }
}
