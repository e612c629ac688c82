/**
 * The change-capture scanner: it reads the local catalog, the pending-insert
 * and pending-update rows of each synced table and the tombstone log, and
 * builds the push request together with the acknowledgement statements that
 * are run only after the server has accepted the push.
 *
 * The scanner only reads. Its one dependency, the query function, is given
 * here as the `QueryAnswers` to the queries it issues: each answer is
 * either the rows or the error the query was rejected with. The properties
 * of the request are stated over the `Snapshot` of the rows.
 */
module PushJson {
  import opened Wrappers
  import opened JsValues
  import opened PushTypes
  import opened Database
  import opened SeqOps

  // =====================================================================
  // getValueCaseInsensitive

  /** Position of the first property whose lower-cased key is `lower`. */
  function IndexOfKeyIgnoringCase(r: Record, lower: string): Option<nat> {
    if r == [] then None
    else if Lower(r[0].key) == lower then Some(0)
    else match IndexOfKeyIgnoringCase(r[1..], lower)
      case None => None
      case Some(i) => Some(i + 1)
  }

  lemma {:induction false} IndexOfKeyIgnoringCaseSpec(r: Record, lower: string)
    ensures var o := IndexOfKeyIgnoringCase(r, lower);
      && (o.None? <==> forall i :: 0 <= i < |r| ==> Lower(r[i].key) != lower)
      && (o.Some? ==> o.value < |r| && Lower(r[o.value].key) == lower)
      && (o.Some? ==> forall j :: 0 <= j < o.value ==> Lower(r[j].key) != lower)
  {
    if r != [] && Lower(r[0].key) != lower {
      IndexOfKeyIgnoringCaseSpec(r[1..], lower);
      assert forall i :: 1 <= i < |r| ==> r[i] == r[1..][i - 1];
    }
  }

  /** `getValueCaseInsensitive(source, key)`. */
  function GetValueCaseInsensitive(source: Any, key: string): Value {
    match source
    case Scalar(_) => Undefined
    case Object(fields) =>
      IndexOfKeySpec(fields, key);
      IndexOfKeyIgnoringCaseSpec(fields, Lower(key));
      match IndexOfKey(fields, key)
      case Some(i) => fields[i].value
      case None =>
        match IndexOfKeyIgnoringCase(fields, Lower(key))
        case None => Undefined
        case Some(i) => Get(fields, fields[i].key)
  }

  /** What the lookup returns: `undefined` for a non-object source; the exact
      own property when there is one; otherwise the first property (in key
      order) equal to `key` ignoring case; otherwise `undefined`. */
  lemma GetValueCaseInsensitiveSpec(source: Any, key: string)
    ensures source.Scalar? ==> GetValueCaseInsensitive(source, key) == Undefined
    ensures source.Object? && HasOwn(source.fields, key) ==>
      GetValueCaseInsensitive(source, key) == Get(source.fields, key)
    ensures source.Object? && !HasOwn(source.fields, key) ==>
      forall i :: 0 <= i < |source.fields| && Lower(source.fields[i].key) == Lower(key)
        && (forall j :: 0 <= j < i ==> Lower(source.fields[j].key) != Lower(key))
        ==> GetValueCaseInsensitive(source, key) == source.fields[i].value
    ensures source.Object? &&
      (forall i :: 0 <= i < |source.fields| ==> Lower(source.fields[i].key) != Lower(key))
      ==> GetValueCaseInsensitive(source, key) == Undefined
  {
    if source.Object? {
      var fields := source.fields;
      IndexOfKeySpec(fields, key);
      GetSpec(fields, key);
      if !HasOwn(fields, key) {
        IndexOfKeyIgnoringCaseSpec(fields, Lower(key));
        var o := IndexOfKeyIgnoringCase(fields, Lower(key));
        if o.Some? {
          var i := o.value;
          assert forall j :: 0 <= j < i ==> fields[j].key != fields[i].key by {
            forall j | 0 <= j < i ensures fields[j].key != fields[i].key {
              assert Lower(fields[j].key) != Lower(fields[i].key);
            }
          }
          GetSpec(fields, fields[i].key);
          forall i' | 0 <= i' < |fields| && Lower(fields[i'].key) == Lower(key)
              && (forall j :: 0 <= j < i' ==> Lower(fields[j].key) != Lower(key))
            ensures i' == i
          {
            assert !(i' < i);
            assert !(i < i');
          }
        }
      }
    }
  }

  /** Without an exact match, the lookup depends on the key only through its
      lower-case form. */
  lemma CaseInsensitiveLookupIgnoresCase(source: Any, k1: string, k2: string)
    requires Lower(k1) == Lower(k2)
    requires source.Object? ==> !HasOwn(source.fields, k1) && !HasOwn(source.fields, k2)
    ensures GetValueCaseInsensitive(source, k1) == GetValueCaseInsensitive(source, k2)
  {
    if source.Object? {
      IndexOfKeySpec(source.fields, k1);
      IndexOfKeySpec(source.fields, k2);
    }
  }

  // =====================================================================
  // toValue

  /** A value the push payload may carry: a string, a number or a boolean. */
  predicate IsEncoded(v: Value) {
    v.Str? || v.Int? || v.Bool?
  }

  /** The payload encoding of one column value. */
  function ToValue(v: Value): (r: Value)
    ensures IsEncoded(r)
    ensures v.Null? || v.Undefined? ==> r == Str("null")
    ensures IsEncoded(v) ==> r == v
    ensures v.Other? ==> r == Str(v.repr)
  {
    if v.Null? || v.Undefined? then Str("null")
    else if v.Str? || v.Int? || v.Bool? then v
    else Str(StringOf(v))
  }

  /** Encoding an encoded value changes nothing. */
  lemma ToValueIdempotent(v: Value)
    ensures ToValue(ToValue(v)) == ToValue(v)
  {
  }

  /** Encoding keeps the text `String(...)` gives of a value, except that
      `undefined` is sent as `"null"`. */
  lemma ToValueKeepsText(v: Value)
    ensures v != Undefined ==> StringOf(ToValue(v)) == StringOf(v)
    ensures v == Undefined ==> StringOf(ToValue(v)) == "null"
  {
  }

  // =====================================================================
  // opColumnNames, built from the string operations it uses

  /** First position of `c` in `s`. */
  function IndexOf(s: string, c: char): Option<nat> {
    if s == [] then None
    else if s[0] == c then Some(0)
    else match IndexOf(s[1..], c)
      case None => None
      case Some(i) => Some(i + 1)
  }

  /** A position `IndexOf` gives lies inside the text. */
  lemma {:induction false} IndexOfBound(s: string, c: char)
    ensures IndexOf(s, c).Some? ==> IndexOf(s, c).value < |s| && s[IndexOf(s, c).value] == c
  {
    if s != [] && s[0] != c {
      IndexOfBound(s[1..], c);
    }
  }

  /** `IndexOf` finds the first occurrence, and nothing when there is none. */
  lemma {:induction false} IndexOfSpec(s: string, c: char)
    ensures var o := IndexOf(s, c);
      && (o.None? <==> c !in s)
      && (o.Some? ==> o.value < |s| && s[o.value] == c)
      && (o.Some? ==> forall j :: 0 <= j < o.value ==> s[j] != c)
  {
    if s != [] && s[0] != c {
      IndexOfSpec(s[1..], c);
      if c in s {
        var i :| 0 <= i < |s| && s[i] == c;
        assert s[1..][i - 1] == c;
      }
    }
  }

  /** `p` and `q` delimit a match of `/^[^(]+\(([^)]+)\)/` in `sql`: a
      non-empty prefix without `(`, the `(` at `p`, a non-empty run without
      `)`, and the `)` at `q`. */
  predicate ColumnClauseAt(sql: string, p: int, q: int) {
    && 0 < p && p + 1 < q < |sql|
    && sql[p] == '(' && sql[q] == ')'
    && (forall i :: 0 <= i < p ==> sql[i] != '(')
    && (forall i :: p < i < q ==> sql[i] != ')')
  }

  /** `sql.replace(/^[^(]+\(([^)]+)\)/, '$1')`: the matched prefix is replaced
      by the text between the parentheses; the rest of the text is kept. */
  function StripToColumnClause(sql: string): string {
    IndexOfSpec(sql, '(');
    match IndexOf(sql, '(')
    case None => sql
    case Some(p) =>
      IndexOfSpec(sql[p + 1..], ')');
      if p == 0 then sql
      else match IndexOf(sql[p + 1..], ')')
        case None => sql
        case Some(d) =>
          if d == 0 then sql else sql[p + 1..p + 1 + d] + sql[p + 1 + d + 1..]
  }

  /** A match of the pattern starts at the first `(` and ends at the first
      `)` after it, so there is at most one. */
  lemma ColumnClauseIsFirst(sql: string, p: int, q: int)
    requires ColumnClauseAt(sql, p, q)
    ensures IndexOf(sql, '(') == Some(p)
    ensures IndexOf(sql[p + 1..], ')') == Some(q - p - 1)
  {
    var tail := sql[p + 1..];
    IndexOfSpec(sql, '(');
    IndexOfSpec(tail, ')');
    assert sql[p] == '(';
    assert tail[q - p - 1] == sql[q];
    forall j | 0 <= j < q - p - 1 ensures tail[j] != ')' {
      assert tail[j] == sql[p + 1 + j];
    }
  }

  /** What the first `(` and the first `)` after it delimit is a match. */
  lemma FirstParensAreClause(sql: string, p: nat, d: nat)
    requires IndexOf(sql, '(') == Some(p) && 0 < p < |sql|
    requires IndexOf(sql[p + 1..], ')') == Some(d) && d != 0
    ensures ColumnClauseAt(sql, p, p + 1 + d)
  {
    var tail := sql[p + 1..];
    IndexOfSpec(sql, '(');
    IndexOfSpec(tail, ')');
    assert tail[d] == sql[p + 1 + d];
    forall i | p < i < p + 1 + d ensures sql[i] != ')' {
      assert tail[i - p - 1] == sql[i];
    }
  }

  /** A match is replaced by the parenthesised text and what follows the `)`. */
  lemma StripMatched(sql: string, p: int, q: int)
    requires ColumnClauseAt(sql, p, q)
    ensures StripToColumnClause(sql) == sql[p + 1..q] + sql[q + 1..]
  {
    ColumnClauseIsFirst(sql, p, q);
    StripAtFirstParens(sql, p, q - p - 1);
  }

  lemma StripAtFirstParens(sql: string, p: nat, d: nat)
    requires IndexOf(sql, '(') == Some(p) && 0 < p < |sql|
    requires IndexOf(sql[p + 1..], ')') == Some(d) && d != 0
    requires p + 1 + d < |sql|
    ensures StripToColumnClause(sql) == sql[p + 1..p + 1 + d] + sql[p + 1 + d + 1..]
  {
  }

  /** Text the pattern does not match is left alone. */
  lemma StripUnmatched(sql: string)
    requires forall p, q :: !ColumnClauseAt(sql, p, q)
    ensures StripToColumnClause(sql) == sql
  {
    IndexOfSpec(sql, '(');
    match IndexOf(sql, '(')
    case None =>
    case Some(p) =>
      match IndexOf(sql[p + 1..], ')')
      case None =>
      case Some(d) =>
        if p != 0 && d != 0 {
          FirstParensAreClause(sql, p, d);
          assert false;
        }
  }

  /** The replacement keeps the parenthesised text and what follows the `)`
      when the pattern matches, and leaves the text alone otherwise; either
      way it only drops characters. */
  lemma StripToColumnClauseSpec(sql: string)
    ensures forall p, q :: ColumnClauseAt(sql, p, q) ==>
      StripToColumnClause(sql) == sql[p + 1..q] + sql[q + 1..]
    ensures (forall p, q :: !ColumnClauseAt(sql, p, q)) ==> StripToColumnClause(sql) == sql
    ensures forall c :: c in StripToColumnClause(sql) ==> c in sql
  {
    forall p, q | ColumnClauseAt(sql, p, q)
      ensures StripToColumnClause(sql) == sql[p + 1..q] + sql[q + 1..]
    {
      StripMatched(sql, p, q);
    }
    if forall p, q :: !ColumnClauseAt(sql, p, q) {
      StripUnmatched(sql);
    }
    StripKeepsCharacters(sql);
  }

  /** The replacement only drops characters. */
  lemma StripKeepsCharacters(sql: string)
    ensures forall c :: c in StripToColumnClause(sql) ==> c in sql
  {
    var r := StripToColumnClause(sql);
    if forall p, q :: !ColumnClauseAt(sql, p, q) {
      StripUnmatched(sql);
      assert r == sql;
    } else {
      var p, q :| ColumnClauseAt(sql, p, q);
      StripMatched(sql, p, q);
      var inner, after := sql[p + 1..q], sql[q + 1..];
      assert r == inner + after;
      forall c | c in r ensures c in sql {
        if c in inner {
          SliceMember(sql, p + 1, q, c);
        } else {
          SliceMember(sql, q + 1, |sql|, c);
        }
      }
    }
  }

  lemma SliceMember(s: string, i: nat, j: nat, c: char)
    requires i <= j <= |s| && c in s[i..j]
    ensures c in s
  {
    var k :| 0 <= k < j - i && s[i..j][k] == c;
    assert s[i + k] == c;
  }

  /** `s.split(sep)` for a one-character separator. */
  function Split(s: string, sep: char): (parts: seq<string>)
    ensures |parts| >= 1
    decreases |s|
  {
    IndexOfSpec(s, sep);
    match IndexOf(s, sep)
    case None => [s]
    case Some(i) => [s[..i]] + Split(s[i + 1..], sep)
  }

  /** No part holds the separator. */
  lemma {:induction false} SplitNoSeparator(s: string, sep: char)
    ensures forall k :: 0 <= k < |Split(s, sep)| ==> sep !in Split(s, sep)[k]
    decreases |s|
  {
    IndexOfSpec(s, sep);
    match IndexOf(s, sep)
    case None =>
    case Some(i) =>
      var rest := s[i + 1..];
      SplitNoSeparator(rest, sep);
      var parts := Split(s, sep);
      assert parts == [s[..i]] + Split(rest, sep);
      forall k | 1 <= k < |parts| ensures sep !in parts[k] {
        assert parts[k] == Split(rest, sep)[k - 1];
      }
  }

  /** A character the text does not hold is in no part. */
  lemma {:induction false} SplitAvoids(s: string, sep: char, c: char)
    requires c !in s
    ensures forall k :: 0 <= k < |Split(s, sep)| ==> c !in Split(s, sep)[k]
    decreases |s|
  {
    IndexOfSpec(s, sep);
    match IndexOf(s, sep)
    case None =>
    case Some(i) =>
      var rest := s[i + 1..];
      SplitAvoids(rest, sep, c);
      var parts := Split(s, sep);
      assert parts == [s[..i]] + Split(rest, sep);
      forall k | 1 <= k < |parts| ensures c !in parts[k] {
        assert parts[k] == Split(rest, sep)[k - 1];
      }
  }

  /** `parts.join(sep)`. */
  function Join(parts: seq<string>, sep: char): string
    requires |parts| >= 1
  {
    if |parts| == 1 then parts[0] else parts[0] + [sep] + Join(parts[1..], sep)
  }

  /** Joining one more part in front puts a separator after it. */
  lemma JoinCons(first: string, parts: seq<string>, sep: char)
    requires |parts| >= 1
    ensures Join([first] + parts, sep) == first + [sep] + Join(parts, sep)
  {
    assert ([first] + parts)[1..] == parts;
  }

  /** Splitting loses nothing: joining the parts gives the text back. */
  lemma {:induction false} SplitJoin(s: string, sep: char)
    ensures Join(Split(s, sep), sep) == s
    decreases |s|
  {
    IndexOfBound(s, sep);
    if IndexOf(s, sep).Some? {
      var i := IndexOf(s, sep).value;
      var rest := s[i + 1..];
      SplitJoin(rest, sep);
      JoinCons(s[..i], Split(rest, sep), sep);
      CutAround(s, i);
    }
  }

  /** A text is the part before a position, the character there and the
      part after it. */
  lemma CutAround(s: string, i: nat)
    requires i < |s|
    ensures s == s[..i] + [s[i]] + s[i + 1..]
  {
  }

  /** The characters `trim()` removes. */
  predicate IsWhitespace(c: char) {
    c == ' ' || c == '\t' || c == '\n' || c == '\r' || c == '\U{000B}' || c == '\U{000C}'
    || c == '\U{00A0}' || c == '\U{FEFF}'
  }

  function TrimStart(s: string): string {
    if s != [] && IsWhitespace(s[0]) then TrimStart(s[1..]) else s
  }

  /** `TrimStart` drops the leading whitespace and nothing else. */
  lemma {:induction false} TrimStartSpec(s: string)
    ensures var r := TrimStart(s);
      && |r| <= |s| && r == s[|s| - |r|..]
      && (forall i :: 0 <= i < |s| - |r| ==> IsWhitespace(s[i]))
      && (r == [] || !IsWhitespace(r[0]))
  {
    if s != [] && IsWhitespace(s[0]) {
      TrimStartSpec(s[1..]);
      var r := TrimStart(s[1..]);
      assert s[1..][|s| - 1 - |r|..] == s[|s| - |r|..];
      forall i | 1 <= i < |s| - |r| ensures IsWhitespace(s[i]) {
        assert s[i] == s[1..][i - 1];
      }
    }
  }

  function TrimEnd(s: string): string {
    if s != [] && IsWhitespace(s[|s| - 1]) then TrimEnd(s[..|s| - 1]) else s
  }

  /** `TrimEnd` drops the trailing whitespace and nothing else. */
  lemma {:induction false} TrimEndSpec(s: string)
    ensures var r := TrimEnd(s);
      && |r| <= |s| && r == s[..|r|]
      && (forall i :: |r| <= i < |s| ==> IsWhitespace(s[i]))
      && (r == [] || !IsWhitespace(r[|r| - 1]))
  {
    if s != [] && IsWhitespace(s[|s| - 1]) {
      TrimEndSpec(s[..|s| - 1]);
      var r := TrimEnd(s[..|s| - 1]);
      assert s[..|s| - 1][..|r|] == s[..|r|];
      forall i | |r| <= i < |s| - 1 ensures IsWhitespace(s[i]) {
        assert s[i] == s[..|s| - 1][i];
      }
    }
  }

  /** `s.trim()`. */
  function Trim(s: string): string {
    TrimEnd(TrimStart(s))
  }

  /** The trimmed text draws its characters from the text and has no
      whitespace at either end. */
  lemma TrimSpec(s: string)
    ensures forall c :: c in Trim(s) ==> c in s
    ensures Trim(s) == [] || (!IsWhitespace(Trim(s)[0]) && !IsWhitespace(Trim(s)[|Trim(s)| - 1]))
  {
    var t := TrimStart(s);
    var r := TrimEnd(t);
    TrimStartSpec(s);
    TrimEndSpec(t);
    if r != [] {
      assert r[0] == t[0];
    }
    forall c | c in r ensures c in s {
      SliceMember(t, 0, |r|, c);
      SliceMember(s, |s| - |t|, |s|, c);
    }
  }

  /** `s.replace(c, '')` with a string pattern: only the first `c` goes. */
  function RemoveFirst(s: string, c: char): string {
    IndexOfBound(s, c);
    match IndexOf(s, c)
    case None => s
    case Some(i) => s[..i] + s[i + 1..]
  }

  /** A first occurrence of `c` is where `IndexOf` finds it. */
  lemma {:induction false} IndexOfFirst(s: string, c: char, i: nat)
    requires i < |s| && s[i] == c && forall j :: 0 <= j < i ==> s[j] != c
    ensures IndexOf(s, c) == Some(i)
  {
    if i > 0 {
      assert s[0] != c;
      assert s[1..][i - 1] == c;
      assert forall j :: 0 <= j < i - 1 ==> s[1..][j] == s[j + 1];
      IndexOfFirst(s[1..], c, i - 1);
    }
  }

  /** At the first occurrence of `c`, the text is cut around it. */
  lemma RemoveFirstAt(s: string, c: char, i: nat)
    requires i < |s| && s[i] == c && forall j :: 0 <= j < i ==> s[j] != c
    ensures RemoveFirst(s, c) == s[..i] + s[i + 1..]
  {
    IndexOfFirst(s, c, i);
  }

  /** Removing a character adds none. */
  lemma RemoveFirstKeeps(s: string, c: char)
    ensures forall x :: x in RemoveFirst(s, c) ==> x in s
  {
    IndexOfBound(s, c);
    if IndexOf(s, c).Some? {
      var i := IndexOf(s, c).value;
      forall x | x in s[..i] + s[i + 1..] ensures x in s {
        if x in s[..i] {
          SliceMember(s, 0, i, x);
        } else {
          SliceMember(s, i + 1, |s|, x);
        }
      }
    }
  }

  /** Without `c` the text is kept; with it, one character goes. */
  lemma RemoveFirstLength(s: string, c: char)
    ensures c !in s ==> RemoveFirst(s, c) == s
    ensures c in s ==> |RemoveFirst(s, c)| == |s| - 1
  {
    IndexOfSpec(s, c);
  }

  /** Without `c` the text is kept; otherwise exactly the first `c` is cut
      out, and the characters on either side of it stay in place. */
  lemma RemoveFirstSpec(s: string, c: char)
    ensures c !in s ==> RemoveFirst(s, c) == s
    ensures forall i :: 0 <= i < |s| && s[i] == c && (forall j :: 0 <= j < i ==> s[j] != c) ==>
      RemoveFirst(s, c) == s[..i] + s[i + 1..]
    ensures c in s ==> |RemoveFirst(s, c)| == |s| - 1
    ensures forall x :: x in RemoveFirst(s, c) ==> x in s
  {
    forall i | 0 <= i < |s| && s[i] == c && (forall j :: 0 <= j < i ==> s[j] != c)
      ensures RemoveFirst(s, c) == s[..i] + s[i + 1..]
    {
      RemoveFirstAt(s, c, i);
    }
    RemoveFirstLength(s, c);
    RemoveFirstKeeps(s, c);
  }

  /** `s.replace(/c/g, '')`: every `c` goes. */
  function RemoveAll(s: string, c: char): string {
    if s == [] then []
    else (if s[0] == c then [] else [s[0]]) + RemoveAll(s[1..], c)
  }

  lemma {:induction false} RemoveAllSpec(s: string, c: char)
    ensures c !in RemoveAll(s, c)
    ensures forall x :: x in RemoveAll(s, c) <==> x in s && x != c
  {
    if s != [] {
      RemoveAllSpec(s[1..], c);
      assert forall x :: x in s <==> x == s[0] || x in s[1..];
    }
  }

  /** A one-character text loses exactly a `c`. */
  lemma RemoveAllOne(x: char, c: char)
    ensures RemoveAll([x], c) == if x == c then [] else [x]
  {
  }

  /** The removal from a concatenation is the concatenation of the removals;
      with `RemoveAllOne` this fixes the order and number of the characters
      that stay. */
  lemma {:induction false} RemoveAllAppend(a: string, b: string, c: char)
    ensures RemoveAll(a + b, c) == RemoveAll(a, c) + RemoveAll(b, c)
    decreases |a|
  {
    if a == [] {
      assert a + b == b;
    } else {
      assert (a + b)[0] == a[0];
      assert (a + b)[1..] == a[1..] + b;
      RemoveAllAppend(a[1..], b, c);
    }
  }

  /** The name one comma-separated clause contributes: its first
      space-separated token after trimming, without its first `[`, its
      first `]` and every `"`. */
  function ColumnName(clause: string): string {
    var token := Split(Trim(clause), ' ')[0];
    RemoveAll(RemoveFirst(RemoveFirst(token, '['), ']'), '"')
  }

  /** A name has no space and no double quote, and its characters come from
      the clause. */
  lemma ColumnNameSpec(clause: string)
    ensures ' ' !in ColumnName(clause) && '"' !in ColumnName(clause)
    ensures forall c :: c in ColumnName(clause) ==> c in clause
  {
    var trimmed := Trim(clause);
    var token := Split(trimmed, ' ')[0];
    var unbracketed := RemoveFirst(token, '[');
    var closed := RemoveFirst(unbracketed, ']');
    TrimSpec(clause);
    SplitNoSeparator(trimmed, ' ');
    RemoveFirstSpec(token, '[');
    RemoveFirstSpec(unbracketed, ']');
    RemoveAllSpec(closed, '"');
    forall c | c !in clause ensures c !in ColumnName(clause) {
      SplitAvoids(trimmed, ' ', c);
    }
  }

  /** The non-empty names of the clauses, in order (`map` then `filter(Boolean)`). */
  function NamesOf(clauses: seq<string>): seq<string> {
    Filter((n: string) => n != [], Map(ColumnName, clauses))
  }

  /** The names kept are exactly the non-empty names of the clauses. */
  lemma NamesOfSpec(clauses: seq<string>)
    ensures |NamesOf(clauses)| <= |clauses|
    ensures forall n :: n in NamesOf(clauses) <==> n != [] && exists c :: c in clauses && ColumnName(c) == n
  {
    FilterMapMembers((n: string) => n != [], ColumnName, clauses);
  }

  /** A clause contributes its name when that is non-empty, and nothing
      otherwise. */
  lemma NamesOfOne(clause: string)
    ensures NamesOf([clause]) == if ColumnName(clause) != [] then [ColumnName(clause)] else []
  {
    assert Map(ColumnName, [clause]) == [ColumnName(clause)];
    FilterOne((n: string) => n != [], ColumnName(clause));
  }

  /** The names of consecutive clause lists follow one another; with
      `NamesOfOne` this fixes the names as one per clause with a non-empty
      name, in clause order. */
  lemma NamesOfAppend(a: seq<string>, b: seq<string>)
    ensures NamesOf(a + b) == NamesOf(a) + NamesOf(b)
  {
    MapAppend(ColumnName, a, b);
    FilterAppend((n: string) => n != [], Map(ColumnName, a), Map(ColumnName, b));
  }

  /** The declared column names of a `CREATE TABLE` statement. */
  function OpColumnNames(sqlText: string): seq<string> {
    NamesOf(Split(StripToColumnClause(sqlText), ','))
  }

  /** The names are the non-empty names of the comma-separated clauses of the
      parenthesised column list; none is empty or holds a space, a double
      quote or a comma. */
  lemma OpColumnNamesSpec(sqlText: string)
    ensures forall n :: n in OpColumnNames(sqlText) <==>
      n != [] && exists clause :: clause in Split(StripToColumnClause(sqlText), ',') && ColumnName(clause) == n
    ensures forall n :: n in OpColumnNames(sqlText) ==> n != [] && ' ' !in n && '"' !in n && ',' !in n
  {
    var clauses := Split(StripToColumnClause(sqlText), ',');
    NamesOfSpec(clauses);
    SplitNoSeparator(StripToColumnClause(sqlText), ',');
    forall n | n in OpColumnNames(sqlText) ensures ' ' !in n && '"' !in n && ',' !in n {
      var clause :| clause in clauses && ColumnName(clause) == n;
      ColumnNameSpec(clause);
      var k :| 0 <= k < |clauses| && clauses[k] == clause;
      assert ',' !in clause;
    }
  }

  // =====================================================================
  // toRow

  predicate IsMergeUpdateColumn(column: string) {
    Lower(column) == "mergeupdate"
  }

  /** The key a declared column is sent under. */
  function OutputKey(column: string): string {
    if Lower(column) == "rowid" then "rowid" else column
  }

  /** `row[k] = v` on a plain object: overwrite in place, or append. */
  function SetField(r: Record, k: string, v: Value): Record {
    IndexOfKeySpec(r, k);
    match IndexOfKey(r, k)
    case None => r + [Field(k, v)]
    case Some(i) => r[..i] + [Field(k, v)] + r[i + 1..]
  }

  /** An assignment under `k` leaves the read of any other key alone. */
  lemma SetFieldOther(r: Record, k: string, v: Value, k': string)
    requires k' != k
    ensures Get(SetField(r, k, v), k') == Get(r, k')
  {
    var r' := SetField(r, k, v);
    IndexOfKeySpec(r, k);
    IndexOfKeySpec(r, k');
    IndexOfKeySpec(r', k');
    if IndexOfKey(r, k).Some? {
      var i := IndexOfKey(r, k).value;
      assert forall j :: 0 <= j < |r| && j != i ==> r'[j] == r[j];
    }
    match IndexOfKey(r, k')
    case None =>
      assert !HasOwn(r', k');
    case Some(m) =>
      assert r'[m] == r[m];
  }

  /** The keys after an assignment under `k`: those before, and `k`; the
      fields are old ones or the new one; distinct keys stay distinct. */
  lemma SetFieldKeys(r: Record, k: string, v: Value)
    ensures var r' := SetField(r, k, v);
      && (DistinctKeys(r) ==> DistinctKeys(r'))
      && (forall k' :: HasOwn(r', k') <==> HasOwn(r, k') || k' == k)
      && (forall f :: f in r' ==> f in r || f == Field(k, v))
  {
    var r' := SetField(r, k, v);
    IndexOfKeySpec(r, k);
    match IndexOfKey(r, k)
    case None =>
      assert r'[|r|] == Field(k, v);
      assert forall j :: 0 <= j < |r| ==> r'[j] == r[j];
    case Some(i) =>
      assert |r'| == |r|;
      assert r'[i] == Field(k, v);
      assert forall j :: 0 <= j < |r| && j != i ==> r'[j] == r[j];
      assert forall j :: 0 <= j < |r| ==> r'[j].key == r[j].key;
      forall k' ensures HasOwn(r', k') <==> HasOwn(r, k') {
        if HasOwn(r, k') {
          var m :| 0 <= m < |r| && r[m].key == k';
          assert r'[m].key == k';
        }
      }
  }

  /** An assignment under `k` is read back under `k`. */
  lemma SetFieldSame(r: Record, k: string, v: Value)
    ensures Get(SetField(r, k, v), k) == v
  {
    var r' := SetField(r, k, v);
    IndexOfKeySpec(r, k);
    IndexOfKeySpec(r', k);
    if IndexOfKey(r, k).None? {
      assert forall j :: 0 <= j < |r| ==> r'[j] == r[j];
      assert r'[|r|] == Field(k, v);
    } else {
      var i := IndexOfKey(r, k).value;
      assert forall j :: 0 <= j < i ==> r'[j] == r[j];
      assert r'[i] == Field(k, v);
    }
  }

  /** Where the key sits: a new key goes last, after the fields already
      there; an existing key is overwritten where it is, so every position
      keeps its key. */
  lemma SetFieldPlace(r: Record, k: string, v: Value)
    ensures !HasOwn(r, k) ==> SetField(r, k, v) == r + [Field(k, v)]
    ensures HasOwn(r, k) ==>
      |SetField(r, k, v)| == |r| && forall j :: 0 <= j < |r| ==> SetField(r, k, v)[j].key == r[j].key
  {
    IndexOfKeySpec(r, k);
    if HasOwn(r, k) {
      var i := IndexOfKey(r, k).value;
      var r' := SetField(r, k, v);
      assert r' == r[..i] + [Field(k, v)] + r[i + 1..];
      forall j | 0 <= j < |r| ensures r'[j].key == r[j].key {
        if j < i {
          assert r'[j] == r[j];
        } else if j > i {
          assert r'[j] == r[j];
        }
      }
    }
  }

  /** The property assignment stores `v` under `k`, leaves every other key's
      value alone, adds no key but `k`, keeps the keys distinct, and appends
      a new key while an existing one keeps its place. */
  lemma SetFieldSpec(r: Record, k: string, v: Value)
    ensures !HasOwn(r, k) ==> SetField(r, k, v) == r + [Field(k, v)]
    ensures HasOwn(r, k) ==>
      |SetField(r, k, v)| == |r| && forall j :: 0 <= j < |r| ==> SetField(r, k, v)[j].key == r[j].key
    ensures var r' := SetField(r, k, v);
      && (DistinctKeys(r) ==> DistinctKeys(r'))
      && Get(r', k) == v
      && (forall k' :: k' != k ==> Get(r', k') == Get(r, k'))
      && (forall k' :: HasOwn(r', k') <==> HasOwn(r, k') || k' == k)
      && (forall f :: f in r' ==> f in r || f == Field(k, v))
  {
    SetFieldPlace(r, k, v);
    SetFieldKeys(r, k, v);
    SetFieldSame(r, k, v);
    forall k' | k' != k ensures Get(SetField(r, k, v), k') == Get(r, k') {
      SetFieldOther(r, k, v, k');
    }
  }

  /** The projected row `toRow` builds, column by column in declaration order. */
  function ProjectRow(source: Any, columns: seq<string>): Record
    decreases |columns|
  {
    if columns == [] then []
    else
      var acc := ProjectRow(source, columns[..|columns| - 1]);
      var c := columns[|columns| - 1];
      if IsMergeUpdateColumn(c) then acc
      else SetField(acc, OutputKey(c), ToValue(GetValueCaseInsensitive(source, c)))
  }

  /** One more declared column: the counter column adds nothing, any other
      sets its output key. */
  lemma ProjectRowSnoc(source: Any, columns: seq<string>, c: string)
    ensures ProjectRow(source, columns + [c]) ==
      if IsMergeUpdateColumn(c) then ProjectRow(source, columns)
      else SetField(ProjectRow(source, columns), OutputKey(c), ToValue(GetValueCaseInsensitive(source, c)))
  {
    assert (columns + [c])[..|columns|] == columns;
  }

  /** A projected row is a proper object (no key twice) whose keys are
      exactly the output keys of the declared columns other than
      `MergeUpdate`, and whose values are all encoded. */
  lemma {:induction false} ProjectRowShape(source: Any, columns: seq<string>)
    ensures var row := ProjectRow(source, columns);
      && DistinctKeys(row)
      && (forall k :: HasOwn(row, k) <==> exists c :: c in columns && !IsMergeUpdateColumn(c) && OutputKey(c) == k)
      && (forall i :: 0 <= i < |row| ==> IsEncoded(row[i].value))
    decreases |columns|
  {
    if columns != [] {
      var prefix := columns[..|columns| - 1];
      var c := columns[|columns| - 1];
      assert forall x :: x in columns <==> x in prefix || x == c;
      ProjectRowShape(source, prefix);
      if !IsMergeUpdateColumn(c) {
        var acc := ProjectRow(source, prefix);
        var v := ToValue(GetValueCaseInsensitive(source, c));
        SetFieldSpec(acc, OutputKey(c), v);
        var row := SetField(acc, OutputKey(c), v);
        forall i | 0 <= i < |row| ensures IsEncoded(row[i].value) {
          assert row[i] in row;
        }
      }
    }
  }

  /** `toRow`. */
  method ToRow(source: Any, columns: seq<string>) returns (row: Record)
    ensures row == ProjectRow(source, columns)
  {
    row := [];
    for i := 0 to |columns|
      invariant row == ProjectRow(source, columns[..i])
    {
      assert columns[..i + 1][..i] == columns[..i];
      var columnName := columns[i];
      var lower := Lower(columnName);
      if lower == "mergeupdate" {
        continue;
      }
      var outputKey := if lower == "rowid" then "rowid" else columnName;
      row := SetField(row, outputKey, ToValue(GetValueCaseInsensitive(source, columnName)));
    }
    assert columns[..|columns|] == columns;
  }

  lemma LowerRowId()
    ensures Lower("rowid") == "rowid"
  {
  }

  /** The key rules of a projected row: no key is `MergeUpdate` in any letter
      case; a `rowid` column in any letter case is sent as `rowid` and no
      other spelling of `rowid` occurs; every other declared column keeps its
      declared name. */
  lemma ProjectRowKeys(source: Any, columns: seq<string>)
    ensures var row := ProjectRow(source, columns);
      && (forall i :: 0 <= i < |row| ==> !IsMergeUpdateColumn(row[i].key))
      && (forall i :: 0 <= i < |row| && Lower(row[i].key) == "rowid" ==> row[i].key == "rowid")
      && (forall c :: c in columns && Lower(c) == "rowid" ==> HasOwn(row, "rowid"))
      && (forall c :: c in columns && !IsMergeUpdateColumn(c) && Lower(c) != "rowid" ==> HasOwn(row, c))
  {
    var row := ProjectRow(source, columns);
    ProjectRowShape(source, columns);
    LowerRowId();
    forall i | 0 <= i < |row|
      ensures !IsMergeUpdateColumn(row[i].key)
      ensures Lower(row[i].key) == "rowid" ==> row[i].key == "rowid"
    {
      assert HasOwn(row, row[i].key);
      var c :| c in columns && !IsMergeUpdateColumn(c) && OutputKey(c) == row[i].key;
    }
    forall c | c in columns && Lower(c) == "rowid"
      ensures HasOwn(row, "rowid")
    {
      assert !IsMergeUpdateColumn(c);
      assert OutputKey(c) == "rowid";
    }
  }

  /** The value under a key is the encoding of what the case-insensitive
      lookup finds for the LAST declared column sent under that key. */
  lemma {:induction false} ProjectRowValue(source: Any, columns: seq<string>, j: nat)
    requires j < |columns| && !IsMergeUpdateColumn(columns[j])
    requires forall j' :: j < j' < |columns| ==> IsMergeUpdateColumn(columns[j']) || OutputKey(columns[j']) != OutputKey(columns[j])
    ensures Get(ProjectRow(source, columns), OutputKey(columns[j])) == ToValue(GetValueCaseInsensitive(source, columns[j]))
    decreases |columns|
  {
    var prefix := columns[..|columns| - 1];
    var c := columns[|columns| - 1];
    if !IsMergeUpdateColumn(c) {
      SetFieldSpec(ProjectRow(source, prefix), OutputKey(c), ToValue(GetValueCaseInsensitive(source, c)));
    }
    if j < |columns| - 1 {
      ProjectRowValue(source, prefix, j);
    }
  }

  // =====================================================================
  // buildPushJsonRequestFromDb

  /** One row of `select tbl_name, sql from sqlite_master where ...`. */
  datatype CatalogEntry = CatalogEntry(tblName: string, sql: Option<string>)

  /** The answers the query function gives the scanner: the catalog rows, the
      `RowId is null` and `MergeUpdate > 0 and RowId is not null` rows of each
      table (a table with no entry answers with no rows), and the rows of
      `MergeDelete`. */
  datatype Snapshot = Snapshot(
    catalog: seq<CatalogEntry>,
    insertRows: map<string, seq<Record>>,
    updateRows: map<string, seq<Record>>,
    tombstones: seq<Record>)

  function PendingInserts(s: Snapshot, table: string): seq<Record> {
    if table in s.insertRows then s.insertRows[table] else []
  }

  function PendingUpdates(s: Snapshot, table: string): seq<Record> {
    if table in s.updateRows then s.updateRows[table] else []
  }

  /** What the scanner returns: the request and the deferred acknowledgements. */
  datatype ScanResult = ScanResult(request: PushJsonRequest, recordsUpdated: seq<QueryLike>, recordsDeleted: seq<QueryLike>)

  /** A catalog row the scanner considers: a non-empty name other than the
      tombstone log's. */
  predicate IsSyncedTable(e: CatalogEntry) {
    e.tblName != "" && e.tblName != "MergeDelete"
  }

  /** The catalog filter, keeping catalog order. */
  function SyncedTables(catalog: seq<CatalogEntry>): (tables: seq<CatalogEntry>)
    ensures forall e :: e in tables <==> e in catalog && IsSyncedTable(e)
  {
    if catalog == [] then []
    else
      var prefix := catalog[..|catalog| - 1];
      var e := catalog[|catalog| - 1];
      assert forall x :: x in catalog <==> x in prefix || x == e;
      SyncedTables(prefix) + (if IsSyncedTable(e) then [e] else [])
  }

  /** One catalog entry is kept once when it is synced, and dropped
      otherwise; with `SyncedTablesAppend` each synced entry is kept exactly
      as often as the catalog holds it, in catalog order. */
  lemma SyncedTablesOne(e: CatalogEntry)
    ensures SyncedTables([e]) == if IsSyncedTable(e) then [e] else []
  {
    assert [e][..0] == [];
  }

  lemma {:induction false} SyncedTablesAppend(a: seq<CatalogEntry>, b: seq<CatalogEntry>)
    ensures SyncedTables(a + b) == SyncedTables(a) + SyncedTables(b)
    decreases |b|
  {
    if b == [] {
      assert a + b == a;
    } else {
      var b' := b[..|b| - 1];
      assert (a + b)[..|a + b| - 1] == a + b';
      SyncedTablesAppend(a, b');
    }
  }

  /** `sql ? opColumnNames(sql) : []`. */
  function TableColumns(e: CatalogEntry): seq<string> {
    match e.sql
    case None => []
    case Some(text) => if text == "" then [] else OpColumnNames(text)
  }

  /** `rows.map(row => toRow(row, columns))`. */
  function ProjectRows(rows: seq<Record>, columns: seq<string>): seq<PushJsonRow> {
    Map((row: Record) => ProjectRow(Object(row), columns), rows)
  }

  const ClearMergeUpdateSql: string := " SET MergeUpdate=0 WHERE rowid=? AND MergeUpdate=?"

  /** The compare-and-clear acknowledgement of one pending update: it clears
      the counter only if it still holds the value read by the scan. */
  function UpdateAck(table: string, row: Record): QueryLike {
    var rowIdValue := GetValueCaseInsensitive(Object(row), "rowid");
    var mergeUpdateValue := GetValueCaseInsensitive(Object(row), "MergeUpdate");
    Query("UPDATE " + table + ClearMergeUpdateSql, Some([Str(StringOf(rowIdValue)), mergeUpdateValue]))
  }

  /** The acknowledgements pushed for the update rows of one table, in order. */
  function UpdateAcks(table: string, rows: seq<Record>): seq<QueryLike> {
    Map((row: Record) => UpdateAck(table, row), rows)
  }

  /** A table that the scan reports: it declares columns and has pending
      inserts or updates. */
  predicate EmitsChanges(s: Snapshot, e: CatalogEntry) {
    TableColumns(e) != [] && (|PendingInserts(s, e.tblName)| > 0 || |PendingUpdates(s, e.tblName)| > 0)
  }

  /** The changes entry of such a table: its projected inserts and updates. */
  function ChangesFor(s: Snapshot, e: CatalogEntry): TableChanges {
    TableChanges(e.tblName,
                 ProjectRows(PendingInserts(s, e.tblName), TableColumns(e)),
                 ProjectRows(PendingUpdates(s, e.tblName), TableColumns(e)))
  }

  /** The changes entry of one table: none for a table without declared
      columns or without pending rows, else one. */
  function TableEntry(s: Snapshot, e: CatalogEntry): seq<TableChanges> {
    if EmitsChanges(s, e) then [ChangesFor(s, e)] else []
  }

  /** The update acknowledgements of one table (none without declared columns). */
  function TableAcks(s: Snapshot, e: CatalogEntry): seq<QueryLike> {
    if TableColumns(e) == [] then [] else UpdateAcks(e.tblName, PendingUpdates(s, e.tblName))
  }

  /** The changes entries of a list of tables, in order. */
  function ChangesOf(s: Snapshot, tables: seq<CatalogEntry>): seq<TableChanges> {
    FlatMap((e: CatalogEntry) => TableEntry(s, e), tables)
  }

  /** The update acknowledgements of a list of tables, in order. */
  function AcksOf(s: Snapshot, tables: seq<CatalogEntry>): seq<QueryLike> {
    FlatMap((e: CatalogEntry) => TableAcks(s, e), tables)
  }

  const DeleteTombstoneSql: string := "DELETE FROM MergeDelete WHERE TableId=? AND RowId=?"

  /** The deletion a tombstone row is sent as. */
  function DeletionOf(row: Record): Deletion {
    Deletion(StringOf(GetValueCaseInsensitive(Object(row), "TableId")),
             StringOf(GetValueCaseInsensitive(Object(row), "RowId")))
  }

  /** The acknowledgement that removes a tombstone once it has been pushed. */
  function TombstoneAck(row: Record): QueryLike {
    Query(DeleteTombstoneSql,
          Some([GetValueCaseInsensitive(Object(row), "TableId"), GetValueCaseInsensitive(Object(row), "RowId")]))
  }

  /** The result of the scan over a snapshot. */
  function Scan(s: Snapshot): ScanResult {
    var tables := SyncedTables(s.catalog);
    ScanResult(PushJsonRequest(ChangesOf(s, tables), Map(DeletionOf, s.tombstones)),
               AcksOf(s, tables), Map(TombstoneAck, s.tombstones))
  }

  // ---------------------------------------------------------------------
  // Rejected queries. Every `await dbAll(...)` of the builder may reject
  // (a missing table, a missing column); the rejection then ends the whole
  // build with that error and no result.

  /** The answers of the query function, each a row list or a rejection: the
      catalog query, the two row queries of each table (a table without an
      entry answers with no rows) and the `MergeDelete` query. */
  datatype QueryAnswers = QueryAnswers(
    catalog: Result<seq<CatalogEntry>, string>,
    insertAnswers: map<string, Result<seq<Record>, string>>,
    updateAnswers: map<string, Result<seq<Record>, string>>,
    tombstones: Result<seq<Record>, string>)

  /** The answer to `select * from <table> where RowId is null`. */
  function InsertAnswer(a: QueryAnswers, table: string): Result<seq<Record>, string> {
    if table in a.insertAnswers then a.insertAnswers[table] else Success([])
  }

  /** The answer to `select * from <table> where MergeUpdate > 0 and RowId is not null`. */
  function UpdateAnswer(a: QueryAnswers, table: string): Result<seq<Record>, string> {
    if table in a.updateAnswers then a.updateAnswers[table] else Success([])
  }

  /** The rows the queries that succeeded return. */
  function SnapshotOf(a: QueryAnswers): Snapshot {
    Snapshot(
      if a.catalog.Success? then a.catalog.value else [],
      map t | t in a.insertAnswers && a.insertAnswers[t].Success? :: a.insertAnswers[t].value,
      map t | t in a.updateAnswers && a.updateAnswers[t].Success? :: a.updateAnswers[t].value,
      if a.tombstones.Success? then a.tombstones.value else [])
  }

  /** The snapshot holds exactly the rows of every successful answer. */
  lemma SnapshotOfAnswers(a: QueryAnswers, table: string)
    ensures InsertAnswer(a, table).Success? ==> PendingInserts(SnapshotOf(a), table) == InsertAnswer(a, table).value
    ensures UpdateAnswer(a, table).Success? ==> PendingUpdates(SnapshotOf(a), table) == UpdateAnswer(a, table).value
    ensures a.catalog.Success? ==> SnapshotOf(a).catalog == a.catalog.value
    ensures a.tombstones.Success? ==> SnapshotOf(a).tombstones == a.tombstones.value
  {
  }

  /** The rejection the queries of one table end with, if any: a table
      without declared columns issues no query; otherwise the inserts query
      runs first and the updates query second. */
  function TableFailure(a: QueryAnswers, e: CatalogEntry): Option<string> {
    if TableColumns(e) == [] then None
    else match InsertAnswer(a, e.tblName)
      case Failure(err) => Some(err)
      case Success(_) =>
        match UpdateAnswer(a, e.tblName)
        case Failure(err) => Some(err)
        case Success(_) => None
  }

  /** The first rejection met while scanning the tables in order. */
  function FirstTableFailure(a: QueryAnswers, tables: seq<CatalogEntry>): Option<string> {
    FirstSome((e: CatalogEntry) => TableFailure(a, e), tables)
  }

  /** No rejection is met exactly when no table's queries reject; otherwise
      it is the rejection of the first table whose queries reject. */
  lemma FirstTableFailureSpec(a: QueryAnswers, tables: seq<CatalogEntry>, i: nat)
    ensures FirstTableFailure(a, tables).None? <==> forall k :: 0 <= k < |tables| ==> TableFailure(a, tables[k]).None?
    ensures i < |tables| && TableFailure(a, tables[i]).Some? && (forall k :: 0 <= k < i ==> TableFailure(a, tables[k]).None?)
      ==> FirstTableFailure(a, tables) == TableFailure(a, tables[i])
  {
    var f := (e: CatalogEntry) => TableFailure(a, e);
    FirstSomeNone(f, tables);
    if i < |tables| && TableFailure(a, tables[i]).Some? && (forall k :: 0 <= k < i ==> TableFailure(a, tables[k]).None?) {
      FirstSomeAt(f, tables, i);
    }
  }

  /** The table loop meets no rejection exactly when no synced table of the
      catalog has a rejected query. */
  lemma SyncedTablesQueried(a: QueryAnswers, catalog: seq<CatalogEntry>)
    ensures FirstTableFailure(a, SyncedTables(catalog)).None? <==>
      forall e :: e in catalog && IsSyncedTable(e) ==> TableFailure(a, e).None?
  {
    var tables := SyncedTables(catalog);
    var f := (e: CatalogEntry) => TableFailure(a, e);
    FirstSomeNone(f, tables);
    assert (forall k :: 0 <= k < |tables| ==> f(tables[k]).None?) <==> (forall e :: e in tables ==> f(e).None?) by {
      if forall k :: 0 <= k < |tables| ==> f(tables[k]).None? {
        forall e | e in tables ensures f(e).None? {
          var k :| 0 <= k < |tables| && tables[k] == e;
        }
      }
    }
  }

  /** What `buildPushJsonRequestFromDb` settles with: the first rejection in
      the order the queries are issued (the catalog, the tables in catalog
      order, the tombstones), or else the scan of the rows returned. */
  function BuildOutcome(a: QueryAnswers): Result<ScanResult, string> {
    match a.catalog
    case Failure(err) => Failure(err)
    case Success(catalog) =>
      match FirstTableFailure(a, SyncedTables(catalog))
      case Some(err) => Failure(err)
      case None =>
        match a.tombstones
        case Failure(err) => Failure(err)
        case Success(_) => Success(Scan(SnapshotOf(a)))
  }

  /** The build succeeds exactly when every query it issues succeeds, and then
      yields the scan of the returned rows. A rejected catalog or tombstone
      query ends it with that query's error. */
  lemma BuildOutcomeSpec(a: QueryAnswers)
    ensures BuildOutcome(a).Success? <==>
      && a.catalog.Success?
      && (forall e :: e in a.catalog.value && IsSyncedTable(e) ==> TableFailure(a, e).None?)
      && a.tombstones.Success?
    ensures BuildOutcome(a).Success? ==> BuildOutcome(a).value == Scan(SnapshotOf(a))
    ensures a.catalog.Failure? ==> BuildOutcome(a) == Failure(a.catalog.error)
    ensures
      (a.catalog.Success? && a.tombstones.Failure? && forall e :: e in a.catalog.value && IsSyncedTable(e) ==> TableFailure(a, e).None?)
      ==> BuildOutcome(a) == Failure(a.tombstones.error)
  {
    if a.catalog.Success? {
      SyncedTablesQueried(a, a.catalog.value);
    }
  }

  /** A scanned table whose rows cannot be queried (say, it has no
      `MergeUpdate` column, so the updates query rejects) makes the whole
      build fail, whatever the other tables hold. */
  lemma RejectedTableFailsBuild(a: QueryAnswers, e: CatalogEntry)
    requires a.catalog.Success? && e in a.catalog.value && IsSyncedTable(e) && TableColumns(e) != []
    requires InsertAnswer(a, e.tblName).Failure? || UpdateAnswer(a, e.tblName).Failure?
    ensures BuildOutcome(a).Failure?
  {
    BuildOutcomeSpec(a);
    assert TableFailure(a, e).Some?;
  }

  // ---------------------------------------------------------------------
  // The scanner as the source runs it: loops that append to result lists.

  /** `rows.map(row => toRow(row, columns))`, as the loop it runs. */
  method ProjectAll(rows: seq<Record>, columns: seq<string>) returns (projected: seq<PushJsonRow>)
    ensures projected == ProjectRows(rows, columns)
  {
    projected := [];
    for i := 0 to |rows|
      invariant projected == ProjectRows(rows[..i], columns)
    {
      assert rows[..i + 1][..i] == rows[..i];
      var row := ToRow(Object(rows[i]), columns);
      projected := projected + [row];
    }
    assert rows[..|rows|] == rows;
  }

  /** The `updatesSource.map(...)` callback: pushes one acknowledgement per
      row onto `recordsUpdated` and projects the row. */
  method ProjectUpdates(table: string, rows: seq<Record>, columns: seq<string>, recordsUpdated: seq<QueryLike>)
    returns (updates: seq<PushJsonRow>, recordsUpdated': seq<QueryLike>)
    ensures updates == ProjectRows(rows, columns)
    ensures recordsUpdated' == recordsUpdated + UpdateAcks(table, rows)
  {
    updates, recordsUpdated' := [], recordsUpdated;
    for i := 0 to |rows|
      invariant updates == ProjectRows(rows[..i], columns)
      invariant recordsUpdated' == recordsUpdated + UpdateAcks(table, rows[..i])
    {
      assert rows[..i + 1][..i] == rows[..i];
      var row := rows[i];
      var rowIdValue := GetValueCaseInsensitive(Object(row), "rowid");
      var mergeUpdateValue := GetValueCaseInsensitive(Object(row), "MergeUpdate");
      recordsUpdated' := recordsUpdated' + [Query("UPDATE " + table + " SET MergeUpdate=0 WHERE rowid=? AND MergeUpdate=?",
                                                  Some([Str(StringOf(rowIdValue)), mergeUpdateValue]))];
      var projected := ToRow(Object(row), columns);
      updates := updates + [projected];
    }
    assert rows[..|rows|] == rows;
  }

  /** The `deletesSource.map(...)` callback over the tombstone rows. */
  method CollectTombstones(rows: seq<Record>) returns (deletes: seq<Deletion>, recordsDeleted: seq<QueryLike>)
    ensures deletes == Map(DeletionOf, rows)
    ensures recordsDeleted == Map(TombstoneAck, rows)
  {
    deletes, recordsDeleted := [], [];
    for i := 0 to |rows|
      invariant deletes == Map(DeletionOf, rows[..i])
      invariant recordsDeleted == Map(TombstoneAck, rows[..i])
    {
      assert rows[..i + 1][..i] == rows[..i];
      var row := rows[i];
      var tableIdValue := GetValueCaseInsensitive(Object(row), "TableId");
      var rowIdValue := GetValueCaseInsensitive(Object(row), "RowId");
      recordsDeleted := recordsDeleted + [Query("DELETE FROM MergeDelete WHERE TableId=? AND RowId=?", Some([tableIdValue, rowIdValue]))];
      deletes := deletes + [Deletion(StringOf(tableIdValue), StringOf(rowIdValue))];
    }
    assert rows[..|rows|] == rows;
  }

  /** One turn of the table loop of `buildPushJsonRequestFromDb`: a table
      without declared columns is skipped; otherwise its inserts and updates
      are projected, its update acknowledgements are appended to
      `recordsUpdated`, and a changes entry is produced when either list is
      non-empty. */
  method ScanTable(s: Snapshot, e: CatalogEntry, recordsUpdated: seq<QueryLike>)
    returns (entry: seq<TableChanges>, recordsUpdated': seq<QueryLike>)
    ensures entry == TableEntry(s, e)
    ensures recordsUpdated' == recordsUpdated + TableAcks(s, e)
  {
    var tableName := e.tblName;
    var columns := TableColumns(e);
    if |columns| == 0 {
      assert recordsUpdated + [] == recordsUpdated;
      return [], recordsUpdated;
    }
    var insertsSource := PendingInserts(s, tableName);
    var updatesSource := PendingUpdates(s, tableName);
    var inserts := ProjectAll(insertsSource, columns);
    var updates;
    updates, recordsUpdated' := ProjectUpdates(tableName, updatesSource, columns, recordsUpdated);
    entry := if |inserts| > 0 || |updates| > 0 then [TableChanges(tableName, inserts, updates)] else [];
  }

  /** One more table adds its entry and its acknowledgements at the end. */
  lemma ScanStep(s: Snapshot, tables: seq<CatalogEntry>, i: nat)
    requires i < |tables|
    ensures ChangesOf(s, tables[..i + 1]) == ChangesOf(s, tables[..i]) + TableEntry(s, tables[i])
    ensures AcksOf(s, tables[..i + 1]) == AcksOf(s, tables[..i]) + TableAcks(s, tables[i])
  {
    assert tables[..i + 1] == tables[..i] + [tables[i]];
    FlatMapSnoc((e: CatalogEntry) => TableEntry(s, e), tables[..i], tables[i]);
    FlatMapSnoc((e: CatalogEntry) => TableAcks(s, e), tables[..i], tables[i]);
  }

  /** The table loop of `buildPushJsonRequestFromDb`: each table with
      declared columns first awaits its two row queries, and a rejection ends
      the loop with that error; otherwise the table is scanned. */
  method ScanTables(a: QueryAnswers, tables: seq<CatalogEntry>)
    returns (r: Result<(seq<TableChanges>, seq<QueryLike>), string>)
    ensures FirstTableFailure(a, tables).Some? ==> r == Failure(FirstTableFailure(a, tables).value)
    ensures FirstTableFailure(a, tables).None? ==>
      r == Success((ChangesOf(SnapshotOf(a), tables), AcksOf(SnapshotOf(a), tables)))
  {
    var s := SnapshotOf(a);
    var f := (e: CatalogEntry) => TableFailure(a, e);
    var recordsUpdated: seq<QueryLike> := [];
    var changes: seq<TableChanges> := [];
    for i := 0 to |tables|
      invariant changes == ChangesOf(s, tables[..i])
      invariant recordsUpdated == AcksOf(s, tables[..i])
      invariant FirstSome(f, tables[..i]).None?
    {
      var e := tables[i];
      assert tables[..i + 1][..i] == tables[..i];
      if TableColumns(e) != [] {
        var insertsSource := InsertAnswer(a, e.tblName);
        if insertsSource.Failure? {
          FirstSomeKept(f, tables, i + 1);
          return Failure(insertsSource.error);
        }
        var updatesSource := UpdateAnswer(a, e.tblName);
        if updatesSource.Failure? {
          FirstSomeKept(f, tables, i + 1);
          return Failure(updatesSource.error);
        }
      }
      ScanStep(s, tables, i);
      var entry;
      entry, recordsUpdated := ScanTable(s, e, recordsUpdated);
      changes := changes + entry;
    }
    assert tables[..|tables|] == tables;
    return Success((changes, recordsUpdated));
  }

  /** `buildPushJsonRequestFromDb`. It takes the answers of the query function
      and changes nothing: the acknowledgements are returned, not run. A
      rejected query ends the build with its error at the point where the
      source awaits it. */
  method BuildPushJsonRequestFromDb(a: QueryAnswers) returns (result: Result<ScanResult, string>)
    ensures result == BuildOutcome(a)
  {
    var tablesArray := a.catalog;
    if tablesArray.Failure? {
      return Failure(tablesArray.error);
    }
    var tables := SyncedTables(tablesArray.value);
    var scanned := ScanTables(a, tables);
    if scanned.Failure? {
      return Failure(scanned.error);
    }
    var (changes, recordsUpdated) := scanned.value;
    var deletesSource := a.tombstones;
    if deletesSource.Failure? {
      return Failure(deletesSource.error);
    }
    var deletes, recordsDeleted := CollectTombstones(deletesSource.value);
    result := Success(ScanResult(PushJsonRequest(changes, deletes), recordsUpdated, recordsDeleted));
  }

  // ---------------------------------------------------------------------
  // Properties of the scan.

  /** Every entry of a table list is the entry of a table that emits
      changes, with two lists that are not both empty. */
  lemma ChangesOfSound(s: Snapshot, tables: seq<CatalogEntry>, ch: TableChanges)
    requires ch in ChangesOf(s, tables)
    ensures exists e :: e in tables && EmitsChanges(s, e) && ch == ChangesFor(s, e)
    ensures |ch.inserts| > 0 || |ch.updates| > 0
  {
    var f := (e: CatalogEntry) => TableEntry(s, e);
    FlatMapMembers(f, tables);
    var e :| e in tables && ch in f(e);
    assert EmitsChanges(s, e) && ch == ChangesFor(s, e);
    ChangesForNotEmpty(s, e);
  }

  /** A table that emits changes sends at least one row. */
  lemma ChangesForNotEmpty(s: Snapshot, e: CatalogEntry)
    requires EmitsChanges(s, e)
    ensures |ChangesFor(s, e).inserts| > 0 || |ChangesFor(s, e).updates| > 0
  {
    assert |ChangesFor(s, e).inserts| == |PendingInserts(s, e.tblName)|;
    assert |ChangesFor(s, e).updates| == |PendingUpdates(s, e.tblName)|;
  }

  /** Every table that emits changes has its entry in the list. */
  lemma ChangesOfComplete(s: Snapshot, tables: seq<CatalogEntry>, e: CatalogEntry)
    requires e in tables && EmitsChanges(s, e)
    ensures ChangesFor(s, e) in ChangesOf(s, tables)
  {
    var f := (e: CatalogEntry) => TableEntry(s, e);
    FlatMapMembers(f, tables);
    assert ChangesFor(s, e) in f(e);
  }

  /** The entries of a table list are exactly the entries of the tables that
      emit changes, and none of them has two empty lists. */
  lemma ChangesOfMembers(s: Snapshot, tables: seq<CatalogEntry>)
    ensures forall ch :: ch in ChangesOf(s, tables) <==>
      exists e :: e in tables && EmitsChanges(s, e) && ch == ChangesFor(s, e)
    ensures forall ch :: ch in ChangesOf(s, tables) ==> |ch.inserts| > 0 || |ch.updates| > 0
  {
    forall ch | ch in ChangesOf(s, tables)
      ensures exists e :: e in tables && EmitsChanges(s, e) && ch == ChangesFor(s, e)
      ensures |ch.inserts| > 0 || |ch.updates| > 0
    {
      ChangesOfSound(s, tables, ch);
    }
    forall e | e in tables && EmitsChanges(s, e) ensures ChangesFor(s, e) in ChangesOf(s, tables) {
      ChangesOfComplete(s, tables, e);
    }
  }

  /** The table selection of the whole scan: an entry for exactly the catalog
      tables that have a non-empty name other than `MergeDelete`, declare at
      least one column and have pending inserts or updates. */
  lemma ScanChanges(s: Snapshot)
    ensures forall ch :: ch in Scan(s).request.changes <==>
      exists e :: e in s.catalog && IsSyncedTable(e) && EmitsChanges(s, e) && ch == ChangesFor(s, e)
    ensures forall ch :: ch in Scan(s).request.changes ==> |ch.inserts| > 0 || |ch.updates| > 0
  {
    ChangesOfMembers(s, SyncedTables(s.catalog));
  }

  /** Catalog order: the scan of a catalog `a + b` sends the entries and
      acknowledgements of `a` before those of `b`. */
  lemma ScanFollowsCatalogOrder(s: Snapshot, a: seq<CatalogEntry>, b: seq<CatalogEntry>)
    requires s.catalog == a + b
    ensures Scan(s).request.changes == ChangesOf(s, SyncedTables(a)) + ChangesOf(s, SyncedTables(b))
    ensures Scan(s).recordsUpdated == AcksOf(s, SyncedTables(a)) + AcksOf(s, SyncedTables(b))
  {
    SyncedTablesAppend(a, b);
    FlatMapAppend((e: CatalogEntry) => TableEntry(s, e), SyncedTables(a), SyncedTables(b));
    FlatMapAppend((e: CatalogEntry) => TableAcks(s, e), SyncedTables(a), SyncedTables(b));
  }

  /** One pending update as the scan sees it: its table, that table's
      declared columns, and the row read. */
  datatype PendingUpdate = PendingUpdate(table: string, columns: seq<string>, row: Record)

  /** The update rows of one table, when it declares columns. */
  function TablePendingUpdates(s: Snapshot, e: CatalogEntry): seq<PendingUpdate> {
    var columns := TableColumns(e);
    if columns == [] then []
    else Map((row: Record) => PendingUpdate(e.tblName, columns, row), PendingUpdates(s, e.tblName))
  }

  /** All update rows of a table list, table by table. */
  function PendingUpdateRows(s: Snapshot, tables: seq<CatalogEntry>): seq<PendingUpdate> {
    FlatMap((e: CatalogEntry) => TablePendingUpdates(s, e), tables)
  }

  /** The projected updates of a list of entries, entry by entry. */
  function FlatUpdates(changes: seq<TableChanges>): seq<PushJsonRow> {
    FlatMap((ch: TableChanges) => ch.updates, changes)
  }

  /** The updates a table contributes to the request. */
  function TableUpdates(s: Snapshot, e: CatalogEntry): seq<PushJsonRow> {
    FlatUpdates(TableEntry(s, e))
  }

  /** The updates a table sends are its projected update rows, when it
      declares columns. */
  lemma TableUpdatesAre(s: Snapshot, e: CatalogEntry)
    ensures TableUpdates(s, e) ==
      if TableColumns(e) == [] then [] else ProjectRows(PendingUpdates(s, e.tblName), TableColumns(e))
  {
    var c := TableEntry(s, e);
    var h := (ch: TableChanges) => ch.updates;
    if c != [] {
      assert c[..0] == [];
      assert FlatMap(h, c) == c[0].updates;
    }
  }

  /** Per table: one acknowledgement per pending update row, in order. */
  lemma TablePendingAcks(s: Snapshot, e: CatalogEntry)
    ensures var p := TablePendingUpdates(s, e);
      && |TableAcks(s, e)| == |p|
      && (forall i :: 0 <= i < |p| ==> TableAcks(s, e)[i] == UpdateAck(p[i].table, p[i].row))
  {
  }

  /** Per table: one sent update per pending update row, in order. */
  lemma TablePendingSent(s: Snapshot, e: CatalogEntry)
    ensures var p := TablePendingUpdates(s, e);
      && |TableUpdates(s, e)| == |p|
      && (forall i :: 0 <= i < |p| ==> TableUpdates(s, e)[i] == ProjectRow(Object(p[i].row), p[i].columns))
  {
    TableUpdatesAre(s, e);
  }

  /** The updates sent for a table list are the updates of its tables, in order. */
  lemma {:induction false} FlatUpdatesByTable(s: Snapshot, tables: seq<CatalogEntry>)
    ensures FlatUpdates(ChangesOf(s, tables)) == FlatMap((e: CatalogEntry) => TableUpdates(s, e), tables)
    decreases |tables|
  {
    if tables != [] {
      var prefix := tables[..|tables| - 1];
      var e := tables[|tables| - 1];
      FlatUpdatesByTable(s, prefix);
      var h := (ch: TableChanges) => ch.updates;
      FlatMapAppend(h, ChangesOf(s, prefix), TableEntry(s, e));
    }
  }

  /** The i-th update acknowledgement of the scan belongs to the i-th pending
      update row. */
  lemma ScanAcksFollowPending(s: Snapshot)
    ensures var p := PendingUpdateRows(s, SyncedTables(s.catalog));
      && |Scan(s).recordsUpdated| == |p|
      && (forall i :: 0 <= i < |p| ==> Scan(s).recordsUpdated[i] == UpdateAck(p[i].table, p[i].row))
  {
    var tables := SyncedTables(s.catalog);
    forall e | e in tables
      ensures var p := TablePendingUpdates(s, e);
        && |TableAcks(s, e)| == |p|
        && (forall i :: 0 <= i < |p| ==> TableAcks(s, e)[i] == UpdateAck(p[i].table, p[i].row))
    {
      TablePendingAcks(s, e);
    }
    FlatMapPointwise((e: CatalogEntry) => TablePendingUpdates(s, e), (e: CatalogEntry) => TableAcks(s, e),
                     (u: PendingUpdate, ack: QueryLike) => ack == UpdateAck(u.table, u.row), tables);
  }

  /** The i-th update sent by the scan is the projection of the i-th pending
      update row. */
  lemma ScanSentFollowPending(s: Snapshot)
    ensures var p := PendingUpdateRows(s, SyncedTables(s.catalog));
      && |FlatUpdates(Scan(s).request.changes)| == |p|
      && (forall i :: 0 <= i < |p| ==>
            FlatUpdates(Scan(s).request.changes)[i] == ProjectRow(Object(p[i].row), p[i].columns))
  {
    var tables := SyncedTables(s.catalog);
    forall e | e in tables
      ensures var p := TablePendingUpdates(s, e);
        && |TableUpdates(s, e)| == |p|
        && (forall i :: 0 <= i < |p| ==> TableUpdates(s, e)[i] == ProjectRow(Object(p[i].row), p[i].columns))
    {
      TablePendingSent(s, e);
    }
    FlatUpdatesByTable(s, tables);
    FlatMapPointwise((e: CatalogEntry) => TablePendingUpdates(s, e), (e: CatalogEntry) => TableUpdates(s, e),
                     (u: PendingUpdate, row: PushJsonRow) => row == ProjectRow(Object(u.row), u.columns), tables);
  }

  /** The update acknowledgements match the sent updates one to one and in
      order: the i-th acknowledgement belongs to the same row as the i-th
      update sent. */
  lemma ScanUpdateAcks(s: Snapshot)
    ensures var p := PendingUpdateRows(s, SyncedTables(s.catalog));
      && |Scan(s).recordsUpdated| == |p| && |FlatUpdates(Scan(s).request.changes)| == |p|
      && (forall i :: 0 <= i < |p| ==>
            && Scan(s).recordsUpdated[i] == UpdateAck(p[i].table, p[i].row)
            && FlatUpdates(Scan(s).request.changes)[i] == ProjectRow(Object(p[i].row), p[i].columns))
  {
    ScanAcksFollowPending(s);
    ScanSentFollowPending(s);
  }

  /** An update acknowledgement is a compare-and-clear: it sets the counter
      of the row to 0 only where the row id is the one read (as text) and the
      counter still holds the value read by the scan. */
  lemma UpdateAckIsCompareAndClear(table: string, row: Record)
    ensures var ack := UpdateAck(table, row);
      && ack.Query? && ack.sql == "UPDATE " + table + ClearMergeUpdateSql
      && ack.args.Some? && |ack.args.value| == 2
      && ack.args.value[0] == Str(StringOf(GetValueCaseInsensitive(Object(row), "rowid")))
      && ack.args.value[1] == GetValueCaseInsensitive(Object(row), "MergeUpdate")
    ensures HasOwn(row, "MergeUpdate") ==> UpdateAck(table, row).args.value[1] == Get(row, "MergeUpdate")
  {
    GetValueCaseInsensitiveSpec(Object(row), "MergeUpdate");
  }

  /** A row fit to be sent: a proper object with only encoded values and
      without a `MergeUpdate` key in any letter case. */
  predicate IsPayloadRow(row: PushJsonRow) {
    && DistinctKeys(row)
    && (forall i :: 0 <= i < |row| ==> !IsMergeUpdateColumn(row[i].key))
    && (forall i :: 0 <= i < |row| ==> IsEncoded(row[i].value))
  }

  lemma ProjectRowsArePayloadRows(rows: seq<Record>, columns: seq<string>)
    ensures forall row :: row in ProjectRows(rows, columns) ==> IsPayloadRow(row)
  {
    var projected := ProjectRows(rows, columns);
    forall row | row in projected ensures IsPayloadRow(row) {
      var k :| 0 <= k < |projected| && projected[k] == row;
      ProjectRowShape(Object(rows[k]), columns);
      ProjectRowKeys(Object(rows[k]), columns);
    }
  }

  /** Every row the scan sends is fit to be sent. */
  lemma ScanPayloadRows(s: Snapshot)
    ensures forall ch: TableChanges, row: PushJsonRow :: ch in Scan(s).request.changes && (row in ch.inserts || row in ch.updates) ==>
      IsPayloadRow(row)
  {
    ScanChanges(s);
    forall ch: TableChanges | ch in Scan(s).request.changes
      ensures forall row :: row in ch.inserts || row in ch.updates ==> IsPayloadRow(row)
    {
      var e :| e in s.catalog && IsSyncedTable(e) && EmitsChanges(s, e) && ch == ChangesFor(s, e);
      ProjectRowsArePayloadRows(PendingInserts(s, e.tblName), TableColumns(e));
      ProjectRowsArePayloadRows(PendingUpdates(s, e.tblName), TableColumns(e));
    }
  }

  /** One delete and one acknowledgement per tombstone, in the same order;
      the delete carries the text of the two values its acknowledgement
      removes the tombstone by. */
  lemma ScanTombstones(s: Snapshot)
    ensures |Scan(s).request.deletes| == |s.tombstones| && |Scan(s).recordsDeleted| == |s.tombstones|
    ensures forall i :: 0 <= i < |s.tombstones| ==>
      var tableId := GetValueCaseInsensitive(Object(s.tombstones[i]), "TableId");
      var rowId := GetValueCaseInsensitive(Object(s.tombstones[i]), "RowId");
      && Scan(s).recordsDeleted[i] == Query(DeleteTombstoneSql, Some([tableId, rowId]))
      && Scan(s).request.deletes[i] == Deletion(StringOf(tableId), StringOf(rowId))
  {
  }

  // ---------------------------------------------------------------------
  // A worked example: a `Widgets` table declaring `RowId`, `name` and
  // `MergeUpdate`, with one unsynced row `{RowId: null, name: "a"}`.

  lemma WidgetsColumnCase()
    ensures Lower("RowId") == "rowid" && Lower("name") == "name" && Lower("MergeUpdate") == "mergeupdate"
  {
    LowerOf("RowId", "rowid");
    LowerOf("name", "name");
    LowerOf("MergeUpdate", "mergeupdate");
  }

  lemma WidgetsLookups()
    ensures GetValueCaseInsensitive(Object([Field("RowId", Null), Field("name", Str("a"))]), "RowId") == Null
    ensures GetValueCaseInsensitive(Object([Field("RowId", Null), Field("name", Str("a"))]), "name") == Str("a")
  {
    var fields := [Field("RowId", Null), Field("name", Str("a"))];
    assert IndexOfKey(fields, "RowId") == Some(0);
    assert fields[1..][0].key == "name";
    assert IndexOfKey(fields, "name") == Some(1);
  }

  /** Two ordinary columns followed by the counter column give a two-key row. */
  lemma ProjectTwoColumnsAndCounter(source: Any, c1: string, c2: string, m: string)
    requires !IsMergeUpdateColumn(c1) && !IsMergeUpdateColumn(c2) && IsMergeUpdateColumn(m)
    requires OutputKey(c1) != OutputKey(c2)
    ensures ProjectRow(source, [c1, c2, m]) ==
      [Field(OutputKey(c1), ToValue(GetValueCaseInsensitive(source, c1))),
       Field(OutputKey(c2), ToValue(GetValueCaseInsensitive(source, c2)))]
  {
    var f1 := Field(OutputKey(c1), ToValue(GetValueCaseInsensitive(source, c1)));
    assert [] + [c1] == [c1];
    ProjectRowSnoc(source, [], c1);
    assert ProjectRow(source, [c1]) == [f1];
    assert [c1] + [c2] == [c1, c2];
    ProjectRowSnoc(source, [c1], c2);
    assert IndexOfKey([f1], OutputKey(c2)) == None;
    assert [c1, c2] + [m] == [c1, c2, m];
    ProjectRowSnoc(source, [c1, c2], m);
  }

  /** The `Widgets` row is sent as `{rowid: "null", name: "a"}`: the unset
      row id is sent as the text `"null"` under the key `rowid`, and the
      counter column is left out. */
  lemma WidgetsRow()
    ensures ProjectRow(Object([Field("RowId", Null), Field("name", Str("a"))]), ["RowId", "name", "MergeUpdate"])
      == [Field("rowid", Str("null")), Field("name", Str("a"))]
  {
    WidgetsColumnCase();
    WidgetsLookups();
    assert OutputKey("RowId") == "rowid" && OutputKey("name") == "name";
    ProjectTwoColumnsAndCounter(Object([Field("RowId", Null), Field("name", Str("a"))]), "RowId", "name", "MergeUpdate");
  }
}
