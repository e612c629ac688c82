/**
 * The slice of JavaScript's value model that the sync code relies on:
 * primitive values, plain objects as ordered key/value lists, property
 * reads, `String(...)`, ASCII lower-casing and decimal number text.
 */
module JsValues {
  import opened Wrappers

  /** A JavaScript value as it reaches the sync code. Numbers are integers
      (floating point is not modelled); `Other` stands for every other value
      (a blob, a nested object, an array) and carries what `String(...)`
      makes of it. */
  datatype Value =
    | Null
    | Undefined
    | Str(s: string)
    | Int(i: int)
    | Bool(b: bool)
    | Other(repr: string)

  /** One own enumerable property of a plain object. */
  datatype Field = Field(key: string, value: Value)

  /** A plain object: its properties in `Object.keys` order. */
  type Record = seq<Field>

  /** An `unknown` / `any` input: either a non-object value or a plain object. */
  datatype Any = Scalar(v: Value) | Object(fields: Record)

  /** `Object.prototype.hasOwnProperty.call(r, k)`. */
  predicate HasOwn(r: Record, k: string) {
    exists i :: 0 <= i < |r| && r[i].key == k
  }

  /** No key occurs twice, as in every JavaScript object. */
  predicate DistinctKeys(r: Record) {
    forall i, j :: 0 <= i < j < |r| ==> r[i].key != r[j].key
  }

  /** Position of the property named `k`, if any (the first one). */
  function IndexOfKey(r: Record, k: string): Option<nat> {
    if r == [] then None
    else if r[0].key == k then Some(0)
    else match IndexOfKey(r[1..], k)
      case None => None
      case Some(i) => Some(i + 1)
  }

  lemma {:induction false} IndexOfKeySpec(r: Record, k: string)
    ensures var o := IndexOfKey(r, k);
      && (o.None? <==> !HasOwn(r, k))
      && (o.Some? ==> o.value < |r| && r[o.value].key == k)
      && (o.Some? ==> forall j :: 0 <= j < o.value ==> r[j].key != k)
  {
    if r != [] && r[0].key != k {
      IndexOfKeySpec(r[1..], k);
      if HasOwn(r, k) {
        var i :| 0 <= i < |r| && r[i].key == k;
        assert r[1..][i - 1].key == k;
      }
    }
  }

  /** The property read `r[k]`: the value stored under `k`, or `undefined`. */
  function Get(r: Record, k: string): Value {
    IndexOfKeySpec(r, k);
    match IndexOfKey(r, k)
    case None => Undefined
    case Some(i) => r[i].value
  }

  /** A read finds the first property with that key, or `undefined`. */
  lemma GetSpec(r: Record, k: string)
    ensures !HasOwn(r, k) ==> Get(r, k) == Undefined
    ensures forall i :: 0 <= i < |r| && r[i].key == k && (forall j :: 0 <= j < i ==> r[j].key != k) ==> Get(r, k) == r[i].value
  {
    IndexOfKeySpec(r, k);
  }

  /** Appending properties under other keys does not change a read. */
  lemma GetOfAppend(record: Record, extra: Record, key: string)
    requires !HasOwn(extra, key)
    ensures Get(record + extra, key) == Get(record, key)
  {
    var all := record + extra;
    IndexOfKeySpec(record, key);
    IndexOfKeySpec(all, key);
    GetSpec(record, key);
    GetSpec(all, key);
    assert forall i :: 0 <= i < |record| ==> all[i] == record[i];
    if !HasOwn(record, key) {
      forall i | 0 <= i < |all| ensures all[i].key != key {
        if i >= |record| {
          assert all[i] == extra[i - |record|];
        }
      }
    }
  }

  // ---------------------------------------------------------------------
  // Decimal text of integers, as `String(n)` and template literals print them.

  function DigitChar(d: nat): (c: char)
    requires d < 10
    ensures '0' <= c <= '9'
  {
    (48 + d) as char
  }

  function DigitValue(c: char): (d: nat)
    requires '0' <= c <= '9'
    ensures d < 10
  {
    c as int - 48
  }

  predicate IsDigits(s: string) {
    forall i :: 0 <= i < |s| ==> '0' <= s[i] <= '9'
  }

  /** Decimal digits of `n`, most significant first, without leading zeros. */
  function NatToString(n: nat): (s: string)
    ensures |s| >= 1 && IsDigits(s)
    ensures |s| > 1 ==> s[0] != '0'
    decreases n
  {
    if n < 10 then [DigitChar(n)] else NatToString(n / 10) + [DigitChar(n % 10)]
  }

  /** `String(i)` for a safe integer: one whose magnitude is below 2^53, so
      JavaScript prints all its digits and no exponent. */
  function IntToString(i: int): (s: string)
    ensures |s| >= 1
  {
    if i < 0 then "-" + NatToString(-i) else NatToString(i)
  }

  /** Reads back a run of decimal digits. */
  function ParseNat(s: string): nat
    requires IsDigits(s)
  {
    if s == [] then 0 else ParseNat(s[..|s| - 1]) * 10 + DigitValue(s[|s| - 1])
  }

  /** Reads back an optionally negative decimal numeral. */
  function ParseInt(s: string): int
    requires IsDigits(s) || (|s| >= 1 && s[0] == '-' && IsDigits(s[1..]))
  {
    if |s| >= 1 && s[0] == '-' then -(ParseNat(s[1..]) as int) else ParseNat(s) as int
  }

  lemma {:induction false} NatToStringRoundTrip(n: nat)
    ensures ParseNat(NatToString(n)) == n
    decreases n
  {
    if n >= 10 {
      var prefix := NatToString(n / 10);
      var s := prefix + [DigitChar(n % 10)];
      assert s[..|s| - 1] == prefix;
      NatToStringRoundTrip(n / 10);
    }
  }

  /** The decimal text of an integer determines the integer. */
  lemma IntToStringRoundTrip(i: int)
    ensures var s := IntToString(i);
      (IsDigits(s) || (s[0] == '-' && IsDigits(s[1..]))) && ParseInt(s) == i
  {
    var s := IntToString(i);
    if i < 0 {
      var digits := NatToString(-i);
      assert s == "-" + digits;
      assert s[1..] == digits;
      assert IsDigits(digits) && digits[0] != '-';
      NatToStringRoundTrip(-i);
      assert ParseInt(s) == -(ParseNat(digits) as int);
    } else {
      assert s == NatToString(i);
      assert s[0] != '-';
      NatToStringRoundTrip(i);
    }
  }

  lemma IntToStringInjective(i: int, j: int)
    requires IntToString(i) == IntToString(j)
    ensures i == j
  {
    IntToStringRoundTrip(i);
    IntToStringRoundTrip(j);
  }

  /** JavaScript's `String(value)`. */
  function StringOf(v: Value): string {
    match v
    case Null => "null"
    case Undefined => "undefined"
    case Str(s) => s
    case Int(i) => IntToString(i)
    case Bool(b) => if b then "true" else "false"
    case Other(repr) => repr
  }

  // ---------------------------------------------------------------------
  // `toLowerCase()`, restricted to the ASCII letters.

  function LowerChar(c: char): (d: char)
    ensures 'A' <= c <= 'Z' ==> d as int == c as int + 32
    ensures !('A' <= c <= 'Z') ==> d == c
  {
    if 'A' <= c <= 'Z' then (c as int + 32) as char else c
  }

  function Lower(s: string): (r: string)
    ensures |r| == |s|
    ensures forall i :: 0 <= i < |s| ==> r[i] == LowerChar(s[i])
  {
    if s == [] then [] else [LowerChar(s[0])] + Lower(s[1..])
  }

  /** Lower-casing twice is lower-casing once. */
  lemma LowerIdempotent(s: string)
    ensures Lower(Lower(s)) == Lower(s)
  {
    assert forall i :: 0 <= i < |s| ==> LowerChar(LowerChar(s[i])) == LowerChar(s[i]);
  }

  /** Lower-casing, checked character by character. */
  lemma LowerOf(s: string, t: string)
    requires |s| == |t| && forall i :: 0 <= i < |s| ==> LowerChar(s[i]) == t[i]
    ensures Lower(s) == t
  {
  }
}
