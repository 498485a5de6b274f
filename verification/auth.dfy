/** The allow-list authentication of src/auth.rs.

    Credentials are byte strings: Rust's `String` is UTF-8 bytes, its order is
    byte-wise, and the 80-byte cut of `DebugUserString` is a byte count. The
    request is reduced to the value of its `Authorization` header (if any), and
    base64 decoding is a parameter `decode`. */
module Auth {
  import opened Wrappers

  newtype Byte = b: int | 0 <= b < 0x100

  type Bytes = seq<Byte>

  // ================================================================ byte order

  /** `Ord for str`: byte-wise lexicographic order, a proper prefix first. */
  predicate Below(a: Bytes, b: Bytes)
    decreases |a|
  {
    if a == [] then b != []
    else if b == [] then false
    else a[0] < b[0] || (a[0] == b[0] && Below(a[1..], b[1..]))
  }

  predicate AtMost(a: Bytes, b: Bytes) {
    a == b || Below(a, b)
  }

  lemma {:induction false} BelowIrreflexive(a: Bytes)
    ensures !Below(a, a)
    decreases |a|
  {
    if a != [] {
      BelowIrreflexive(a[1..]);
    }
  }

  lemma {:induction false} BelowTransitive(a: Bytes, b: Bytes, c: Bytes)
    requires Below(a, b) && Below(b, c)
    ensures Below(a, c)
    decreases |a|
  {
    if a != [] && a[0] == b[0] && b[0] == c[0] {
      BelowTransitive(a[1..], b[1..], c[1..]);
    }
  }

  /** Any two byte strings are equal or ordered one way. */
  lemma {:induction false} BelowTotal(a: Bytes, b: Bytes)
    ensures a == b || Below(a, b) || Below(b, a)
    decreases |a|
  {
    if a != [] && b != [] && a[0] == b[0] {
      BelowTotal(a[1..], b[1..]);
      if a[1..] == b[1..] {
        assert a == [a[0]] + a[1..] && b == [b[0]] + b[1..];
      }
    }
  }

  lemma AtMostTransitive(a: Bytes, b: Bytes, c: Bytes)
    requires AtMost(a, b) && AtMost(b, c)
    ensures AtMost(a, c)
  {
    if a != b && b != c {
      BelowTransitive(a, b, c);
    }
  }

  /** Ascending, as `slice::sort` leaves it. */
  predicate Sorted(s: seq<Bytes>) {
    forall i, j :: 0 <= i < j < |s| ==> AtMost(s[i], s[j])
  }

  /** `x` placed before the first entry it does not exceed. */
  function Insert(x: Bytes, s: seq<Bytes>): (r: seq<Bytes>)
    requires Sorted(s)
    ensures Sorted(r) && multiset(r) == multiset(s) + multiset{x}
    decreases |s|
  {
    if s == [] then [x]
    else if AtMost(x, s[0]) then
      PrependSorted(x, s);
      [x] + s
    else
      SortedTail(s);
      var rest := Insert(x, s[1..]);
      BelowTotal(x, s[0]);
      PrependBelow(s[0], x, s[1..], rest);
      assert s == [s[0]] + s[1..];
      [s[0]] + rest
  }

  lemma SortedTail(s: seq<Bytes>)
    requires Sorted(s) && s != []
    ensures Sorted(s[1..])
  {
    forall i, j | 0 <= i < j < |s| - 1 ensures AtMost(s[1..][i], s[1..][j]) {
      assert s[1..][i] == s[i + 1] && s[1..][j] == s[j + 1];
    }
  }

  /** An entry no larger than the first of a sorted list may go in front of it. */
  lemma PrependSorted(x: Bytes, s: seq<Bytes>)
    requires Sorted(s) && s != [] && AtMost(x, s[0])
    ensures Sorted([x] + s)
  {
    forall j | 0 < j < |s| ensures AtMost(x, s[j]) {
      AtMostTransitive(x, s[0], s[j]);
    }
  }

  /** The head of a sorted list stays in front after `x`, which exceeds it, is
      inserted into the rest. */
  lemma PrependBelow(h: Bytes, x: Bytes, tail: seq<Bytes>, rest: seq<Bytes>)
    requires Sorted([h] + tail) && Below(h, x)
    requires Sorted(rest) && multiset(rest) == multiset(tail) + multiset{x}
    ensures Sorted([h] + rest)
  {
    var s := [h] + tail;
    forall j | 0 <= j < |rest| ensures AtMost(h, rest[j]) {
      assert rest[j] in multiset(rest);
      if rest[j] != x {
        assert rest[j] in tail;
        var k :| 0 <= k < |tail| && tail[k] == rest[j];
        assert s[0] == h && s[k + 1] == rest[j];
      }
    }
    forall i, j | 0 <= i < j < |rest| + 1 ensures AtMost(([h] + rest)[i], ([h] + rest)[j]) {
      if i > 0 {
        assert AtMost(rest[i - 1], rest[j - 1]);
      } else {
        assert AtMost(h, rest[j - 1]);
      }
    }
  }

  /** `entries.sort()`: an ascending permutation of the entries. */
  function SortEntries(entries: seq<Bytes>): (r: seq<Bytes>)
    ensures Sorted(r) && multiset(r) == multiset(entries)
    decreases |entries|
  {
    if entries == [] then []
    else
      assert entries == [entries[0]] + entries[1..];
      Insert(entries[0], SortEntries(entries[1..]))
  }

  // ================================================================ the rules

  /** The configured credentials, kept sorted for the binary search. */
  datatype AuthRules = AuthRules(entriesSorted: seq<Bytes>)

  /** `AuthRules::from_entries`: no rules from no entries, otherwise the entries sorted. */
  function FromEntries(entries: seq<Bytes>): (r: Option<AuthRules>)
    ensures r.None? <==> entries == []
    ensures r.Some? ==> Sorted(r.value.entriesSorted)
    ensures r.Some? ==> multiset(r.value.entriesSorted) == multiset(entries)
    ensures r.Some? ==> forall x :: x in r.value.entriesSorted <==> x in entries
  {
    var sorted := SortEntries(entries);
    assert forall x :: x in sorted <==> x in entries by {
      forall x ensures x in sorted <==> x in entries {
        assert x in sorted <==> x in multiset(sorted);
        assert x in entries <==> x in multiset(entries);
      }
    }
    if sorted == [] then None else Some(AuthRules(sorted))
  }

  /** `binary_search(..).is_ok()` on the sorted entries: whether `x` is one of them. */
  method BinarySearch(entries: seq<Bytes>, x: Bytes) returns (found: bool)
    requires Sorted(entries)
    ensures found <==> x in entries
  {
    var lo, hi := 0, |entries|;
    while lo < hi
      invariant 0 <= lo <= hi <= |entries|
      invariant forall i :: 0 <= i < lo ==> Below(entries[i], x)
      invariant forall i :: hi <= i < |entries| ==> Below(x, entries[i])
      decreases hi - lo
    {
      var mid := (lo + hi) / 2;
      if Below(entries[mid], x) {
        forall i | lo <= i <= mid ensures Below(entries[i], x) {
          if i < mid && entries[i] != entries[mid] {
            BelowTransitive(entries[i], entries[mid], x);
          }
        }
        lo := mid + 1;
      } else if Below(x, entries[mid]) {
        forall i | mid <= i < hi ensures Below(x, entries[i]) {
          if mid < i && entries[mid] != entries[i] {
            BelowTransitive(x, entries[mid], entries[i]);
          }
        }
        hi := mid;
      } else {
        BelowTotal(x, entries[mid]);
        return true;
      }
    }
    forall i | 0 <= i < |entries| ensures entries[i] != x {
      if entries[i] == x {
        BelowIrreflexive(x);
      }
    }
    return false;
  }

  // ================================================================ UTF-8

  /** A byte that continues a multi-byte UTF-8 sequence. */
  predicate Continuation(b: Byte) {
    0x80 <= b < 0xC0
  }

  /** The length of the well-formed UTF-8 sequence `s` starts with (table 3-7 of
      the Unicode Standard, as `String::from_utf8` checks it), None when it does
      not start with one. */
  function CharWidth(s: Bytes): (r: Option<nat>)
    ensures r.Some? ==> 1 <= r.value <= 4 && r.value <= |s|
    ensures r.Some? ==> forall k :: 1 <= k < r.value ==> Continuation(s[k])
    ensures r.Some? ==> !Continuation(s[0])
    ensures r == Some(1) <==> |s| > 0 && s[0] < 0x80
  {
    if |s| == 0 then None
    else if s[0] < 0x80 then Some(1)
    else if 0xC2 <= s[0] <= 0xDF then
      if |s| >= 2 && Continuation(s[1]) then Some(2) else None
    else if 0xE0 <= s[0] <= 0xEF then
      var lo: Byte := if s[0] == 0xE0 then 0xA0 else 0x80;
      var hi: Byte := if s[0] == 0xED then 0x9F else 0xBF;
      if |s| >= 3 && lo <= s[1] <= hi && Continuation(s[2]) then Some(3) else None
    else if 0xF0 <= s[0] <= 0xF4 then
      var lo: Byte := if s[0] == 0xF0 then 0x90 else 0x80;
      var hi: Byte := if s[0] == 0xF4 then 0x8F else 0xBF;
      if |s| >= 4 && lo <= s[1] <= hi && Continuation(s[2]) && Continuation(s[3]) then Some(4) else None
    else None
  }

  /** `String::from_utf8` succeeds: the bytes are a sequence of well-formed characters. */
  predicate ValidUtf8(s: Bytes)
    decreases |s|
  {
    s == [] || (CharWidth(s).Some? && ValidUtf8(s[CharWidth(s).value..]))
  }

  /** `str::is_char_boundary`: the ends, and any index whose byte does not continue a character. */
  predicate IsCharBoundary(s: Bytes, n: nat) {
    n == 0 || n == |s| || (n < |s| && !Continuation(s[n]))
  }

  /** In valid UTF-8 the boundaries are where the decoder puts them: the end of the
      first character is a boundary, and no index inside it is. */
  lemma CharBoundaries(s: Bytes)
    requires ValidUtf8(s) && s != []
    ensures CharWidth(s).Some?
    ensures IsCharBoundary(s, CharWidth(s).value)
    ensures forall j :: 0 < j < CharWidth(s).value ==> !IsCharBoundary(s, j)
  {
    var w := CharWidth(s).value;
    if w < |s| {
      assert CharWidth(s[w..]).Some?;
      assert s[w..][0] == s[w];
    }
  }

  predicate Ascii(s: Bytes) {
    forall i :: 0 <= i < |s| ==> s[i] < 0x80
  }

  /** ASCII text is valid UTF-8, one byte per character. */
  lemma {:induction false} AsciiValid(s: Bytes)
    requires Ascii(s)
    ensures ValidUtf8(s)
    decreases |s|
  {
    if s != [] {
      assert CharWidth(s) == Some(1);
      AsciiValid(s[1..]);
    }
  }

  /** Valid text followed by valid text is valid. */
  lemma {:induction false} ValidUtf8Append(a: Bytes, b: Bytes)
    requires ValidUtf8(a) && ValidUtf8(b)
    ensures ValidUtf8(a + b)
    decreases |a|
  {
    if a == [] {
      assert a + b == b;
    } else {
      var w := CharWidth(a).value;
      assert CharWidth(a + b) == Some(w) by {
        assert (a + b)[..w] == a[..w];
        CharWidthPrefix(a, a + b);
      }
      assert (a + b)[w..] == a[w..] + b;
      ValidUtf8Append(a[w..], b);
    }
  }

  /** The width of the first character depends only on its own bytes. */
  lemma CharWidthPrefix(a: Bytes, s: Bytes)
    requires CharWidth(a).Some?
    requires CharWidth(a).value <= |s| && s[..CharWidth(a).value] == a[..CharWidth(a).value]
    ensures CharWidth(s) == CharWidth(a)
  {
    var w := CharWidth(a).value;
    assert forall k :: 0 <= k < w ==> s[k] == s[..w][k] == a[..w][k] == a[k];
  }

  /** Cutting valid text at a char boundary leaves valid text. */
  lemma {:induction false} BoundaryPrefixValid(s: Bytes, n: nat)
    requires ValidUtf8(s) && n <= |s| && IsCharBoundary(s, n)
    ensures ValidUtf8(s[..n])
    decreases |s|
  {
    if n == 0 {
      assert s[..n] == [];
    } else if n < |s| {
      var w := CharWidth(s).value;
      if n < w {
        assert false;
      }
      var t := s[w..];
      assert IsCharBoundary(t, n - w) by {
        assert n - w == |t| || t[n - w] == s[n];
      }
      BoundaryPrefixValid(t, n - w);
      assert s[..n][..w] == s[..w] && s[..n][w..] == t[..n - w];
      CharWidthPrefix(s, s[..n]);
    } else {
      assert s[..n] == s;
    }
  }

  // ================================================================ DebugUserString

  const MAX_LEN: nat := 80

  /** A trace of a credential, cut to at most `MAX_LEN` bytes. */
  datatype DebugUserString = Unchanged(value: Bytes) | Truncated(value: Bytes, origLen: nat)

  /** The borrowed form, with the same two shapes. */
  datatype DebugUserStringRef = RefUnchanged(value: Bytes) | RefTruncated(value: Bytes, origLen: nat)

  /** `DebugUserString::from` as written: `String::truncate(80)` panics (None here)
      when byte 80 is not a char boundary. */
  function DebugUserStringFromAsWritten(value: Bytes): (r: Option<DebugUserString>)
    ensures r.None? <==> |value| > MAX_LEN && !IsCharBoundary(value, MAX_LEN)
    ensures r.Some? && |value| <= MAX_LEN ==> r.value == Unchanged(value)
    ensures r.Some? && |value| > MAX_LEN ==> r.value == Truncated(value[..MAX_LEN], |value|)
  {
    if |value| > MAX_LEN then
      if IsCharBoundary(value, MAX_LEN) then Some(Truncated(value[..MAX_LEN], |value|)) else None
    else Some(Unchanged(value))
  }

  /** The largest char boundary at or below `n`, as `str::floor_char_boundary` gives it. */
  function FloorCharBoundary(s: Bytes, n: nat): (r: nat)
    requires n <= |s|
    ensures r <= n && IsCharBoundary(s, r)
    ensures forall m :: r < m <= n ==> !IsCharBoundary(s, m)
  {
    if IsCharBoundary(s, n) then n else FloorCharBoundary(s, n - 1)
  }

  /** `DebugUserString::from`, cutting at the last char boundary within `MAX_LEN`
      bytes rather than exactly at `MAX_LEN`. */
  function DebugUserStringFrom(value: Bytes): (r: DebugUserString)
    ensures r.Unchanged? <==> |value| <= MAX_LEN
    ensures r.Unchanged? ==> r.value == value
    ensures r.Truncated? ==> r.origLen == |value| && |r.value| <= MAX_LEN
    ensures r.Truncated? ==> r.value == value[..|r.value|] && IsCharBoundary(value, |r.value|)
    ensures r.Truncated? ==> forall m :: |r.value| < m <= MAX_LEN ==> !IsCharBoundary(value, m)
  {
    if |value| > MAX_LEN then Truncated(value[..FloorCharBoundary(value, MAX_LEN)], |value|)
    else Unchanged(value)
  }

  /** Wherever the code as written does not panic, the corrected cut agrees with it. */
  lemma DebugUserStringAgrees(value: Bytes)
    requires DebugUserStringFromAsWritten(value).Some?
    ensures DebugUserStringFromAsWritten(value) == Some(DebugUserStringFrom(value))
  {
  }

  /** The corrected cut keeps a valid credential valid. */
  lemma DebugUserStringValid(value: Bytes)
    requires ValidUtf8(value)
    ensures ValidUtf8(DebugUserStringFrom(value).value)
  {
    if |value| > MAX_LEN {
      BoundaryPrefixValid(value, FloorCharBoundary(value, MAX_LEN));
    }
  }

  /** ASCII text, such as a header value, never makes the code as written panic. */
  lemma AsciiNeverPanics(value: Bytes)
    requires Ascii(value)
    ensures DebugUserStringFromAsWritten(value) == Some(DebugUserStringFrom(value))
  {
  }

  /** 79 ASCII bytes then "é" (C3 A9): valid UTF-8 of 81 bytes whose byte 80 is the
      second byte of "é", so `String::truncate(80)` panics. */
  lemma TruncationPanics()
    ensures var s: Bytes := seq(79, _ => 0x61) + [0xC3, 0xA9];
      && ValidUtf8(s)
      && DebugUserStringFromAsWritten(s).None?
      && DebugUserStringFrom(s) == Truncated(s[..79], 81)
  {
    var a: Bytes := seq(79, _ => 0x61);
    var e: Bytes := [0xC3, 0xA9];
    var s := a + e;
    AsciiValid(a);
    assert ValidUtf8(e) by {
      assert CharWidth(e) == Some(2);
      assert e[2..] == [];
    }
    ValidUtf8Append(a, e);
    assert s[80] == 0xA9;
    assert IsCharBoundary(s, 79) by {
      assert s[79] == 0xC3;
    }
  }

  /** `DebugUserStringRef::from` as written: `&value[..80]` panics under the same condition. */
  function DebugUserStringRefFromAsWritten(value: Bytes): (r: Option<DebugUserStringRef>)
    ensures r.None? <==> DebugUserStringFromAsWritten(value).None?
    ensures r.Some? ==> r == Some(AsRef(DebugUserStringFromAsWritten(value).value))
  {
    if |value| > MAX_LEN then
      if IsCharBoundary(value, MAX_LEN) then Some(RefTruncated(value[..MAX_LEN], |value|)) else None
    else Some(RefUnchanged(value))
  }

  /** `DebugUserStringRef::from`, with the corrected cut. */
  function DebugUserStringRefFrom(value: Bytes): (r: DebugUserStringRef)
    ensures r.RefUnchanged? <==> |value| <= MAX_LEN
    ensures r.RefTruncated? ==> r.origLen == |value|
  {
    if |value| > MAX_LEN then RefTruncated(value[..FloorCharBoundary(value, MAX_LEN)], |value|)
    else RefUnchanged(value)
  }

  /** `From<&DebugUserString> for DebugUserStringRef`: the same shape, value and length. */
  function AsRef(d: DebugUserString): (r: DebugUserStringRef)
    ensures r.RefUnchanged? <==> d.Unchanged?
    ensures r.value == d.value
    ensures r.RefTruncated? ==> r.origLen == d.origLen
  {
    match d
    case Unchanged(value) => RefUnchanged(value)
    case Truncated(value, origLen) => RefTruncated(value, origLen)
  }

  /** Borrowing the owned trace gives the trace made from the borrowed text. */
  lemma AsRefFrom(value: Bytes)
    ensures AsRef(DebugUserStringFrom(value)) == DebugUserStringRefFrom(value)
  {
  }

  // ================================================================ the header

  /** "Basic " */
  const BASIC_PREFIX: Bytes := [0x42, 0x61, 0x73, 0x69, 0x63, 0x20]

  predicate StartsWith(s: Bytes, prefix: Bytes) {
    |prefix| <= |s| && s[..|prefix|] == prefix
  }

  datatype AuthErrorKind = MissingBasic | Base64 | Utf8

  /** A malformed header, with a trace of the header value. */
  datatype AuthError = AuthError(authValue: DebugUserString, kind: AuthErrorKind)

  /** `parse_authorization_value`: strip "Basic ", decode base64, check UTF-8. An error
      carries the header value cut by the corrected `DebugUserStringFrom`. A header
      value is ASCII, and on ASCII the cut as written never panics and gives the same
      trace (`AsciiNeverPanics`), so this is no change for the values the server sees. */
  function ParseAuthorizationValue(authValue: Bytes, decode: Bytes -> Option<Bytes>): (r: Result<Bytes, AuthError>)
    ensures r.Failure? ==> r.error.authValue == DebugUserStringFrom(authValue)
    ensures r.Failure? && r.error.kind == MissingBasic <==> !StartsWith(authValue, BASIC_PREFIX)
    ensures r.Failure? && r.error.kind == Base64 <==>
      StartsWith(authValue, BASIC_PREFIX) && decode(authValue[|BASIC_PREFIX|..]).None?
    ensures r.Success? ==> ValidUtf8(r.value) && decode(authValue[|BASIC_PREFIX|..]) == Some(r.value)
  {
    var fail := (kind: AuthErrorKind) => Failure(AuthError(DebugUserStringFrom(authValue), kind));
    if !StartsWith(authValue, BASIC_PREFIX) then fail(MissingBasic)
    else match decode(authValue[|BASIC_PREFIX|..])
      case None => fail(Base64)
      case Some(bytes) => if ValidUtf8(bytes) then Success(bytes) else fail(Utf8)
  }

  /** A header built from "Basic " and an encoding that decodes back gives the credential. */
  lemma ParseBasicRoundTrip(credential: Bytes, encode: Bytes -> Bytes, decode: Bytes -> Option<Bytes>)
    requires ValidUtf8(credential)
    requires decode(encode(credential)) == Some(credential)
    ensures ParseAuthorizationValue(BASIC_PREFIX + encode(credential), decode) == Success(credential)
  {
    var v := BASIC_PREFIX + encode(credential);
    assert v[..|BASIC_PREFIX|] == BASIC_PREFIX && v[|BASIC_PREFIX|..] == encode(credential);
  }

  /** Invalid UTF-8 behind a valid prefix and base64 is the `Utf8` error. */
  lemma ParseUtf8Error(authValue: Bytes, decode: Bytes -> Option<Bytes>)
    requires StartsWith(authValue, BASIC_PREFIX)
    requires decode(authValue[|BASIC_PREFIX|..]).Some?
    requires !ValidUtf8(decode(authValue[|BASIC_PREFIX|..]).value)
    ensures ParseAuthorizationValue(authValue, decode) == Failure(AuthError(DebugUserStringFrom(authValue), Utf8))
  {
  }

  // ================================================================ the query

  datatype AuthResult = Accept | Deny(who: DebugUserString) | MissingAuthHeader | NoneConfigured

  /** `AuthRules::query`, the request reduced to its `Authorization` header value. */
  method Query(rules: AuthRules, authHeader: Option<Bytes>, decode: Bytes -> Option<Bytes>)
    returns (r: Result<AuthResult, AuthError>)
    requires Sorted(rules.entriesSorted)
    ensures authHeader.None? ==> r == Success(MissingAuthHeader)
    ensures authHeader.Some? && ParseAuthorizationValue(authHeader.value, decode).Failure? ==>
      r == Failure(ParseAuthorizationValue(authHeader.value, decode).error)
    ensures r == Success(Accept) <==>
      authHeader.Some? && ParseAuthorizationValue(authHeader.value, decode).Success?
      && ParseAuthorizationValue(authHeader.value, decode).value in rules.entriesSorted
    ensures r.Success? && r.value.Deny? <==>
      authHeader.Some? && ParseAuthorizationValue(authHeader.value, decode).Success?
      && ParseAuthorizationValue(authHeader.value, decode).value !in rules.entriesSorted
    ensures r.Success? && r.value.Deny? ==>
      r.value.who == DebugUserStringFrom(ParseAuthorizationValue(authHeader.value, decode).value)
    ensures r != Success(NoneConfigured)
  {
    if authHeader.None? {
      return Success(MissingAuthHeader);
    }
    var parsed := ParseAuthorizationValue(authHeader.value, decode);
    if parsed.Failure? {
      return Failure(parsed.error);
    }
    var found := BinarySearch(rules.entriesSorted, parsed.value);
    if found {
      r := Success(Accept);
    } else {
      r := Success(Deny(DebugUserStringFrom(parsed.value)));
    }
  }

  /** The credential of the counterexample reaches the cut through the deny path:
      a header "Basic " + b whose `b` decodes to it, under rules that lack it. */
  lemma DenyReachesTruncation(rules: AuthRules, b: Bytes, decode: Bytes -> Option<Bytes>)
    requires decode(b) == Some(seq(79, _ => 0x61) + [0xC3, 0xA9])
    requires (seq(79, _ => 0x61) + [0xC3, 0xA9]) !in rules.entriesSorted
    ensures var s: Bytes := seq(79, _ => 0x61) + [0xC3, 0xA9];
      && ParseAuthorizationValue(BASIC_PREFIX + b, decode) == Success(s)
      && DebugUserStringFromAsWritten(s).None?
  {
    var s: Bytes := seq(79, _ => 0x61) + [0xC3, 0xA9];
    TruncationPanics();
    var v := BASIC_PREFIX + b;
    assert v[..|BASIC_PREFIX|] == BASIC_PREFIX && v[|BASIC_PREFIX|..] == b;
  }
}
