/** The handful of Rust `str` operations the parsers are built from, stated over
    `string` (a sequence of Unicode scalar values, as a Rust `&str` is).
    Each definition follows the standard library's documented behaviour; the
    lemmas are the facts the parsers' proofs need about them. */
module RustStr {
  import opened Wrappers

  /** `char::is_whitespace`: the characters with the Unicode White_Space property. */
  predicate IsWhitespace(c: char) {
    var n := c as int;
    || (0x09 <= n <= 0x0D)
    || n == 0x20
    || n == 0x85
    || n == 0xA0
    || n == 0x1680
    || (0x2000 <= n <= 0x200A)
    || n == 0x2028
    || n == 0x2029
    || n == 0x202F
    || n == 0x205F
    || n == 0x3000
  }

  predicate AllWhitespace(s: string) {
    forall i :: 0 <= i < |s| ==> IsWhitespace(s[i])
  }

  predicate NoWhitespace(s: string) {
    forall i :: 0 <= i < |s| ==> !IsWhitespace(s[i])
  }

  /** A string that `trim` leaves as it is. */
  predicate Trimmed(s: string) {
    s == [] || (!IsWhitespace(s[0]) && !IsWhitespace(s[|s| - 1]))
  }

  predicate StartsWith(s: string, prefix: string) {
    |prefix| <= |s| && s[..|prefix|] == prefix
  }

  // ---------------------------------------------------------------- trimming

  /** `str::trim_start`: the suffix left after dropping leading whitespace. */
  function TrimStart(s: string): (r: string)
    ensures |r| <= |s|
    ensures r == [] || !IsWhitespace(r[0])
    decreases |s|
  {
    if |s| > 0 && IsWhitespace(s[0]) then TrimStart(s[1..]) else s
  }

  /** What `trim_start` drops is whitespace, and what it keeps is a suffix. */
  lemma {:induction false} TrimStartSuffix(s: string)
    ensures var r := TrimStart(s); r == s[|s| - |r|..] && AllWhitespace(s[..|s| - |r|])
    decreases |s|
  {
    if |s| > 0 && IsWhitespace(s[0]) {
      TrimStartSuffix(s[1..]);
      var r := TrimStart(s);
      assert s[1..][|s| - 1 - |r|..] == s[|s| - |r|..];
      assert s[..|s| - |r|] == [s[0]] + s[1..][..|s| - 1 - |r|];
    }
  }

  /** `str::trim_end`: the prefix left after dropping trailing whitespace. */
  function TrimEnd(s: string): (r: string)
    ensures |r| <= |s|
    ensures r == [] || !IsWhitespace(r[|r| - 1])
    decreases |s|
  {
    if |s| > 0 && IsWhitespace(s[|s| - 1]) then TrimEnd(s[..|s| - 1]) else s
  }

  /** What `trim_end` drops is whitespace, and what it keeps is a prefix. */
  lemma {:induction false} TrimEndPrefix(s: string)
    ensures var r := TrimEnd(s); r == s[..|r|] && AllWhitespace(s[|r|..])
    decreases |s|
  {
    if |s| > 0 && IsWhitespace(s[|s| - 1]) {
      TrimEndPrefix(s[..|s| - 1]);
      var r := TrimEnd(s);
      assert s[..|s| - 1][..|r|] == s[..|r|];
      assert s[|r|..] == s[..|s| - 1][|r|..] + [s[|s| - 1]];
    }
  }

  /** `str::trim`: whitespace removed from both ends. */
  function Trim(s: string): (r: string)
    ensures Trimmed(r) && |r| <= |s|
    ensures r == [] <==> AllWhitespace(s)
  {
    var e := TrimEnd(s);
    var r := TrimStart(e);
    TrimEndPrefix(s);
    TrimStartSuffix(e);
    assert r == [] ==> AllWhitespace(e) by {
      if r == [] {
        assert e[..|e|] == e;
      }
    }
    assert s == e + s[|e|..];
    assert r != [] ==> r[|r| - 1] == e[|e| - 1];
    r
  }

  lemma TrimStartPrepend(ws: string, s: string)
    requires AllWhitespace(ws)
    ensures TrimStart(ws + s) == TrimStart(s)
    decreases |ws|
  {
    if ws != [] {
      assert (ws + s)[0] == ws[0];
      assert (ws + s)[1..] == ws[1..] + s;
      TrimStartPrepend(ws[1..], s);
    } else {
      assert ws + s == s;
    }
  }

  lemma TrimEndAppend(s: string, ws: string)
    requires AllWhitespace(ws)
    ensures TrimEnd(s + ws) == TrimEnd(s)
    decreases |ws|
  {
    if ws != [] {
      assert (s + ws)[|s + ws| - 1] == ws[|ws| - 1];
      assert (s + ws)[..|s + ws| - 1] == s + ws[..|ws| - 1];
      TrimEndAppend(s, ws[..|ws| - 1]);
    } else {
      assert s + ws == s;
    }
  }

  /** Trimming removes exactly the whitespace padding around a trimmed core. */
  lemma TrimPadded(before: string, core: string, after: string)
    requires AllWhitespace(before) && AllWhitespace(after) && Trimmed(core)
    ensures Trim(before + core + after) == core
  {
    TrimEndAppend(before + core, after);
    if core == [] {
      assert before + core == [] + before;
      TrimEndAppend([], before);
    } else {
      assert TrimEnd(before + core) == before + core;
      TrimStartPrepend(before, core);
    }
  }

  // ---------------------------------------------------------------- searching

  /** Index of the first occurrence of `c`, as `str::find(char)`. */
  function FindChar(s: string, c: char): (r: Option<nat>)
    ensures r.None? <==> c !in s
    ensures r.Some? ==> r.value < |s| && s[r.value] == c && c !in s[..r.value]
  {
    if |s| == 0 then None
    else if s[0] == c then Some(0)
    else match FindChar(s[1..], c)
      case None => None
      case Some(k) =>
        assert s[..k + 1] == [s[0]] + s[1..][..k];
        Some(k + 1)
  }

  /** `str::split_once(char)`: the text before and after the first `c`. */
  function SplitOnceChar(s: string, c: char): (r: Option<(string, string)>)
    ensures r.None? <==> c !in s
    ensures r.Some? ==> s == r.value.0 + [c] + r.value.1 && c !in r.value.0
  {
    match FindChar(s, c)
    case None => None
    case Some(k) =>
      assert s == s[..k] + [c] + s[k + 1..];
      Some((s[..k], s[k + 1..]))
  }

  lemma SplitOnceCharAt(before: string, c: char, after: string)
    requires c !in before
    ensures SplitOnceChar(before + [c] + after, c) == Some((before, after))
  {
    var s := before + [c] + after;
    assert s[..|before|] == before;
    assert s[|before|] == c;
    var k := FindChar(s, c).value;
    assert s[..k] == before;
  }

  predicate MatchesAt(s: string, pat: string, k: nat) {
    k + |pat| <= |s| && s[k..k + |pat|] == pat
  }

  /** No occurrence of `pat` starts before index `n`. */
  predicate NoMatchBefore(s: string, pat: string, n: nat) {
    forall k: nat :: k < n ==> !MatchesAt(s, pat, k)
  }

  /** First occurrence of `pat` at or after `from`, as `str::find(&str)`. */
  function FindStr(s: string, pat: string, from: nat): (r: Option<nat>)
    ensures r.Some? ==> from <= r.value && MatchesAt(s, pat, r.value)
    ensures r.Some? ==> forall k: nat :: from <= k < r.value ==> !MatchesAt(s, pat, k)
    ensures r.None? ==> forall k: nat :: from <= k ==> !MatchesAt(s, pat, k)
    decreases |s| + 1 - from
  {
    if from + |pat| > |s| then None
    else if s[from..from + |pat|] == pat then Some(from)
    else FindStr(s, pat, from + 1)
  }

  /** `str::split_once(&str)`: the text before and after the first `sep`. */
  function SplitOnceStr(s: string, sep: string): (r: Option<(string, string)>)
    ensures r.None? <==> forall k: nat :: !MatchesAt(s, sep, k)
    ensures r.Some? ==> s == r.value.0 + sep + r.value.1 && NoMatchBefore(s, sep, |r.value.0|)
  {
    match FindStr(s, sep, 0)
    case None => None
    case Some(k) =>
      assert s == s[..k] + sep + s[k + |sep|..] by {
        assert s[k..k + |sep|] == sep;
      }
      Some((s[..k], s[k + |sep|..]))
  }

  lemma SplitOnceStrAt(before: string, sep: string, after: string)
    requires NoMatchBefore(before + sep + after, sep, |before|)
    ensures SplitOnceStr(before + sep + after, sep) == Some((before, after))
  {
    var s := before + sep + after;
    assert MatchesAt(s, sep, |before|) by {
      assert s[|before|..|before| + |sep|] == sep;
    }
    var r := SplitOnceStr(s, sep);
    var k := |r.value.0|;
    assert MatchesAt(s, sep, k);
    assert k == |before|;
    assert r.value.0 == s[..k];
    assert r.value.1 == s[k + |sep|..];
  }

  /** A separator whose first two characters differ cannot start inside a text in
      which those two characters never appear side by side. */
  lemma NoMatchBeforeSep(text: string, sep: string, rest: string)
    requires |sep| >= 2 && sep[0] != sep[1]
    requires forall j :: 1 <= j < |text| ==> !(text[j - 1] == sep[0] && text[j] == sep[1])
    ensures NoMatchBefore(text + sep + rest, sep, |text|)
  {
    var s := text + sep + rest;
    forall k: nat | k < |text|
      ensures !MatchesAt(s, sep, k)
    {
      assert k + 1 < |text| ==> s[k] == text[k] && s[k + 1] == text[k + 1];
      assert k + |sep| <= |s| ==> s[k..k + |sep|][0] == s[k] && s[k..k + |sep|][1] == s[k + 1];
    }
  }

  // ---------------------------------------------------------------- cells

  /** Length of the leading run of non-whitespace characters. */
  function WordLen(s: string): (n: nat)
    ensures n <= |s| && NoWhitespace(s[..n])
    ensures n < |s| ==> IsWhitespace(s[n])
  {
    if |s| == 0 || IsWhitespace(s[0]) then 0
    else
      var m := WordLen(s[1..]);
      assert s[..m + 1] == [s[0]] + s[1..][..m];
      1 + m
  }

  /** A cell of `split_whitespace`: a non-empty run without whitespace. */
  predicate IsCell(w: string) {
    w != [] && NoWhitespace(w)
  }

  predicate AllCells(cells: seq<string>) {
    forall i :: 0 <= i < |cells| ==> IsCell(cells[i])
  }

  lemma AllCellsPrepend(w: string, rest: seq<string>)
    requires IsCell(w) && AllCells(rest)
    ensures AllCells([w] + rest)
  {
    var r := [w] + rest;
    forall i | 0 <= i < |r|
      ensures IsCell(r[i])
    {
      if i > 0 {
        assert r[i] == rest[i - 1];
      }
    }
  }

  /** `str::split_whitespace`: the maximal runs of non-whitespace characters. */
  function SplitWhitespace(s: string): (r: seq<string>)
    ensures AllCells(r)
    decreases |s|
  {
    var t := TrimStart(s);
    if t == [] then []
    else
      var n := WordLen(t);
      assert n > 0;
      var w := t[..n];
      var rest := SplitWhitespace(t[n..]);
      AllCellsPrepend(w, rest);
      [w] + rest
  }

  lemma SplitWhitespaceLeading(ws: string, s: string)
    requires AllWhitespace(ws)
    ensures SplitWhitespace(ws + s) == SplitWhitespace(s)
  {
    TrimStartPrepend(ws, s);
  }

  lemma TrimStartAppend(a: string, b: string)
    requires TrimStart(a) != []
    ensures TrimStart(a + b) == TrimStart(a) + b
    decreases |a|
  {
    if IsWhitespace(a[0]) {
      assert (a + b)[1..] == a[1..] + b;
      TrimStartAppend(a[1..], b);
    }
  }

  lemma {:induction false} WordLenAppend(a: string, b: string)
    requires WordLen(a) < |a| || (b != [] && IsWhitespace(b[0]))
    ensures WordLen(a + b) == WordLen(a)
    decreases |a|
  {
    if |a| > 0 && !IsWhitespace(a[0]) {
      assert (a + b)[1..] == a[1..] + b;
      WordLenAppend(a[1..], b);
    }
  }

  /** A whitespace character separates cells: the cells of `a`, then those of `b`. */
  lemma {:induction false} SplitWhitespaceConcat(a: string, w: char, b: string)
    requires IsWhitespace(w)
    ensures SplitWhitespace(a + [w] + b) == SplitWhitespace(a) + SplitWhitespace(b)
    decreases |a|
  {
    var t := TrimStart(a);
    if t == [] {
      assert AllWhitespace(a + [w]) by {
        TrimStartSuffix(a);
        assert a == a[..|a| - |t|];
      }
      assert a + [w] + b == (a + [w]) + b;
      SplitWhitespaceLeading(a + [w], b);
    } else {
      var n := WordLen(t);
      assert SplitWhitespace(a + [w] + b) == [t[..n]] + SplitWhitespace(t[n..] + [w] + b) by {
        TrimStartAppend(a, [w] + b);
        assert a + [w] + b == a + ([w] + b);
        assert TrimStart(a + [w] + b) == t + ([w] + b);
        WordLenAppend(t, [w] + b);
        assert (t + ([w] + b))[..n] == t[..n];
        assert (t + ([w] + b))[n..] == t[n..] + [w] + b;
      }
      assert |t[n..]| < |a|;
      SplitWhitespaceConcat(t[n..], w, b);
    }
  }

  /** A single word with no whitespace is one cell. */
  lemma SplitWhitespaceWord(w: string)
    requires IsCell(w)
    ensures SplitWhitespace(w) == [w]
  {
    assert !IsWhitespace(w[0]);
    assert TrimStart(w) == w;
    WordLenAll(w);
    assert w[..|w|] == w;
    assert w[|w|..] == [];
    assert SplitWhitespace([]) == [];
  }

  lemma WordLenAll(w: string)
    requires NoWhitespace(w)
    ensures WordLen(w) == |w|
    decreases |w|
  {
    if w != [] {
      WordLenAll(w[1..]);
    }
  }

  /** Words joined by single spaces split back into the same words. */
  lemma {:induction false} SplitWhitespaceJoin(words: seq<string>)
    requires AllCells(words)
    ensures SplitWhitespace(Join(words, " ")) == words
    decreases |words|
  {
    if |words| == 0 {
    } else if |words| == 1 {
      SplitWhitespaceWord(words[0]);
    } else {
      SplitWhitespaceJoin(words[1..]);
      SplitWhitespaceWord(words[0]);
      SplitWhitespaceConcat(words[0], ' ', Join(words[1..], " "));
    }
  }

  // ---------------------------------------------------------------- numbers

  const U32_LIMIT: nat := 0x1_0000_0000

  /** Rust's `u32`. */
  type u32 = n: nat | n < U32_LIMIT

  predicate IsDigit(c: char) {
    '0' <= c <= '9'
  }

  predicate AllDigits(s: string) {
    forall i :: 0 <= i < |s| ==> IsDigit(s[i])
  }

  function DigitValue(c: char): nat
    requires IsDigit(c)
  {
    c as int - '0' as int
  }

  /** The number a string of decimal digits denotes (most significant first). */
  function DigitsValue(s: string): nat
    requires AllDigits(s)
  {
    if |s| == 0 then 0 else DigitsValue(s[..|s| - 1]) * 10 + DigitValue(s[|s| - 1])
  }

  /** `str::parse::<u32>`: an optional `+`, then at least one ASCII digit, and a value
      below 2^32. A `-` is never accepted for an unsigned type. */
  function ParseU32(s: string): (r: Option<u32>)
    ensures r.Some? ==> s != [] && (IsDigit(s[0]) || s[0] == '+')
  {
    var digits := if |s| > 0 && s[0] == '+' then s[1..] else s;
    if |digits| == 0 || !AllDigits(digits) then None
    else
      var v := DigitsValue(digits);
      if v < U32_LIMIT then Some(v) else None
  }

  function DigitChar(d: nat): (c: char)
    requires d < 10
    ensures IsDigit(c) && DigitValue(c) == d
  {
    ('0' as int + d) as char
  }

  /** Decimal rendering of a natural number, as `{}` formats an unsigned integer. */
  function Decimal(n: nat): (r: string)
    ensures r != [] && AllDigits(r)
  {
    if n < 10 then [DigitChar(n)] else Decimal(n / 10) + [DigitChar(n % 10)]
  }

  lemma {:induction false} DigitsValueDecimal(n: nat)
    ensures DigitsValue(Decimal(n)) == n
  {
    if n >= 10 {
      DigitsValueDecimal(n / 10);
      var r := Decimal(n);
      assert r[..|r| - 1] == Decimal(n / 10);
    }
  }

  /** Rendering a u32 in decimal and parsing it back gives the same number. */
  lemma ParseU32Decimal(n: nat)
    requires n < U32_LIMIT
    ensures ParseU32(Decimal(n)) == Some(n)
  {
    DigitsValueDecimal(n);
  }

  // ---------------------------------------------------------------- joining and lines

  /** Parts separated by `sep`, with no leading or trailing separator. */
  function Join(parts: seq<string>, sep: string): (r: string)
    ensures |parts| == 1 ==> r == parts[0]
    decreases |parts|
  {
    if |parts| == 0 then []
    else if |parts| == 1 then parts[0]
    else parts[0] + sep + Join(parts[1..], sep)
  }

  /** Two parts with the separator between them read the same as one part holding both. */
  lemma JoinMerge(a: string, b: string, rest: seq<string>, sep: string)
    ensures Join([a + sep + b] + rest, sep) == Join([a, b] + rest, sep)
  {
    if rest == [] {
      assert ([a, b] + rest)[1..] == [b];
    } else {
      assert ([a + sep + b] + rest)[1..] == rest;
      assert ([a, b] + rest)[1..] == [b] + rest;
      assert ([b] + rest)[1..] == rest;
    }
  }

  lemma JoinEnds(parts: seq<string>, sep: string)
    requires |parts| > 0
    ensures StartsWith(Join(parts, sep), parts[0])
    ensures var r := Join(parts, sep); var l := parts[|parts| - 1];
      |l| <= |r| && r[|r| - |l|..] == l
    decreases |parts|
  {
    if |parts| > 1 {
      JoinEnds(parts[1..], sep);
      var r := Join(parts, sep);
      assert r == parts[0] + sep + Join(parts[1..], sep);
      assert parts[1..][|parts[1..]| - 1] == parts[|parts| - 1];
    }
  }

  predicate EndsWithCr(s: string) {
    |s| > 0 && s[|s| - 1] == '\r'
  }

  function StripCr(s: string): string {
    if EndsWithCr(s) then s[..|s| - 1] else s
  }

  /** `str::lines`: the text split at `\n`; a `\r` before a `\n` is dropped, and a
      final line ending does not start an extra empty line. */
  function Lines(s: string): (r: seq<string>)
    ensures forall i :: 0 <= i < |r| ==> '\n' !in r[i]
    decreases |s|
  {
    if s == [] then []
    else match FindChar(s, '\n')
      case None => [s]
      case Some(k) =>
        assert '\n' !in StripCr(s[..k]) by {
          assert StripCr(s[..k]) == s[..k] || StripCr(s[..k]) == s[..k][..k - 1];
        }
        [StripCr(s[..k])] + Lines(s[k + 1..])
  }

  /** Every line followed by a line feed: the text a command prints line by line. */
  function Unlines(lines: seq<string>): (r: string)
    ensures |r| > 0 <==> |lines| > 0
    ensures |r| > 0 ==> r[|r| - 1] == '\n'
    decreases |lines|
  {
    if |lines| == 0 then [] else lines[0] + "\n" + Unlines(lines[1..])
  }

  /** Printing lines and splitting the text again gives back the same lines, provided
      no line holds a line feed or ends in a carriage return. */
  lemma {:induction false} LinesUnlines(lines: seq<string>)
    requires forall i :: 0 <= i < |lines| ==> '\n' !in lines[i] && !EndsWithCr(lines[i])
    ensures Lines(Unlines(lines)) == lines
    decreases |lines|
  {
    if |lines| > 0 {
      var s := Unlines(lines);
      var rest := Unlines(lines[1..]);
      assert s == lines[0] + ['\n'] + rest;
      SplitOnceCharAt(lines[0], '\n', rest);
      assert FindChar(s, '\n') == Some(|lines[0]|);
      assert s[..|lines[0]|] == lines[0];
      assert s[|lines[0]| + 1..] == rest;
      LinesUnlines(lines[1..]);
    }
  }
}
