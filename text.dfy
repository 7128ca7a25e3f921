/**
 * The string operations of the Kotlin standard library and of JavaScript that the
 * activity relies on: `trim`, `split` with one delimiter, `joinToString`,
 * `substringAfterLast`, `all { isDigit() }`, `toIntOrNull`, `Int.toString`, the
 * JavaScript `slice(-n)` of an array, and counting the matches of a keyword.
 */
module Text {
  import opened Wrappers

  // ---------------------------------------------------------------------------
  // Whitespace and trim
  // ---------------------------------------------------------------------------

  /** Kotlin's `Char.isWhitespace` on the JVM: Java's `isWhitespace` or `isSpaceChar`. */
  predicate IsWhitespace(c: char) {
    || c == ' ' || c == '\t' || c == '\n' || c == '\r'
    || c == '\U{000B}' || c == '\U{000C}'
    || ('\U{001C}' <= c <= '\U{001F}')
    || c == '\U{00A0}' || c == '\U{1680}'
    || ('\U{2000}' <= c <= '\U{200A}')
    || c == '\U{2028}' || c == '\U{2029}' || c == '\U{202F}' || c == '\U{205F}' || c == '\U{3000}'
  }

  predicate IsBlank(s: string) {
    forall k :: 0 <= k < |s| ==> IsWhitespace(s[k])
  }

  /** Drops the leading whitespace: what is dropped is whitespace, what is kept is a suffix. */
  function TrimStart(s: string): (r: string)
    ensures |r| <= |s| && r == s[|s| - |r|..]
    ensures forall k :: 0 <= k < |s| - |r| ==> IsWhitespace(s[k])
    ensures r == [] || !IsWhitespace(r[0])
    decreases |s|
  {
    if |s| > 0 && IsWhitespace(s[0]) then TrimStart(s[1..]) else s
  }

  /** Drops the trailing whitespace: what is dropped is whitespace, what is kept is a prefix. */
  function TrimEnd(s: string): (r: string)
    ensures |r| <= |s| && r == s[..|r|]
    ensures forall k :: |r| <= k < |s| ==> IsWhitespace(s[k])
    ensures r == [] || !IsWhitespace(r[|r| - 1])
    decreases |s|
  {
    if |s| > 0 && IsWhitespace(s[|s| - 1]) then TrimEnd(s[..|s| - 1]) else s
  }

  /** `r` occurs in `s` at index `i`, and everything before and after it is whitespace. */
  predicate BlankFramed(s: string, r: string, i: nat) {
    i + |r| <= |s| && r == s[i..i + |r|] && IsBlank(s[..i]) && IsBlank(s[i + |r|..])
  }

  /** Kotlin's `String.trim()`: the text between the leading and the trailing whitespace. */
  function Trim(s: string): (r: string)
    ensures |r| <= |s|
    ensures r == [] || (!IsWhitespace(r[0]) && !IsWhitespace(r[|r| - 1]))
    ensures r == [] <==> IsBlank(s)
    ensures exists i :: 0 <= i && BlankFramed(s, r, i)
  {
    var t := TrimStart(s);
    var r := TrimEnd(t);
    TrimFramed(s);
    assert r != [] ==> !IsWhitespace(r[0]) by {
      if r != [] { assert r[0] == t[0]; }
    }
    assert t != [] ==> !IsBlank(s) by {
      if t != [] {
        assert t[0] == s[|s| - |t|];
      }
    }
    r
  }

  /** What `TrimStart` drops is a blank prefix. */
  lemma TrimStartLayout(s: string)
    ensures var i := |s| - |TrimStart(s)|;
            TrimStart(s) == s[i..] && IsBlank(s[..i])
  {
  }

  /** What `TrimEnd` drops is a blank suffix. */
  lemma TrimEndLayout(t: string)
    ensures var r := TrimEnd(t);
            IsBlank(t[|r|..])
  {
    var r := TrimEnd(t);
    var rest := t[|r|..];
    forall k | 0 <= k < |rest| ensures IsWhitespace(rest[k]) {
      assert rest[k] == t[|r| + k];
    }
  }

  /** A blank prefix cut off, then a blank suffix cut off: a slice between two blank ends. */
  lemma BlankEnds(s: string, t: string, r: string)
    requires |t| <= |s| && t == s[|s| - |t|..] && IsBlank(s[..|s| - |t|])
    requires |r| <= |t| && r == t[..|r|] && IsBlank(t[|r|..])
    ensures BlankFramed(s, r, |s| - |t|)
  {
    var i := |s| - |t|;
    assert s[i + |r|..] == t[|r|..];
    assert s[i..i + |r|] == t[..|r|];
  }

  /** What `TrimStart` then `TrimEnd` keep sits between a blank prefix and a blank suffix. */
  lemma TrimFramed(s: string)
    ensures BlankFramed(s, TrimEnd(TrimStart(s)), |s| - |TrimStart(s)|)
  {
    var t := TrimStart(s);
    TrimStartLayout(s);
    TrimEndLayout(t);
    BlankEnds(s, t, TrimEnd(t));
  }

  /** Trimming twice is trimming once. */
  lemma {:induction false} TrimIdempotent(s: string)
    ensures Trim(Trim(s)) == Trim(s)
  {
    var r := Trim(s);
    assert TrimStart(r) == r;
    assert TrimEnd(r) == r;
  }

  // ---------------------------------------------------------------------------
  // split / joinToString
  // ---------------------------------------------------------------------------

  /**
   * Kotlin's `split` on a one-character delimiter with no limit: the pieces between
   * delimiters, empty pieces included; a text with no delimiter is one piece.
   */
  function Split(s: string, d: char): (r: seq<string>)
    ensures |r| == 1 + multiset(s)[d]
    ensures |r| == 1 <==> d !in s
    ensures forall i :: 0 <= i < |r| ==> d !in r[i]
    decreases |s|
  {
    if |s| == 0 then [[]]
    else
      var rest := Split(s[1..], d);
      assert s == [s[0]] + s[1..];
      Prepend(s[0], d, rest)
  }

  /** One character in front of split pieces: a delimiter opens a new empty piece, any other character joins the first piece. */
  function Prepend(c: char, d: char, parts: seq<string>): seq<string>
    requires |parts| >= 1
  {
    if c == d then [[]] + parts else [[c] + parts[0]] + parts[1..]
  }

  /** Putting a character in front of a list of pieces only touches its first part. */
  lemma PrependConcat(c: char, d: char, x: seq<string>, y: seq<string>)
    requires |x| >= 1
    ensures Prepend(c, d, x + y) == Prepend(c, d, x) + y
  {
    if c != d {
      assert (x + y)[0] == x[0];
      assert (x + y)[1..] == x[1..] + y;
    }
  }

  /** Kotlin's `joinToString` with a one-character separator (JavaScript's `join`). */
  function Join(parts: seq<string>, d: char): (r: string)
  {
    if |parts| == 0 then []
    else if |parts| == 1 then parts[0]
    else parts[0] + [d] + Join(parts[1..], d)
  }

  /** A join starts with its first piece, followed by the delimiter or by the end. */
  lemma JoinHead(parts: seq<string>, d: char)
    requires |parts| >= 1
    ensures |parts[0]| <= |Join(parts, d)| && Join(parts, d)[..|parts[0]|] == parts[0]
    ensures |parts[0]| == |Join(parts, d)| || Join(parts, d)[|parts[0]|] == d
  {
  }

  /** Joining with an empty first piece puts a separator in front. */
  lemma JoinEmptyHead(rest: seq<string>, d: char)
    requires |rest| >= 1
    ensures Join([[]] + rest, d) == [d] + Join(rest, d)
  {
    var p := [[]] + rest;
    assert p[0] == [] && p[1..] == rest;
  }

  /** Joining with a character put in front of the first piece puts it in front of the text. */
  lemma JoinCharHead(c: char, rest: seq<string>, d: char)
    requires |rest| >= 1
    ensures Join([[c] + rest[0]] + rest[1..], d) == [c] + Join(rest, d)
  {
    var p := [[c] + rest[0]] + rest[1..];
    assert p[0] == [c] + rest[0] && p[1..] == rest[1..];
    if |rest| > 1 {
      assert Join(p, d) == ([c] + rest[0]) + [d] + Join(rest[1..], d);
    }
  }

  /** One step of `JoinSplit`: a first character in front of a text that round-trips. */
  lemma JoinSplitStep(s: string, d: char)
    requires |s| > 0
    requires Join(Split(s[1..], d), d) == s[1..]
    ensures Join(Split(s, d), d) == s
  {
    var rest := Split(s[1..], d);
    if s[0] == d {
      JoinEmptyHead(rest, d);
    } else {
      JoinCharHead(s[0], rest, d);
    }
    assert s == [s[0]] + s[1..];
  }

  /** Splitting and joining back on the same delimiter gives the text back. */
  lemma {:induction false} JoinSplit(s: string, d: char)
    ensures Join(Split(s, d), d) == s
    decreases |s|
  {
    if |s| > 0 {
      JoinSplit(s[1..], d);
      JoinSplitStep(s, d);
    }
  }

  /** A text without the delimiter is a single piece. */
  lemma SplitNoDelimiter(s: string, d: char)
    requires d !in s
    ensures Split(s, d) == [s]
  {
    JoinSplit(s, d);
  }

  /** Splitting around one delimiter splits each side independently. */
  lemma {:induction false} SplitAround(a: string, b: string, d: char)
    ensures Split(a + [d] + b, d) == Split(a, d) + Split(b, d)
    decreases |a|
  {
    var s := a + [d] + b;
    if |a| == 0 {
      assert s[0] == d && s[1..] == b;
    } else {
      var tail := a[1..] + [d] + b;
      assert s[0] == a[0] && s[1..] == tail;
      SplitAround(a[1..], b, d);
      PrependConcat(a[0], d, Split(a[1..], d), Split(b, d));
    }
  }

  /** Joining pieces that hold no delimiter and splitting again gives the pieces back. */
  lemma {:induction false} SplitJoin(parts: seq<string>, d: char)
    requires |parts| >= 1
    requires forall i :: 0 <= i < |parts| ==> d !in parts[i]
    ensures Split(Join(parts, d), d) == parts
    decreases |parts|
  {
    if |parts| == 1 {
      SplitNoDelimiter(parts[0], d);
    } else {
      SplitJoin(parts[1..], d);
      SplitAround(parts[0], Join(parts[1..], d), d);
      SplitNoDelimiter(parts[0], d);
      assert parts == [parts[0]] + parts[1..];
    }
  }

  /** Joining a list cut in two is joining the halves around one more separator. */
  lemma {:induction false} JoinCut(parts: seq<string>, i: nat, d: char)
    requires 0 < i < |parts|
    ensures Join(parts, d) == Join(parts[..i], d) + [d] + Join(parts[i..], d)
    decreases i
  {
    if i > 1 {
      JoinCut(parts[1..], i - 1, d);
      assert parts[1..][..i - 1] == parts[..i][1..];
      assert parts[1..][i - 1..] == parts[i..];
    }
  }

  // ---------------------------------------------------------------------------
  // substringAfterLast, digits
  // ---------------------------------------------------------------------------

  /** Where the longest `d`-free suffix of `s` starts: just after the last `d`, else 0. */
  function LastCut(s: string, d: char): (i: nat)
    ensures i <= |s|
    ensures forall k :: i <= k < |s| ==> s[k] != d
    ensures i > 0 ==> s[i - 1] == d
    decreases |s|
  {
    if |s| == 0 then 0
    else if s[|s| - 1] == d then |s|
    else LastCut(s[..|s| - 1], d)
  }

  /** The cut is the one index with the two properties above. */
  lemma LastCutIs(s: string, d: char, i: nat)
    requires i <= |s|
    requires forall k :: i <= k < |s| ==> s[k] != d
    requires i > 0 ==> s[i - 1] == d
    ensures LastCut(s, d) == i
  {
  }

  /**
   * Kotlin's `substringAfterLast(d)`: the longest suffix free of `d`. It is the whole
   * text when `d` does not occur, and otherwise follows the last `d`.
   */
  function AfterLast(s: string, d: char): (r: string)
    ensures |r| <= |s| && r == s[|s| - |r|..]
    ensures d !in r
    ensures |r| < |s| ==> s[|s| - |r| - 1] == d
  {
    s[LastCut(s, d)..]
  }

  /** What follows the last `d` of `a + b` lies in `b` when `b` has a `d`, else it spans both. */
  lemma AfterLastConcat(a: string, b: string, d: char)
    ensures d in b ==> AfterLast(a + b, d) == AfterLast(b, d)
    ensures d !in b ==> AfterLast(a + b, d) == AfterLast(a, d) + b
  {
    var s := a + b;
    if d in b {
      var j := LastCut(b, d);
      assert j > 0 by {
        var k :| 0 <= k < |b| && b[k] == d;
      }
      LastCutIs(s, d, |a| + j);
      assert s[|a| + j..] == b[j..];
    } else {
      var i := LastCut(a, d);
      LastCutIs(s, d, i);
      assert s[i..] == a[i..] + b;
    }
  }

  predicate IsDigit(c: char) {
    '0' <= c <= '9'
  }

  /** Kotlin's `all { it.isDigit() }`: true of the empty text. */
  predicate AllDigits(s: string) {
    forall k :: 0 <= k < |s| ==> IsDigit(s[k])
  }

  // ---------------------------------------------------------------------------
  // Int.toString and toIntOrNull
  // ---------------------------------------------------------------------------

  const IntMin: int := -0x8000_0000
  const IntMax: int := 0x7fff_ffff

  /** Kotlin's `Int`. */
  newtype int32 = x: int | -0x8000_0000 <= x <= 0x7fff_ffff

  function DigitChar(n: nat): (c: char)
    requires n < 10
    ensures IsDigit(c)
  {
    (48 + n) as char
  }

  function DigitValue(c: char): nat
    requires IsDigit(c)
  {
    c as int - 48
  }

  /** Decimal text of a natural number, most significant digit first. */
  function NatToString(n: nat): (r: string)
    ensures |r| >= 1 && AllDigits(r)
    decreases n
  {
    if n < 10 then [DigitChar(n)] else NatToString(n / 10) + [DigitChar(n % 10)]
  }

  /** `Int.toString()`: a minus sign in front of a negative number. */
  function IntToString(n: int): (r: string)
  {
    if n < 0 then "-" + NatToString(-n) else NatToString(n)
  }

  /** The value of a digit string read most significant digit first. */
  function DigitsValue(s: string): nat
    requires AllDigits(s)
  {
    if |s| == 0 then 0 else DigitsValue(s[..|s| - 1]) * 10 + DigitValue(s[|s| - 1])
  }

  /**
   * Kotlin's `String.toIntOrNull()`: an optional `+` or `-`, then at least one digit,
   * and a value that fits an `Int`; anything else is `null`.
   */
  function ParseInt(s: string): (r: Option<int32>)
    ensures r.Some? ==> |s| >= 1
  {
    if |s| == 0 then None
    else
      var digits := if s[0] == '-' || s[0] == '+' then s[1..] else s;
      if |digits| == 0 || !AllDigits(digits) then None
      else
        var v: int := if s[0] == '-' then -(DigitsValue(digits) as int) else DigitsValue(digits);
        if IntMin <= v <= IntMax then Some(v as int32) else None
  }

  lemma {:induction false} DigitsOfNat(n: nat)
    ensures DigitsValue(NatToString(n)) == n
    decreases n
  {
    var s := NatToString(n);
    if n >= 10 {
      DigitsOfNat(n / 10);
      assert s[..|s| - 1] == NatToString(n / 10);
    }
  }

  /** Different numbers have different decimal texts. */
  lemma NatToStringInjective(m: nat, n: nat)
    requires m != n
    ensures NatToString(m) != NatToString(n)
  {
    DigitsOfNat(m);
    DigitsOfNat(n);
  }

  /** Reading back the decimal text of an `Int` gives the `Int`. */
  lemma IntRoundTrip(n: int32)
    ensures ParseInt(IntToString(n as int)) == Some(n)
  {
    var s := IntToString(n as int);
    if n < 0 {
      DigitsOfNat(-(n as int));
      assert s[1..] == NatToString(-(n as int));
    } else {
      DigitsOfNat(n as int);
    }
  }

  // ---------------------------------------------------------------------------
  // slice(-n) and keyword matches
  // ---------------------------------------------------------------------------

  /** JavaScript's `array.slice(-n)` for n > 0: the last n elements, or all of them. */
  function LastN<T>(xs: seq<T>, n: nat): (r: seq<T>)
    requires n > 0
    ensures |r| == if |xs| < n then |xs| else n
    ensures r == xs[|xs| - |r|..]
  {
    if |xs| <= n then xs else xs[|xs| - n..]
  }

  predicate OccursAt(t: string, k: string, i: nat) {
    i + |k| <= |t| && t[i..i + |k|] == k
  }

  /**
   * The number of matches of `new RegExp(k, "g")` for a keyword read literally:
   * non-overlapping, left to right. An empty pattern matches at every position,
   * so it counts |t| + 1 as in JavaScript.
   */
  function Occurrences(t: string, k: string): (n: nat)
    ensures |k| > 0 ==> n <= |t|
    decreases |t|
  {
    if |k| == 0 then |t| + 1
    else if |t| < |k| then 0
    else if k <= t then 1 + Occurrences(t[|k|..], k)
    else Occurrences(t[1..], k)
  }

  /** A match at the front adds one keyword length to the bound on the rest. */
  lemma OccurrencesFitStep(t: string, k: string)
    requires |k| > 0 && |t| >= |k| && k <= t
    requires Occurrences(t[|k|..], k) * |k| <= |t| - |k|
    ensures Occurrences(t, k) * |k| <= |t|
  {
    var m := Occurrences(t[|k|..], k);
    assert Occurrences(t, k) == 1 + m;
    FitArith(Occurrences(t, k), m, |k|, |t|);
  }

  lemma FitArith(n: int, m: int, width: int, total: int)
    requires n == 1 + m && m * width <= total - width
    ensures n * width <= total
  {
    assert n * width == width + m * width;
  }

  /** The matches of a non-empty keyword do not overlap, so they fit in the text. */
  lemma {:induction false} OccurrencesFit(t: string, k: string)
    requires |k| > 0
    ensures Occurrences(t, k) * |k| <= |t|
    decreases |t|
  {
    if |t| >= |k| {
      if k <= t {
        OccurrencesFit(t[|k|..], k);
        OccurrencesFitStep(t, k);
      } else {
        OccurrencesFit(t[1..], k);
      }
    }
  }

  /** A non-empty keyword has a match exactly when it occurs somewhere in the text. */
  lemma {:induction false} OccurrencesPositive(t: string, k: string)
    requires |k| > 0
    ensures Occurrences(t, k) > 0 <==> exists i :: OccursAt(t, k, i)
    decreases |t|
  {
    if |t| < |k| {
      forall i ensures !OccursAt(t, k, i) { }
    } else if k <= t {
      assert OccursAt(t, k, 0);
    } else {
      OccurrencesPositive(t[1..], k);
      if exists i :: OccursAt(t[1..], k, i) {
        var i: nat :| OccursAt(t[1..], k, i);
        assert t[i + 1..i + 1 + |k|] == t[1..][i..i + |k|];
        assert OccursAt(t, k, i + 1);
      }
      if exists i :: OccursAt(t, k, i) {
        var i: nat :| OccursAt(t, k, i);
        assert !OccursAt(t, k, 0) by {
          assert t[0..|k|] == t[..|k|];
        }
        assert t[1..][i - 1..i - 1 + |k|] == t[i..i + |k|];
        assert OccursAt(t[1..], k, i - 1);
      }
    }
  }
}
