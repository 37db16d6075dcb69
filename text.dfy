/** The JavaScript string built-ins the expander relies on: `String.prototype.trim`,
    `includes`, `split` with a string separator, `parseInt` on a run of decimal
    digits, and the decimal rendering of a non-negative integer. */
module Text {
  import opened Results

  // ---------------------------------------------------------------------------
  // Character classes
  // ---------------------------------------------------------------------------

  /** The ECMAScript WhiteSpace and LineTerminator code points: what `trim` removes. */
  predicate IsWhitespace(c: char) {
    var x := c as int;
    x == 0x09 || x == 0x0A || x == 0x0B || x == 0x0C || x == 0x0D || x == 0x20 || x == 0xA0
    || x == 0x1680 || (0x2000 <= x <= 0x200A) || x == 0x2028 || x == 0x2029 || x == 0x202F
    || x == 0x205F || x == 0x3000 || x == 0xFEFF
  }

  /** The regular-expression class `[a-zA-Z]`. */
  predicate IsAsciiLetter(c: char) {
    'a' <= c <= 'z' || 'A' <= c <= 'Z'
  }

  /** The regular-expression class `\d` (ASCII digits only). */
  predicate IsAsciiDigit(c: char) {
    '0' <= c <= '9'
  }

  predicate AllLetters(s: string) {
    forall i :: 0 <= i < |s| ==> IsAsciiLetter(s[i])
  }

  predicate AllDigits(s: string) {
    forall i :: 0 <= i < |s| ==> IsAsciiDigit(s[i])
  }

  predicate AllWhitespace(s: string) {
    forall i :: 0 <= i < |s| ==> IsWhitespace(s[i])
  }

  // ---------------------------------------------------------------------------
  // trim
  // ---------------------------------------------------------------------------

  /** Drops the leading whitespace. */
  function TrimStart(s: string): string {
    if s != [] && IsWhitespace(s[0]) then TrimStart(s[1..]) else s
  }

  /** Drops the trailing whitespace. */
  function TrimEnd(s: string): string {
    if s != [] && IsWhitespace(s[|s| - 1]) then TrimEnd(s[..|s| - 1]) else s
  }

  /** `s.trim()`. */
  function Trim(s: string): string {
    TrimEnd(TrimStart(s))
  }

  /** What `TrimStart` leaves is a suffix, empty or starting with a non-whitespace
      character, and everything it removed is whitespace. */
  lemma {:induction false} TrimStartSpec(s: string)
    ensures |TrimStart(s)| <= |s| && TrimStart(s) == s[|s| - |TrimStart(s)|..]
    ensures AllWhitespace(s[..|s| - |TrimStart(s)|])
    ensures TrimStart(s) == [] || !IsWhitespace(TrimStart(s)[0])
  {
    if s != [] && IsWhitespace(s[0]) {
      TrimStartSpec(s[1..]);
      var r := TrimStart(s);
      assert s[..|s| - |r|] == [s[0]] + s[1..][..|s| - 1 - |r|];
    }
  }

  /** What `TrimEnd` leaves is a prefix, empty or ending with a non-whitespace
      character, and everything it removed is whitespace. */
  lemma {:induction false} TrimEndSpec(s: string)
    ensures |TrimEnd(s)| <= |s| && TrimEnd(s) == s[..|TrimEnd(s)|]
    ensures AllWhitespace(s[|TrimEnd(s)|..])
    ensures TrimEnd(s) == [] || !IsWhitespace(TrimEnd(s)[|TrimEnd(s)| - 1])
  {
    if s != [] && IsWhitespace(s[|s| - 1]) {
      var init := s[..|s| - 1];
      TrimEndSpec(init);
      var r := TrimEnd(s);
      assert s[|r|..] == init[|r|..] + [s[|s| - 1]];
    }
  }

  /** `s.trim()` is the infix of `s` left after removing whitespace on both
      sides: it neither starts nor ends with whitespace, and what was removed
      on either side is whitespace only. */
  lemma TrimSpec(s: string)
    ensures var r, a := Trim(s), |s| - |TrimStart(s)|;
            && 0 <= a && a + |r| <= |s|
            && r == s[a..a + |r|]
            && AllWhitespace(s[..a]) && AllWhitespace(s[a + |r|..])
            && (r == [] || (!IsWhitespace(r[0]) && !IsWhitespace(r[|r| - 1])))
  {
    var t := TrimStart(s);
    TrimStartSpec(s);
    TrimEndSpec(t);
    var r, a := Trim(s), |s| - |t|;
    assert r == t[..|r|];
    assert s[a + |r|..] == t[|r|..];
  }

  /** Trimming gives the empty string exactly when the input is all whitespace. */
  lemma TrimEmptyIff(s: string)
    ensures Trim(s) == [] <==> AllWhitespace(s)
  {
    var t := TrimStart(s);
    TrimStartSpec(s);
    TrimEndSpec(t);
    if Trim(s) == [] {
      assert AllWhitespace(t[0..]);
      assert s == s[..|s| - |t|] + t;
    } else {
      var r := Trim(s);
      assert r[0] == t[0] == s[|s| - |t|];
    }
  }

  /** Trimming twice is trimming once. */
  lemma TrimIdempotent(s: string)
    ensures Trim(Trim(s)) == Trim(s)
  {
    var r := Trim(s);
    TrimSpec(s);
    assert TrimStart(r) == r;
    assert TrimEnd(r) == r;
  }

  // ---------------------------------------------------------------------------
  // includes and indexOf
  // ---------------------------------------------------------------------------

  /** `sep` occurs in `s` starting at index `j`. */
  predicate OccursAt(s: string, sep: string, j: int) {
    0 <= j && j + |sep| <= |s| && s[j..j + |sep|] == sep
  }

  /** `s.includes(sep)`: some occurrence exists (the first is where `IndexOf` stops). */
  predicate Contains(s: string, sep: string)
    requires sep != []
  {
    IndexOf(s, sep).Some?
  }

  /** `s.indexOf(sep)`: where the first occurrence of `sep` starts, if any. */
  function IndexOf(s: string, sep: string): (r: Option<nat>)
    requires sep != []
    ensures r.Some? ==> r.value + |sep| <= |s|
    decreases |s|
  {
    if |s| < |sep| then None
    else if s[..|sep|] == sep then Some(0)
    else
      match IndexOf(s[1..], sep)
      case None => None
      case Some(i) => Some(i + 1)
  }

  /** `IndexOf` finds an occurrence, and no occurrence lies before it; when it
      finds none, there is none. */
  lemma {:induction false} IndexOfSpec(s: string, sep: string)
    requires sep != []
    ensures IndexOf(s, sep).Some? ==> OccursAt(s, sep, IndexOf(s, sep).value)
    ensures IndexOf(s, sep).Some? ==> forall j :: 0 <= j < IndexOf(s, sep).value ==> !OccursAt(s, sep, j)
    ensures IndexOf(s, sep).None? ==> forall j :: !OccursAt(s, sep, j)
    decreases |s|
  {
    if |s| >= |sep| && s[..|sep|] != sep {
      var rest := s[1..];
      IndexOfSpec(rest, sep);
      forall j | 1 <= j ensures OccursAt(s, sep, j) == OccursAt(rest, sep, j - 1) {
        if j + |sep| <= |s| {
          SliceShift(s, j, |sep|);
        }
      }
    }
  }

  /** A slice of `s` starting at `j >= 1` is the slice of `s[1..]` one position earlier. */
  lemma SliceShift(s: string, j: nat, n: nat)
    requires 1 <= j && j + n <= |s|
    ensures s[j..j + n] == s[1..][j - 1..j - 1 + n]
  {
    var a, b := s[j..j + n], s[1..][j - 1..j - 1 + n];
    forall t | 0 <= t < n ensures a[t] == b[t] {
      assert a[t] == s[j + t];
    }
  }

  // ---------------------------------------------------------------------------
  // split
  // ---------------------------------------------------------------------------

  /** `parts.join(sep)`. */
  function Join(parts: seq<string>, sep: string): string {
    if parts == [] then ""
    else if |parts| == 1 then parts[0]
    else parts[0] + sep + Join(parts[1..], sep)
  }

  /** `s.split(sep)` for a non-empty separator: cut at every occurrence, scanning
      left to right without overlap, each piece ending where the next occurrence
      begins. There is always at least one piece, and there are two or more
      exactly when `s` contains the separator. */
  function Split(s: string, sep: string): (parts: seq<string>)
    requires sep != []
    ensures |parts| >= 1
    ensures Contains(s, sep) <==> |parts| >= 2
    decreases |s|
  {
    match IndexOf(s, sep)
    case None => [s]
    case Some(i) => [s[..i]] + Split(s[i + |sep|..], sep)
  }

  /** No piece of a split contains the separator. */
  lemma {:induction false} SplitPieces(s: string, sep: string)
    requires sep != []
    ensures forall k :: 0 <= k < |Split(s, sep)| ==> !Contains(Split(s, sep)[k], sep)
    decreases |s|
  {
    match IndexOf(s, sep)
    case None =>
    case Some(i) =>
      var head := s[..i];
      IndexOfSpec(s, sep);
      assert !Contains(head, sep) by {
        IndexOfSpec(head, sep);
        forall j | 0 <= j <= |head| - |sep| ensures !OccursAt(head, sep, j) {
          assert head[j..j + |sep|] == s[j..j + |sep|];
          assert !OccursAt(s, sep, j);
        }
      }
      SplitPieces(s[i + |sep|..], sep);
  }

  /** Joining the pieces of a split with the same separator gives back the string. */
  lemma {:induction false} SplitJoin(s: string, sep: string)
    requires sep != []
    ensures Join(Split(s, sep), sep) == s
    decreases |s|
  {
    match IndexOf(s, sep)
    case None =>
    case Some(i) =>
      var rest := s[i + |sep|..];
      IndexOfSpec(s, sep);
      SplitJoin(rest, sep);
      assert s == s[..i] + s[i..i + |sep|] + rest;
  }

  /** When the first character of `sep` does not occur in `x`, the first
      occurrence of `sep` in `x + rest`, where `rest` is empty or starts with
      `sep`, is right after `x`. */
  lemma {:induction false} IndexOfAfter(x: string, sep: string, rest: string)
    requires sep != [] && sep[0] !in x
    requires rest == [] || (|rest| >= |sep| && rest[..|sep|] == sep)
    ensures IndexOf(x + rest, sep) == if rest == [] then None else Some(|x|)
  {
    var s := x + rest;
    if x == [] {
      assert s == rest;
    } else {
      assert s[0] == x[0];
      assert |s| >= |sep| ==> s[..|sep|][0] == s[0];
      assert s[1..] == x[1..] + rest;
      IndexOfAfter(x[1..], sep, rest);
    }
  }

  /** Under the same conditions, splitting `x + rest` yields `x` as the first
      piece, followed by the pieces of what comes after that separator. */
  lemma SplitAfterFirst(x: string, sep: string, rest: string)
    requires sep != [] && sep[0] !in x
    requires rest == [] || (|rest| >= |sep| && rest[..|sep|] == sep)
    ensures Split(x + rest, sep)[0] == x
    ensures rest != [] ==> Split(x + rest, sep)[1..] == Split(rest[|sep|..], sep)
  {
    IndexOfAfter(x, sep, rest);
    var s := x + rest;
    assert s[..|x|] == x;
    assert rest != [] ==> s[|x| + |sep|..] == rest[|sep|..];
  }

  /** Splitting `x + sep + y + rest`, where neither `x` nor `y` holds the first
      character of `sep`, yields `x` and `y` as its first two pieces. */
  lemma SplitFirstTwo(x: string, y: string, sep: string, rest: string)
    requires sep != [] && sep[0] !in x && sep[0] !in y
    requires rest == [] || (|rest| >= |sep| && rest[..|sep|] == sep)
    ensures Contains(x + sep + y + rest, sep)
    ensures var parts := Split(x + sep + y + rest, sep);
            |parts| >= 2 && parts[0] == x && parts[1] == y
  {
    var after := sep + y + rest;
    assert x + sep + y + rest == x + after;
    assert after[..|sep|] == sep;
    assert after[|sep|..] == y + rest;
    IndexOfAfter(x, sep, after);
    SplitAfterFirst(x, sep, after);
    SplitAfterFirst(y, sep, rest);
    var tailParts := Split(y + rest, sep);
    assert Split(x + after, sep)[1] == tailParts[0];
  }

  /** Number of occurrences of the character `c` in `s`. */
  function Count(s: string, c: char): nat {
    if s == [] then 0 else (if s[0] == c then 1 else 0) + Count(s[1..], c)
  }

  lemma {:induction false} CountAppend(a: string, b: string, c: char)
    ensures Count(a + b, c) == Count(a, c) + Count(b, c)
  {
    if a == [] {
      assert a + b == b;
    } else {
      assert (a + b)[1..] == a[1..] + b;
      CountAppend(a[1..], b, c);
    }
  }

  lemma {:induction false} CountAbsent(s: string, c: char)
    requires !Contains(s, [c])
    ensures Count(s, c) == 0
  {
    if s != [] {
      assert s[..1] != [c];
      CountAbsent(s[1..], c);
    }
  }

  /** Splitting on a one-character separator gives one piece more than the
      number of times that character occurs. */
  lemma {:induction false} SplitCount(s: string, c: char)
    ensures |Split(s, [c])| == Count(s, c) + 1
    decreases |s|
  {
    var sep := [c];
    match IndexOf(s, sep)
    case None =>
      CountAbsent(s, c);
    case Some(i) =>
      var rest := s[i + 1..];
      assert s == s[..i] + [c] + rest by {
        IndexOfSpec(s, sep);
        assert s[i..i + 1] == sep;
      }
      CountAbsent(s[..i], c) by {
        SplitPieces(s, sep);
        assert Split(s, sep)[0] == s[..i];
      }
      CountAppend(s[..i] + [c], rest, c);
      CountAppend(s[..i], [c], c);
      SplitCount(rest, c);
  }

  // ---------------------------------------------------------------------------
  // Decimal numbers
  // ---------------------------------------------------------------------------

  function DigitValue(c: char): nat
    requires IsAsciiDigit(c)
  {
    c as int - '0' as int
  }

  function DigitChar(d: nat): (c: char)
    requires d < 10
    ensures IsAsciiDigit(c) && DigitValue(c) == d
  {
    ('0' as int + d) as char
  }

  /** `parseInt(s)` for a string made only of decimal digits (leading zeros allowed),
      read left to right. Numbers are unbounded: the loss of precision of JavaScript
      numbers above 2^53 is not modelled. */
  function ParseDecimal(s: string): nat
    requires AllDigits(s)
  {
    if s == [] then 0 else 10 * ParseDecimal(s[..|s| - 1]) + DigitValue(s[|s| - 1])
  }

  /** The decimal rendering of `n` (`${n}` in a template literal): non-empty, all
      digits, and no leading zero except for `0` itself. */
  function Decimal(n: nat): (r: string)
    ensures |r| >= 1 && AllDigits(r)
    ensures r[0] != '0' || r == "0"
  {
    if n < 10 then [DigitChar(n)] else Decimal(n / 10) + [DigitChar(n % 10)]
  }

  /** The decimal rendering of `n` reads back as `n`. */
  lemma {:induction false} DecimalReadsBack(n: nat)
    ensures ParseDecimal(Decimal(n)) == n
  {
    if n >= 10 {
      var r := Decimal(n);
      assert r[..|r| - 1] == Decimal(n / 10);
      DecimalReadsBack(n / 10);
    }
  }

  /** The number of decimal digits grows only at the powers of ten 10 and 100
      (the thresholds the zero padding tests). */
  lemma DecimalLength(n: nat)
    ensures |Decimal(n)| == 1 <==> n < 10
    ensures |Decimal(n)| <= 2 <==> n < 100
  {
    if n >= 10 {
      assert |Decimal(n)| == |Decimal(n / 10)| + 1;
      if n >= 100 {
        assert |Decimal(n / 10)| == |Decimal(n / 100)| + 1;
      }
    }
  }

  /** `k` zero characters. */
  function Zeros(k: nat): (r: string)
    ensures |r| == k && AllDigits(r)
  {
    if k == 0 then "" else Zeros(k - 1) + "0"
  }

  /** Leading zeros do not change the value `parseInt` reads. */
  lemma {:induction false} ParseDecimalLeadingZeros(k: nat, s: string)
    requires AllDigits(s)
    ensures AllDigits(Zeros(k) + s)
    ensures ParseDecimal(Zeros(k) + s) == ParseDecimal(s)
    decreases |s|, k
  {
    var z := Zeros(k) + s;
    assert AllDigits(z) by {
      forall i | 0 <= i < |z| ensures IsAsciiDigit(z[i]) {
        if i < k { assert z[i] == Zeros(k)[i]; } else { assert z[i] == s[i - k]; }
      }
    }
    if s == [] {
      assert z == Zeros(k);
      if k > 0 {
        assert z[..|z| - 1] == Zeros(k - 1) + [];
        ParseDecimalLeadingZeros(k - 1, []);
      }
    } else {
      var init := s[..|s| - 1];
      assert z[..|z| - 1] == Zeros(k) + init;
      assert z[|z| - 1] == s[|s| - 1];
      ParseDecimalLeadingZeros(k, init);
    }
  }
}
