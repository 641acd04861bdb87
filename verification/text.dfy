/** String primitives of the JavaScript runtime that the page script relies on:
    `String.prototype.trim`, the `\s` character class, `length` (counted in
    UTF-16 code units), `String(n)` for a natural number, `padStart` and
    `Array.prototype.join`. Strings are sequences of Unicode code points. */
module Text {

  /** The ECMAScript WhiteSpace and LineTerminator code points. `trim`
      removes exactly these, and the regular-expression class `\s` matches
      exactly these. */
  const Whitespace: set<char> := {
    '\t', '\n', '\U{000B}', '\U{000C}', '\r', ' ', '\U{00A0}', '\U{1680}',
    '\U{2000}', '\U{2001}', '\U{2002}', '\U{2003}', '\U{2004}', '\U{2005}',
    '\U{2006}', '\U{2007}', '\U{2008}', '\U{2009}', '\U{200A}',
    '\U{2028}', '\U{2029}', '\U{202F}', '\U{205F}', '\U{3000}', '\U{FEFF}'
  }

  predicate IsWhitespace(c: char) {
    c in Whitespace
  }

  /** `s[lo..hi]` is the trimmed form of `s`: everything before `lo` and
      from `hi` on is whitespace, and a non-empty core neither starts nor
      ends with whitespace. */
  ghost predicate TrimmedBy(s: string, lo: int, hi: int) {
    && 0 <= lo <= hi <= |s|
    && (forall k | 0 <= k < lo :: IsWhitespace(s[k]))
    && (forall k | hi <= k < |s| :: IsWhitespace(s[k]))
    && (lo < hi ==> !IsWhitespace(s[lo]) && !IsWhitespace(s[hi - 1]))
  }

  /** The first index at or after `i` that does not hold whitespace, or `|s|`. */
  function SkipLeading(s: string, i: nat): (r: nat)
    requires i <= |s|
    ensures i <= r <= |s|
    ensures forall k | i <= k < r :: IsWhitespace(s[k])
    ensures r < |s| ==> !IsWhitespace(s[r])
    decreases |s| - i
  {
    if i < |s| && IsWhitespace(s[i]) then SkipLeading(s, i + 1) else i
  }

  /** The least index `r >= lo` with only whitespace in `s[r..j]`. */
  function SkipTrailing(s: string, lo: nat, j: nat): (r: nat)
    requires lo <= j <= |s|
    ensures lo <= r <= j
    ensures forall k | r <= k < j :: IsWhitespace(s[k])
    ensures r > lo ==> !IsWhitespace(s[r - 1])
    decreases j - lo
  {
    if j > lo && IsWhitespace(s[j - 1]) then SkipTrailing(s, lo, j - 1) else j
  }

  /** `String.prototype.trim`: the core of `s` between its leading and its
      trailing whitespace. */
  function Trim(s: string): (r: string)
    ensures exists lo, hi | TrimmedBy(s, lo, hi) :: r == s[lo..hi]
  {
    var lo := SkipLeading(s, 0);
    var hi := SkipTrailing(s, lo, |s|);
    assert TrimmedBy(s, lo, hi);
    s[lo..hi]
  }

  /** The trimmed form is unique: any decomposition of `s` into whitespace,
      a core with no whitespace at either end and whitespace yields the
      same core as `Trim`. */
  lemma TrimUnique(s: string, lo: int, hi: int)
    requires TrimmedBy(s, lo, hi)
    ensures Trim(s) == s[lo..hi]
  {
    var lo' := SkipLeading(s, 0);
    var hi' := SkipTrailing(s, lo', |s|);
    assert TrimmedBy(s, lo', hi');
    TrimmedByUnique(s, lo, hi, lo', hi');
  }

  lemma TrimmedByUnique(s: string, lo: int, hi: int, lo': int, hi': int)
    requires TrimmedBy(s, lo, hi) && TrimmedBy(s, lo', hi')
    ensures s[lo..hi] == s[lo'..hi']
  {
    if lo < hi && lo' < hi' {
      if lo < lo' || lo' < lo || hi < hi' || hi' < hi {
        assert false;
      }
    } else if lo < hi || lo' < hi' {
      assert false;
    }
  }

  /** The bounds of the core `Trim` keeps. */
  lemma TrimBounds(s: string) returns (lo: int, hi: int)
    ensures TrimmedBy(s, lo, hi) && Trim(s) == s[lo..hi]
  {
    lo := SkipLeading(s, 0);
    hi := SkipTrailing(s, lo, |s|);
  }

  /** Trimming twice is trimming once. */
  lemma TrimIdempotent(s: string)
    ensures Trim(Trim(s)) == Trim(s)
  {
    var lo := SkipLeading(s, 0);
    var hi := SkipTrailing(s, lo, |s|);
    var t := s[lo..hi];
    assert Trim(s) == t;
    assert TrimmedBy(t, 0, |t|);
    TrimUnique(t, 0, |t|);
  }

  /** Length in UTF-16 code units, which is what JavaScript's `length`
      counts: a code point above U+FFFF is a surrogate pair and counts two. */
  function Utf16Length(s: string): (n: nat)
    ensures |s| <= n <= 2 * |s|
    ensures (forall i | 0 <= i < |s| :: s[i] <= '\U{FFFF}') ==> n == |s|
  {
    if s == [] then 0
    else (if s[0] <= '\U{FFFF}' then 1 else 2) + Utf16Length(s[1..])
  }

  predicate IsDigit(c: char) {
    '0' <= c <= '9'
  }

  predicate AllDigits(s: string) {
    forall i | 0 <= i < |s| :: IsDigit(s[i])
  }

  function DigitChar(d: nat): (c: char)
    requires d < 10
    ensures IsDigit(c) && DigitValue(c) == d
  {
    ('0' as int + d) as char
  }

  function DigitValue(c: char): nat
    requires IsDigit(c)
  {
    c as int - '0' as int
  }

  /** The number a string of decimal digits denotes. */
  function DigitsValue(s: string): nat
    requires AllDigits(s)
  {
    if s == [] then 0 else 10 * DigitsValue(s[..|s| - 1]) + DigitValue(s[|s| - 1])
  }

  /** `String(n)` for a natural number: its shortest decimal representation,
      so the leading digit is `0` only for zero itself. */
  function NatToString(n: nat): (r: string)
    ensures |r| >= 1 && AllDigits(r)
    ensures r[0] == '0' <==> n == 0
    ensures |r| == 1 <==> n < 10
  {
    if n < 10 then [DigitChar(n)]
    else NatToString(n / 10) + [DigitChar(n % 10)]
  }

  /** Reading back what `NatToString` writes gives the number back. */
  lemma {:induction false} NatToStringRoundTrip(n: nat)
    ensures DigitsValue(NatToString(n)) == n
  {
    if n >= 10 {
      var r := NatToString(n);
      assert r[..|r| - 1] == NatToString(n / 10);
      NatToStringRoundTrip(n / 10);
    }
  }

  /** Below ten the decimal form is the single digit. */
  lemma NatToStringOneDigit(n: nat)
    requires n < 10
    ensures NatToString(n) == [DigitChar(n)]
  {
  }

  /** From ten to ninety-nine the decimal form is the tens and the units digit. */
  lemma NatToStringTwoDigits(n: nat)
    requires 10 <= n < 100
    ensures NatToString(n) == [DigitChar(n / 10), DigitChar(n % 10)]
  {
    NatToStringOneDigit(n / 10);
  }

  /** Two digits denote ten times the first plus the second. */
  lemma TwoDigitsValue(a: nat, b: nat)
    requires a < 10 && b < 10
    ensures DigitsValue([DigitChar(a), DigitChar(b)]) == 10 * a + b
  {
    var p := [DigitChar(a), DigitChar(b)];
    var q := [DigitChar(a)];
    assert q[..0] == [];
    assert DigitsValue(q) == a;
    assert p[..1] == q;
  }

  /** `s.padStart(width, fill)` for a one-character `fill`: left-pads with
      `fill` up to `width`, leaving a string already that long unchanged.
      The width is counted in code points; JavaScript counts UTF-16 code
      units, which is the same count on the digit strings the page pads. */
  function PadStart(s: string, width: nat, fill: char): (r: string)
    ensures |r| == if |s| >= width then |s| else width
    ensures r[|r| - |s|..] == s
    ensures forall i | 0 <= i < |r| - |s| :: r[i] == fill
  {
    if |s| >= width then s else seq(width - |s|, _ => fill) + s
  }

  /** Total length of the parts, separators not included. */
  function PartsLength(parts: seq<string>): nat
  {
    if parts == [] then 0 else |parts[0]| + PartsLength(parts[1..])
  }

  /** `parts.join(sep)`: the parts in order with `sep` between neighbours
      only, so the length is the parts' total plus one separator per gap. */
  function Join(parts: seq<string>, sep: string): (r: string)
    ensures parts == [] ==> r == ""
    ensures parts != [] ==> |r| == PartsLength(parts) + (|parts| - 1) * |sep|
  {
    if |parts| == 0 then ""
    else if |parts| == 1 then parts[0]
    else parts[0] + sep + Join(parts[1..], sep)
  }

  /** The first part opens the joined text and the last part closes it. */
  lemma {:induction false} JoinEnds(parts: seq<string>, sep: string)
    requires parts != []
    ensures var r, last := Join(parts, sep), parts[|parts| - 1];
      && |parts[0]| <= |r| && r[..|parts[0]|] == parts[0]
      && |last| <= |r| && r[|r| - |last|..] == last
  {
    if |parts| >= 2 {
      JoinEnds(parts[1..], sep);
      var rest := Join(parts[1..], sep);
      var r := parts[0] + sep + rest;
      assert r[|r| - |rest|..] == rest;
      assert parts[1..][|parts| - 2] == parts[|parts| - 1];
    }
  }

  /** Joining a part in front of a non-empty list puts one separator
      between it and the rest. */
  lemma JoinFront(p: string, rest: seq<string>, sep: string)
    requires rest != []
    ensures Join([p] + rest, sep) == p + sep + Join(rest, sep)
  {
    assert ([p] + rest)[1..] == rest;
  }

  /** How many times `c` occurs in `s`. */
  function Occurrences(s: string, c: char): nat
  {
    multiset(s)[c]
  }

  /** Joining parts free of `c` with the one-character separator `[c]`
      leaves exactly one `c` between neighbouring parts. */
  lemma {:induction false} JoinSeparatorCount(parts: seq<string>, c: char)
    requires |parts| >= 1
    requires forall i | 0 <= i < |parts| :: c !in parts[i]
    ensures Occurrences(Join(parts, [c]), c) == |parts| - 1
  {
    if |parts| == 1 {
      assert c !in multiset(parts[0]);
    } else {
      JoinSeparatorCount(parts[1..], c);
      var rest := Join(parts[1..], [c]);
      assert multiset(parts[0] + [c] + rest) == multiset(parts[0]) + multiset([c]) + multiset(rest);
      assert c !in multiset(parts[0]);
    }
  }
}
