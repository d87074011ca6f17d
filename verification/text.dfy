/** Java string operations the checker relies on, over Dafny strings (sequences
    of Unicode scalar values): character classes of `java.util.regex`,
    `String.strip`, `String.split("\\n")`, `String.join`, `indexOf`,
    `lastIndexOf`, `Integer.parseInt` on plain numerals, `%d` and `%-Ns`. */
module Text {
  import opened Wrappers

  // ---------------------------------------------------------------------------
  // Characters
  // ---------------------------------------------------------------------------

  /** Regex `\s` without UNICODE_CHARACTER_CLASS: space, tab, newline, vertical
      tab, form feed and carriage return. */
  predicate IsSpace(c: char) {
    c == ' ' || c == '\t' || c == '\n' || c == '\U{0B}' || c == '\U{0C}' || c == '\r'
  }

  /** `Character.isWhitespace`, the test `String.strip` applies at both ends:
      the `\s` characters, the four information separators, and the Unicode
      space, line and paragraph separators other than the non-breaking ones. */
  predicate IsWhitespace(c: char) {
    || IsSpace(c)
    || ('\U{1C}' <= c <= '\U{1F}')
    || c == '\U{1680}'
    || ('\U{2000}' <= c <= '\U{2006}')
    || ('\U{2008}' <= c <= '\U{200A}')
    || c == '\U{2028}' || c == '\U{2029}' || c == '\U{205F}' || c == '\U{3000}'
  }

  /** The characters regex `.` does not match (no DOTALL, no UNIX_LINES). */
  predicate IsLineTerminator(c: char) {
    c == '\n' || c == '\r' || c == '\U{85}' || c == '\U{2028}' || c == '\U{2029}'
  }

  /** Regex `\d` and the digits `Integer.parseInt` is modelled to accept. */
  predicate IsDigit(c: char) {
    '0' <= c <= '9'
  }

  /** Regex `\w`: ASCII letters, digits and underscore. */
  predicate IsWordChar(c: char) {
    ('a' <= c <= 'z') || ('A' <= c <= 'Z') || IsDigit(c) || c == '_'
  }

  /** ASCII lower case: the only folding CASE_INSENSITIVE does without UNICODE_CASE. */
  function Lower(c: char): (d: char)
    ensures 'A' <= c <= 'Z' ==> 'a' <= d <= 'z'
    ensures !('A' <= c <= 'Z') ==> d == c
  {
    if 'A' <= c <= 'Z' then (c as int + 32) as char else c
  }

  /** How the regex engine compares a character, with or without CASE_INSENSITIVE. */
  function Fold(c: char, ignoreCase: bool): char {
    if ignoreCase then Lower(c) else c
  }

  // ---------------------------------------------------------------------------
  // Searching
  // ---------------------------------------------------------------------------

  /** `pat` occurs in `text` at position `i`, characters compared as the
      regex engine (or `String.indexOf` when case matters) compares them. */
  predicate OccursAt(text: string, pat: string, i: int, ignoreCase: bool) {
    && 0 <= i
    && i + |pat| <= |text|
    && forall k :: 0 <= k < |pat| ==> Fold(text[i + k], ignoreCase) == Fold(pat[k], ignoreCase)
  }

  /** Position of the leftmost occurrence of `pat` in `text` at or after
      `from`: how `Matcher.find()` and `String.indexOf` scan. */
  function IndexFrom(text: string, pat: string, ignoreCase: bool, from: nat): (r: Option<nat>)
    ensures r.Some? ==> from <= r.value && OccursAt(text, pat, r.value, ignoreCase)
    ensures r.Some? ==> forall j :: from <= j < r.value ==> !OccursAt(text, pat, j, ignoreCase)
    ensures r.None? ==> forall j :: from <= j ==> !OccursAt(text, pat, j, ignoreCase)
    decreases |text| - from
  {
    if from + |pat| > |text| then None
    else if OccursAt(text, pat, from, ignoreCase) then Some(from)
    else IndexFrom(text, pat, ignoreCase, from + 1)
  }

  /** Position of the leftmost occurrence of `pat` in `text`. */
  function IndexOf(text: string, pat: string, ignoreCase: bool): (r: Option<nat>)
    ensures r.Some? ==> OccursAt(text, pat, r.value, ignoreCase)
    ensures r.Some? ==> forall j :: 0 <= j < r.value ==> !OccursAt(text, pat, j, ignoreCase)
    ensures r.None? ==> forall j :: !OccursAt(text, pat, j, ignoreCase)
  {
    IndexFrom(text, pat, ignoreCase, 0)
  }

  /** Position of the rightmost occurrence of `pat` in `text` at or before `upTo`. */
  function LastIndexUpTo(text: string, pat: string, upTo: int): (r: Option<nat>)
    ensures r.Some? ==> r.value <= upTo && OccursAt(text, pat, r.value, false)
    ensures r.Some? ==> forall j :: r.value < j <= upTo ==> !OccursAt(text, pat, j, false)
    ensures r.None? ==> forall j :: j <= upTo ==> !OccursAt(text, pat, j, false)
    decreases upTo + 1
  {
    if upTo < 0 then None
    else if OccursAt(text, pat, upTo, false) then Some(upTo as nat)
    else LastIndexUpTo(text, pat, upTo - 1)
  }

  /** Position of the rightmost occurrence of `pat` in `text` (`lastIndexOf`). */
  function LastIndexOf(text: string, pat: string): (r: Option<nat>)
    ensures r.Some? ==> OccursAt(text, pat, r.value, false)
    ensures r.Some? ==> forall j :: r.value < j ==> !OccursAt(text, pat, j, false)
    ensures r.None? ==> forall j :: !OccursAt(text, pat, j, false)
  {
    LastIndexUpTo(text, pat, |text| - |pat|)
  }

  /** An occurrence with none after it is the one `lastIndexOf` finds. */
  lemma LastIndexOfIs(text: string, pat: string, i: nat)
    requires OccursAt(text, pat, i, false)
    requires forall j :: i < j ==> !OccursAt(text, pat, j, false)
    ensures LastIndexOf(text, pat) == Some(i)
  {
  }

  predicate Contains(text: string, pat: string, ignoreCase: bool) {
    IndexOf(text, pat, ignoreCase).Some?
  }

  /** A pattern occurs where it is placed. */
  lemma OccursInside(a: string, pat: string, b: string, ignoreCase: bool)
    ensures OccursAt(a + pat + b, pat, |a|, ignoreCase)
  {
    var t := a + pat + b;
    assert forall k :: 0 <= k < |pat| ==> t[|a| + k] == pat[k];
  }

  /** An occurrence anywhere makes the text contain the pattern. */
  lemma OccursContains(text: string, pat: string, i: nat, ignoreCase: bool)
    requires OccursAt(text, pat, i, ignoreCase)
    ensures Contains(text, pat, ignoreCase)
  {
  }

  /** Occurrence as a plain substring is `OccursAt` without case folding. */
  lemma OccursAtSlice(text: string, pat: string, i: nat)
    requires i + |pat| <= |text|
    ensures OccursAt(text, pat, i, false) <==> text[i..i + |pat|] == pat
  {
    if OccursAt(text, pat, i, false) {
      assert forall k :: 0 <= k < |pat| ==> text[i..i + |pat|][k] == pat[k];
    }
  }

  // ---------------------------------------------------------------------------
  // String.strip
  // ---------------------------------------------------------------------------

  /** Number of leading whitespace characters. */
  function LeadingWhitespace(s: string): (n: nat)
    ensures n <= |s|
    ensures forall k :: 0 <= k < n ==> IsWhitespace(s[k])
    ensures n < |s| ==> !IsWhitespace(s[n])
  {
    if |s| > 0 && IsWhitespace(s[0]) then 1 + LeadingWhitespace(s[1..]) else 0
  }

  /** Number of trailing whitespace characters. */
  function TrailingWhitespace(s: string): (n: nat)
    ensures n <= |s|
    ensures forall k :: |s| - n <= k < |s| ==> IsWhitespace(s[k])
    ensures n < |s| ==> !IsWhitespace(s[|s| - 1 - n])
  {
    if |s| > 0 && IsWhitespace(s[|s| - 1]) then 1 + TrailingWhitespace(s[..|s| - 1]) else 0
  }

  /** `String.strip`: the text between leading and trailing whitespace. */
  function Strip(s: string): (r: string)
    ensures LeadingWhitespace(s) + |r| <= |s|
    ensures r == s[LeadingWhitespace(s)..LeadingWhitespace(s) + |r|]
    ensures r != [] ==> !IsWhitespace(r[0]) && !IsWhitespace(r[|r| - 1])
    ensures r == [] <==> forall k :: 0 <= k < |s| ==> IsWhitespace(s[k])
    ensures s == [] || (!IsWhitespace(s[0]) && !IsWhitespace(s[|s| - 1])) ==> r == s
  {
    var i := LeadingWhitespace(s);
    var rest := s[i..];
    var r := rest[..|rest| - TrailingWhitespace(rest)];
    assert r != [] ==> r[0] == s[i];
    r
  }

  /** Stripping a text with non-blank ends, preceded only by whitespace, gives that text. */
  lemma StripAround(a: string, b: string)
    requires forall k :: 0 <= k < |a| ==> IsWhitespace(a[k])
    requires |b| > 0 && !IsWhitespace(b[0]) && !IsWhitespace(b[|b| - 1])
    ensures Strip(a + b) == b
  {
    var s := a + b;
    assert s[|a|] == b[0];
    assert LeadingWhitespace(s) == |a|;
    assert s[|a|..] == b;
  }

  /** Stripping `t[i..e]`, whose characters before `j` are whitespace and whose
      characters at `j` and `e - 1` are not, leaves `t[j..e]`. */
  lemma StripSlice(t: string, i: nat, j: nat, e: nat)
    requires i <= j < e <= |t|
    requires forall k :: i <= k < j ==> IsWhitespace(t[k])
    requires !IsWhitespace(t[j]) && !IsWhitespace(t[e - 1])
    ensures Strip(t[i..e]) == t[j..e]
  {
    var blanks, rest := t[i..j], t[j..e];
    assert forall k :: 0 <= k < |blanks| ==> blanks[k] == t[i + k];
    assert rest[0] == t[j] && rest[|rest| - 1] == t[e - 1];
    assert t[i..e] == blanks + rest;
    StripAround(blanks, rest);
  }

  // ---------------------------------------------------------------------------
  // String.split("\\n") and String.join("\n", ...)
  // ---------------------------------------------------------------------------

  /** The pieces of `s` between its newline characters, empty ones included. */
  function Pieces(s: string): (r: seq<string>)
    ensures |r| >= 1
    ensures forall k :: 0 <= k < |r| ==> '\n' !in r[k]
  {
    if |s| == 0 then [""]
    else
      var rest := Pieces(s[1..]);
      if s[0] == '\n' then [""] + rest else [[s[0]] + rest[0]] + rest[1..]
  }

  /** `String.join(sep, parts)`. */
  function Join(parts: seq<string>, sep: string): string {
    if |parts| == 0 then ""
    else if |parts| == 1 then parts[0]
    else parts[0] + sep + Join(parts[1..], sep)
  }

  /** The sequence without its trailing empty strings. */
  function DropTrailingEmpty(xs: seq<string>): (r: seq<string>)
    ensures r <= xs
    ensures r == [] || r[|r| - 1] != ""
    ensures forall k :: |r| <= k < |xs| ==> xs[k] == ""
  {
    if |xs| > 0 && xs[|xs| - 1] == "" then DropTrailingEmpty(xs[..|xs| - 1]) else xs
  }

  /** `s.split("\\n")`: with no newline the result is `[s]` (so `""` gives
      `[""]`); otherwise the pieces between newlines with trailing empty
      pieces removed (so `"\n"` gives no lines at all). */
  function Split(s: string): (r: seq<string>)
    ensures forall k :: 0 <= k < |r| ==> '\n' !in r[k]
  {
    if '\n' in s then DropTrailingEmpty(Pieces(s)) else [s]
  }

  /** A string with no newline is a single piece. */
  lemma {:induction false} PiecesOfLine(x: string)
    requires '\n' !in x
    ensures Pieces(x) == [x]
  {
    if |x| > 0 {
      PiecesOfLine(x[1..]);
      assert [x[0]] + x[1..] == x;
    }
  }

  /** A line followed by a newline contributes exactly one piece. */
  lemma {:induction false} PiecesOfLineThen(x: string, y: string)
    requires '\n' !in x
    ensures Pieces(x + "\n" + y) == [x] + Pieces(y)
  {
    if |x| == 0 {
      assert x + "\n" + y == "\n" + y;
      assert ("\n" + y)[1..] == y;
    } else {
      assert (x + "\n" + y)[1..] == x[1..] + "\n" + y;
      PiecesOfLineThen(x[1..], y);
      assert [x[0]] + x[1..] == x;
    }
  }

  /** Joining the pieces of a string with newlines gives the string back. */
  lemma {:induction false} JoinPieces(s: string)
    ensures Join(Pieces(s), "\n") == s
  {
    if |s| > 0 {
      var rest := Pieces(s[1..]);
      JoinPieces(s[1..]);
      if s[0] == '\n' {
        assert Pieces(s) == [""] + rest;
        assert ([""] + rest)[1..] == rest;
      } else {
        var p := [[s[0]] + rest[0]] + rest[1..];
        assert Pieces(s) == p;
        if |rest| == 1 {
          assert Join(p, "\n") == [s[0]] + rest[0];
        } else {
          assert p[1..] == rest[1..];
          assert Join(p, "\n") == [s[0]] + rest[0] + "\n" + Join(rest[1..], "\n");
        }
        assert [s[0]] + s[1..] == s;
      }
    }
  }

  /** Splitting newline-free lines joined with newlines gives the lines back. */
  lemma {:induction false} PiecesOfJoin(xs: seq<string>)
    requires |xs| >= 1
    requires forall k :: 0 <= k < |xs| ==> '\n' !in xs[k]
    ensures Pieces(Join(xs, "\n")) == xs
  {
    if |xs| == 1 {
      PiecesOfLine(xs[0]);
    } else {
      PiecesOfJoin(xs[1..]);
      PiecesOfLineThen(xs[0], Join(xs[1..], "\n"));
      assert [xs[0]] + xs[1..] == xs;
    }
  }

  /** Appending one part to a non-empty join adds a separator and the part. */
  lemma {:induction false} JoinSnoc(xs: seq<string>, y: string, sep: string)
    requires |xs| >= 1
    ensures Join(xs + [y], sep) == Join(xs, sep) + sep + y
  {
    if |xs| > 1 {
      assert (xs + [y])[1..] == xs[1..] + [y];
      JoinSnoc(xs[1..], y, sep);
    }
  }

  /** A join holding a non-empty part is not empty. */
  lemma {:induction false} JoinHasPart(parts: seq<string>, sep: string, x: string)
    requires x in parts && x != ""
    ensures Join(parts, sep) != ""
  {
    if |parts| > 1 && parts[0] != x {
      JoinHasPart(parts[1..], sep, x);
    }
  }

  /** Lines joined with newlines and terminated by one split back into the
      same lines, without trailing empty ones. */
  lemma {:induction false} SplitJoinedLines(xs: seq<string>)
    requires forall k :: 0 <= k < |xs| ==> '\n' !in xs[k]
    ensures Split(Join(xs, "\n") + "\n") == DropTrailingEmpty(xs)
  {
    var s := Join(xs, "\n") + "\n";
    assert s[|s| - 1] == '\n';
    if |xs| == 0 {
      assert s == "\n";
      PiecesOfLineThen("", "");
      assert Pieces(s) == ["", ""];
    } else {
      JoinSnoc(xs, "", "\n");
      assert Join(xs + [""], "\n") == s;
      PiecesOfJoin(xs + [""]);
      var ps := xs + [""];
      assert Pieces(s) == ps;
      assert ps[..|ps| - 1] == xs;
      assert DropTrailingEmpty(ps) == DropTrailingEmpty(xs);
    }
  }

  // ---------------------------------------------------------------------------
  // Numerals: Integer.parseInt and %d
  // ---------------------------------------------------------------------------

  /** A non-empty run of ASCII digits: regex `\d+`, and the lines
      `Integer.parseInt` is modelled to accept. */
  predicate IsNumeral(s: string) {
    |s| > 0 && forall k :: 0 <= k < |s| ==> IsDigit(s[k])
  }

  function DigitValue(c: char): nat
    requires IsDigit(c)
  {
    c as int - '0' as int
  }

  /** The decimal value of a run of digits (leading zeros allowed). */
  function NumeralValue(s: string): nat
    requires forall k :: 0 <= k < |s| ==> IsDigit(s[k])
  {
    if |s| == 0 then 0 else 10 * NumeralValue(s[..|s| - 1]) + DigitValue(s[|s| - 1])
  }

  function DigitChar(d: nat): (c: char)
    requires d < 10
    ensures IsDigit(c) && DigitValue(c) == d
  {
    ('0' as int + d) as char
  }

  /** `String.format("%d", n)` for a non-negative `n`. */
  function Decimal(n: nat): (s: string)
    ensures IsNumeral(s)
  {
    if n < 10 then [DigitChar(n)] else Decimal(n / 10) + [DigitChar(n % 10)]
  }

  /** Parsing what `%d` prints gives the number back. */
  lemma {:induction false} DecimalRoundTrip(n: nat)
    ensures NumeralValue(Decimal(n)) == n
  {
    if n >= 10 {
      DecimalRoundTrip(n / 10);
      var s := Decimal(n);
      assert s[..|s| - 1] == Decimal(n / 10);
    }
  }

  // ---------------------------------------------------------------------------
  // Formatting
  // ---------------------------------------------------------------------------

  function Spaces(n: nat): (s: string)
    ensures |s| == n && forall k :: 0 <= k < n ==> s[k] == ' '
  {
    seq(n, _ => ' ')
  }

  /** `String.format("%-<width>s", s)`: `s` left-justified, padded with spaces
      to `width` characters and never truncated. */
  function PadRight(s: string, width: nat): (r: string)
    ensures |r| == if |s| < width then width else |s|
    ensures s <= r
    ensures forall k :: |s| <= k < |r| ==> r[k] == ' '
  {
    if |s| < width then s + Spaces(width - |s|) else s
  }

  /** `s.replaceAll("\\n", "\\\\n")`: every newline becomes a backslash and an `n`. */
  function EscapeNewlines(s: string): (r: string)
    ensures '\n' !in r
    ensures '\n' !in s ==> r == s
    ensures |r| >= |s|
    ensures |s| == 1 ==> r == if s[0] == '\n' then "\\n" else s
  {
    if |s| == 0 then ""
    else (if s[0] == '\n' then "\\n" else [s[0]]) + EscapeNewlines(s[1..])
  }

  /** Escaping works character by character: the escape of two texts put
      together is their escapes put together. */
  lemma {:induction false} EscapeNewlinesAppend(a: string, b: string)
    ensures EscapeNewlines(a + b) == EscapeNewlines(a) + EscapeNewlines(b)
  {
    if |a| > 0 {
      var head := if a[0] == '\n' then "\\n" else [a[0]];
      assert (a + b)[0] == a[0];
      assert (a + b)[1..] == a[1..] + b;
      EscapeNewlinesAppend(a[1..], b);
      assert EscapeNewlines(a + b) == head + (EscapeNewlines(a[1..]) + EscapeNewlines(b));
      assert EscapeNewlines(a) == head + EscapeNewlines(a[1..]);
    } else {
      assert a + b == b;
    }
  }
}
