/** The regular expressions the checkers compile with MULTILINE and
    CASE_INSENSITIVE, each replaced by a hand-written matcher that follows
    `java.util.regex` semantics (greedy quantifiers with backtracking, ordered
    alternation, ASCII case folding), and `Matcher.find`, which reports the
    match that starts leftmost. */
module Patterns {
  import opened Wrappers
  import opened Text

  // ---------------------------------------------------------------------------
  // Character classes and runs
  // ---------------------------------------------------------------------------

  /** The character classes the patterns repeat: `\s`, `\d`, the roman digits
      `[IVX]` (case-insensitively), `\w`, and `.` (anything but a line terminator). */
  datatype CharClass = Space | Digit | Roman | Word | Dot

  predicate InClass(c: char, cls: CharClass) {
    match cls
    case Space => IsSpace(c)
    case Digit => IsDigit(c)
    case Roman => Lower(c) == 'i' || Lower(c) == 'v' || Lower(c) == 'x'
    case Word => IsWordChar(c)
    case Dot => !IsLineTerminator(c)
  }

  /** Length of the longest run of `cls` characters starting at `k`: what a
      greedy `*` consumes before it has to backtrack. */
  function Run(t: string, k: nat, cls: CharClass): (n: nat)
    requires k <= |t|
    ensures k + n <= |t|
    ensures forall m :: k <= m < k + n ==> InClass(t[m], cls)
    ensures k + n < |t| ==> !InClass(t[k + n], cls)
    decreases |t| - k
  {
    if k < |t| && InClass(t[k], cls) then 1 + Run(t, k + 1, cls) else 0
  }

  /** The blanks a `\s*` consumes are whitespace to `String.strip`. */
  lemma BlanksAreWhitespace(t: string, i: nat)
    requires i <= |t|
    ensures forall k :: i <= k < i + Run(t, i, Space) ==> IsWhitespace(t[k])
  {
    assert forall k :: i <= k < i + Run(t, i, Space) ==> InClass(t[k], Space);
  }

  /** A run is as long as the block of class characters it starts. */
  lemma {:induction false} RunCovers(t: string, k: nat, m: nat, cls: CharClass)
    requires k <= m <= |t|
    requires forall x :: k <= x < m ==> InClass(t[x], cls)
    ensures m <= k + Run(t, k, cls)
    decreases m - k
  {
    if k < m {
      assert InClass(t[k], cls);
      RunCovers(t, k + 1, m, cls);
    }
  }

  // ---------------------------------------------------------------------------
  // Anchors
  // ---------------------------------------------------------------------------

  /** MULTILINE `^`: the start of the text, or just after a newline that is
      not the last character. */
  predicate AtLineStart(t: string, i: nat)
    requires i <= |t|
  {
    i == 0 || (i < |t| && t[i - 1] == '\n')
  }

  /** MULTILINE `$`: the end of the text, or just before a newline. */
  predicate AtLineEnd(t: string, m: nat)
    requires m <= |t|
  {
    m == |t| || t[m] == '\n'
  }

  /** The last position in `lo..hi` where `$` holds: where a greedy blank run
      followed by `$` stops after backtracking. */
  function LastLineEnd(t: string, lo: nat, hi: int): (r: Option<nat>)
    requires hi <= |t|
    ensures r.Some? ==> lo <= r.value <= hi && AtLineEnd(t, r.value)
    ensures r.Some? ==> forall m :: r.value < m <= hi ==> !AtLineEnd(t, m)
    ensures r.None? ==> forall m :: lo <= m <= hi ==> !AtLineEnd(t, m)
    decreases hi - lo + 1
  {
    if hi < lo then None
    else if AtLineEnd(t, hi) then Some(hi)
    else LastLineEnd(t, lo, hi - 1)
  }

  /** Start of the line holding position `j`. */
  function LineBegin(t: string, j: nat): (b: nat)
    requires j <= |t|
    ensures b <= j && (b == 0 || t[b - 1] == '\n')
    ensures forall m :: b <= m < j ==> t[m] != '\n'
  {
    if j == 0 || t[j - 1] == '\n' then j else LineBegin(t, j - 1)
  }

  /** The first line end at or after `k`. */
  function NextLineEnd(t: string, k: nat): (m: nat)
    requires k <= |t|
    ensures k <= m <= |t| && AtLineEnd(t, m)
    ensures forall x :: k <= x < m ==> t[x] != '\n'
    decreases |t| - k
  {
    if AtLineEnd(t, k) then k else NextLineEnd(t, k + 1)
  }

  /** A character that folds to an ASCII letter is not blank. */
  lemma LetterNotBlank(c: char, d: char)
    requires ('a' <= d <= 'z' || 'A' <= d <= 'Z') && Lower(c) == Lower(d)
    ensures !IsWhitespace(c) && !IsLineTerminator(c)
  {
  }

  /** A word that begins and ends with a letter, found at `j`, begins and ends
      on characters that are not blank. */
  lemma WordEndsNotBlank(t: string, w: string, j: nat)
    requires |w| > 0 && OccursAt(t, w, j, true)
    requires IsLetter(w[0])
    requires IsLetter(w[|w| - 1]) || w[|w| - 1] == '.'
    ensures !IsWhitespace(t[j]) && !IsLineTerminator(t[j])
    ensures w[|w| - 1] != '.' ==> !IsWhitespace(t[j + |w| - 1])
  {
    assert Fold(t[j], true) == Fold(w[0], true);
    LetterNotBlank(t[j], w[0]);
    assert Fold(t[j + |w| - 1], true) == Fold(w[|w| - 1], true);
    if w[|w| - 1] != '.' {
      LetterNotBlank(t[j + |w| - 1], w[|w| - 1]);
    }
  }

  // ---------------------------------------------------------------------------
  // The references heading
  // ---------------------------------------------------------------------------

  const References := "REFERENCES"
  const SpacedReferences := "R E F E R E N C E S"
  const Publications := "PUBLICATIONS"

  /** The heading words in the order the regex tries them. */
  const HeadingWords: seq<string> := [References, SpacedReferences, Publications]

  /** Where the first of `words` that occurs at `j` ends. */
  function HeadingWordsEnd(t: string, j: nat, words: seq<string>): (r: Option<nat>)
    requires j <= |t|
    requires forall n :: 0 <= n < |words| ==> |words[n]| > 0 && IsLetter(words[n][0]) && IsLetter(words[n][|words[n]| - 1])
    ensures r.Some? ==> j < r.value <= |t| && !IsWhitespace(t[j])
  {
    if |words| == 0 then None
    else if OccursAt(t, words[0], j, true) then
      WordEndsNotBlank(t, words[0], j);
      Some(j + |words[0]|)
    else HeadingWordsEnd(t, j, words[1..])
  }

  /** Where one of the three heading words, tried in order, ends when it
      starts at `j`. */
  function HeadingWordEnd(t: string, j: nat): (r: Option<nat>)
    requires j <= |t|
    ensures r.Some? ==> j < r.value <= |t| && !IsWhitespace(t[j])
  {
    HeadingWordsEnd(t, j, HeadingWords)
  }

  /** A heading word at `j` is the one the heading alternation takes. */
  lemma HeadingWordTaken(t: string, j: nat, w: string)
    requires j <= |t| && w in HeadingWords && OccursAt(t, w, j, true)
    ensures HeadingWordEnd(t, j) == Some(j + |w|)
  {
    HeadingWordsExclusive(t, j);
    var ws := HeadingWords;
    assert ws[0] == References && ws[1..][0] == SpacedReferences && ws[1..][1..][0] == Publications;
    if w != References {
      assert HeadingWordEnd(t, j) == HeadingWordsEnd(t, j, ws[1..]);
      if w != SpacedReferences {
        assert HeadingWordsEnd(t, j, ws[1..]) == HeadingWordsEnd(t, j, ws[1..][1..]);
      }
    }
  }

  /** At most one heading word occurs at a position. */
  lemma HeadingWordsExclusive(t: string, j: nat)
    ensures OccursAt(t, References, j, true) ==>
              !OccursAt(t, SpacedReferences, j, true) && !OccursAt(t, Publications, j, true)
    ensures OccursAt(t, SpacedReferences, j, true) ==> !OccursAt(t, Publications, j, true)
  {
    assert OccursAt(t, References, j, true) ==>
             Fold(t[j], true) == Fold(References[0], true) && Fold(t[j + 1], true) == Fold(References[1], true);
    assert OccursAt(t, SpacedReferences, j, true) ==>
             Fold(t[j], true) == Fold(SpacedReferences[0], true) &&
             Fold(t[j + 1], true) == Fold(SpacedReferences[1], true);
    assert OccursAt(t, Publications, j, true) ==> Fold(t[j], true) == Fold(Publications[0], true);
  }

  /** The heading pattern at `i`: a line start, blanks (which may span
      lines), a heading word, and blanks up to the end of a line. */
  function HeadingAt(t: string, i: nat): (r: Option<nat>)
    requires i <= |t|
    ensures r.Some? ==> i <= r.value <= |t|
  {
    if !AtLineStart(t, i) then None
    else match HeadingWordEnd(t, i + Run(t, i, Space))
      case None => None
      case Some(k) => LastLineEnd(t, k, k + Run(t, k, Space))
  }

  // ---------------------------------------------------------------------------
  // Figure, table, appendix and acknowledgement captions
  // ---------------------------------------------------------------------------

  /** Optional blanks, then a non-empty run of `cls`: where it ends. */
  function NumberEnd(t: string, k: nat, cls: CharClass): (r: Option<nat>)
    requires k <= |t|
    ensures r.Some? ==> k < r.value <= |t| && InClass(t[r.value - 1], cls)
  {
    var s := Run(t, k, Space);
    var n := Run(t, k + s, cls);
    if n == 0 then None else Some(k + s + n)
  }

  /** A caption word and the class of the number that must follow it, if any. */
  datatype CaptionWord = CaptionWord(word: string, number: Option<CharClass>)

  /** The caption alternatives in the order the regex tries them: a figure
      number after "Fig." or "Figure", a roman number after "TABLE", nothing
      after "APPENDIX" or "ACKNOWLEDGEMENTS" / "ACKNOWLEDGMENTS" (the
      optional E is tried first). */
  const CaptionWords: seq<CaptionWord> := [
    CaptionWord("Fig.", Some(Digit)), CaptionWord("Figure", Some(Digit)), CaptionWord("TABLE", Some(Roman)),
    CaptionWord("APPENDIX", None), CaptionWord("ACKNOWLEDGEMENTS", None), CaptionWord("ACKNOWLEDGMENTS", None)]

  predicate IsLetter(c: char) {
    'a' <= c <= 'z' || 'A' <= c <= 'Z'
  }

  /** A caption word begins with a letter and ends with a letter, or with a
      dot when a number must follow. */
  predicate WellFormedCaptionWord(w: CaptionWord) {
    && |w.word| > 0
    && IsLetter(w.word[0])
    && (IsLetter(w.word[|w.word| - 1]) || (w.word[|w.word| - 1] == '.' && w.number.Some?))
    && (w.number.None? || w.number.value == Digit || w.number.value == Roman)
  }

  lemma CaptionWordsWellFormed()
    ensures forall n :: 0 <= n < |CaptionWords| ==> WellFormedCaptionWord(CaptionWords[n])
  {
  }

  /** At most one caption word occurs at a position, so the regex's ordered
      alternation never has to choose between two of them. */
  lemma CaptionWordsExclusive(t: string, j: nat)
    ensures forall m, n :: 0 <= m < n < |CaptionWords| && OccursAt(t, CaptionWords[m].word, j, true) ==>
              !OccursAt(t, CaptionWords[n].word, j, true)
  {
    var fig, figure, table := "Fig.", "Figure", "TABLE";
    var appendix, withE, withoutE := "APPENDIX", "ACKNOWLEDGEMENTS", "ACKNOWLEDGMENTS";
    assert OccursAt(t, fig, j, true) ==>
             Fold(t[j], true) == Fold(fig[0], true) && Fold(t[j + 3], true) == Fold(fig[3], true);
    assert OccursAt(t, figure, j, true) ==>
             Fold(t[j], true) == Fold(figure[0], true) && Fold(t[j + 3], true) == Fold(figure[3], true);
    assert OccursAt(t, table, j, true) ==> Fold(t[j], true) == Fold(table[0], true);
    assert OccursAt(t, appendix, j, true) ==>
             Fold(t[j], true) == Fold(appendix[0], true) && Fold(t[j + 1], true) == Fold(appendix[1], true);
    assert OccursAt(t, withE, j, true) ==>
             Fold(t[j], true) == Fold(withE[0], true) && Fold(t[j + 1], true) == Fold(withE[1], true) &&
             Fold(t[j + 10], true) == Fold(withE[10], true);
    assert OccursAt(t, withoutE, j, true) ==>
             Fold(t[j], true) == Fold(withoutE[0], true) && Fold(t[j + 1], true) == Fold(withoutE[1], true) &&
             Fold(t[j + 10], true) == Fold(withoutE[10], true);
  }

  /** Trying the caption words in order at `j`: where the first one that
      occurs, with the number it demands, ends. The words exclude one
      another, so committing to the first that occurs is the regex's
      ordered alternation. */
  function CaptionWordsEnd(t: string, j: nat, words: seq<CaptionWord>): (r: Option<nat>)
    requires j <= |t|
    requires forall n :: 0 <= n < |words| ==> WellFormedCaptionWord(words[n])
    ensures r.Some? ==> j < r.value <= |t| && !IsWhitespace(t[j]) && !IsWhitespace(t[r.value - 1])
  {
    if |words| == 0 then None
    else
      var w := words[0];
      assert WellFormedCaptionWord(w);
      if OccursAt(t, w.word, j, true) then
        WordEndsNotBlank(t, w.word, j);
        match w.number
        case None => Some(j + |w.word|)
        case Some(cls) => NumberEnd(t, j + |w.word|, cls)
      else CaptionWordsEnd(t, j, words[1..])
  }

  /** A caption word at `j` and what must follow it. */
  function CaptionEnd(t: string, j: nat): (r: Option<nat>)
    requires j <= |t|
    ensures r.Some? ==> j < r.value <= |t| && !IsWhitespace(t[j]) && !IsWhitespace(t[r.value - 1])
  {
    CaptionWordsWellFormed();
    CaptionWordsEnd(t, j, CaptionWords)
  }

  /** `r`, if it ends where `$` holds. */
  function AtEnd(t: string, r: Option<nat>): Option<nat>
    requires r.Some? ==> r.value <= |t|
  {
    if r.Some? && AtLineEnd(t, r.value) then r else None
  }

  /** What the earlier caption pattern demands after a caption word before
      the line end: a number of a class, blanks and an optional word (after
      "APPENDIX"), or nothing. */
  datatype LineTail = Number(cls: CharClass) | OptionalWord | Nothing

  datatype LineCaptionWord = LineCaptionWord(word: string, tail: LineTail)

  /** The earlier checker's caption alternatives, in the order the regex
      tries them. */
  const LineCaptionWords: seq<LineCaptionWord> := [
    LineCaptionWord("Fig.", Number(Digit)), LineCaptionWord("Figure", Number(Digit)),
    LineCaptionWord("TABLE", Number(Roman)), LineCaptionWord("APPENDIX", OptionalWord),
    LineCaptionWord("ACKNOWLEDGEMENTS", Nothing), LineCaptionWord("ACKNOWLEDGMENTS", Nothing)]

  /** Where the tail after a caption word ends at a line end, if it can. The
      greedy blanks and word of an optional word are tried first; when no
      line end follows them, backtracking gives back blanks until one of
      them is a newline. */
  function LineTailEnd(t: string, k: nat, tail: LineTail): (r: Option<nat>)
    requires k <= |t|
    ensures r.Some? ==> k <= r.value <= |t| && AtLineEnd(t, r.value)
  {
    match tail
    case Number(cls) => AtEnd(t, NumberEnd(t, k, cls))
    case OptionalWord =>
      var m := Run(t, k, Space);
      var w := Run(t, k + m, Word);
      if AtLineEnd(t, k + m + w) then Some(k + m + w) else LastLineEnd(t, k, k + m)
    case Nothing => AtEnd(t, Some(k))
  }

  /** Trying the earlier caption words in order at `j`: where the first one
      that occurs, with its tail, ends at a line end. */
  function LineCaptionWordsEnd(t: string, j: nat, words: seq<LineCaptionWord>): (r: Option<nat>)
    requires j <= |t|
    requires forall n :: 0 <= n < |words| ==> |words[n].word| > 0
    ensures r.Some? ==> j < r.value <= |t| && AtLineEnd(t, r.value)
  {
    if |words| == 0 then None
    else if OccursAt(t, words[0].word, j, true) then LineTailEnd(t, j + |words[0].word|, words[0].tail)
    else LineCaptionWordsEnd(t, j, words[1..])
  }

  /** The line-anchored caption of the earlier checker: the caption must
      end its line, and "APPENDIX" may be followed by blanks and one word. */
  function LineCaptionEnd(t: string, j: nat): (r: Option<nat>)
    requires j <= |t|
    ensures r.Some? ==> j < r.value <= |t| && AtLineEnd(t, r.value)
  {
    assert forall n :: 0 <= n < |LineCaptionWords| ==> |LineCaptionWords[n].word| > 0;
    LineCaptionWordsEnd(t, j, LineCaptionWords)
  }

  /** The caption pattern at `i`: a line start, blanks (which may span
      lines), and a caption. */
  function CaptionAt(t: string, i: nat): (r: Option<nat>)
    requires i <= |t|
    ensures r.Some? ==> i + Run(t, i, Space) < r.value <= |t|
    ensures r.Some? ==> !IsWhitespace(t[i + Run(t, i, Space)]) && !IsWhitespace(t[r.value - 1])
  {
    if AtLineStart(t, i) then CaptionEnd(t, i + Run(t, i, Space)) else None
  }

  /** The earlier checker's caption pattern at `i`: the same, but the caption
      fills the rest of its line. */
  function LineCaptionAt(t: string, i: nat): (r: Option<nat>)
    requires i <= |t|
    ensures r.Some? ==> i + Run(t, i, Space) < r.value <= |t| && AtLineEnd(t, r.value)
  {
    if AtLineStart(t, i) then LineCaptionEnd(t, i + Run(t, i, Space)) else None
  }

  /** An earlier caption word demands a number where the current one
      does, of the same class. */
  predicate SameDemand(lw: LineCaptionWord, w: CaptionWord) {
    && lw.word == w.word
    && (match lw.tail
        case Number(cls) => w.number == Some(cls)
        case _ => w.number.None?)
  }

  lemma CaptionListsAgree()
    ensures |LineCaptionWords| == |CaptionWords|
    ensures forall n :: 0 <= n < |CaptionWords| ==> SameDemand(LineCaptionWords[n], CaptionWords[n])
  {
  }

  /** Word by word, the earlier caption words match only where the current
      ones do. */
  lemma {:induction false} LineWordsAreCaptionWords(t: string, j: nat, lws: seq<LineCaptionWord>, ws: seq<CaptionWord>)
    requires j <= |t| && |lws| == |ws|
    requires forall n :: 0 <= n < |ws| ==> WellFormedCaptionWord(ws[n]) && SameDemand(lws[n], ws[n])
    requires forall n :: 0 <= n < |lws| ==> |lws[n].word| > 0
    requires LineCaptionWordsEnd(t, j, lws).Some?
    ensures CaptionWordsEnd(t, j, ws).Some?
  {
    assert SameDemand(lws[0], ws[0]);
    if !OccursAt(t, ws[0].word, j, true) {
      LineWordsAreCaptionWords(t, j, lws[1..], ws[1..]);
    }
  }

  /** A caption that fills its line is a caption: the line-anchored pattern
      only adds demands. */
  lemma LineCaptionEndIsCaptionEnd(t: string, j: nat)
    requires j <= |t| && LineCaptionEnd(t, j).Some?
    ensures CaptionEnd(t, j).Some?
  {
    CaptionWordsWellFormed();
    CaptionListsAgree();
    assert forall n :: 0 <= n < |LineCaptionWords| ==> |LineCaptionWords[n].word| > 0;
    LineWordsAreCaptionWords(t, j, LineCaptionWords, CaptionWords);
  }

  /** The earlier caption pattern matches only where the current one does. */
  lemma LineCaptionIsCaption(t: string, i: nat)
    requires i <= |t| && LineCaptionAt(t, i).Some?
    ensures CaptionAt(t, i).Some?
  {
    LineCaptionEndIsCaptionEnd(t, i + Run(t, i, Space));
  }

  // ---------------------------------------------------------------------------
  // Tokens anywhere on a line
  // ---------------------------------------------------------------------------

  /** One of `tokens` occurs at `p`, case-insensitively. */
  predicate SomeTokenAt(t: string, p: nat, tokens: seq<string>) {
    |tokens| > 0 && (OccursAt(t, tokens[0], p, true) || SomeTokenAt(t, p, tokens[1..]))
  }

  /** "permissions@acm.org" at `p`, its dot being the regex wildcard. */
  predicate PermissionsAt(t: string, p: nat) {
    && OccursAt(t, "permissions@acm", p, true)
    && p + 15 < |t| && !IsLineTerminator(t[p + 15])
    && OccursAt(t, "org", p + 16, true)
  }

  predicate TokenAt(t: string, p: nat, tokens: seq<string>, permissions: bool) {
    SomeTokenAt(t, p, tokens) || (permissions && PermissionsAt(t, p))
  }

  /** Some token starts in `lo..hi`. */
  predicate TokenWithin(t: string, lo: nat, hi: nat, tokens: seq<string>, permissions: bool)
    decreases hi - lo + 1
  {
    lo <= hi && (TokenAt(t, lo, tokens, permissions) || TokenWithin(t, lo + 1, hi, tokens, permissions))
  }

  lemma {:induction false} TokenWithinIff(t: string, lo: nat, hi: nat, tokens: seq<string>, permissions: bool)
    ensures TokenWithin(t, lo, hi, tokens, permissions) <==>
            exists p :: lo <= p <= hi && TokenAt(t, p, tokens, permissions)
    decreases hi - lo + 1
  {
    if lo <= hi {
      TokenWithinIff(t, lo + 1, hi, tokens, permissions);
    }
  }

  // ---------------------------------------------------------------------------
  // Patterns and Matcher.find
  // ---------------------------------------------------------------------------

  /** The patterns the checkers search for. */
  datatype Pattern =
    | ReferencesHeading
      // a line holding only a heading word, apart from blanks
    | Caption
      // a caption word and its number at the start of a line
    | LineCaption
      // the same, filling the rest of its line
    | Literal(lit: string)
      // a literal text (callers pass texts whose only metacharacters are escaped dots)
    | EitherLiteral(first: string, second: string)
      // one of two quoted literals, the first preferred
    | AnyToken(tokens: seq<string>, permissions: bool)
      // a whole line segment holding one of the tokens (or "permissions@acm.org")

  /** Where the pattern's match starting at `i` ends, if there is one. */
  function MatchAt(p: Pattern, t: string, i: nat): (r: Option<nat>)
    requires i <= |t|
    ensures r.Some? ==> i <= r.value <= |t|
  {
    match p
    case ReferencesHeading => HeadingAt(t, i)
    case Caption => CaptionAt(t, i)
    case LineCaption => LineCaptionAt(t, i)
    case Literal(lit) =>
      if OccursAt(t, lit, i, true) then Some(i + |lit|) else None
    case EitherLiteral(a, b) =>
      if OccursAt(t, a, i, true) then Some(i + |a|)
      else if OccursAt(t, b, i, true) then Some(i + |b|)
      else None
    case AnyToken(tokens, permissions) =>
      // the greedy leading `.*` backs off to the last token on the line, and the
      // trailing `.*` runs to the line end again (the tokens hold no line terminator)
      var e := i + Run(t, i, Dot);
      if TokenWithin(t, i, e, tokens, permissions) then Some(e) else None
  }

  /** A match: the positions where it starts and ends. */
  datatype Span = Span(start: nat, end: nat)

  /** `find` from position `from` on. */
  function FindFrom(p: Pattern, t: string, from: nat): (r: Option<Span>)
    requires from <= |t| + 1
    ensures r.Some? ==> from <= r.value.start <= r.value.end <= |t|
    ensures r.Some? ==> MatchAt(p, t, r.value.start) == Some(r.value.end)
    ensures r.Some? ==> forall i :: from <= i < r.value.start ==> MatchAt(p, t, i).None?
    ensures r.None? ==> forall i :: from <= i <= |t| ==> MatchAt(p, t, i).None?
    decreases |t| + 1 - from
  {
    if from > |t| then None
    else
      var m := MatchAt(p, t, from);
      if m.Some? then Some(Span(from, m.value)) else FindFrom(p, t, from + 1)
  }

  /** `Matcher.find`: the match that starts leftmost, or none. */
  function Find(p: Pattern, t: string): (r: Option<Span>)
    ensures r.Some? ==> r.value.start <= r.value.end <= |t|
    ensures r.Some? ==> MatchAt(p, t, r.value.start) == Some(r.value.end)
    ensures r.Some? ==> forall i :: 0 <= i < r.value.start ==> MatchAt(p, t, i).None?
    ensures r.None? ==> forall i :: 0 <= i <= |t| ==> MatchAt(p, t, i).None?
  {
    FindFrom(p, t, 0)
  }

  /** A match at `i` is found, at `i` or before. */
  lemma MatchFound(p: Pattern, t: string, i: nat)
    requires i <= |t| && MatchAt(p, t, i).Some?
    ensures Find(p, t).Some? && Find(p, t).value.start <= i
  {
  }

  /** `Matcher.group(0)` of the leftmost match, or none. */
  function FindText(p: Pattern, t: string): (r: Option<string>)
    ensures r.Some? <==> Find(p, t).Some?
    ensures r.Some? ==> r.value == t[Find(p, t).value.start..Find(p, t).value.end]
  {
    match Find(p, t)
    case None => None
    case Some(s) => Some(t[s.start..s.end])
  }

  // ---------------------------------------------------------------------------
  // What the matchers find
  // ---------------------------------------------------------------------------

  /** Position `j` starts a heading word that stands on its line with only
      blanks around it. */
  predicate HeadingLine(t: string, j: nat)
    requires j <= |t|
  {
    match HeadingWordEnd(t, j)
    case None => false
    case Some(k) =>
      && (forall m :: LineBegin(t, j) <= m < j ==> IsSpace(t[m]))
      && (forall m :: k <= m < NextLineEnd(t, k) ==> IsSpace(t[m]))
  }

  /** A heading match at `i` puts its heading word on a line of its own. */
  lemma HeadingMatchIsLine(t: string, i: nat)
    requires i <= |t| && HeadingAt(t, i).Some?
    ensures HeadingLine(t, i + Run(t, i, Space))
  {
    var j := i + Run(t, i, Space);
    var k := HeadingWordEnd(t, j).value;
    var e := HeadingAt(t, i).value;
    assert i > 0 ==> t[i - 1] == '\n';
    assert LineBegin(t, j) >= i;
    var m := NextLineEnd(t, k);
    assert AtLineEnd(t, e) && k <= e <= k + Run(t, k, Space);
    assert e < |t| ==> t[e] == '\n';
    assert m <= e;
  }

  /** A heading word on a line of its own is matched from the start of that line. */
  lemma HeadingLineMatches(t: string, j: nat)
    requires j <= |t| && HeadingLine(t, j)
    ensures HeadingAt(t, LineBegin(t, j)).Some?
  {
    var b := LineBegin(t, j);
    var k := HeadingWordEnd(t, j).value;
    var m := NextLineEnd(t, k);
    RunCovers(t, b, j, Space);
    assert Run(t, b, Space) == j - b;
    RunCovers(t, k, m, Space);
    assert LastLineEnd(t, k, k + Run(t, k, Space)).Some?;
  }

  /** The heading search succeeds exactly when some line of the page holds a
      heading word and nothing else but blanks: "My References" or
      "References of this paper" never count. */
  lemma ReferencesHeadingIffLine(t: string)
    ensures Find(ReferencesHeading, t).Some? <==> exists j :: 0 <= j <= |t| && HeadingLine(t, j)
  {
    var f := Find(ReferencesHeading, t);
    if f.Some? {
      HeadingMatchIsLine(t, f.value.start);
    }
    if j :| 0 <= j <= |t| && HeadingLine(t, j) {
      HeadingLineMatches(t, j);
      assert MatchAt(ReferencesHeading, t, LineBegin(t, j)).Some?;
    }
  }

  /** A heading word alone on a line (between a line start and a line end,
      with only spaces around it) makes the heading search succeed no later
      than that line. */
  lemma HeadingLineFound(t: string, i: nat, j: nat, w: string, k: nat)
    requires i <= j <= |t| && AtLineStart(t, i)
    requires w in HeadingWords
    requires OccursAt(t, w, j, true)
    requires j + |w| <= k <= |t| && AtLineEnd(t, k)
    requires forall m :: i <= m < j ==> t[m] == ' '
    requires forall m :: j + |w| <= m < k ==> t[m] == ' '
    ensures Find(ReferencesHeading, t).Some? && Find(ReferencesHeading, t).value.start <= i
  {
    HeadingLineAt(t, i, j, w, k);
    MatchFound(ReferencesHeading, t, i);
  }

  /** Such a line matches the heading pattern from its start. */
  lemma HeadingLineAt(t: string, i: nat, j: nat, w: string, k: nat)
    requires i <= j <= |t| && AtLineStart(t, i)
    requires w in HeadingWords
    requires OccursAt(t, w, j, true)
    requires j + |w| <= k <= |t| && AtLineEnd(t, k)
    requires forall m :: i <= m < j ==> t[m] == ' '
    requires forall m :: j + |w| <= m < k ==> t[m] == ' '
    ensures HeadingAt(t, i).Some?
  {
    RunCovers(t, i, j, Space);
    WordEndsNotBlank(t, w, j);
    assert Run(t, i, Space) == j - i;
    HeadingWordTaken(t, j, w);
    RunCovers(t, j + |w|, k, Space);
    HeadingAtWord(t, i, j, j + |w|, k);
  }

  /** The heading pattern matches at a line start `i` when only blanks lead
      to a heading word at `j`, ending at `e`, and blanks then reach a line
      end `k`. */
  lemma HeadingAtWord(t: string, i: nat, j: nat, e: nat, k: nat)
    requires i <= j <= |t| && AtLineStart(t, i) && i + Run(t, i, Space) == j
    requires HeadingWordEnd(t, j) == Some(e)
    requires e <= k <= e + Run(t, e, Space) && AtLineEnd(t, k)
    ensures HeadingAt(t, i).Some?
  {
    assert LastLineEnd(t, e, e + Run(t, e, Space)).Some?;
  }

  /** A caption match, stripped of surrounding whitespace, is the text from
      the caption word to the end of the match. */
  lemma CaptionStripped(t: string, i: nat, e: nat)
    requires i <= |t| && CaptionAt(t, i) == Some(e)
    ensures i + Run(t, i, Space) < e
    ensures Strip(t[i..e]) == t[i + Run(t, i, Space)..e]
  {
    BlanksAreWhitespace(t, i);
    StripSlice(t, i, i + Run(t, i, Space), e);
  }

  /** The token search succeeds exactly when one of the tokens occurs
      anywhere, provided no token is empty or holds a line terminator. */
  lemma AnyTokenIff(t: string, tokens: seq<string>, permissions: bool)
    requires forall n :: 0 <= n < |tokens| ==> |tokens[n]| > 0
    requires forall n, k :: 0 <= n < |tokens| && 0 <= k < |tokens[n]| ==> !IsLineTerminator(tokens[n][k])
    ensures Find(AnyToken(tokens, permissions), t).Some? <==>
            exists p :: 0 <= p <= |t| && TokenAt(t, p, tokens, permissions)
  {
    var f := Find(AnyToken(tokens, permissions), t);
    if f.Some? {
      var i := f.value.start;
      TokenWithinIff(t, i, i + Run(t, i, Dot), tokens, permissions);
    }
    if p :| 0 <= p <= |t| && TokenAt(t, p, tokens, permissions) {
      TokenStartsLine(t, p, tokens, permissions);
      TokenWithinIff(t, p, p + Run(t, p, Dot), tokens, permissions);
      assert MatchAt(AnyToken(tokens, permissions), t, p).Some?;
    }
  }

  /** A token occurrence starts on a character `.` matches. */
  lemma TokenStartsLine(t: string, p: nat, tokens: seq<string>, permissions: bool)
    requires forall n :: 0 <= n < |tokens| ==> |tokens[n]| > 0
    requires forall n, k :: 0 <= n < |tokens| && 0 <= k < |tokens[n]| ==> !IsLineTerminator(tokens[n][k])
    requires TokenAt(t, p, tokens, permissions)
    ensures p < |t| && !IsLineTerminator(t[p])
  {
    if SomeTokenAt(t, p, tokens) {
      var n := FirstTokenAt(t, p, tokens);
      var w := tokens[n];
      assert Fold(t[p], true) == Fold(w[0], true);
      assert !IsLineTerminator(tokens[n][0]);
    } else {
      assert Fold(t[p], true) == Fold("permissions@acm"[0], true);
    }
  }

  /** The index of a token that occurs at `p`. */
  function FirstTokenAt(t: string, p: nat, tokens: seq<string>): (n: nat)
    requires SomeTokenAt(t, p, tokens)
    ensures n < |tokens| && OccursAt(t, tokens[n], p, true)
  {
    if OccursAt(t, tokens[0], p, true) then 0 else 1 + FirstTokenAt(t, p, tokens[1..])
  }

  /** An occurrence of any listed token is a token occurrence. */
  lemma {:induction false} TokenOccursAt(t: string, p: nat, tokens: seq<string>, n: nat)
    requires n < |tokens| && OccursAt(t, tokens[n], p, true)
    ensures SomeTokenAt(t, p, tokens)
  {
    if n > 0 {
      TokenOccursAt(t, p, tokens[1..], n - 1);
    }
  }
}
