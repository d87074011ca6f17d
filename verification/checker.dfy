/** The screening checks of the current checker (`org.sigsoft.sfc.PdfChecker`):
    the references page, header stripping, material after the page limit, the
    title, the template style and the anonymity checks. The checks that only
    compute are functions of the document; the checker object holds the
    document, the limits and the roster paper, and its scanning loops are
    methods proved equal to those functions. */
module Checker {
  import opened Wrappers
  import opened Text
  import opened LineNumbers
  import opened Patterns
  import opened Documents
  import opened Roster

  /** A page whose line-number column is longer than this is numbered. */
  const MinimumPageLength := 30
  /** Text of at most this length before the references heading passes as a page number. */
  const LeewayForPageNr := 8
  const LeewayTag := "-chars-before-REFERENCES: "

  /** The two general regex searches the model leaves uninterpreted: each
      gives the text of the leftmost match (`group(0)`) in its argument, if
      there is one. */
  datatype Searches = Searches(emailAddress: string -> Option<string>, previousWork: string -> Option<string>)

  // ---------------------------------------------------------------------------
  // match and findOnPage
  // ---------------------------------------------------------------------------

  function Stripped(found: Option<string>): Option<string> {
    match found
    case None => None
    case Some(s) => Some(Strip(s))
  }

  /** `match`: the leftmost match, stripped of surrounding whitespace. */
  function Match(p: Pattern, text: string): Option<string> {
    Stripped(FindText(p, text))
  }

  /** `findOnPage`: only pages `1..PageCount()` are searched. */
  function FindOnPage(d: Document, n: int, p: Pattern): Option<string>
    requires 1 <= n <= d.PageCount()
  {
    Match(p, d.TextAtPage(n))
  }

  /** A literal search succeeds exactly when the literal occurs, ignoring
      ASCII case; what it returns is the first occurrence, stripped. */
  lemma LiteralMatch(t: string, lit: string)
    ensures Match(Literal(lit), t).Some? <==> Contains(t, lit, true)
    ensures Contains(t, lit, true) ==>
              var i := IndexOf(t, lit, true).value;
              Match(Literal(lit), t) == Some(Strip(t[i..i + |lit|]))
  {
    var f := Find(Literal(lit), t);
    var x := IndexOf(t, lit, true);
    if f.Some? {
      assert OccursAt(t, lit, f.value.start, true);
    }
    if x.Some? {
      assert MatchAt(Literal(lit), t, x.value).Some?;
      assert f.value.start == x.value;
    }
  }

  /** A search for one of two literals succeeds exactly when either occurs. */
  lemma EitherMatch(t: string, a: string, b: string)
    ensures Match(EitherLiteral(a, b), t).Some? <==> Contains(t, a, true) || Contains(t, b, true)
  {
    var f := Find(EitherLiteral(a, b), t);
    if f.Some? {
      var i := f.value.start;
      assert OccursAt(t, a, i, true) || OccursAt(t, b, i, true);
    }
    var x := IndexOf(t, a, true);
    if x.Some? {
      assert MatchAt(EitherLiteral(a, b), t, x.value).Some?;
    }
    var y := IndexOf(t, b, true);
    if y.Some? {
      assert MatchAt(EitherLiteral(a, b), t, y.value).Some?;
    }
  }

  /** A pattern holding a symbol (no letter, so case folding leaves it
      alone) that the text lacks does not occur in the text. */
  lemma AbsentSymbol(t: string, pat: string, k: nat)
    requires k < |pat| && !IsLetter(pat[k]) && pat[k] !in t
    ensures !Contains(t, pat, true)
  {
  }

  // ---------------------------------------------------------------------------
  // Style: isACM and isIEEE
  // ---------------------------------------------------------------------------

  const AcmCopyright := "permissions@acm.org"
  const AcmReferenceFormat := "ACM Reference format:"
  const AcmArt := "acmart"

  /** `revealingEmail`: a literal whose only metacharacters are its dots,
      escaped, searched for on page 1. */
  function RevealingEmail(d: Document, email: string): Option<string>
    requires d.PageCount() >= 1
  {
    FindOnPage(d, 1, Literal(email))
  }

  /** `isACM`: the creator names acmart, page 1 holds the ACM copyright
      address or the ACM reference format, or page 1 starts with more than
      30 consecutive line numbers. */
  predicate IsACM(d: Document)
    requires d.PageCount() >= 1
  {
    || (MetaDataCreator(d).Some? && Match(Literal(AcmArt), MetaDataCreator(d).value).Some?)
    || RevealingEmail(d, AcmCopyright).Some?
    || RevealingEmail(d, AcmReferenceFormat).Some?
    || NumberedPrefix(Split(d.TextAtPage(1))) > 30
  }

  /** The ACM test in terms of plain containment. */
  lemma IsACMIff(d: Document)
    requires d.PageCount() >= 1
    ensures IsACM(d) <==>
              || (d.info.creator.Some? && Contains(d.info.creator.value, AcmArt, true))
              || Contains(d.TextAtPage(1), AcmCopyright, true)
              || Contains(d.TextAtPage(1), AcmReferenceFormat, true)
              || NumberedPrefix(Split(d.TextAtPage(1))) > 30
  {
    if d.info.creator.Some? {
      LiteralMatch(d.info.creator.value, AcmArt);
    }
    LiteralMatch(d.TextAtPage(1), AcmCopyright);
    LiteralMatch(d.TextAtPage(1), AcmReferenceFormat);
  }

  /** `isIEEE`: IEEE unless ACM; the old Word copyright line is looked at but
      decides nothing. */
  function IsIEEE(d: Document): (r: bool)
    requires d.PageCount() >= 1
    ensures r == !IsACM(d)
  {
    if IsACM(d) then false
    else if CopyrightIEEE(FirstLine(d.TextAtPage(1))) then true
    else true
  }

  /** The ACM copyright address anywhere on page 1 makes the paper ACM, hence not IEEE. */
  lemma PermissionsMakeACM(d: Document)
    requires d.PageCount() >= 1 && Contains(d.TextAtPage(1), AcmCopyright, true)
    ensures IsACM(d) && !IsIEEE(d)
  {
    LiteralMatch(d.TextAtPage(1), AcmCopyright);
  }

  /** The permissions test: the ACM copyright address in a footnote,
      whatever surrounds it, makes the paper ACM, hence not IEEE. */
  lemma PermissionsFootnote(d: Document, before: string, after: string)
    requires d.PageCount() >= 1 && d.TextAtPage(1) == before + AcmCopyright + after
    ensures IsACM(d) && !IsIEEE(d)
  {
    OccursInside(before, AcmCopyright, after, true);
    OccursContains(d.TextAtPage(1), AcmCopyright, |before|, true);
    PermissionsMakeACM(d);
  }

  // ---------------------------------------------------------------------------
  // Anonymity: blindedIdentity, findEmails, findAuthorIdentity, previousWork
  // ---------------------------------------------------------------------------

  const SafeNames: seq<string> := ["anonymous", "anon", "doe", "blinded", "nn", "nobody", "none", "email",
                                   "anonymized", "firstname", "lastname", "xyz", "xxx", "author"]
  const SafeDomains: seq<string> := ["email", "example", "domain", "address", "blind", "review"]
  const SafeTokens: seq<string> := SafeNames + SafeDomains

  /** `blindedIdentity`: the text holds a safe name, a safe domain or
      "permissions@acm.org" somewhere on one line. */
  predicate BlindedIdentity(id: string) {
    Find(AnyToken(SafeTokens, true), id).Some?
  }

  /** The safe tokens are lower-case ASCII words. */
  lemma SafeTokensAreWords()
    ensures forall n :: 0 <= n < |SafeTokens| ==> |SafeTokens[n]| > 0
    ensures forall n, k :: 0 <= n < |SafeTokens| && 0 <= k < |SafeTokens[n]| ==> 'a' <= SafeTokens[n][k] <= 'z'
  {
  }

  /** A text is blinded exactly when it contains, ignoring ASCII case, one of
      the safe tokens, or "permissions@acm" and "org" around one character. */
  lemma BlindedIdentityIff(id: string)
    ensures BlindedIdentity(id) <==>
              || (exists n :: 0 <= n < |SafeTokens| && Contains(id, SafeTokens[n], true))
              || (exists p :: 0 <= p <= |id| && PermissionsAt(id, p))
  {
    SafeTokensAreWords();
    AnyTokenIff(id, SafeTokens, true);
    if BlindedIdentity(id) {
      var p :| 0 <= p <= |id| && TokenAt(id, p, SafeTokens, true);
      if SomeTokenAt(id, p, SafeTokens) {
        var n := FirstTokenAt(id, p, SafeTokens);
        assert Contains(id, SafeTokens[n], true);
      }
    }
    if n :| 0 <= n < |SafeTokens| && Contains(id, SafeTokens[n], true) {
      var p := IndexOf(id, SafeTokens[n], true).value;
      TokenOccursAt(id, p, SafeTokens, n);
      assert 0 <= p <= |id| && TokenAt(id, p, SafeTokens, true);
    }
    if p :| 0 <= p <= |id| && PermissionsAt(id, p) {
      assert TokenAt(id, p, SafeTokens, true);
    }
  }

  /** A text holding safe token `n` at `p` is blinded. */
  lemma BlindedByToken(id: string, n: nat, p: nat)
    requires n < |SafeTokens| && OccursAt(id, SafeTokens[n], p, true)
    ensures BlindedIdentity(id)
  {
    BlindedIdentityIff(id);
    assert Contains(id, SafeTokens[n], true);
  }

  /** Any text around a safe token is blinded. */
  lemma BlindedAround(before: string, n: nat, after: string)
    requires n < |SafeTokens|
    ensures BlindedIdentity(before + SafeTokens[n] + after)
  {
    OccursInside(before, SafeTokens[n], after, true);
    BlindedByToken(before + SafeTokens[n] + after, n, |before|);
  }

  /** The blinded addresses of the tests are recognised:
      "anonymous@fnerk.com", "blinded@for.review" and "john.doe@example.org". */
  lemma BlindedExamples()
    ensures BlindedIdentity("" + SafeTokens[0] + "@fnerk.com")
    ensures BlindedIdentity("" + SafeTokens[3] + "@for.review")
    ensures BlindedIdentity("john." + SafeTokens[2] + "@example.org")
  {
    BlindedAround("", 0, "@fnerk.com");
    BlindedAround("", 3, "@for.review");
    BlindedAround("john.", 2, "@example.org");
  }

  /** `findEmails`: the stripped first address-like text on page 1, unless
      it is blinded. */
  function FindEmails(d: Document, s: Searches): (r: Option<string>)
    requires d.PageCount() >= 1
    ensures r.Some? ==> !BlindedIdentity(r.value)
    ensures var found := s.emailAddress(d.TextAtPage(1));
            && (r.Some? <==> found.Some? && !BlindedIdentity(Strip(found.value)))
            && (r.Some? ==> r.value == Strip(found.value))
  {
    var found := Stripped(s.emailAddress(d.TextAtPage(1)));
    if found.Some? && BlindedIdentity(found.value) then None else found
  }

  /** `findAuthorIdentity`: the metadata author, unless it is blinded. */
  function FindAuthorIdentity(d: Document): (r: Option<string>)
    ensures r.Some? ==> !BlindedIdentity(r.value) && r.value != "" && Strip(r.value) == r.value
    ensures r.Some? <==> MetaDataAuthor(d).Some? && !BlindedIdentity(MetaDataAuthor(d).value)
    ensures r.Some? ==> r == MetaDataAuthor(d)
  {
    match MetaDataAuthor(d)
    case None => None
    case Some(meta) => if BlindedIdentity(meta) then None else Some(meta)
  }

  /** `previousWork`: the stripped first mention of earlier work in the whole text. */
  function PreviousWork(d: Document, s: Searches): (r: Option<string>)
    ensures r.Some? <==> s.previousWork(d.fullText).Some?
    ensures r.Some? ==> r.value == Strip(s.previousWork(d.fullText).value)
  {
    Stripped(s.previousWork(d.fullText))
  }

  // ---------------------------------------------------------------------------
  // Title: getFirstLine, copyrightIEEE, getTitle
  // ---------------------------------------------------------------------------

  /** `indexOf("\n")` finds the first newline character. */
  lemma NewlineIndex(text: string)
    ensures IndexOf(text, "\n", false).None? <==> '\n' !in text
    ensures IndexOf(text, "\n", false).Some? ==>
              var i := IndexOf(text, "\n", false).value;
              i < |text| && text[i] == '\n' && '\n' !in text[..i]
  {
    var x := IndexOf(text, "\n", false);
    forall k | 0 <= k < |text|
      ensures OccursAt(text, "\n", k, false) <==> text[k] == '\n'
    {
      assert "\n"[0] == '\n';
      assert text[k + 0] == text[k];
    }
    if x.Some? {
      assert forall k :: 0 <= k < x.value ==> text[..x.value][k] == text[k];
    }
  }

  /** `getFirstLine`: the text before the first newline, or empty when there is none. */
  function FirstLine(text: string): (r: string)
    ensures '\n' !in text ==> r == ""
    ensures '\n' in text ==> '\n' !in r && r + "\n" <= text
  {
    NewlineIndex(text);
    match IndexOf(text, "\n", false)
    case None => ""
    case Some(i) =>
      assert text[..i] + "\n" == text[..i + 1];
      text[..i]
  }

  /** The text after the first newline, or all of it when there is none
      (`substring(indexOf("\n") + 1)`). */
  function AfterFirstLine(text: string): (r: string)
    ensures '\n' !in text ==> r == text
    ensures '\n' in text ==> text == FirstLine(text) + "\n" + r
  {
    NewlineIndex(text);
    match IndexOf(text, "\n", false)
    case None => text
    case Some(i) =>
      assert text == text[..i] + "\n" + text[i + 1..];
      text[i + 1..]
  }

  /** `copyrightIEEE`: the whole line matches `.*20XX IEEE.*` (case matters,
      and `.` matches no line terminator). */
  predicate CopyrightIEEE(line: string) {
    && Contains(line, "20XX IEEE", false)
    && forall k :: 0 <= k < |line| ==> !IsLineTerminator(line[k])
  }

  /** The title line of a line-number-stripped first page: its first line,
      stripped, or the line after it when that first line is the IEEE
      copyright placeholder. */
  function TitleLine(page1: string): (r: string)
    ensures '\n' !in r
  {
    var line1 := Strip(FirstLine(page1));
    if CopyrightIEEE(line1) then FirstLine(AfterFirstLine(page1)) else line1
  }

  /** The same as written: after a copyright line the search resumes at
      `line1.length() + 2`, counted on the stripped line, which throws past
      the end of the page. */
  function TitleLineAsWritten(page1: string): (r: Checked<string>)
  {
    var line1 := Strip(FirstLine(page1));
    if CopyrightIEEE(line1) then
      if |line1| + 2 <= |page1| then Returned(FirstLine(page1[|line1| + 2..]))
      else Raised("StringIndexOutOfBoundsException")
    else Returned(line1)
  }

  /** For lines joined with newlines, the title line is the first line,
      stripped, or the second one when the first is the copyright line. */
  lemma TitleLineOfLines(xs: seq<string>)
    requires |xs| >= 1
    requires forall k :: 0 <= k < |xs| ==> '\n' !in xs[k]
    ensures TitleLine(Join(xs, "\n") + "\n") ==
              if !CopyrightIEEE(Strip(xs[0])) then Strip(xs[0])
              else if |xs| >= 2 then xs[1] else ""
  {
    JoinedLinesHead(xs);
    FirstLineOf(xs[0], LinesAfterFirst(xs));
    if |xs| >= 2 {
      JoinedLinesHead(xs[1..]);
      FirstLineOf(xs[1], LinesAfterFirst(xs[1..]));
    }
  }

  /** The lines after the first, each ended by a newline. */
  function LinesAfterFirst(xs: seq<string>): string
    requires |xs| >= 1
  {
    if |xs| == 1 then "" else Join(xs[1..], "\n") + "\n"
  }

  /** Lines joined and ended by a newline start with the first line and its newline. */
  lemma JoinedLinesHead(xs: seq<string>)
    requires |xs| >= 1
    ensures Join(xs, "\n") + "\n" == xs[0] + "\n" + LinesAfterFirst(xs)
  {
  }

  /** The first line of a line and what follows its newline is that line. */
  lemma FirstLineOf(x: string, rest: string)
    requires '\n' !in x
    ensures FirstLine(x + "\n" + rest) == x
    ensures AfterFirstLine(x + "\n" + rest) == rest
  {
    var t := x + "\n" + rest;
    NewlineIndex(t);
    var i := IndexOf(t, "\n", false).value;
    assert t[|x|] == '\n';
  }

  /** `getTitle`: the title line of page 1 after stripping its line numbers,
      or the metadata title when that line is blank. */
  function Title(d: Document): (r: Option<string>)
    requires d.PageCount() >= 1
    ensures r.Some? ==> Strip(r.value) != ""
    ensures r.None? ==> MetaDataTitle(d).None?
  {
    var line1 := TitleLine(StripLineNumbers(d.TextAtPage(1)));
    if Strip(line1) == "" then MetaDataTitle(d) else Some(line1)
  }

  /** The title is taken from the first line left after the line numbers
      (not the first non-blank one), or the next line after a copyright line;
      a blank candidate falls back to the metadata title. */
  lemma TitleFromLines(d: Document)
    requires d.PageCount() >= 1
    ensures var lines := Split(d.TextAtPage(1));
            var rest := lines[NumberedPrefix(lines)..];
            var candidate := if rest == [] then ""
                             else if !CopyrightIEEE(Strip(rest[0])) then Strip(rest[0])
                             else if |rest| >= 2 then rest[1] else "";
            Title(d) == if Strip(candidate) == "" then MetaDataTitle(d) else Some(candidate)
  {
    var text := d.TextAtPage(1);
    var lines := Split(text);
    var rest := lines[NumberedPrefix(lines)..];
    StrippedLines(text);
    assert StripLineNumbers(text) == Join(rest, "\n") + "\n";
    if rest == [] {
      assert Join(rest, "\n") + "\n" == "" + "\n" + "";
      FirstLineOf("", "");
    } else {
      TitleLineOfLines(rest);
    }
  }

  // ---------------------------------------------------------------------------
  // The title finding
  // ---------------------------------------------------------------------------

  /** After a copyright line with no blank around it, the title line as
      written loses its first character, while the corrected title line is
      the whole next line. */
  lemma TitleSkipsCharacter(copyright: string, title: string)
    requires Strip(copyright) == copyright && CopyrightIEEE(copyright)
    requires |title| >= 1 && '\n' !in title
    ensures TitleLineAsWritten(copyright + "\n" + title + "\n") == Returned(title[1..])
    ensures TitleLine(copyright + "\n" + title + "\n") == title
  {
    var page := copyright + "\n" + title + "\n";
    CopyrightLineHasNoNewline(copyright);
    TitleLineAfterCopyright(page, copyright, title);
    TitleAsWrittenAfterCopyright(page, copyright, title);
  }

  /** After a copyright line that is its own stripped form, the title line
      as written starts one character into the next line. */
  lemma TitleAsWrittenAfterCopyright(page: string, copyright: string, title: string)
    requires page == copyright + "\n" + title + "\n"
    requires '\n' !in copyright && '\n' !in title && |title| >= 1
    requires Strip(copyright) == copyright && CopyrightIEEE(copyright)
    ensures TitleLineAsWritten(page) == Returned(title[1..])
  {
    assert page == copyright + "\n" + (title + "\n");
    FirstLineOf(copyright, title + "\n");
    assert Strip(FirstLine(page)) == copyright;
    SkippedSlice(copyright, title);
    FirstLineOf(title[1..], "");
    assert page[|copyright| + 2..] == title[1..] + "\n" + "";
  }

  /** A copyright line is a single line. */
  lemma CopyrightLineHasNoNewline(line: string)
    requires CopyrightIEEE(line)
    ensures '\n' !in line
  {
  }

  /** After a copyright line that is its own stripped form, the corrected
      title line is the next line. */
  lemma TitleLineAfterCopyright(page: string, copyright: string, title: string)
    requires page == copyright + "\n" + title + "\n"
    requires '\n' !in copyright && '\n' !in title
    requires Strip(copyright) == copyright && CopyrightIEEE(copyright)
    ensures TitleLine(page) == title
  {
    assert page == copyright + "\n" + (title + "\n");
    FirstLineOf(copyright, title + "\n");
    assert FirstLine(page) == copyright;
    assert Strip(FirstLine(page)) == copyright;
    assert AfterFirstLine(page) == title + "\n";
    assert title + "\n" == title + "\n" + "";
    FirstLineOf(title, "");
    assert FirstLine(title + "\n") == title;
  }

  /** Two characters past the copyright line is one past the start of the title. */
  lemma SkippedSlice(copyright: string, title: string)
    requires |title| >= 1
    ensures (copyright + "\n" + title + "\n")[|copyright| + 2..] == title[1..] + "\n" + ""
  {
  }

  /** The example: after "20XX IEEE" the title "Test Infected" comes out as
      "est Infected". */
  lemma TitleSkipsCharacterExample(copyright: string, title: string)
    requires copyright == "20XX IEEE" && title == "Test Infected"
    ensures TitleLineAsWritten(copyright + "\n" + title + "\n") == Returned("est Infected")
    ensures TitleLine(copyright + "\n" + title + "\n") == "Test Infected"
  {
    IeeeLine(copyright);
    TitleSkipsCharacter(copyright, title);
  }

  /** A copyright line alone on the page makes the title as written throw. */
  lemma TitleThrows(copyright: string)
    requires copyright == "20XX IEEE"
    ensures TitleLineAsWritten(copyright + "\n").Raised?
  {
    assert copyright + "\n" == copyright + "\n" + "";
    FirstLineOf(copyright, "");
    IeeeLine(copyright);
  }

  /** The bare placeholder is a copyright line and is its own stripped form. */
  lemma IeeeLine(copyright: string)
    requires copyright == "20XX IEEE"
    ensures Strip(copyright) == copyright && CopyrightIEEE(copyright)
  {
    IeeeLineStripped(copyright);
    IeeeLineMatches(copyright);
  }

  lemma IeeeLineStripped(copyright: string)
    requires copyright == "20XX IEEE"
    ensures Strip(copyright) == copyright
  {
    assert !IsWhitespace(copyright[0]) && !IsWhitespace(copyright[|copyright| - 1]);
  }

  lemma IeeeLineMatches(copyright: string)
    requires copyright == "20XX IEEE"
    ensures CopyrightIEEE(copyright)
  {
    assert OccursAt(copyright, "20XX IEEE", 0, false);
    OccursContains(copyright, "20XX IEEE", 0, false);
    forall k | 0 <= k < |copyright| ensures !IsLineTerminator(copyright[k]) {
      assert copyright[k] <= 'X';
    }
  }

  /** Written and corrected title lines agree whenever stripping removed
      exactly one character from the first line, as in the copyright line
      "XXXX 20XX IEEE " of the tests. */
  lemma TitleLinesAgree(page1: string)
    requires '\n' in page1
    requires |Strip(FirstLine(page1))| + 1 == |FirstLine(page1)|
    ensures TitleLineAsWritten(page1) == Returned(TitleLine(page1))
  {
    var raw := FirstLine(page1);
    var after := AfterFirstLine(page1);
    assert page1 == raw + "\n" + after;
    assert page1[|raw| + 1..] == after;
  }

  /** Without the copyright line first, written and corrected title lines
      agree: the two differ only after that line. */
  lemma TitleLinesAgreeWithoutCopyright(page1: string)
    requires !CopyrightIEEE(Strip(FirstLine(page1)))
    ensures TitleLineAsWritten(page1) == Returned(TitleLine(page1))
  {
  }

  // ---------------------------------------------------------------------------
  // Headers: stripNonNumberedHeader and stripHeader
  // ---------------------------------------------------------------------------

  /** Page 3 exists and its first line starts with the title: the document
      has running-title headers. */
  predicate RunningTitle(d: Document)
    requires Page3HasNewline(d)
  {
    && d.PageCount() >= 3
    && Title(d).Some?
    && Title(d).value <= FirstLine(d.TextAtPage(3))
  }

  /** `stripNonNumberedHeader`: with fewer than 3 pages nothing is known and
      the text is kept; otherwise the first line is dropped exactly when the
      document has running-title headers. */
  function NonNumberedHeaderStripped(d: Document, acmPage: string): (r: string)
    requires Page3HasNewline(d)
    ensures d.PageCount() < 3 ==> r == acmPage
    ensures r == if RunningTitle(d) then AfterFirstLine(acmPage) else acmPage
  {
    if d.PageCount() < 3 then acmPage
    else if RunningTitle(d) then AfterFirstLine(acmPage)
    else acmPage
  }

  /** The last of the one to three header lines after a numbered left
      column ending before line `left`: the header takes further lines while
      they are not numerals, up to three lines in all. */
  function HeaderLast(lines: seq<string>, left: nat): (h: nat)
    requires left < |lines|
    ensures left <= h <= left + 2 && h < |lines|
    ensures forall k :: left < k <= h ==> !IsNumeral(lines[k])
    ensures h < left + 2 && h + 1 < |lines| ==> IsNumeral(lines[h + 1])
  {
    if left + 1 < |lines| && !IsNumeral(lines[left + 1]) then
      if left + 2 < |lines| && !IsNumeral(lines[left + 2]) then left + 2 else left + 1
    else left
  }

  /** `stripHeader`: a numbered page loses its left line-number column, its
      header lines and, if numbered too, its right column; any other page is
      left to `stripNonNumberedHeader`. */
  function HeaderStripped(d: Document, acmPage: string): string
    requires Page3HasNewline(d)
  {
    var lines := Split(acmPage);
    var left := NumberedPrefix(lines);
    if MinimumPageLength < left < |lines| then ColumnsStripped(lines, left)
    else NonNumberedHeaderStripped(d, acmPage)
  }

  /** The numbered case of `stripHeader`: the lines after the left column
      and its header lines, without the right column when that is numbered
      too, joined with newlines. */
  function ColumnsStripped(lines: seq<string>, left: nat): string
    requires left < |lines|
  {
    var remaining := lines[HeaderLast(lines, left) + 1..];
    var right := NumberedPrefix(remaining);
    if right > MinimumPageLength then Join(remaining[right..], "\n") else Join(remaining, "\n")
  }

  /** The header lines after the left column, taken one at a time: the
      index of the last one. */
  method CountHeaderLines(lines: seq<string>, left: nat) returns (h: nat)
    requires left < |lines|
    ensures h == HeaderLast(lines, left)
  {
    h := left;
    if h + 1 < |lines| && !IsNumeral(lines[h + 1]) {
      h := h + 1;
      if h + 1 < |lines| && !IsNumeral(lines[h + 1]) {
        h := h + 1;
      }
    }
  }

  /** The numbered case of `stripHeader`. */
  method StripColumns(lines: seq<string>, left: nat) returns (r: string)
    requires left < |lines|
    ensures r == ColumnsStripped(lines, left)
  {
    var leftColumn := CountHeaderLines(lines, left);
    var remainingLines := lines[leftColumn + 1..];
    var rightColumn := CountLineNumbers(remainingLines);
    if rightColumn > MinimumPageLength {
      r := Join(remainingLines[rightColumn..], "\n");
    } else {
      r := Join(remainingLines, "\n");
    }
  }

  /** The outcomes of header stripping: a page with a numbered left column
      keeps only lines after that column (and after its header lines); any
      other page keeps all its text or, with running titles, all but its
      first line. */
  lemma HeaderStrippedCases(d: Document, acmPage: string)
    requires Page3HasNewline(d)
    ensures var lines := Split(acmPage);
            var left := NumberedPrefix(lines);
            var r := HeaderStripped(d, acmPage);
            && (MinimumPageLength < left < |lines| ==>
                  exists k :: left + 1 <= k <= |lines| && r == Join(lines[k..], "\n"))
            && (!(MinimumPageLength < left < |lines|) ==>
                  r == if RunningTitle(d) then AfterFirstLine(acmPage) else acmPage)
  {
    var lines := Split(acmPage);
    var left := NumberedPrefix(lines);
    if MinimumPageLength < left < |lines| {
      ColumnsStrippedSuffix(lines, left);
    }
  }

  /** The numbered case keeps a suffix of the lines after the left column. */
  lemma ColumnsStrippedSuffix(lines: seq<string>, left: nat)
    requires left < |lines|
    ensures exists k :: left + 1 <= k <= |lines| && ColumnsStripped(lines, left) == Join(lines[k..], "\n")
  {
    var h := HeaderLast(lines, left);
    var remaining := lines[h + 1..];
    var right := NumberedPrefix(remaining);
    if right > MinimumPageLength {
      assert remaining[right..] == lines[h + 1 + right..];
    } else {
      assert remaining == lines[h + 1..];
    }
  }

  // ---------------------------------------------------------------------------
  // References page
  // ---------------------------------------------------------------------------

  /** Page `n` has a match of `p`. */
  predicate PageHas(d: Document, n: int, p: Pattern)
    requires 1 <= n <= d.PageCount()
  {
    Find(p, d.TextAtPage(n)).Some?
  }

  /** The scan from page `n` back to the page after `limit`: the first page
      met with a match of `p`, that is the highest such page, or 0. */
  function LastPageWith(d: Document, p: Pattern, n: nat, limit: nat): (q: nat)
    requires n <= d.PageCount()
    ensures q <= n
    ensures q > 0 ==> limit < q && PageHas(d, q, p)
    ensures forall k :: limit < k <= n && q < k ==> !PageHas(d, k, p)
  {
    if n <= limit then 0
    else if PageHas(d, n, p) then n
    else
      var q := LastPageWith(d, p, n - 1, limit);
      assert forall k :: limit < k <= n - 1 && q < k ==> !PageHas(d, k, p);
      q
  }

  /** The scan stops at the highest page with a match. */
  lemma LastPageIs(d: Document, p: Pattern, n: nat, limit: nat, q: nat)
    requires limit < q <= n <= d.PageCount() && PageHas(d, q, p)
    requires forall k :: q < k <= n ==> !PageHas(d, k, p)
    ensures LastPageWith(d, p, n, limit) == q
  {
    var last := LastPageWith(d, p, n, limit);
    assert last >= q;
  }

  /** Page `n` has a line holding only a references heading. */
  predicate HasHeading(d: Document, n: int)
    requires 1 <= n <= d.PageCount()
  {
    PageHas(d, n, ReferencesHeading)
  }

  /** `isReferencesPage`: the header-stripped text before the references
      heading of page `n`, or none when the page has no heading. */
  function BeforeReferences(d: Document, n: int): (r: Option<string>)
    requires 1 <= n <= d.PageCount() && Page3HasNewline(d)
    ensures r.Some? <==> HasHeading(d, n)
  {
    var text := d.TextAtPage(n);
    match Find(ReferencesHeading, text)
    case None => None
    case Some(s) => Some(HeaderStripped(d, text[..s.start]))
  }

  // ---------------------------------------------------------------------------
  // Material after the page limit
  // ---------------------------------------------------------------------------

  /** Page `n` has a caption line. */
  predicate HasFigure(d: Document, n: int)
    requires 1 <= n <= d.PageCount()
  {
    PageHas(d, n, Caption)
  }

  /** `pageContainsFigure`: the first caption (figure, table, appendix or
      acknowledgements) at the start of a line of page `n`. */
  function PageContainsFigure(d: Document, n: int): (r: Option<string>)
    requires 1 <= n <= d.PageCount()
    ensures r.Some? <==> HasFigure(d, n)
  {
    FindOnPage(d, n, Caption)
  }

  /** The caption search on a text returns the caption from its first word
      to the end of the match. */
  lemma CaptionMatch(t: string)
    requires Find(Caption, t).Some?
    ensures var f := Find(Caption, t).value;
            var j := f.start + Run(t, f.start, Space);
            && j < f.end
            && Match(Caption, t) == Some(t[j..f.end])
  {
    var f := Find(Caption, t).value;
    var j := f.start + Run(t, f.start, Space);
    MatchIsFound(Caption, t);
    FoundCaptionAt(t);
    CaptionStripped(t, f.start, f.end);
    var caption := t[j..f.end];
    assert Strip(t[f.start..f.end]) == caption;
    assert Match(Caption, t) == Some(caption);
  }

  /** The caption found is a caption match at its start. */
  lemma FoundCaptionAt(t: string)
    requires Find(Caption, t).Some?
    ensures CaptionAt(t, Find(Caption, t).value.start) == Some(Find(Caption, t).value.end)
  {
  }

  /** A search that finds something returns the match, stripped. */
  lemma MatchIsFound(p: Pattern, t: string)
    requires Find(p, t).Some?
    ensures Match(p, t) == Some(Strip(t[Find(p, t).value.start..Find(p, t).value.end]))
  {
  }

  /** The diagnostic for text before the references heading: its length and
      its first 8 characters, newlines escaped, when it is longer than 8. */
  function Leeway(before: string): (r: Option<string>)
    ensures r.Some? <==> |before| > LeewayForPageNr
  {
    if |before| <= LeewayForPageNr then None
    else
      var e := EscapeNewlines(before[..LeewayForPageNr]);
      Some(Decimal(|before|) + LeewayTag + e)
  }

  /** The diagnostic reads back: the number before the tag is the length. */
  lemma LeewayReadsBack(before: string)
    requires |before| > LeewayForPageNr
    ensures var s := Leeway(before).value;
            var n := |Decimal(|before|)|;
            && IsNumeral(s[..n]) && NumeralValue(s[..n]) == |before|
            && s[n..n + |LeewayTag|] == LeewayTag
  {
    DecimalRoundTrip(|before|);
    var s := Leeway(before).value;
    var n := |Decimal(|before|)|;
    assert s[..n] == Decimal(|before|);
  }

  /** Without a newline among the first eight characters, the diagnostic
      quotes them unchanged. */
  lemma LeewayQuotesHead(before: string)
    requires |before| > LeewayForPageNr && '\n' !in before[..LeewayForPageNr]
    ensures Leeway(before) == Some(Decimal(|before|) + LeewayTag + before[..LeewayForPageNr])
  {
  }

  /** A two-digit count prints as its two digits. */
  lemma TwoDigits(n: nat)
    requires 10 <= n < 100
    ensures Decimal(n) == [DigitChar(n / 10), DigitChar(n % 10)]
  {
  }

  /** The example of the tests: eleven characters before the heading are
      reported with their first eight. */
  lemma LeewayReported(long: string)
    requires long == "ABCDEFGHIJ\n"
    ensures Leeway(long) == Some("11" + LeewayTag + "ABCDEFGH")
  {
    var head := long[..8];
    assert head == "ABCDEFGH";
    LeewayQuotesHead(long);
    TwoDigits(|long|);
    assert Decimal(|long|) == "11";
  }

  /** The example of the tests: four numbered lines pass as a page number. */
  lemma LeewayPageNumbers(numbers: string)
    requires numbers == "1\n2\n3\n4\n"
    ensures Leeway(numbers) == None
  {
  }

  /** The leeway diagnostic for a page, none when it has no references heading. */
  function LeewayOf(before: Option<string>): (r: Option<string>)
    ensures r.Some? <==> before.Some? && |before.value| > LeewayForPageNr
  {
    match before
    case None => None
    case Some(b) => Leeway(b)
  }

  /** The last step of `figuresAfterLimit`: the leeway diagnostic for the
      text before the references heading on the page after the limit. */
  method ReportLeeway(beforeReferences: Option<string>) returns (r: Option<string>)
    ensures r == LeewayOf(beforeReferences)
  {
    if beforeReferences.None? || |beforeReferences.value| <= LeewayForPageNr {
      return None;
    }
    var abusiveCharCount := |beforeReferences.value|;
    var content := EscapeNewlines(beforeReferences.value[..LeewayForPageNr]);
    return Some(Decimal(abusiveCharCount) + LeewayTag + content);
  }

  /** `figuresAfterLimit`: nothing when the paper fits the page limit;
      otherwise the caption on the last page after the limit that has one;
      otherwise the leeway diagnostic for the page after the limit. */
  function FiguresAfterLimitOf(d: Document, pageLimit: nat): (r: Option<string>)
    requires Page3HasNewline(d)
    ensures d.PageCount() <= pageLimit ==> r.None?
  {
    if d.PageCount() <= pageLimit then None
    else
      var q := LastPageWith(d, Caption, d.PageCount(), pageLimit);
      if q > 0 then PageContainsFigure(d, q)
      else LeewayOf(BeforeReferences(d, pageLimit + 1))
  }

  /** When pages after the limit have captions, the report is the caption
      of the last of them. */
  lemma FigureAfterLimit(d: Document, pageLimit: nat, q: nat)
    requires Page3HasNewline(d) && pageLimit < q <= d.PageCount() && HasFigure(d, q)
    requires forall k :: q < k <= d.PageCount() ==> !HasFigure(d, k)
    ensures FiguresAfterLimitOf(d, pageLimit) == PageContainsFigure(d, q)
    ensures FiguresAfterLimitOf(d, pageLimit).Some?
  {
    forall k | q < k <= d.PageCount()
      ensures !PageHas(d, k, Caption)
    {
      assert !HasFigure(d, k);
    }
    LastPageIs(d, Caption, d.PageCount(), pageLimit, q);
  }

  /** When no page after the limit has a caption, the report is the leeway
      diagnostic of the page after the limit. */
  lemma NoFigureAfterLimit(d: Document, pageLimit: nat)
    requires Page3HasNewline(d) && pageLimit < d.PageCount()
    requires forall k :: pageLimit < k <= d.PageCount() ==> !HasFigure(d, k)
    ensures FiguresAfterLimitOf(d, pageLimit) == LeewayOf(BeforeReferences(d, pageLimit + 1))
  {
  }

  // ---------------------------------------------------------------------------
  // Roster data on page 1
  // ---------------------------------------------------------------------------

  /** The search for one author: the quoted name, else the quoted email. */
  function AuthorPattern(a: Author): Pattern {
    EitherLiteral(a.Name(), a.email)
  }

  /** The matches for the authors found on the page, in author order. */
  function Founds(authors: seq<Author>, page1: string): (fs: seq<string>)
    ensures |fs| <= |authors|
  {
    if |authors| == 0 then []
    else
      Founds(authors[..|authors| - 1], page1) +
      match Match(AuthorPattern(authors[|authors| - 1]), page1)
      case None => []
      case Some(f) => [f]
  }

  /** `null` for no match, else the matches joined with commas. */
  function Joined(fs: seq<string>): (r: Option<string>)
    ensures r.None? <==> fs == []
  {
    if fs == [] then None else Some(Join(fs, ","))
  }

  /** Founds over one more author adds that author's match, if any. */
  lemma FoundsStep(authors: seq<Author>, i: int, page1: string)
    requires 0 <= i < |authors|
    ensures Founds(authors[..i + 1], page1) ==
              Founds(authors[..i], page1) +
              match Match(AuthorPattern(authors[i]), page1)
              case None => []
              case Some(f) => [f]
  {
    assert authors[..i + 1][..i] == authors[..i];
  }

  /** Joining one more match appends it after a comma, or starts the join. */
  lemma JoinedStep(fs: seq<string>, x: string)
    ensures Joined(fs + [x]) == if fs == [] then Some(x) else Some(Joined(fs).value + "," + x)
  {
    if fs != [] {
      JoinSnoc(fs, x, ",");
    }
  }

  /** `revealingMetaData`: with a roster paper, the comma-joined matches of
      its authors on page 1, none when there is no match or the join is empty. */
  function RevealingMetaDataOf(d: Document, paper: Option<PaperMetaData>): (r: Option<string>)
    requires d.PageCount() >= 1
    ensures paper.None? ==> r.None?
    ensures r.Some? ==> r.value != "" && r == Joined(Founds(paper.value.authors, d.TextAtPage(1)))
    ensures paper.Some? && Joined(Founds(paper.value.authors, d.TextAtPage(1))) != Some("") ==>
              r == Joined(Founds(paper.value.authors, d.TextAtPage(1)))
  {
    if paper.None? then None
    else
      var j := Joined(Founds(paper.value.authors, d.TextAtPage(1)));
      if j == Some("") then None else j
  }

  /** Nothing is found exactly when no author's name or email occurs on the
      page, ignoring ASCII case. */
  lemma {:induction false} FoundsEmptyIff(authors: seq<Author>, page1: string)
    ensures Founds(authors, page1) == [] <==>
              forall k :: 0 <= k < |authors| ==>
                !Contains(page1, authors[k].Name(), true) && !Contains(page1, authors[k].email, true)
  {
    if |authors| > 0 {
      var init := authors[..|authors| - 1];
      var a := authors[|authors| - 1];
      FoundsEmptyIff(init, page1);
      EitherMatch(page1, a.Name(), a.email);
      assert forall k :: 0 <= k < |init| ==> init[k] == authors[k];
    }
  }

  /** LaTeX-escaped roster names are not found in the typeset text: when
      every author's name holds a brace (as "K{\"a}stner" does) and page 1
      holds neither a brace nor an at sign, nothing is revealed. */
  lemma LatexNameNotFound(d: Document, paper: PaperMetaData)
    requires d.PageCount() >= 1
    requires forall k :: 0 <= k < |paper.authors| ==> '{' in paper.authors[k].Name() && '@' in paper.authors[k].email
    requires '{' !in d.TextAtPage(1) && '@' !in d.TextAtPage(1)
    ensures RevealingMetaDataOf(d, Some(paper)).None?
  {
    var t := d.TextAtPage(1);
    forall k | 0 <= k < |paper.authors|
      ensures !Contains(t, paper.authors[k].Name(), true) && !Contains(t, paper.authors[k].email, true)
    {
      var a := paper.authors[k];
      var i :| 0 <= i < |a.Name()| && a.Name()[i] == '{';
      AbsentSymbol(t, a.Name(), i);
      var j :| 0 <= j < |a.email| && a.email[j] == '@';
      AbsentSymbol(t, a.email, j);
    }
    NothingRevealed(d, paper);
  }

  /** When no author's name or email occurs on page 1, nothing is revealed. */
  lemma NothingRevealed(d: Document, paper: PaperMetaData)
    requires d.PageCount() >= 1
    requires forall k :: 0 <= k < |paper.authors| ==>
               !Contains(d.TextAtPage(1), paper.authors[k].Name(), true) &&
               !Contains(d.TextAtPage(1), paper.authors[k].email, true)
    ensures RevealingMetaDataOf(d, Some(paper)).None?
  {
    FoundsEmptyIff(paper.authors, d.TextAtPage(1));
  }
  /** An author's match is among those found for every longer prefix of
      the authors. */
  lemma {:induction false} FoundIn(authors: seq<Author>, page1: string, k: int, x: string, i: int)
    requires 0 <= k < i <= |authors| && Match(AuthorPattern(authors[k]), page1) == Some(x)
    ensures x in Founds(authors[..i], page1)
    decreases i
  {
    FoundsStep(authors, i - 1, page1);
    if k < i - 1 {
      FoundIn(authors, page1, k, x, i - 1);
    }
  }

  /** An author whose name or email is found on page 1 with some text is
      revealed: the result is present and joins that match with the others. */
  lemma AuthorRevealed(d: Document, paper: PaperMetaData, k: int)
    requires d.PageCount() >= 1 && 0 <= k < |paper.authors|
    requires Match(AuthorPattern(paper.authors[k]), d.TextAtPage(1)).Some?
    requires Match(AuthorPattern(paper.authors[k]), d.TextAtPage(1)).value != ""
    ensures var fs := Founds(paper.authors, d.TextAtPage(1));
            && Match(AuthorPattern(paper.authors[k]), d.TextAtPage(1)).value in fs
            && RevealingMetaDataOf(d, Some(paper)) == Some(Join(fs, ","))
  {
    var fs := Founds(paper.authors, d.TextAtPage(1));
    FoundIn(paper.authors, d.TextAtPage(1), k, Match(AuthorPattern(paper.authors[k]), d.TextAtPage(1)).value, |paper.authors|);
    assert paper.authors[..|paper.authors|] == paper.authors;
    JoinHasPart(fs, ",", Match(AuthorPattern(paper.authors[k]), d.TextAtPage(1)).value);
  }

  /** An author whose name or email occurs on page 1, ignoring ASCII case,
      is revealed, when both start with a non-blank character. */
  lemma AuthorNamedRevealed(d: Document, paper: PaperMetaData, k: int)
    requires d.PageCount() >= 1 && 0 <= k < |paper.authors|
    requires !IsWhitespace(paper.authors[k].Name()[0])
    requires paper.authors[k].email != "" && !IsWhitespace(paper.authors[k].email[0])
    requires Contains(d.TextAtPage(1), paper.authors[k].Name(), true) ||
             Contains(d.TextAtPage(1), paper.authors[k].email, true)
    ensures RevealingMetaDataOf(d, Some(paper)).Some?
  {
    var a := paper.authors[k];
    EitherMatch(d.TextAtPage(1), a.Name(), a.email);
    EitherMatchNotEmpty(d.TextAtPage(1), a.Name(), a.email);
    AuthorRevealed(d, paper, k);
  }

  /** A search for either of two literals that start with a non-blank
      character finds some text when it succeeds. */
  lemma EitherMatchNotEmpty(t: string, a: string, b: string)
    requires a != "" && !IsWhitespace(a[0]) && b != "" && !IsWhitespace(b[0])
    requires Match(EitherLiteral(a, b), t).Some?
    ensures Match(EitherLiteral(a, b), t).value != ""
  {
    var p := EitherLiteral(a, b);
    MatchIsFound(p, t);
    var f := Find(p, t).value;
    var slice := t[f.start..f.end];
    if OccursAt(t, a, f.start, true) {
      assert Fold(t[f.start + 0], true) == Fold(a[0], true);
    } else {
      assert Fold(t[f.start + 0], true) == Fold(b[0], true);
    }
    assert slice[0] == t[f.start];
    assert !IsWhitespace(slice[0]);
  }





  // ---------------------------------------------------------------------------
  // The checker
  // ---------------------------------------------------------------------------

  /** `PdfChecker`: the document under review, the page limits and the
      roster paper, if any. */
  class PdfChecker {
    var document: Document
    var pageLimit: nat
    var referenceLimit: int
    var metaData: Option<PaperMetaData>
    const searches: Searches

    /** A checker for `document` with the default limits: 10 pages of text
        and 2 of references, no roster paper. */
    constructor(document: Document, searches: Searches)
      ensures this.document == document && this.searches == searches
      ensures pageLimit == 10 && referenceLimit == 2 && metaData.None?
    {
      this.document := document;
      this.searches := searches;
      pageLimit := 10;
      referenceLimit := 2;
      metaData := None;
    }

    function TotalLimit(): int
      reads this
    {
      pageLimit + referenceLimit
    }

    method SetDocument(document: Document)
      modifies this
      ensures this.document == document
      ensures pageLimit == old(pageLimit) && referenceLimit == old(referenceLimit) && metaData == old(metaData)
    {
      this.document := document;
    }

    method SetMetaData(metaData: Option<PaperMetaData>)
      modifies this
      ensures this.metaData == metaData
      ensures document == old(document) && pageLimit == old(pageLimit) && referenceLimit == old(referenceLimit)
    {
      this.metaData := metaData;
    }

    /** `stripHeader`, counting the header lines one at a time. */
    method StripHeader(acmPage: string) returns (r: string)
      requires Page3HasNewline(document)
      ensures r == HeaderStripped(document, acmPage)
    {
      var lines := Split(acmPage);
      var leftColumn := CountLineNumbers(lines);
      if MinimumPageLength < leftColumn < |lines| {
        r := StripColumns(lines, leftColumn);
      } else {
        r := NonNumberedHeaderStripped(document, acmPage);
      }
    }

    /** `isReferencesPage`. */
    method IsReferencesPage(pagenr: int) returns (before: Option<string>)
      requires 1 <= pagenr <= document.PageCount() && Page3HasNewline(document)
      ensures before == BeforeReferences(document, pagenr)
    {
      var pageText := document.TextAtPage(pagenr);
      var findRefs := Find(ReferencesHeading, pageText);
      if findRefs.Some? {
        var stripped := StripHeader(pageText[..findRefs.value.start]);
        before := Some(stripped);
      } else {
        before := None;
      }
    }

    /** `referencesPage`: scan from the last page back for a references
        heading; 0 when no page has one. */
    method ReferencesPage() returns (p: nat)
      requires Page3HasNewline(document)
      ensures p <= document.PageCount() && (p > 0 ==> HasHeading(document, p))
      ensures forall q :: p < q <= document.PageCount() ==> !HasHeading(document, q)
      ensures p == LastPageWith(document, ReferencesHeading, document.PageCount(), 0)
    {
      var pagenr := document.PageCount();
      while pagenr > 0
        invariant 0 <= pagenr <= document.PageCount()
        invariant LastPageWith(document, ReferencesHeading, pagenr, 0) == LastPageWith(document, ReferencesHeading, document.PageCount(), 0)
      {
        var before := IsReferencesPage(pagenr);
        if before.Some? {
          return pagenr;
        }
        pagenr := pagenr - 1;
      }
      return 0;
    }

    /** `figuresAfterLimit`: scan back from the last page to the page after
        the limit for a caption, then check the text before the references
        heading on the page after the limit. */
    method FiguresAfterLimit() returns (r: Option<string>)
      requires Page3HasNewline(document)
      ensures r == FiguresAfterLimitOf(document, pageLimit)
    {
      if document.PageCount() <= pageLimit {
        return None;
      }
      ghost var d := document;
      ghost var q := LastPageWith(d, Caption, d.PageCount(), pageLimit);
      var figText := LastFigure();
      if figText.Some? {
        assert q > 0 && figText == PageContainsFigure(d, q);
        return figText;
      }
      assert q == 0;
      var beforeReferences := IsReferencesPage(pageLimit + 1);
      r := ReportLeeway(beforeReferences);
      assert r == LeewayOf(BeforeReferences(d, pageLimit + 1));
    }

    /** The scan of `figuresAfterLimit`: from the last page back to the page
        after the limit, the caption of the first page met that has one. */
    method LastFigure() returns (figText: Option<string>)
      ensures var q := LastPageWith(document, Caption, document.PageCount(), pageLimit);
              figText == if q > 0 then PageContainsFigure(document, q) else None
    {
      var pagenr: nat := document.PageCount();
      while pagenr > pageLimit
        invariant pagenr <= document.PageCount()
        invariant LastPageWith(document, Caption, pagenr, pageLimit) == LastPageWith(document, Caption, document.PageCount(), pageLimit)
      {
        figText := PageContainsFigure(document, pagenr);
        if figText.Some? {
          return;
        }
        pagenr := pagenr - 1;
      }
      return None;
    }

    /** `revealingMetaData`: accumulate the authors' matches on page 1. */
    method RevealingMetaData() returns (r: Option<string>)
      requires document.PageCount() >= 1
      ensures r == RevealingMetaDataOf(document, metaData)
    {
      if metaData.None? {
        return None;
      }
      var page1 := document.TextAtPage(1);
      var authors := metaData.value.authors;
      var result: Option<string> := None;
      for i := 0 to |authors|
        invariant result == Joined(Founds(authors[..i], page1))
      {
        var found := Match(AuthorPattern(authors[i]), page1);
        ghost var before := Founds(authors[..i], page1);
        FoundsStep(authors, i, page1);
        if found.Some? {
          assert Founds(authors[..i + 1], page1) == before + [found.value];
          JoinedStep(before, found.value);
          if result.None? {
            result := Some(found.value);
          } else {
            result := Some(result.value + "," + found.value);
          }
        } else {
          assert Founds(authors[..i + 1], page1) == before + [];
          assert before + [] == before;
        }
      }
      assert authors[..|authors|] == authors;
      if result == Some("") {
        result := None;
      }
      return result;
    }
  }
}
