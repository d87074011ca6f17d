# Submission checker: a verified model

The ACM SIGSOFT submission checker screens conference papers (PDF files) for
violations of double-blind review and formatting rules, and prints one line
per paper. This project models the checker's core in Dafny and proves
properties of it. The core has five parts:

- **The current checker** (`org.sigsoft.sfc.PdfChecker`), modules `Checker`, `LineNumbers`, `Patterns`, `Text`. It checks:
  - the references page;
  - header and line-number stripping;
  - material after the page limit;
  - the title;
  - the ACM/IEEE template;
  - author-revealing e-mail addresses, metadata and previous-work mentions;
  - roster names on page 1.
- **The earlier checker** (`org.sigsoft.PdfChecker`), module `LegacyChecker`. It has fewer safe tokens and fewer ACM tests, returns raw unstripped matches, has no header or line-number stripping, needs a caption to fill its line, and has no title or roster check; its previous-work search is not used by its batch report. It is related lemma by lemma to the current one.
- **The current batch report** (`org.sigsoft.sfc.BatchChecker.paperIssues`), module `Batch`. It turns the checks into an ordered list of issues and a report line.
- **The earlier batch report** (`org.sigsoft.BatchChecker.paperIssues`), module `LegacyBatch`.
- **The conference roster** (`org.sigsoft.sfc.MetaData`), module `Roster`. It covers rows grouped into papers and the paper id taken from a file name.

**How the checker is represented**
- A paper is a value of `Documents.Document`: its page texts, its full text, its file name and its document-information entries.
- The checker objects are classes:
  - `PdfChecker` holds the document, the limits and the roster paper;
  - `MetaData` holds the map of papers;
  - `BatchChecker` holds the style.
- Each scanning loop of the source is a method proved equal to a function of the document. The properties are proved about those functions:
  - the backward page scans;
  - `countLineNumbers`;
  - the header-line count;
  - the author loop of `revealingMetaData`;
  - the loading of roster rows.

**How the regular expressions are represented**
- The fixed regular expressions the checks depend on are written out as matchers in `Patterns`. They follow Java's `MULTILINE | CASE_INSENSITIVE` semantics: `^`/`$` at line boundaries, ASCII case folding, and `\s` and `.` as Java defines them.
  - the references heading;
  - the figure/table/appendix caption, in both its current and its earlier form;
  - literal searches;
  - the blinded-token search.
- `Matcher.find` is the leftmost match (`Patterns.Find`).
- The two general searches — the e-mail shape and the previous-work phrase — are left uninterpreted. They are parameters of type `Checker.Searches`, and only the filtering around them is modelled.

One might expect `stripLineNumbers` to be idempotent; it is not: a run of line numbers broken by a non-consecutive number leaves a second run behind, which a second call removes. `LineNumbers.StripAgainIff` states exactly when stripping twice equals stripping once.

## Model

| member | source | states |
|---|---|---|
| Text.Lower | src/main/java/org/sigsoft/sfc/PdfChecker.java:303 | case-insensitive matching folds exactly the ASCII upper-case letters to lower case and leaves every other character alone |
| Text.IndexFrom | src/main/java/org/sigsoft/sfc/PdfChecker.java:363 | the result is an occurrence at or after the start position with none before it; none means no occurrence at or after it |
| Text.IndexOf | src/main/java/org/sigsoft/sfc/PdfChecker.java:363 | `indexOf`: the leftmost occurrence, or none when there is no occurrence at all |
| Text.LastIndexUpTo | src/main/java/org/sigsoft/sfc/MetaData.java:95-96 | the rightmost occurrence at or before a bound, none when there is none |
| Text.LastIndexOf | src/main/java/org/sigsoft/sfc/MetaData.java:95-96 | `lastIndexOf`: an occurrence with no occurrence after it, or none |
| Text.LastIndexOfIs | src/main/java/org/sigsoft/sfc/MetaData.java:95-96 | an occurrence with none after it is what `lastIndexOf` returns |
| Text.Strip | src/main/java/org/sigsoft/sfc/PdfChecker.java:310 | `strip`: the slice after the leading whitespace with non-whitespace ends; empty exactly when the text is all whitespace; a text with non-blank ends is unchanged |
| Text.Split | src/main/java/org/sigsoft/sfc/PdfChecker.java:175 | `split("\\n")`: no part holds a newline |
| Text.JoinPieces | src/main/java/org/sigsoft/sfc/PdfChecker.java:175-179 | joining the newline-separated pieces of a text with newlines gives the text back |
| Text.SplitJoinedLines | src/main/java/org/sigsoft/sfc/PdfChecker.java:175-179 | splitting lines joined with newlines plus a final newline gives the lines back, without trailing empty lines |
| Text.Decimal | src/main/java/org/sigsoft/sfc/PdfChecker.java:245 | `%d` of a count is a run of digits |
| Text.DecimalRoundTrip | src/main/java/org/sigsoft/sfc/BatchChecker.java:47 | parsing the printed number gives the number back |
| Text.PadRight | src/main/java/org/sigsoft/sfc/BatchChecker.java:90 | `%-24s`: the text followed by spaces up to the width, never cut |
| Text.EscapeNewlines | src/main/java/org/sigsoft/sfc/PdfChecker.java:244 | a newline alone becomes a backslash and `n`, any other character alone is kept; the result holds no newline and is unchanged when there was none |
| Text.EscapeNewlinesAppend | src/main/java/org/sigsoft/sfc/PdfChecker.java:244 | the escape of two texts put together is their escapes put together, so every character is escaped in place and in order |
| LineNumbers.RunAfter | src/main/java/org/sigsoft/sfc/PdfChecker.java:191-206 | the length of the run continuing a count lies within the lines |
| LineNumbers.NumberedPrefix | src/main/java/org/sigsoft/sfc/PdfChecker.java:188-208 | the count of leading line numbers is at most the number of lines |
| LineNumbers.RunAfterCounts | src/main/java/org/sigsoft/sfc/PdfChecker.java:191-206 | the lines counted are numerals with values `last + 1`, `last + 2`, ...; the line that stops the count is not the next number |
| LineNumbers.NumberedPrefixIsLongest | src/main/java/org/sigsoft/sfc/PdfChecker.java:182-188 | the counted prefix is a consecutive run of numbers, and one more line would not be |
| LineNumbers.LongestRunIsNumberedPrefix | src/main/java/org/sigsoft/sfc/PdfChecker.java:182-188 | any length with those two properties is the count: the count is unique |
| LineNumbers.CountLineNumbers | src/main/java/org/sigsoft/sfc/PdfChecker.java:188-208 | the loop returns the length of the longest prefix of consecutive numbers, bounded by the number of lines |
| LineNumbers.StripLineNumbers | src/main/java/org/sigsoft/sfc/PdfChecker.java:174-180 | the stripped text always ends with a newline |
| LineNumbers.StrippedLines | src/main/java/org/sigsoft/sfc/PdfChecker.java:174-180 | the lines of the stripped text are exactly the lines after the numbered prefix; an empty text gives a lone newline |
| LineNumbers.JoinNotLonger | src/main/java/org/sigsoft/sfc/PdfChecker.java:179 | dropping leading lines never lengthens the joined text |
| LineNumbers.JoinSuffixShorter | src/main/java/org/sigsoft/sfc/PdfChecker.java:179 | dropping at least one leading non-empty line makes it strictly shorter |
| LineNumbers.StripAgainIff | src/main/java/org/sigsoft/sfc/PdfChecker.java:174-180 | stripping twice equals stripping once exactly when no line is left or the first line left is not a numeral |
| LineNumbers.NonSequentialExample | src/test/java/org/sigsoft/sfc/PdfCheckerTest.java:193-215 | `10,11,14,15,HELLO` counts 2, `10,11,12,13,HELLO` counts 4, `HELLO` counts 0 |
| Patterns.Run | src/main/java/org/sigsoft/sfc/PdfChecker.java:84 | a greedy character-class run: every character taken is in the class, the next one is not |
| Patterns.LastLineEnd | src/main/java/org/sigsoft/sfc/PdfChecker.java:84 | the last position in a range where `$` holds (where `\s*$` backtracks to), none when there is none |
| Patterns.HeadingWordEnd | src/main/java/org/sigsoft/sfc/PdfChecker.java:84 | the heading alternation, when it matches, consumes a non-blank first character |
| Patterns.HeadingWordTaken | src/main/java/org/sigsoft/sfc/PdfChecker.java:84 | any of REFERENCES, R E F E R E N C E S, PUBLICATIONS occurring at a position is what the alternation takes there |
| Patterns.HeadingWordsExclusive | src/main/java/org/sigsoft/sfc/PdfChecker.java:84 | at most one heading word occurs at a position |
| Patterns.HeadingAt | src/main/java/org/sigsoft/sfc/PdfChecker.java:83-85 | a heading match from a position ends within the text |
| Patterns.NumberEnd | src/main/java/org/sigsoft/sfc/PdfChecker.java:250 | `\s*\d+` (or `[IVX]+`) ends after a character of the class |
| Patterns.CaptionWordsEnd | src/main/java/org/sigsoft/sfc/PdfChecker.java:250 | a caption alternative that matches starts and ends on non-blank characters |
| Patterns.CaptionWordsExclusive | src/main/java/org/sigsoft/sfc/PdfChecker.java:250 | at most one of the six caption words occurs at a position, so taking the first that occurs is the ordered alternation |
| Patterns.CaptionEnd | src/main/java/org/sigsoft/sfc/PdfChecker.java:250 | the caption word and its number start and end on non-blank characters |
| Patterns.CaptionAt | src/main/java/org/sigsoft/sfc/PdfChecker.java:250 | a caption match from a line start begins with blanks, then a non-blank caption that ends on a non-blank character |
| Patterns.LineTailEnd | src/main/java/org/sigsoft/sfc/PdfChecker.java:146 | what the earlier caption demands after its word ends at a line end |
| Patterns.LineCaptionWordsEnd | src/main/java/org/sigsoft/sfc/PdfChecker.java:146 | an earlier caption alternative ends at a line end |
| Patterns.LineCaptionEnd | src/main/java/org/sigsoft/sfc/PdfChecker.java:146 | the earlier caption fills the rest of its line |
| Patterns.LineCaptionAt | src/main/java/org/sigsoft/sfc/PdfChecker.java:146 | an earlier caption match begins after the blanks and ends at a line end |
| Patterns.CaptionListsAgree | src/main/java/org/sigsoft/PdfChecker.java:146 | the earlier caption words are those of the current pattern, in the same order, demanding the same numbers |
| Patterns.LineWordsAreCaptionWords | src/main/java/org/sigsoft/PdfChecker.java:146 | where the earlier caption words match, the current ones do |
| Patterns.LineCaptionEndIsCaptionEnd | src/main/java/org/sigsoft/PdfChecker.java:146 | a caption that fills its line is a current caption |
| Patterns.LineCaptionIsCaption | src/main/java/org/sigsoft/PdfChecker.java:146 | the earlier caption pattern matches only where the current one matches |
| Patterns.TokenWithinIff | src/main/java/org/sigsoft/sfc/PdfChecker.java:286 | the token scan over a range finds exactly the token occurrences in that range |
| Patterns.MatchAt | src/main/java/org/sigsoft/sfc/PdfChecker.java:307-313 | a match from a position ends within the text |
| Patterns.FindFrom | src/main/java/org/sigsoft/sfc/PdfChecker.java:308-309 | the search from a position returns a match with no match starting before it; none means no position matches |
| Patterns.Find | src/main/java/org/sigsoft/sfc/PdfChecker.java:308-309 | `find`: the leftmost match, or none when no position matches |
| Patterns.MatchFound | src/main/java/org/sigsoft/sfc/PdfChecker.java:309 | a match at a position is found, at that position or before it |
| Patterns.FindText | src/main/java/org/sigsoft/PdfChecker.java:198-199 | `group(0)`: present exactly when `find` succeeds, and then the matched slice |
| Patterns.HeadingMatchIsLine | src/main/java/org/sigsoft/sfc/PdfChecker.java:83-87 | a heading match puts its heading word on a line of its own, apart from blanks |
| Patterns.HeadingLineMatches | src/main/java/org/sigsoft/sfc/PdfChecker.java:83-87 | such a line matches the heading pattern from its start |
| Patterns.ReferencesHeadingIffLine | src/main/java/org/sigsoft/sfc/PdfChecker.java:83-87 | the heading search succeeds exactly when some line holds only a heading word and blanks |
| Patterns.HeadingLineFound | src/main/java/org/sigsoft/sfc/PdfChecker.java:83-87 | a heading word alone between spaces on a line is found, at that line or earlier |
| Patterns.HeadingLineAt | src/main/java/org/sigsoft/sfc/PdfChecker.java:83-87 | that line matches the heading pattern from its start |
| Patterns.HeadingAtWord | src/main/java/org/sigsoft/sfc/PdfChecker.java:84 | blanks, a heading word and blanks up to a line end make a heading match |
| Patterns.CaptionStripped | src/main/java/org/sigsoft/sfc/PdfChecker.java:307-313 | a caption match, stripped, is the text from the caption word to its end |
| Patterns.AnyTokenIff | src/main/java/org/sigsoft/sfc/PdfChecker.java:286-287 | the `.*(tokens).*` search succeeds exactly when some token occurs |
| Documents.Normalised | src/main/java/org/sigsoft/PdfDocument.java:103-141 | a metadata entry is stripped, and absent exactly when missing or all whitespace |
| Documents.MetaDataCreator | src/main/java/org/sigsoft/PdfDocument.java:120-128 | the creator is present exactly when stored and non-empty, and is then unchanged |
| Roster.AfterRow | src/main/java/org/sigsoft/sfc/MetaData.java:68-91 | a row's paper gains exactly the row's author at the end, or is created with the row's title and that author; other papers are unchanged |
| Roster.AfterRows | src/main/java/org/sigsoft/sfc/MetaData.java:60-66 | after processing rows every named paper exists, and no paper is lost |
| Roster.AuthorsFor | src/main/java/org/sigsoft/sfc/MetaData.java:68-81 | the authors the rows give a paper are at most one per row |
| Roster.FirstRowFor | src/main/java/org/sigsoft/sfc/MetaData.java:83-91 | the first row naming a paper, or none when no row names it |
| Roster.AfterRowsHas | src/main/java/org/sigsoft/sfc/MetaData.java:83-91 | a paper exists exactly when it existed or some row names it, and it is filed under its own id |
| Roster.AfterRowsAuthors | src/main/java/org/sigsoft/sfc/MetaData.java:68-81 | a paper's authors grow by exactly the rows naming it, in row order |
| Roster.AfterRowsTitle | src/main/java/org/sigsoft/sfc/MetaData.java:83-91 | a paper keeps its title; a new paper gets the title of the first row naming it |
| Roster.NoRowNoAuthors | src/main/java/org/sigsoft/sfc/MetaData.java:68-73 | rows that never name a paper give it no author |
| Roster.MetaData.constructor | src/main/java/org/sigsoft/sfc/MetaData.java:31 | the roster starts empty |
| Roster.MetaData.GetPaper | src/main/java/org/sigsoft/sfc/MetaData.java:33-35 | `getPaper`: present exactly when the id is stored, and then the stored paper |
| Roster.MetaData.ProcessRecord | src/main/java/org/sigsoft/sfc/MetaData.java:68-73 | the roster becomes the roster after the row, and the row's paper is returned |
| Roster.MetaData.HotCrpPaper | src/main/java/org/sigsoft/sfc/MetaData.java:83-91 | a stored paper is returned unchanged; otherwise a paper with the row's id and title and no authors is stored and returned |
| Roster.MetaData.LoadRecords | src/main/java/org/sigsoft/sfc/MetaData.java:60-66 | processing the rows in order leaves the roster after those rows |
| Roster.MetaData.ForFile | src/main/java/org/sigsoft/sfc/MetaData.java:93-99 | `forFile`: throws exactly when the id cannot be cut from the name, otherwise it returns the paper stored under that id |
| Roster.FileId | src/main/java/org/sigsoft/sfc/MetaData.java:94-97 | a name without ".pdf" throws; an id is shorter than the name minus ".pdf" |
| Roster.FileIdRoundTrip | src/main/java/org/sigsoft/sfc/MetaData.java:93-99 | `<prefix>-paper<id>.pdf` gives back `<id>` when the id holds no hyphen |
| Roster.FileIdWithoutMarker | src/main/java/org/sigsoft/sfc/MetaData.java:95-97 | without "-paper" the id starts at position 5 of the name, and a shorter name throws |
| Checker.LiteralMatch | src/main/java/org/sigsoft/sfc/PdfChecker.java:262-265 | a literal search succeeds exactly when the literal occurs, ignoring ASCII case, and returns it stripped |
| Checker.EitherMatch | src/main/java/org/sigsoft/sfc/PdfChecker.java:386-389 | the name-or-email search succeeds exactly when either occurs |
| Checker.IsACMIff | src/main/java/org/sigsoft/sfc/PdfChecker.java:103-122 | ACM exactly when the creator holds "acmart", page 1 holds "permissions@acm.org" or "ACM Reference format:", or page 1 starts with more than 30 consecutive line numbers |
| Checker.IsIEEE | src/main/java/org/sigsoft/sfc/PdfChecker.java:215-226 | IEEE exactly when not ACM |
| Checker.PermissionsMakeACM | src/main/java/org/sigsoft/sfc/PdfChecker.java:109-111 | the ACM copyright address on page 1 makes the paper ACM and not IEEE |
| Checker.PermissionsFootnote | src/test/java/org/sigsoft/sfc/PdfCheckerTest.java:180-185 | the address in a footnote makes the paper ACM and not IEEE |
| Checker.SafeTokensAreWords | src/main/java/org/sigsoft/sfc/PdfChecker.java:284-285 | the safe names and domains are non-empty lower-case ASCII words |
| Checker.BlindedIdentityIff | src/main/java/org/sigsoft/sfc/PdfChecker.java:283-288 | a text is blinded exactly when it contains a safe token, ignoring case, or "permissions@acm.org" (its dot matching any character but a line terminator) |
| Checker.BlindedByToken | src/main/java/org/sigsoft/sfc/PdfChecker.java:283-288 | a safe token anywhere blinds the text |
| Checker.BlindedAround | src/main/java/org/sigsoft/sfc/PdfChecker.java:283-288 | any text around a safe token is blinded |
| Checker.BlindedExamples | src/test/java/org/sigsoft/sfc/PdfCheckerTest.java:161-171 | "anonymous@fnerk.com", "blinded@for.review" and "john.doe@example.org" are blinded |
| Checker.FindEmails | src/main/java/org/sigsoft/sfc/PdfChecker.java:267-281 | the address found on page 1, stripped, exactly when it is not blinded |
| Checker.FindAuthorIdentity | src/main/java/org/sigsoft/sfc/PdfChecker.java:254-260 | the metadata author exactly when present and not blinded |
| Checker.PreviousWork | src/main/java/org/sigsoft/sfc/PdfChecker.java:321-326 | the previous-work match in the full text, stripped, exactly when there is one |
| Checker.NewlineIndex | src/main/java/org/sigsoft/sfc/PdfChecker.java:363 | `indexOf("\n")` is absent exactly when there is no newline, else the first newline |
| Checker.FirstLine | src/main/java/org/sigsoft/sfc/PdfChecker.java:362-369 | `getFirstLine`: empty without a newline, else the newline-free text before the first newline |
| Checker.AfterFirstLine | src/main/java/org/sigsoft/sfc/PdfChecker.java:162 | the first line, a newline and the rest make up the text |
| Checker.TitleLine | src/main/java/org/sigsoft/sfc/PdfChecker.java:350-355 | the corrected title line holds no newline |
| Checker.TitleLineOfLines | src/main/java/org/sigsoft/sfc/PdfChecker.java:350-355 | the title line is the first line stripped, or the second line when the first is the IEEE copyright line |
| Checker.Title | src/main/java/org/sigsoft/sfc/PdfChecker.java:350-360 | `getTitle`: a title is never blank; none only when the metadata title is absent |
| Checker.TitleFromLines | src/main/java/org/sigsoft/sfc/PdfChecker.java:350-360 | the title comes from the first line left after the line numbers (or the next one after a copyright line), else from the metadata title |
| Checker.TitleSkipsCharacter | src/main/java/org/sigsoft/sfc/PdfChecker.java:354 | after a copyright line without surrounding blanks, the title as written loses its first character; the corrected title is the whole line |
| Checker.TitleAsWrittenAfterCopyright | src/main/java/org/sigsoft/sfc/PdfChecker.java:354 | the title as written starts one character into the line after the copyright line |
| Checker.CopyrightLineHasNoNewline | src/main/java/org/sigsoft/sfc/PdfChecker.java:371-373 | a line matching `.*20XX IEEE.*` holds no newline |
| Checker.TitleLineAfterCopyright | src/main/java/org/sigsoft/sfc/PdfChecker.java:353-354 | the corrected title line after a copyright line is the next line |
| Checker.TitleSkipsCharacterExample | src/main/java/org/sigsoft/sfc/PdfChecker.java:354 | "20XX IEEE\nTest Infected\n" gives "est Infected" as written and "Test Infected" corrected |
| Checker.TitleThrows | src/main/java/org/sigsoft/sfc/PdfChecker.java:354 | "20XX IEEE\n" makes the title as written throw |
| Checker.IeeeLine | src/main/java/org/sigsoft/sfc/PdfChecker.java:371-373 | "20XX IEEE" is a copyright line and its own stripped form |
| Checker.TitleLinesAgree | src/test/java/org/sigsoft/sfc/PdfCheckerTest.java:253-257 | when stripping removed exactly one character of the first line (the blank of "XXXX 20XX IEEE "), written and corrected titles agree |
| Checker.TitleLinesAgreeWithoutCopyright | src/main/java/org/sigsoft/sfc/PdfChecker.java:350-355 | when the first line is not the IEEE copyright line, written and corrected titles agree |
| Checker.NonNumberedHeaderStripped | src/main/java/org/sigsoft/sfc/PdfChecker.java:151-167 | with fewer than 3 pages the page is unchanged; it loses its first line exactly when page 3's first line starts with the title |
| Checker.HeaderLast | src/main/java/org/sigsoft/sfc/PdfChecker.java:128-136 | one to three header lines follow the left column, the extra ones being non-numerals, and counting stops before a numeral |
| Checker.CountHeaderLines | src/main/java/org/sigsoft/sfc/PdfChecker.java:131-136 | the nested steps count those header lines |
| Checker.StripColumns | src/main/java/org/sigsoft/sfc/PdfChecker.java:137-144 | the numbered case drops the right column when it is longer than 30 lines |
| Checker.HeaderStrippedCases | src/main/java/org/sigsoft/sfc/PdfChecker.java:124-149 | a numbered page (30 < count < lines) keeps a suffix of the lines after its left column; any other page keeps its text, or loses its first line under running titles |
| Checker.ColumnsStrippedSuffix | src/main/java/org/sigsoft/sfc/PdfChecker.java:137-144 | the numbered case keeps a suffix of the lines after the left column |
| Checker.LastPageWith | src/main/java/org/sigsoft/sfc/PdfChecker.java:65-74 | the backward scan returns 0 or a page above the limit with a match, and no higher page has one |
| Checker.LastPageIs | src/main/java/org/sigsoft/sfc/PdfChecker.java:65-74 | the highest page with a match is what the scan returns |
| Checker.BeforeReferences | src/main/java/org/sigsoft/sfc/PdfChecker.java:81-97 | present exactly when the page has a heading line; then the header-stripped text before the heading |
| Checker.PageContainsFigure | src/main/java/org/sigsoft/sfc/PdfChecker.java:249-252 | present exactly when the page has a caption |
| Checker.CaptionMatch | src/main/java/org/sigsoft/sfc/PdfChecker.java:249-252 | on a page text with a caption, the text returned runs from the caption word (leading whitespace dropped) to the end of the match |
| Checker.Leeway | src/main/java/org/sigsoft/sfc/PdfChecker.java:239-246 | a diagnostic exactly when more than 8 characters precede the heading |
| Checker.LeewayReadsBack | src/main/java/org/sigsoft/sfc/PdfChecker.java:243-245 | the diagnostic starts with the length in decimal, then the tag |
| Checker.LeewayQuotesHead | src/main/java/org/sigsoft/sfc/PdfChecker.java:244-245 | without a newline among them, the first 8 characters are quoted unchanged |
| Checker.LeewayReported | src/test/java/org/sigsoft/sfc/PdfCheckerTest.java:121-126 | "ABCDEFGHIJ\n" gives "11-chars-before-REFERENCES: ABCDEFGH" |
| Checker.LeewayPageNumbers | src/test/java/org/sigsoft/sfc/PdfCheckerTest.java:115-119 | "1\n2\n3\n4\n" gives no diagnostic |
| Checker.LeewayOf | src/main/java/org/sigsoft/sfc/PdfChecker.java:238-246 | a diagnostic exactly when there is a heading and more than 8 characters precede it |
| Checker.ReportLeeway | src/main/java/org/sigsoft/sfc/PdfChecker.java:238-246 | the last step of `figuresAfterLimit` |
| Checker.FiguresAfterLimitOf | src/main/java/org/sigsoft/sfc/PdfChecker.java:228-231 | nothing when the paper fits the page limit |
| Checker.FigureAfterLimit | src/main/java/org/sigsoft/sfc/PdfChecker.java:232-237 | with captions after the limit, the caption of the highest such page |
| Checker.NoFigureAfterLimit | src/main/java/org/sigsoft/sfc/PdfChecker.java:238-246 | without them, the leeway diagnostic of the page after the limit |
| Checker.Founds | src/main/java/org/sigsoft/sfc/PdfChecker.java:385-397 | at most one match per author |
| Checker.Joined | src/main/java/org/sigsoft/sfc/PdfChecker.java:391-395 | `null` exactly when nothing was found |
| Checker.RevealingMetaDataOf | src/main/java/org/sigsoft/sfc/PdfChecker.java:379-402 | nothing without a roster paper; otherwise the comma-joined matches exactly when that join is neither null nor empty |
| Checker.AuthorRevealed | src/main/java/org/sigsoft/sfc/PdfChecker.java:385-397 | an author whose search finds some text is among those found, and the result is present and joins them |
| Checker.AuthorNamedRevealed | src/main/java/org/sigsoft/sfc/PdfChecker.java:379-402 | an author whose name or email occurs on page 1, ignoring case, is revealed, when both start with a non-blank character |
| Checker.FoundsEmptyIff | src/main/java/org/sigsoft/sfc/PdfChecker.java:385-397 | nothing is found exactly when no author's name or email occurs on page 1, ignoring case |
| Checker.LatexNameNotFound | src/test/java/org/sigsoft/sfc/PdfCheckerTest.java:299-305 | LaTeX-escaped names are not found in typeset text |
| Checker.NothingRevealed | src/main/java/org/sigsoft/sfc/PdfChecker.java:379-402 | when no name or email occurs, nothing is revealed |
| Checker.PdfChecker.constructor | src/main/java/org/sigsoft/sfc/PdfChecker.java:41-45 | limits 10 and 2, no roster paper |
| Checker.PdfChecker.SetDocument | src/main/java/org/sigsoft/sfc/PdfChecker.java:57-59 | only the document changes |
| Checker.PdfChecker.SetMetaData | src/main/java/org/sigsoft/sfc/PdfChecker.java:375-377 | only the roster paper changes |
| Checker.PdfChecker.StripHeader | src/main/java/org/sigsoft/sfc/PdfChecker.java:124-149 | `stripHeader` computes the header-stripped page |
| Checker.PdfChecker.IsReferencesPage | src/main/java/org/sigsoft/sfc/PdfChecker.java:81-97 | `isReferencesPage` computes the text before the heading |
| Checker.PdfChecker.ReferencesPage | src/main/java/org/sigsoft/sfc/PdfChecker.java:65-74 | 0 or a page with a heading line, with no higher page having one |
| Checker.PdfChecker.FiguresAfterLimit | src/main/java/org/sigsoft/sfc/PdfChecker.java:228-247 | `figuresAfterLimit` computes the after-limit finding |
| Checker.PdfChecker.LastFigure | src/main/java/org/sigsoft/sfc/PdfChecker.java:232-237 | the scan returns the caption of the highest page after the limit with one |
| Checker.PdfChecker.RevealingMetaData | src/main/java/org/sigsoft/sfc/PdfChecker.java:379-402 | the author loop computes the revealed roster data |
| LegacyChecker.FindOnPage | src/main/java/org/sigsoft/PdfChecker.java:189-203 | present exactly when the page has a match; the unstripped match text |
| LegacyChecker.FindOnPageStripped | src/main/java/org/sigsoft/PdfChecker.java:195-203 | the current checker finds the same text, stripped |
| LegacyChecker.IsACMIff | src/main/java/org/sigsoft/PdfChecker.java:100-108 | ACM exactly when the creator holds "acmart" or page 1 holds "permissions@acm.org" |
| LegacyChecker.ACMStaysACM | src/main/java/org/sigsoft/PdfChecker.java:100-108 | the current checker takes every earlier ACM paper for ACM |
| LegacyChecker.ReferenceFormatOnlyNow | src/main/java/org/sigsoft/PdfChecker.java:100-108 | a paper with only "ACM Reference format:" is ACM to the current checker and not to the earlier one |
| LegacyChecker.IsIEEE | src/main/java/org/sigsoft/PdfChecker.java:115-122 | IEEE exactly when not ACM |
| LegacyChecker.SafeTokensKept | src/main/java/org/sigsoft/PdfChecker.java:177-178 | every earlier safe token is a current one |
| LegacyChecker.BlindedEmailIff | src/main/java/org/sigsoft/PdfChecker.java:176-181 | blinded exactly when it contains one of the earlier safe tokens |
| LegacyChecker.BlindedStaysBlinded | src/main/java/org/sigsoft/PdfChecker.java:176-181 | whatever the earlier checker accepts as blinded, the current one does too |
| LegacyChecker.FindEmails | src/main/java/org/sigsoft/PdfChecker.java:159-174 | the unstripped address found on page 1, exactly when it is not blinded |
| LegacyChecker.FindAuthorIdentity | src/main/java/org/sigsoft/PdfChecker.java:150-152 | the stripped metadata author whenever it is not blank, unfiltered |
| LegacyChecker.AuthorIdentityFiltered | src/main/java/org/sigsoft/PdfChecker.java:150-152 | the current author report is the earlier one, filtered by blinding |
| LegacyChecker.PreviousWork | src/main/java/org/sigsoft/PdfChecker.java:210-217 | the earlier regex's first match in the full text, exactly when there is one, as found and not stripped |
| LegacyChecker.BeforeReferences | src/main/java/org/sigsoft/PdfChecker.java:80-94 | present exactly when there is a heading line; then the raw prefix of the page up to the line start where the heading matches |
| LegacyChecker.BeforeReferencesStripped | src/main/java/org/sigsoft/PdfChecker.java:86-91 | the current checker strips the header from that same text |
| LegacyChecker.PageContainsFigure | src/main/java/org/sigsoft/PdfChecker.java:145-148 | present exactly when a caption fills the rest of its line; then the text of the match, from a line start to a line end, blanks included |
| LegacyChecker.LineCaptionStillFound | src/main/java/org/sigsoft/PdfChecker.java:146 | a page with an earlier caption has a current one |
| LegacyChecker.Leeway | src/main/java/org/sigsoft/PdfChecker.java:135-142 | a diagnostic exactly when more than 8 characters precede the heading; it ends with their first 8 characters, unescaped |
| LegacyChecker.LeewaySameWithoutNewline | src/main/java/org/sigsoft/PdfChecker.java:140-141 | without a newline in the quoted characters, both checkers word the diagnostic alike |
| LegacyChecker.LeewayReported | src/test/java/org/sigsoft/PdfCheckerTest.java:107-113 | "123456789\n" gives "10-chars-before-REFERENCES: 12345678" |
| LegacyChecker.LeewayOf | src/main/java/org/sigsoft/PdfChecker.java:134-142 | a diagnostic exactly when there is a heading and more than 8 characters precede it |
| LegacyChecker.FiguresAfterLimitOf | src/main/java/org/sigsoft/PdfChecker.java:124-127 | nothing when the paper fits the page limit |
| LegacyChecker.FigureAfterLimit | src/main/java/org/sigsoft/PdfChecker.java:128-133 | with captions after the limit, the caption of the highest such page |
| LegacyChecker.NoFigureAfterLimit | src/main/java/org/sigsoft/PdfChecker.java:134-142 | without them, the leeway diagnostic of the page after the limit |
| LegacyChecker.ReportLeeway | src/main/java/org/sigsoft/PdfChecker.java:134-142 | the last step of `figuresAfterLimit` |
| LegacyChecker.PdfChecker.constructor | src/main/java/org/sigsoft/PdfChecker.java:40-44 | limits 10 and 2 |
| LegacyChecker.PdfChecker.TotalLimit | src/main/java/org/sigsoft/PdfChecker.java:48-50 | the total limit exceeds the page limit by the reference limit |
| LegacyChecker.PdfChecker.SetDocument | src/main/java/org/sigsoft/PdfChecker.java:56-58 | only the document changes |
| LegacyChecker.PdfChecker.IsReferencesPage | src/main/java/org/sigsoft/PdfChecker.java:80-94 | `isReferencesPage` computes the raw text before the heading |
| LegacyChecker.PdfChecker.ReferencesPage | src/main/java/org/sigsoft/PdfChecker.java:64-73 | 0 or a page with a heading line, with no higher page having one |
| LegacyChecker.PdfChecker.FiguresAfterLimit | src/main/java/org/sigsoft/PdfChecker.java:124-143 | `figuresAfterLimit` computes the after-limit finding |
| LegacyChecker.PdfChecker.LastFigure | src/main/java/org/sigsoft/PdfChecker.java:128-133 | the scan returns the caption of the highest page after the limit with one |
| Batch.Quoted | src/main/java/org/sigsoft/sfc/BatchChecker.java:62 | the quoted text sits between two two-character quotes |
| Batch.DetailReadsBack | src/main/java/org/sigsoft/sfc/BatchChecker.java:47-78 | each issue's detail reads back as what it reports: the page count or page, the style, the quoted text |
| Batch.Rendered | src/main/java/org/sigsoft/sfc/BatchChecker.java:86 | one rendered issue per issue, in order |
| Batch.Verdict | src/main/java/org/sigsoft/sfc/BatchChecker.java:83-87 | "no-issues   " for no issues; otherwise "issues-found {", the rendered issues joined by ", ", and "}" |
| Batch.ReportLineHead | src/main/java/org/sigsoft/sfc/BatchChecker.java:82-90 | the line starts with the file name padded to at least 24 columns and a blank; the verdict reads "no-issues   " exactly when there are no issues |
| Batch.ReportLineTitle | src/main/java/org/sigsoft/sfc/BatchChecker.java:88-90 | the line ends with the quoted title, or with "null" quoted when there is none |
| Batch.Slots | src/main/java/org/sigsoft/sfc/BatchChecker.java:45-79 | eight checks, each contributing at most one issue |
| Batch.Present | src/main/java/org/sigsoft/sfc/BatchChecker.java:45-79 | no more issues than checks |
| Batch.PresentHas | src/main/java/org/sigsoft/sfc/BatchChecker.java:45-79 | an issue is reported exactly when some check contributed it |
| Batch.PresentInOrder | src/main/java/org/sigsoft/sfc/BatchChecker.java:45-79 | the checks' issues come out in check order |
| Batch.IssuesInOrder | src/main/java/org/sigsoft/sfc/BatchChecker.java:45-79 | issues are in the fixed order size, reference page, template, after-limit, email, author, previous work, roster, with no kind twice |
| Batch.SizeIssuesIff | src/main/java/org/sigsoft/sfc/BatchChecker.java:46-53 | "oversize" exactly beyond the total limit; otherwise "paper-very-short" exactly up to max(2, pageLimit / 2) |
| Batch.CheckIssuesIff | src/main/java/org/sigsoft/sfc/BatchChecker.java:54-59 | reference-page and template issues exactly when their checks fire |
| Batch.FoundIssuesIff | src/main/java/org/sigsoft/sfc/BatchChecker.java:60-79 | each of the five findings is reported, with its text, exactly when its check returns that text |
| Batch.NoIssuesIff | src/main/java/org/sigsoft/sfc/BatchChecker.java:44-84 | "no issues" exactly when the paper is within its limits, in the right style and nothing revealing was found |
| Batch.Add | src/main/java/org/sigsoft/sfc/BatchChecker.java:47 | a fired check appends its issue, otherwise nothing |
| Batch.CollectIssues | src/main/java/org/sigsoft/sfc/BatchChecker.java:45-79 | the list built step by step is the issues of the findings |
| Batch.Report | src/main/java/org/sigsoft/sfc/BatchChecker.java:44-91 | the report line of the findings |
| Batch.FormatLine | src/main/java/org/sigsoft/sfc/BatchChecker.java:82-90 | the verdict, the title and the padded name, assembled as the report line |
| Batch.BatchChecker.constructor | src/main/java/org/sigsoft/sfc/BatchChecker.java:36 | the default style is IEEE |
| Batch.BatchChecker.PaperIssues | src/main/java/org/sigsoft/sfc/BatchChecker.java:44-91 | `paperIssues` prints the report line of the paper's issues and title |
| LegacyBatch.Slots | src/main/java/org/sigsoft/BatchChecker.java:46-67 | six checks, each contributing at most one issue |
| LegacyBatch.IssuesInOrder | src/main/java/org/sigsoft/BatchChecker.java:46-67 | the same fixed order as the current report |
| LegacyBatch.SizeIssueIff | src/main/java/org/sigsoft/BatchChecker.java:47-49 | "oversize" exactly beyond the total limit; never very-short, previous-work or roster issues |
| LegacyBatch.CheckIssuesIff | src/main/java/org/sigsoft/BatchChecker.java:50-55 | reference-page and template issues exactly when their checks fire |
| LegacyBatch.FoundIssuesIff | src/main/java/org/sigsoft/BatchChecker.java:56-67 | the three findings are reported exactly when their checks return them |
| LegacyBatch.SameIssuesAsCurrent | src/main/java/org/sigsoft/BatchChecker.java:45-67 | a paper that is not very short gets the same issues from the current aggregation given no previous work or roster data |
| LegacyBatch.CollectIssues | src/main/java/org/sigsoft/BatchChecker.java:46-67 | the list built step by step is the issues of the findings |
| LegacyBatch.BatchChecker.constructor | src/main/java/org/sigsoft/BatchChecker.java:43 | the default style is IEEE |
| LegacyBatch.BatchChecker.PaperIssues | src/main/java/org/sigsoft/BatchChecker.java:45-78 | the earlier `paperIssues` prints the report line of the earlier issues |

## Left out

**Outside the model**
- PDF loading and text extraction (Apache PDFBox) are not modelled. A document is a value holding its page texts, full text, file name and metadata entries.
- `processPaper`, `displayPages`, command-line handling, `main`, printing and logging are left out: they are input and output only.
- CSV parsing and class-path loading in `MetaData.loadHotCRPauthors` are left out. `Roster.MetaData.LoadRecords` takes rows that are already parsed.
- The e-mail-shape and previous-work regular expressions are parameters (`Checker.Searches`), not matchers. Both checkers use the same e-mail regex, so they share that parameter. The earlier previous-work regex lacks "studies" and "findings?", so `LegacyChecker.PreviousWork` takes its own search function, and no lemma relates the two previous-work results.
- The static cache of the previous-work pattern is a memo; the parameter stands for it.
- `titlesConsistent` is called by tests but defined in no file shown, and is not modelled.

**Java behaviour simplified**
- `Integer.parseInt` accepts only runs of ASCII digits here: no sign and no 32-bit overflow.
- Case-insensitive matching folds ASCII only, as Java does without UNICODE_CASE. Names are matched without Unicode normalisation.
- `^` and `$` are anchored at '\n' only. '\r', U+0085, U+2028 and U+2029 are not line ends for them. `.` still refuses all of Java's line terminators.

**Preconditions and value semantics**
- `PdfChecker` methods that may strip a header require `Documents.Page3HasNewline`. Java throws when page 3 has no newline.
- Page numbers must lie in 1..pageCount. The operations reading page 1 require at least one page.
- `pageLimit` is a `nat`.
- Roster papers are values. Aliasing between a paper returned by `getPaper` and the roster's own copy is not modelled.
- Checker.RevealingMetaDataOf: `result == ""` compares references in Java. It is modelled as value equality.
- Batch.BatchChecker.PaperIssues: `referencesPage` is called twice, as in the source. Both calls give the same value, because the scan only reads the document.

**The two batch reports**
- The earlier `PdfChecker` has no `getTitle`. LegacyBatch.BatchChecker.PaperIssues therefore takes the printed title as a parameter.
- No lemma states that the issue tags differ from one another.
- Batch.BatchChecker.PaperIssues: the current batch report prints the corrected title (`Checker.Title`, see Findings), not the one as written.

**The corrected title in header stripping**

`stripNonNumberedHeader` calls `getTitle`. The model uses the corrected title (`Checker.Title`, see Findings) there too. The two titles differ only when the first line of page 1, after its line numbers, is the IEEE copyright line (`Checker.TitleLinesAgreeWithoutCopyright`). Then the source compares page 3's first line with a title missing one character, or throws StringIndexOutOfBoundsException when nothing follows the copyright line. The members below carry that difference:
- Checker.NonNumberedHeaderStripped: decides running-title headers with the corrected title. It does not model the as-written title's lost character or its exception.
- Checker.HeaderStrippedCases: its running-title case rests on the corrected title, as in `Checker.NonNumberedHeaderStripped`.
- Checker.PdfChecker.StripHeader: strips headers with the corrected title. It never throws where the as-written `getTitle` would.
- Checker.BeforeReferences: the text before the heading is header-stripped with the corrected title.
- Checker.PdfChecker.IsReferencesPage: the text before the heading is header-stripped with the corrected title. It does not throw where the source would.
- Checker.PdfChecker.ReferencesPage: the scan does not propagate the exception the as-written title raises inside `stripHeader`.
- Checker.PdfChecker.FiguresAfterLimit: the leeway path header-strips with the corrected title. It does not throw where the source would.

**Character counts**

Java strings count UTF-16 code units. Dafny strings are sequences of Unicode scalar values. Outside the Basic Multilingual Plane, a character is two units in Java and one here. The members below therefore differ from the source on text with such characters, for example mathematical italic letters from PDF extraction:

- Checker.Leeway: the character count before the heading and the 8-character quote count scalar values. Java's `length()` counts UTF-16 units, and its `substring(0, 8)` can split a surrogate pair.
- LegacyChecker.Leeway: counts and quotes scalar values where Java counts UTF-16 units, as in `Checker.Leeway`.
- Text.PadRight: pads to 24 scalar values. `%-24s` pads to 24 UTF-16 units.
- Checker.TitleLineAsWritten: the offset `line1.length() + 2` is counted in scalar values, not UTF-16 units.

## Findings

| source | as written | input that shows it | evidently intended | confidence | as-written member | corrected member |
|---|---|---|---|---|---|---|
| src/main/java/org/sigsoft/sfc/PdfChecker.java:354 | after an IEEE copyright line the title is read from `line1.length() + 2`, where `line1` is the stripped line, so the offset is right only when stripping removed exactly one character | page 1 "20XX IEEE\nTest Infected\n" gives the title "est Infected"; page 1 "20XX IEEE\n" throws StringIndexOutOfBoundsException | the title is the whole line after the copyright line | not executed | Checker.TitleLineAsWritten (shown by Checker.TitleSkipsCharacter, Checker.TitleSkipsCharacterExample, Checker.TitleThrows) | Checker.TitleLine (Checker.TitleLineAfterCopyright, Checker.TitleLinesAgree) |
