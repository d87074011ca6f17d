/** Issue aggregation of the current batch checker
    (`org.sigsoft.sfc.BatchChecker.paperIssues`): the checks run on one
    paper, each finding becomes one tagged issue in a fixed order, and the
    issues are rendered into a single report line. */
module Batch {
  import opened Wrappers
  import opened Text
  import opened Patterns
  import opened Documents
  import opened Roster
  import Checker

  /** The findings, one constructor per tag. */
  datatype Issue =
    | Oversize(pages: nat)
    | VeryShort(pages: nat)
    | ReferencePageAfterLimit(page: nat)
    | WrongTemplate(style: string)
    | TextAfterLimit(text: string)
    | RevealingEmail(email: string)
    | RevealingMetaDataAuthor(author: string)
    | PreviousWorkMentioned(mention: string)
    | RevealingRosterData(data: string)

  /** The position of an issue's kind in the report; the size issues share one. */
  function Rank(i: Issue): nat {
    match i
    case Oversize(_) => 0
    case VeryShort(_) => 0
    case ReferencePageAfterLimit(_) => 1
    case WrongTemplate(_) => 2
    case TextAfterLimit(_) => 3
    case RevealingEmail(_) => 4
    case RevealingMetaDataAuthor(_) => 5
    case PreviousWorkMentioned(_) => 6
    case RevealingRosterData(_) => 7
  }

  /** A text between the double backquote and the double quote the report uses. */
  function Quoted(s: string): (r: string)
    ensures |r| == |s| + 4 && r[2..|r| - 2] == s
  {
    "``" + s + "''"
  }

  /** The tag that names an issue's kind in the report. */
  function Tag(i: Issue): string {
    match i
    case Oversize(_) => "oversize"
    case VeryShort(_) => "paper-very-short"
    case ReferencePageAfterLimit(_) => "reference-page-after-limit"
    case WrongTemplate(_) => "wrong-template"
    case TextAfterLimit(_) => "non-references-after-p10"
    case RevealingEmail(_) => "author-revealing-email"
    case RevealingMetaDataAuthor(_) => "possibly-author-revealing-meta-data"
    case PreviousWorkMentioned(_) => "previous-work-mentioned"
    case RevealingRosterData(_) => "possibly-identity-revealing-data"
  }

  /** What follows the tag: a page count or number in decimal, the style
      demanded, or the quoted text found. */
  function Detail(i: Issue): string {
    match i
    case Oversize(n) => Decimal(n)
    case VeryShort(n) => Decimal(n)
    case ReferencePageAfterLimit(p) => Decimal(p)
    case WrongTemplate(s) => "must-be-" + s
    case TextAfterLimit(t) => Quoted(t)
    case RevealingEmail(e) => Quoted(e)
    case RevealingMetaDataAuthor(a) => Quoted(a)
    case PreviousWorkMentioned(m) => Quoted(m)
    case RevealingRosterData(d) => Quoted(d)
  }

  /** How an issue is printed: its tag, a colon and its detail. */
  function Render(i: Issue): string {
    Tag(i) + ":" + Detail(i)
  }

  /** The detail of an issue reads back as what it reports: the number, the
      style, or the text between the quotes. */
  lemma DetailReadsBack(i: Issue)
    ensures (i.Oversize? || i.VeryShort?) ==> IsNumeral(Detail(i)) && NumeralValue(Detail(i)) == i.pages
    ensures i.ReferencePageAfterLimit? ==> IsNumeral(Detail(i)) && NumeralValue(Detail(i)) == i.page
    ensures i.WrongTemplate? ==> Detail(i)[8..] == i.style
    ensures i.TextAfterLimit? ==> Detail(i)[2..|Detail(i)| - 2] == i.text
    ensures i.RevealingEmail? ==> Detail(i)[2..|Detail(i)| - 2] == i.email
    ensures i.RevealingMetaDataAuthor? ==> Detail(i)[2..|Detail(i)| - 2] == i.author
    ensures i.PreviousWorkMentioned? ==> Detail(i)[2..|Detail(i)| - 2] == i.mention
    ensures i.RevealingRosterData? ==> Detail(i)[2..|Detail(i)| - 2] == i.data
  {
    match i
    case Oversize(n) => DecimalRoundTrip(n);
    case VeryShort(n) => DecimalRoundTrip(n);
    case ReferencePageAfterLimit(p) => DecimalRoundTrip(p);
    case _ =>
  }

  function Rendered(issues: seq<Issue>): (r: seq<string>)
    ensures |r| == |issues| && forall k :: 0 <= k < |issues| ==> r[k] == Render(issues[k])
  {
    if issues == [] then [] else [Render(issues[0])] + Rendered(issues[1..])
  }

  /** `String.format("%s", title)`: a missing title prints as "null". */
  function TitleText(title: Option<string>): string {
    match title
    case None => "null"
    case Some(t) => t
  }

  const NoIssues := "no-issues   "
  const IssuesFound := "issues-found {"

  /** The verdict: "no-issues" padded, or the issues between braces. */
  function Verdict(issues: seq<Issue>): (r: string)
    ensures |r| >= |NoIssues|
    ensures issues == [] ==> r == NoIssues
    ensures issues != [] ==> r[0] == 'i' && r[|r| - 1] == '}'
    ensures issues != [] ==> |IssuesFound| < |r| && r[..|IssuesFound|] == IssuesFound &&
                             r[|IssuesFound|..|r| - 1] == Join(Rendered(issues), ", ")
  {
    if issues == [] then NoIssues
    else
      var body := Join(Rendered(issues), ", ");
      var r := IssuesFound + body + "}";
      assert r[0] == 'i';
      assert r[..|IssuesFound|] == IssuesFound;
      assert r[|IssuesFound|..|r| - 1] == body;
      r
  }

  /** The report line: the file name left-justified to 24 columns, a blank,
      the verdict and the quoted title. */
  function ReportLine(fileName: string, issues: seq<Issue>, title: Option<string>): string {
    PadRight(fileName, 24) + " " + (Verdict(issues) + " " + Quoted(TitleText(title)))
  }

  /** Where the parts of a report line sit in it. */
  lemma LineParts(padded: string, verdict: string, quoted: string, m: nat)
    requires m <= |verdict|
    ensures var r := padded + " " + (verdict + " " + quoted);
            && r[..|padded|] == padded && r[|padded|] == ' '
            && r[|padded| + 1..|padded| + 1 + m] == verdict[..m]
            && r[|r| - |quoted|..] == quoted
  {
    var tail := verdict + " " + quoted;
    var r := padded + " " + tail;
    assert r[|padded| + 1..] == tail;
    assert r[|padded| + 1..|padded| + 1 + m] == tail[..m];
    assert r[|r| - |quoted|..] == tail[|tail| - |quoted|..];
  }

  /** The report line starts with the padded file name and a blank, and its
      verdict starts with "no-issues" exactly when there are no issues. */
  lemma ReportLineHead(fileName: string, issues: seq<Issue>, title: Option<string>)
    ensures |PadRight(fileName, 24)| >= 24
    ensures |ReportLine(fileName, issues, title)| > |PadRight(fileName, 24)| + |NoIssues|
    ensures ReportLine(fileName, issues, title)[..|PadRight(fileName, 24)|] == PadRight(fileName, 24)
    ensures ReportLine(fileName, issues, title)[|PadRight(fileName, 24)|] == ' '
    ensures var p := |PadRight(fileName, 24)|;
            issues == [] <==> ReportLine(fileName, issues, title)[p + 1..p + 1 + |NoIssues|] == NoIssues
  {
    var v := Verdict(issues);
    LineParts(PadRight(fileName, 24), v, Quoted(TitleText(title)), |NoIssues|);
    if issues != [] {
      assert v[..|NoIssues|][0] != NoIssues[0];
    }
  }

  /** The report line ends with the quoted title, "null" when there is none. */
  lemma ReportLineTitle(fileName: string, issues: seq<Issue>, title: Option<string>)
    ensures var r := ReportLine(fileName, issues, title);
            var q := Quoted(if title.Some? then title.value else "null");
            |r| >= |q| && r[|r| - |q|..] == q
  {
    LineParts(PadRight(fileName, 24), Verdict(issues), Quoted(TitleText(title)), 0);
  }

  /** `Math.max`. */
  function Max(a: int, b: int): int {
    if a >= b then a else b
  }

  /** A paper at most this long counts as very short. */
  function Minimum(pageLimit: nat): int {
    Max(2, pageLimit / 2)
  }

  /** The size issue: oversize beyond the total limit, otherwise very short
      up to the minimum. */
  function SizeIssue(pages: nat, pageLimit: nat, referenceLimit: int): Option<Issue> {
    if pages > pageLimit + referenceLimit then Some(Oversize(pages))
    else if pages <= Minimum(pageLimit) then Some(VeryShort(pages))
    else None
  }

  /** The style demanded is not the paper's; any other style than "ACM" or
      "IEEE" is never wrong. */
  predicate WrongStyle(d: Document, style: string)
    requires d.PageCount() >= 1
  {
    (style == "ACM" && !Checker.IsACM(d)) || (style == "IEEE" && !Checker.IsIEEE(d))
  }

  /** The references page the checker reports. */
  function ReferencesPageOf(d: Document): nat {
    Checker.LastPageWith(d, ReferencesHeading, d.PageCount(), 0)
  }

  /** What the checks of one paper return, before they become issues. */
  datatype Findings = Findings(
    pages: nat,
    referencesPage: nat,
    wrongStyle: bool,
    textAfterLimit: Option<string>,
    emails: Option<string>,
    authors: Option<string>,
    previousWork: Option<string>,
    revealingMeta: Option<string>)

  /** The checks of `paperIssues`, run on a paper. */
  function FindingsOf(d: Document, pageLimit: nat, metaData: Option<PaperMetaData>,
                      searches: Checker.Searches, style: string): Findings
    requires d.PageCount() >= 1 && Page3HasNewline(d)
  {
    Findings(d.PageCount(), ReferencesPageOf(d), WrongStyle(d, style),
             Checker.FiguresAfterLimitOf(d, pageLimit), Checker.FindEmails(d, searches),
             Checker.FindAuthorIdentity(d), Checker.PreviousWork(d, searches),
             Checker.RevealingMetaDataOf(d, metaData))
  }

  /** The issue each check may contribute, in the order the checks run. */
  function Slots(f: Findings, pageLimit: nat, referenceLimit: int, style: string): (r: seq<Option<Issue>>)
    ensures |r| == 8
  {
    [ SizeIssue(f.pages, pageLimit, referenceLimit),
      if f.referencesPage > pageLimit + 1 then Some(ReferencePageAfterLimit(f.referencesPage)) else None,
      if f.wrongStyle then Some(WrongTemplate(style)) else None,
      if f.textAfterLimit.Some? then Some(TextAfterLimit(f.textAfterLimit.value)) else None,
      if f.emails.Some? then Some(RevealingEmail(f.emails.value)) else None,
      if f.authors.Some? then Some(RevealingMetaDataAuthor(f.authors.value)) else None,
      if f.previousWork.Some? then Some(PreviousWorkMentioned(f.previousWork.value)) else None,
      if f.revealingMeta.Some? then Some(RevealingRosterData(f.revealingMeta.value)) else None ]
  }

  /** The issue a slot holds, as a list of zero or one. */
  function Listed(slot: Option<Issue>): seq<Issue> {
    if slot.Some? then [slot.value] else []
  }

  /** The issues that are there, in slot order. */
  function Present(slots: seq<Option<Issue>>): (r: seq<Issue>)
    ensures |r| <= |slots|
  {
    if slots == [] then [] else Present(slots[..|slots| - 1]) + Listed(slots[|slots| - 1])
  }

  /** The issues of a set of findings, in report order. */
  function Issues(f: Findings, pageLimit: nat, referenceLimit: int, style: string): seq<Issue> {
    Present(Slots(f, pageLimit, referenceLimit, style))
  }

  /** A slot filled after others adds its issue, if any, after theirs. */
  lemma PresentSnoc(slots: seq<Option<Issue>>, slot: Option<Issue>)
    ensures Present(slots + [slot]) == Present(slots) + Listed(slot)
  {
    assert (slots + [slot])[..|slots|] == slots;
  }

  /** Eight slots filled one after the other list their issues in order. */
  lemma PresentEight(a: Option<Issue>, b: Option<Issue>, c: Option<Issue>, d: Option<Issue>,
                     e: Option<Issue>, f: Option<Issue>, g: Option<Issue>, h: Option<Issue>)
    ensures Present([a, b, c, d, e, f, g, h])
         == [] + Listed(a) + Listed(b) + Listed(c) + Listed(d) + Listed(e) + Listed(f) + Listed(g) + Listed(h)
  {
    var s0: seq<Option<Issue>> := [];
    var s1 := s0 + [a];
    var s2 := s1 + [b];
    var s3 := s2 + [c];
    var s4 := s3 + [d];
    var s5 := s4 + [e];
    var s6 := s5 + [f];
    var s7 := s6 + [g];
    var s8 := s7 + [h];
    PresentSnoc(s0, a);
    PresentSnoc(s1, b);
    PresentSnoc(s2, c);
    PresentSnoc(s3, d);
    PresentSnoc(s4, e);
    PresentSnoc(s5, f);
    PresentSnoc(s6, g);
    PresentSnoc(s7, h);
    assert s8 == [a, b, c, d, e, f, g, h];
  }

  /** The issues of a paper, in report order. */
  function IssuesOf(d: Document, pageLimit: nat, referenceLimit: int, metaData: Option<PaperMetaData>,
                    searches: Checker.Searches, style: string): seq<Issue>
    requires d.PageCount() >= 1 && Page3HasNewline(d)
  {
    Issues(FindingsOf(d, pageLimit, metaData, searches, style), pageLimit, referenceLimit, style)
  }

  /** An issue is reported exactly when some slot holds it. */
  lemma {:induction false} PresentHas(slots: seq<Option<Issue>>, i: Issue)
    ensures i in Present(slots) <==> Some(i) in slots
  {
    if slots != [] {
      var init := slots[..|slots| - 1];
      assert slots == init + [slots[|slots| - 1]];
      PresentHas(init, i);
    }
  }

  /** Slot k can only hold an issue of rank k. */
  predicate Ranked(slots: seq<Option<Issue>>) {
    forall k :: 0 <= k < |slots| && slots[k].Some? ==> Rank(slots[k].value) == k
  }

  lemma SlotsRanked(f: Findings, pageLimit: nat, referenceLimit: int, style: string)
    ensures Ranked(Slots(f, pageLimit, referenceLimit, style))
  {
  }

  /** With ranked slots, an issue is reported exactly when the slot of its
      rank holds it. */
  lemma PresentRanked(slots: seq<Option<Issue>>, i: Issue)
    requires Ranked(slots)
    ensures i in Present(slots) <==> Rank(i) < |slots| && slots[Rank(i)] == Some(i)
  {
    PresentHas(slots, i);
    if Some(i) in slots {
      var k :| 0 <= k < |slots| && slots[k] == Some(i);
      assert Rank(slots[k].value) == k;
    }
  }

  /** Issues in strictly increasing rank: at most one of each kind, in the
      fixed order of the report. */
  predicate InReportOrder(issues: seq<Issue>) {
    forall a, b :: 0 <= a < b < |issues| ==> Rank(issues[a]) < Rank(issues[b])
  }

  /** Ranked slots give their issues in report order, all of rank below the
      number of slots. */
  lemma {:induction false} PresentInOrder(slots: seq<Option<Issue>>)
    requires Ranked(slots)
    ensures InReportOrder(Present(slots))
    ensures forall n :: 0 <= n < |Present(slots)| ==> Rank(Present(slots)[n]) < |slots|
  {
    if slots != [] {
      var init := slots[..|slots| - 1];
      PresentInOrder(init);
    }
  }

  /** The issues come in the fixed order: size, reference page, template,
      material after the limit, email, metadata author, previous work,
      roster data; so no kind occurs twice. */
  lemma IssuesInOrder(f: Findings, pageLimit: nat, referenceLimit: int, style: string)
    ensures InReportOrder(Issues(f, pageLimit, referenceLimit, style))
  {
    SlotsRanked(f, pageLimit, referenceLimit, style);
    PresentInOrder(Slots(f, pageLimit, referenceLimit, style));
  }

  /** Size: "oversize" exactly beyond the total limit; otherwise
      "paper-very-short" exactly up to max(2, pageLimit / 2); never both. */
  lemma SizeIssuesIff(f: Findings, pageLimit: nat, referenceLimit: int, style: string)
    ensures Oversize(f.pages) in Issues(f, pageLimit, referenceLimit, style) <==> f.pages > pageLimit + referenceLimit
    ensures VeryShort(f.pages) in Issues(f, pageLimit, referenceLimit, style) <==>
              f.pages <= pageLimit + referenceLimit && f.pages <= Max(2, pageLimit / 2)
  {
    SlotsRanked(f, pageLimit, referenceLimit, style);
    PresentRanked(Slots(f, pageLimit, referenceLimit, style), Oversize(f.pages));
    PresentRanked(Slots(f, pageLimit, referenceLimit, style), VeryShort(f.pages));
  }

  /** The reference page and template issues are reported exactly when
      their checks fire. */
  lemma CheckIssuesIff(f: Findings, pageLimit: nat, referenceLimit: int, style: string)
    ensures ReferencePageAfterLimit(f.referencesPage) in Issues(f, pageLimit, referenceLimit, style) <==>
              f.referencesPage > pageLimit + 1
    ensures WrongTemplate(style) in Issues(f, pageLimit, referenceLimit, style) <==> f.wrongStyle
  {
    SlotsRanked(f, pageLimit, referenceLimit, style);
    PresentRanked(Slots(f, pageLimit, referenceLimit, style), ReferencePageAfterLimit(f.referencesPage));
    PresentRanked(Slots(f, pageLimit, referenceLimit, style), WrongTemplate(style));
  }

  /** Each finding is reported, quoted, exactly when its check returns it. */
  lemma FoundIssuesIff(f: Findings, pageLimit: nat, referenceLimit: int, style: string, s: string)
    ensures var issues := Issues(f, pageLimit, referenceLimit, style);
            && (TextAfterLimit(s) in issues <==> f.textAfterLimit == Some(s))
            && (RevealingEmail(s) in issues <==> f.emails == Some(s))
            && (RevealingMetaDataAuthor(s) in issues <==> f.authors == Some(s))
            && (PreviousWorkMentioned(s) in issues <==> f.previousWork == Some(s))
            && (RevealingRosterData(s) in issues <==> f.revealingMeta == Some(s))
  {
    var slots := Slots(f, pageLimit, referenceLimit, style);
    SlotsRanked(f, pageLimit, referenceLimit, style);
    PresentRanked(slots, TextAfterLimit(s));
    PresentRanked(slots, RevealingEmail(s));
    PresentRanked(slots, RevealingMetaDataAuthor(s));
    PresentRanked(slots, PreviousWorkMentioned(s));
    PresentRanked(slots, RevealingRosterData(s));
  }

  /** A paper within its limits, in the right style and with nothing
      revealing, gets the "no-issues" line, and only such a paper. */
  lemma NoIssuesIff(f: Findings, pageLimit: nat, referenceLimit: int, style: string)
    ensures Issues(f, pageLimit, referenceLimit, style) == [] <==>
              && Max(2, pageLimit / 2) < f.pages <= pageLimit + referenceLimit
              && f.referencesPage <= pageLimit + 1 && !f.wrongStyle
              && f.textAfterLimit.None? && f.emails.None? && f.authors.None?
              && f.previousWork.None? && f.revealingMeta.None?
  {
    var slots := Slots(f, pageLimit, referenceLimit, style);
    var issues := Issues(f, pageLimit, referenceLimit, style);
    if issues == [] {
      forall k | 0 <= k < 8 ensures slots[k].None? {
        if slots[k].Some? { PresentHas(slots, slots[k].value); }
      }
      assert slots[0].None? && slots[1].None? && slots[2].None? && slots[3].None?;
      assert slots[4].None? && slots[5].None? && slots[6].None? && slots[7].None?;
    } else {
      PresentHas(slots, issues[0]);
    }
  }

  /** `issues.add(...)` when the check fired. */
  method Add(issues: seq<Issue>, slot: Option<Issue>) returns (r: seq<Issue>)
    ensures r == issues + Listed(slot)
  {
    r := issues;
    if slot.Some? {
      r := r + [slot.value];
    }
  }

  /** `BatchChecker`: the style every paper must have. */
  class BatchChecker {
    var style: string

    /** The default style is IEEE. */
    constructor()
      ensures style == "IEEE"
    {
      style := "IEEE";
    }

    /** `paperIssues`: run the checks on the paper and report what they find. */
    method PaperIssues(pc: Checker.PdfChecker) returns (report: string)
      requires pc.document.PageCount() >= 1 && Page3HasNewline(pc.document)
      ensures report == ReportLine(pc.document.fileName,
                                   IssuesOf(pc.document, pc.pageLimit, pc.referenceLimit, pc.metaData, pc.searches, style),
                                   Checker.Title(pc.document))
    {
      var referencesPage := pc.ReferencesPage();
      if referencesPage > pc.pageLimit + 1 {
        referencesPage := pc.ReferencesPage();
      }
      var wrongStyle := (style == "ACM" && !Checker.IsACM(pc.document)) || (style == "IEEE" && !Checker.IsIEEE(pc.document));
      var textAfterLimit := pc.FiguresAfterLimit();
      var emails := Checker.FindEmails(pc.document, pc.searches);
      var authors := Checker.FindAuthorIdentity(pc.document);
      var previousWork := Checker.PreviousWork(pc.document, pc.searches);
      var revealingMeta := pc.RevealingMetaData();
      var findings := Findings(pc.document.PageCount(), referencesPage, wrongStyle, textAfterLimit,
                               emails, authors, previousWork, revealingMeta);
      assert findings == FindingsOf(pc.document, pc.pageLimit, pc.metaData, pc.searches, style);
      report := Report(pc.document.fileName, findings, pc.pageLimit, pc.referenceLimit, style, Checker.Title(pc.document));
    }
  }

  /** The issue list of `paperIssues`: the issue each check contributes, if
      any, added in the order the checks run. */
  method CollectIssues(f: Findings, pageLimit: nat, referenceLimit: int, style: string) returns (issues: seq<Issue>)
    ensures issues == Issues(f, pageLimit, referenceLimit, style)
  {
    var size: Option<Issue> := None;
    if f.pages > pageLimit + referenceLimit {
      size := Some(Oversize(f.pages));
    } else {
      var minimum := Max(2, pageLimit / 2);
      if f.pages <= minimum {
        size := Some(VeryShort(f.pages));
      }
    }
    var late := if f.referencesPage > pageLimit + 1 then Some(ReferencePageAfterLimit(f.referencesPage)) else None;
    var template := if f.wrongStyle then Some(WrongTemplate(style)) else None;
    var after := if f.textAfterLimit.Some? then Some(TextAfterLimit(f.textAfterLimit.value)) else None;
    var email := if f.emails.Some? then Some(RevealingEmail(f.emails.value)) else None;
    var author := if f.authors.Some? then Some(RevealingMetaDataAuthor(f.authors.value)) else None;
    var previous := if f.previousWork.Some? then Some(PreviousWorkMentioned(f.previousWork.value)) else None;
    var roster := if f.revealingMeta.Some? then Some(RevealingRosterData(f.revealingMeta.value)) else None;
    assert [size, late, template, after, email, author, previous, roster] == Slots(f, pageLimit, referenceLimit, style);

    issues := [];
    issues := Add(issues, size);
    issues := Add(issues, late);
    issues := Add(issues, template);
    issues := Add(issues, after);
    issues := Add(issues, email);
    issues := Add(issues, author);
    issues := Add(issues, previous);
    issues := Add(issues, roster);
    PresentEight(size, late, template, after, email, author, previous, roster);
  }

  /** The report line of `paperIssues`: the issues of the checks, rendered. */
  method Report(fileName: string, f: Findings, pageLimit: nat, referenceLimit: int, style: string, title: Option<string>)
    returns (report: string)
    ensures report == ReportLine(fileName, Issues(f, pageLimit, referenceLimit, style), title)
  {
    var issues := CollectIssues(f, pageLimit, referenceLimit, style);
    report := FormatLine(fileName, issues, title);
  }

  /** The end of `paperIssues`: the verdict with the issues joined by ", ",
      the quoted title, and the file name padded to 24 columns in front. */
  method FormatLine(fileName: string, issues: seq<Issue>, title: Option<string>) returns (report: string)
    ensures report == ReportLine(fileName, issues, title)
  {
    var result: string;
    if issues == [] {
      result := NoIssues;
    } else {
      result := IssuesFound + Join(Rendered(issues), ", ") + "}";
    }
    assert result == Verdict(issues);
    result := result + " " + Quoted(TitleText(title));
    report := PadRight(fileName, 24) + " " + result;
  }
}
