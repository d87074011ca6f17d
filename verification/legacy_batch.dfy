/** Issue aggregation of the earlier batch checker
    (`org.sigsoft.BatchChecker.paperIssues`): the same report line as the
    current one, from fewer checks — no very-short paper, no previous work,
    no roster data — run by the earlier checker. */
module LegacyBatch {
  import opened Wrappers
  import opened Patterns
  import opened Documents
  import Batch
  import Checker
  import LegacyChecker

  /** What the earlier checks of one paper return. */
  datatype Findings = Findings(
    pages: nat,
    referencesPage: nat,
    wrongStyle: bool,
    textAfterLimit: Option<string>,
    emails: Option<string>,
    authors: Option<string>)

  /** The style demanded is not the paper's, by the earlier tests. */
  predicate WrongStyle(d: Document, style: string)
    requires d.PageCount() >= 1
  {
    (style == "ACM" && !LegacyChecker.IsACM(d)) || (style == "IEEE" && !LegacyChecker.IsIEEE(d))
  }

  /** The checks of the earlier `paperIssues`, run on a paper. */
  function FindingsOf(d: Document, pageLimit: nat, searches: Checker.Searches, style: string): Findings
    requires d.PageCount() >= 1
  {
    Findings(d.PageCount(), Batch.ReferencesPageOf(d), WrongStyle(d, style),
             LegacyChecker.FiguresAfterLimitOf(d, pageLimit), LegacyChecker.FindEmails(d, searches),
             LegacyChecker.FindAuthorIdentity(d))
  }

  /** The issue each earlier check may contribute, in the order they run. */
  function Slots(f: Findings, pageLimit: nat, referenceLimit: int, style: string): (r: seq<Option<Batch.Issue>>)
    ensures |r| == 6
  {
    [ if f.pages > pageLimit + referenceLimit then Some(Batch.Oversize(f.pages)) else None,
      if f.referencesPage > pageLimit + 1 then Some(Batch.ReferencePageAfterLimit(f.referencesPage)) else None,
      if f.wrongStyle then Some(Batch.WrongTemplate(style)) else None,
      if f.textAfterLimit.Some? then Some(Batch.TextAfterLimit(f.textAfterLimit.value)) else None,
      if f.emails.Some? then Some(Batch.RevealingEmail(f.emails.value)) else None,
      if f.authors.Some? then Some(Batch.RevealingMetaDataAuthor(f.authors.value)) else None ]
  }

  /** The issues of a set of earlier findings, in report order. */
  function Issues(f: Findings, pageLimit: nat, referenceLimit: int, style: string): seq<Batch.Issue> {
    Batch.Present(Slots(f, pageLimit, referenceLimit, style))
  }

  /** The issues of a paper by the earlier checks. */
  function IssuesOf(d: Document, pageLimit: nat, referenceLimit: int, searches: Checker.Searches, style: string): seq<Batch.Issue>
    requires d.PageCount() >= 1
  {
    Issues(FindingsOf(d, pageLimit, searches, style), pageLimit, referenceLimit, style)
  }

  /** Six slots filled one after the other list their issues in order. */
  lemma PresentSix(a: Option<Batch.Issue>, b: Option<Batch.Issue>, c: Option<Batch.Issue>,
                   d: Option<Batch.Issue>, e: Option<Batch.Issue>, f: Option<Batch.Issue>)
    ensures Batch.Present([a, b, c, d, e, f]) == [] + Batch.Listed(a) + Batch.Listed(b) + Batch.Listed(c) + Batch.Listed(d) + Batch.Listed(e) + Batch.Listed(f)
  {
    var s0: seq<Option<Batch.Issue>> := [];
    var s1 := s0 + [a];
    var s2 := s1 + [b];
    var s3 := s2 + [c];
    var s4 := s3 + [d];
    var s5 := s4 + [e];
    var s6 := s5 + [f];
    Batch.PresentSnoc(s0, a);
    Batch.PresentSnoc(s1, b);
    Batch.PresentSnoc(s2, c);
    Batch.PresentSnoc(s3, d);
    Batch.PresentSnoc(s4, e);
    Batch.PresentSnoc(s5, f);
    assert s6 == [a, b, c, d, e, f];
  }

  lemma SlotsRanked(f: Findings, pageLimit: nat, referenceLimit: int, style: string)
    ensures Batch.Ranked(Slots(f, pageLimit, referenceLimit, style))
  {
  }

  /** The earlier issues come in the same fixed order as the current ones. */
  lemma IssuesInOrder(f: Findings, pageLimit: nat, referenceLimit: int, style: string)
    ensures Batch.InReportOrder(Issues(f, pageLimit, referenceLimit, style))
  {
    SlotsRanked(f, pageLimit, referenceLimit, style);
    Batch.PresentInOrder(Slots(f, pageLimit, referenceLimit, style));
  }

  /** "oversize" exactly beyond the total limit; there is no very-short
      issue, nor a previous-work or roster issue. */
  lemma SizeIssueIff(f: Findings, pageLimit: nat, referenceLimit: int, style: string, n: nat, s: string)
    ensures Batch.Oversize(f.pages) in Issues(f, pageLimit, referenceLimit, style) <==> f.pages > pageLimit + referenceLimit
    ensures Batch.VeryShort(n) !in Issues(f, pageLimit, referenceLimit, style)
    ensures Batch.PreviousWorkMentioned(s) !in Issues(f, pageLimit, referenceLimit, style)
    ensures Batch.RevealingRosterData(s) !in Issues(f, pageLimit, referenceLimit, style)
  {
    var slots := Slots(f, pageLimit, referenceLimit, style);
    SlotsRanked(f, pageLimit, referenceLimit, style);
    Batch.PresentRanked(slots, Batch.Oversize(f.pages));
    Batch.PresentRanked(slots, Batch.VeryShort(n));
    Batch.PresentRanked(slots, Batch.PreviousWorkMentioned(s));
    Batch.PresentRanked(slots, Batch.RevealingRosterData(s));
  }

  /** The reference page and template issues are reported exactly when
      their checks fire. */
  lemma CheckIssuesIff(f: Findings, pageLimit: nat, referenceLimit: int, style: string)
    ensures Batch.ReferencePageAfterLimit(f.referencesPage) in Issues(f, pageLimit, referenceLimit, style) <==>
              f.referencesPage > pageLimit + 1
    ensures Batch.WrongTemplate(style) in Issues(f, pageLimit, referenceLimit, style) <==> f.wrongStyle
  {
    SlotsRanked(f, pageLimit, referenceLimit, style);
    Batch.PresentRanked(Slots(f, pageLimit, referenceLimit, style), Batch.ReferencePageAfterLimit(f.referencesPage));
    Batch.PresentRanked(Slots(f, pageLimit, referenceLimit, style), Batch.WrongTemplate(style));
  }

  /** Each finding is reported, quoted, exactly when its check returns it. */
  lemma FoundIssuesIff(f: Findings, pageLimit: nat, referenceLimit: int, style: string, s: string)
    ensures var issues := Issues(f, pageLimit, referenceLimit, style);
            && (Batch.TextAfterLimit(s) in issues <==> f.textAfterLimit == Some(s))
            && (Batch.RevealingEmail(s) in issues <==> f.emails == Some(s))
            && (Batch.RevealingMetaDataAuthor(s) in issues <==> f.authors == Some(s))
  {
    var slots := Slots(f, pageLimit, referenceLimit, style);
    SlotsRanked(f, pageLimit, referenceLimit, style);
    Batch.PresentRanked(slots, Batch.TextAfterLimit(s));
    Batch.PresentRanked(slots, Batch.RevealingEmail(s));
    Batch.PresentRanked(slots, Batch.RevealingMetaDataAuthor(s));
  }

  /** The findings of the current checks that the earlier ones lack are
      empty: no very-short paper, no previous work, no roster data. */
  function AsCurrent(f: Findings): Batch.Findings {
    Batch.Findings(f.pages, f.referencesPage, f.wrongStyle, f.textAfterLimit, f.emails, f.authors, None, None)
  }

  /** On a paper that is not very short, the earlier report lists the same
      issues as the current one given the same findings and nothing for the
      checks added since. */
  lemma SameIssuesAsCurrent(f: Findings, pageLimit: nat, referenceLimit: int, style: string)
    requires f.pages > Batch.Max(2, pageLimit / 2)
    ensures Issues(f, pageLimit, referenceLimit, style) == Batch.Issues(AsCurrent(f), pageLimit, referenceLimit, style)
  {
    var slots := Slots(f, pageLimit, referenceLimit, style);
    var current := Batch.Slots(AsCurrent(f), pageLimit, referenceLimit, style);
    PresentSix(slots[0], slots[1], slots[2], slots[3], slots[4], slots[5]);
    Batch.PresentEight(current[0], current[1], current[2], current[3], current[4], current[5], current[6], current[7]);
    assert slots == [slots[0], slots[1], slots[2], slots[3], slots[4], slots[5]];
    assert current == [current[0], current[1], current[2], current[3], current[4], current[5], current[6], current[7]];
  }

  /** The issue list of the earlier `paperIssues`. */
  method CollectIssues(f: Findings, pageLimit: nat, referenceLimit: int, style: string) returns (issues: seq<Batch.Issue>)
    ensures issues == Issues(f, pageLimit, referenceLimit, style)
  {
    var size := if f.pages > pageLimit + referenceLimit then Some(Batch.Oversize(f.pages)) else None;
    var late := if f.referencesPage > pageLimit + 1 then Some(Batch.ReferencePageAfterLimit(f.referencesPage)) else None;
    var template := if f.wrongStyle then Some(Batch.WrongTemplate(style)) else None;
    var after := if f.textAfterLimit.Some? then Some(Batch.TextAfterLimit(f.textAfterLimit.value)) else None;
    var email := if f.emails.Some? then Some(Batch.RevealingEmail(f.emails.value)) else None;
    var author := if f.authors.Some? then Some(Batch.RevealingMetaDataAuthor(f.authors.value)) else None;
    assert [size, late, template, after, email, author] == Slots(f, pageLimit, referenceLimit, style);

    issues := [];
    issues := Batch.Add(issues, size);
    issues := Batch.Add(issues, late);
    issues := Batch.Add(issues, template);
    issues := Batch.Add(issues, after);
    issues := Batch.Add(issues, email);
    issues := Batch.Add(issues, author);
    PresentSix(size, late, template, after, email, author);
  }

  /** The earlier `BatchChecker`: the style every paper must have. */
  class BatchChecker {
    var style: string

    /** The default style is IEEE. */
    constructor()
      ensures style == "IEEE"
    {
      style := "IEEE";
    }

    /** The earlier `paperIssues`: run the earlier checks on the paper and
        report what they find. The title is what the report prints for it. */
    method PaperIssues(pc: LegacyChecker.PdfChecker, title: Option<string>) returns (report: string)
      requires pc.document.PageCount() >= 1
      ensures report == Batch.ReportLine(pc.document.fileName,
                                   IssuesOf(pc.document, pc.pageLimit, pc.referenceLimit, pc.searches, style),
                                   title)
    {
      var referencesPage := pc.ReferencesPage();
      if referencesPage > pc.pageLimit + 1 {
        referencesPage := pc.ReferencesPage();
      }
      var wrongStyle := (style == "ACM" && !LegacyChecker.IsACM(pc.document))
                        || (style == "IEEE" && !LegacyChecker.IsIEEE(pc.document));
      var textAfterLimit := pc.FiguresAfterLimit();
      var emails := LegacyChecker.FindEmails(pc.document, pc.searches);
      var authors := LegacyChecker.FindAuthorIdentity(pc.document);
      var findings := Findings(pc.document.PageCount(), referencesPage, wrongStyle, textAfterLimit, emails, authors);
      assert findings == FindingsOf(pc.document, pc.pageLimit, pc.searches, style);
      var issues := CollectIssues(findings, pc.pageLimit, pc.referenceLimit, style);
      report := Batch.FormatLine(pc.document.fileName, issues, title);
    }
  }
}
