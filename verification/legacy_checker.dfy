/** The screening checks of the earlier checker (`org.sigsoft.PdfChecker`).
    It searches the raw page text: no header or line-number stripping before
    the references heading, matches returned as found (not stripped),
    captions that must fill their line, a shorter list of safe tokens, and
    an ACM test that only looks at the creator entry and the copyright
    address. Where a check is shared with the current checker, the lemmas
    here relate the two versions. */
module LegacyChecker {
  import opened Wrappers
  import opened Text
  import opened Patterns
  import opened Documents
  import Checker

  // ---------------------------------------------------------------------------
  // match and findOnPage
  // ---------------------------------------------------------------------------

  /** `findOnPage`: the leftmost match on page `n`, exactly as found. */
  function FindOnPage(d: Document, n: int, p: Pattern): (r: Option<string>)
    requires 1 <= n <= d.PageCount()
    ensures r.Some? <==> Checker.PageHas(d, n, p)
    ensures r.Some? ==> r.value <= d.TextAtPage(n)[Find(p, d.TextAtPage(n)).value.start..]
  {
    FindText(p, d.TextAtPage(n))
  }

  /** The current checker finds what the earlier one finds, stripped. */
  lemma FindOnPageStripped(d: Document, n: int, p: Pattern)
    requires 1 <= n <= d.PageCount()
    ensures Checker.FindOnPage(d, n, p) == match FindOnPage(d, n, p) case None => None case Some(s) => Some(Strip(s))
  {
  }

  // ---------------------------------------------------------------------------
  // Style: isACM and isIEEE
  // ---------------------------------------------------------------------------

  /** `isACM`: the creator names acmart, or page 1 holds the ACM copyright
      address. */
  predicate IsACM(d: Document)
    requires d.PageCount() >= 1
  {
    || (MetaDataCreator(d).Some? && FindText(Literal(Checker.AcmArt), MetaDataCreator(d).value).Some?)
    || FindOnPage(d, 1, Literal(Checker.AcmCopyright)).Some?
  }

  /** The earlier ACM test in terms of plain containment. */
  lemma IsACMIff(d: Document)
    requires d.PageCount() >= 1
    ensures IsACM(d) <==>
              || (d.info.creator.Some? && Contains(d.info.creator.value, Checker.AcmArt, true))
              || Contains(d.TextAtPage(1), Checker.AcmCopyright, true)
  {
    if d.info.creator.Some? {
      Checker.LiteralMatch(d.info.creator.value, Checker.AcmArt);
    }
    Checker.LiteralMatch(d.TextAtPage(1), Checker.AcmCopyright);
  }

  /** Every paper the earlier checker takes for ACM the current one does too. */
  lemma ACMStaysACM(d: Document)
    requires d.PageCount() >= 1 && IsACM(d)
    ensures Checker.IsACM(d)
  {
    IsACMIff(d);
    Checker.IsACMIff(d);
  }

  /** The ACM reference format alone convinces only the current checker. */
  lemma ReferenceFormatOnlyNow(d: Document)
    requires d.PageCount() >= 1 && d.info.creator.None?
    requires !Contains(d.TextAtPage(1), Checker.AcmCopyright, true)
    requires Contains(d.TextAtPage(1), Checker.AcmReferenceFormat, true)
    ensures Checker.IsACM(d) && !IsACM(d)
  {
    IsACMIff(d);
    Checker.IsACMIff(d);
  }

  /** `isIEEE`: IEEE unless ACM. */
  function IsIEEE(d: Document): (r: bool)
    requires d.PageCount() >= 1
    ensures r <==> !IsACM(d)
  {
    if IsACM(d) then false else true
  }

  // ---------------------------------------------------------------------------
  // Anonymity: blindedEmail, findEmails, findAuthorIdentity, previousWork
  // ---------------------------------------------------------------------------

  const SafeNames: seq<string> := ["anonymous", "anon", "doe", "blinded", "nn", "nobody", "none", "email",
                                   "anonymized", "firstname", "lastname", "xyz", "xxx"]
  const SafeDomains: seq<string> := ["email", "example", "domain", "address", "blind"]
  const SafeTokens: seq<string> := SafeNames + SafeDomains

  /** `blindedEmail`: the text holds a safe name or a safe domain somewhere
      on one line. */
  predicate BlindedEmail(email: string) {
    Find(AnyToken(SafeTokens, false), email).Some?
  }

  /** Each earlier safe token is a current one: the current list adds
      "author" after the names and "review" after the domains. */
  lemma SafeTokensKept(n: nat)
    requires n < |SafeTokens|
    ensures var m := if n < |SafeNames| then n else n + 1;
            m < |Checker.SafeTokens| && Checker.SafeTokens[m] == SafeTokens[n]
  {
  }

  /** An address is blinded exactly when it contains, ignoring ASCII case,
      one of the safe tokens. */
  lemma BlindedEmailIff(email: string)
    ensures BlindedEmail(email) <==> exists n :: 0 <= n < |SafeTokens| && Contains(email, SafeTokens[n], true)
  {
    assert forall n :: 0 <= n < |SafeTokens| ==> |SafeTokens[n]| > 0;
    assert forall n, k :: 0 <= n < |SafeTokens| && 0 <= k < |SafeTokens[n]| ==> 'a' <= SafeTokens[n][k] <= 'z';
    AnyTokenIff(email, SafeTokens, false);
    if BlindedEmail(email) {
      var p :| 0 <= p <= |email| && TokenAt(email, p, SafeTokens, false);
      var n := FirstTokenAt(email, p, SafeTokens);
      assert Contains(email, SafeTokens[n], true);
    }
    if n :| 0 <= n < |SafeTokens| && Contains(email, SafeTokens[n], true) {
      var p := IndexOf(email, SafeTokens[n], true).value;
      TokenOccursAt(email, p, SafeTokens, n);
      assert 0 <= p <= |email| && TokenAt(email, p, SafeTokens, false);
    }
  }

  /** What the earlier checker accepts as blinded, the current one does too. */
  lemma BlindedStaysBlinded(email: string)
    requires BlindedEmail(email)
    ensures Checker.BlindedIdentity(email)
  {
    BlindedEmailIff(email);
    var n :| 0 <= n < |SafeTokens| && Contains(email, SafeTokens[n], true);
    SafeTokensKept(n);
    var m := if n < |SafeNames| then n else n + 1;
    Checker.BlindedIdentityIff(email);
    assert Contains(email, Checker.SafeTokens[m], true);
  }

  /** `findEmails`: the first address-like text on page 1, as found, unless
      it is blinded. */
  function FindEmails(d: Document, s: Checker.Searches): (r: Option<string>)
    requires d.PageCount() >= 1
    ensures r.Some? ==> !BlindedEmail(r.value)
    ensures var found := s.emailAddress(d.TextAtPage(1));
            && (r.Some? <==> found.Some? && !BlindedEmail(found.value))
            && (r.Some? ==> r == found)
  {
    var found := s.emailAddress(d.TextAtPage(1));
    if found.Some? && BlindedEmail(found.value) then None else found
  }

  /** `findAuthorIdentity`: the metadata author, whatever it says. */
  function FindAuthorIdentity(d: Document): (r: Option<string>)
    ensures r.Some? <==> d.info.author.Some? && Strip(d.info.author.value) != ""
    ensures r.Some? ==> r.value == Strip(d.info.author.value)
  {
    MetaDataAuthor(d)
  }

  /** The current checker reports a subset of the earlier author reports:
      the same author, unless it is blinded. */
  lemma AuthorIdentityFiltered(d: Document)
    ensures Checker.FindAuthorIdentity(d).Some? ==> Checker.FindAuthorIdentity(d) == FindAuthorIdentity(d)
    ensures FindAuthorIdentity(d).Some? && !Checker.BlindedIdentity(FindAuthorIdentity(d).value) ==>
              Checker.FindAuthorIdentity(d) == FindAuthorIdentity(d)
  {
  }

  /** `previousWork`: the first mention of earlier work in the whole text,
      as found and not stripped. `search` stands for the earlier regex, whose
      list of work words lacks "studies" and "findings?"; it differs from the
      current one, so it is a parameter of its own. */
  function PreviousWork(d: Document, search: string -> Option<string>): (r: Option<string>)
    ensures r.Some? <==> search(d.fullText).Some?
    ensures r.Some? ==> r.value == search(d.fullText).value
  {
    search(d.fullText)
  }

  // ---------------------------------------------------------------------------
  // References page and material after the page limit
  // ---------------------------------------------------------------------------

  /** `isReferencesPage`: the raw text of page `n` before its references
      heading, or none when the page has no heading. */
  function BeforeReferences(d: Document, n: int): (r: Option<string>)
    requires 1 <= n <= d.PageCount()
    ensures r.Some? <==> Checker.HasHeading(d, n)
    ensures r.Some? ==> r.value <= d.TextAtPage(n) && AtLineStart(d.TextAtPage(n), |r.value|)
    ensures r.Some? ==> MatchAt(ReferencesHeading, d.TextAtPage(n), |r.value|).Some?
  {
    var text := d.TextAtPage(n);
    match Find(ReferencesHeading, text)
    case None => None
    case Some(s) => Some(text[..s.start])
  }

  /** The current checker strips the header from the same text. */
  lemma BeforeReferencesStripped(d: Document, n: int)
    requires 1 <= n <= d.PageCount() && Page3HasNewline(d)
    ensures Checker.BeforeReferences(d, n) ==
              match BeforeReferences(d, n) case None => None case Some(b) => Some(Checker.HeaderStripped(d, b))
  {
  }

  /** `pageContainsFigure`: the first caption on page `n` that fills the rest
      of its line, with the blanks before it. */
  function PageContainsFigure(d: Document, n: int): (r: Option<string>)
    requires 1 <= n <= d.PageCount()
    ensures r.Some? <==> Checker.PageHas(d, n, LineCaption)
    ensures r.Some? ==> var t := d.TextAtPage(n);
                        var f := Find(LineCaption, t).value;
                        AtLineStart(t, f.start) && AtLineEnd(t, f.end) && r.value == t[f.start..f.end]
  {
    FindOnPage(d, n, LineCaption)
  }

  /** A page with an earlier-style caption has a current-style one. */
  lemma LineCaptionStillFound(d: Document, n: int)
    requires 1 <= n <= d.PageCount() && Checker.PageHas(d, n, LineCaption)
    ensures Checker.HasFigure(d, n)
  {
    var t := d.TextAtPage(n);
    var i := Find(LineCaption, t).value.start;
    LineCaptionIsCaption(t, i);
    MatchFound(Caption, t, i);
  }

  /** The diagnostic for text before the references heading: its length and
      its first 8 characters as they are, when it is longer than 8. */
  function Leeway(before: string): (r: Option<string>)
    ensures r.Some? <==> |before| > Checker.LeewayForPageNr
    ensures r.Some? ==> |r.value| > Checker.LeewayForPageNr &&
                        r.value[|r.value| - Checker.LeewayForPageNr..] == before[..Checker.LeewayForPageNr]
  {
    if |before| <= Checker.LeewayForPageNr then None
    else Some(Decimal(|before|) + Checker.LeewayTag + before[..Checker.LeewayForPageNr])
  }

  /** Without a newline in the quoted characters, both checkers word the
      diagnostic alike. */
  lemma LeewaySameWithoutNewline(before: string)
    requires |before| > Checker.LeewayForPageNr && '\n' !in before[..Checker.LeewayForPageNr]
    ensures Leeway(before) == Checker.Leeway(before)
  {
    Checker.LeewayQuotesHead(before);
  }

  /** The example of the tests: ten characters before the heading are
      reported with their first eight. */
  lemma LeewayReported(before: string)
    requires before == "123456789\n"
    ensures Leeway(before) == Some("10" + Checker.LeewayTag + "12345678")
  {
    Checker.TwoDigits(|before|);
    assert Decimal(|before|) == "10";
    assert before[..8] == "12345678";
  }

  /** The leeway diagnostic for a page, none when it has no references heading. */
  function LeewayOf(before: Option<string>): (r: Option<string>)
    ensures r.Some? <==> before.Some? && |before.value| > Checker.LeewayForPageNr
  {
    match before
    case None => None
    case Some(b) => Leeway(b)
  }

  /** `figuresAfterLimit`: nothing when the paper fits the page limit;
      otherwise the caption on the last page after the limit that has one;
      otherwise the leeway diagnostic for the page after the limit. */
  function FiguresAfterLimitOf(d: Document, pageLimit: nat): (r: Option<string>)
    ensures d.PageCount() <= pageLimit ==> r.None?
  {
    if d.PageCount() <= pageLimit then None
    else
      var q := Checker.LastPageWith(d, LineCaption, d.PageCount(), pageLimit);
      if q > 0 then PageContainsFigure(d, q)
      else LeewayOf(BeforeReferences(d, pageLimit + 1))
  }

  /** When pages after the limit have captions, the report is the caption
      of the last of them. */
  lemma FigureAfterLimit(d: Document, pageLimit: nat, q: nat)
    requires pageLimit < q <= d.PageCount() && Checker.PageHas(d, q, LineCaption)
    requires forall k :: q < k <= d.PageCount() ==> !Checker.PageHas(d, k, LineCaption)
    ensures FiguresAfterLimitOf(d, pageLimit) == PageContainsFigure(d, q)
    ensures FiguresAfterLimitOf(d, pageLimit).Some?
  {
    Checker.LastPageIs(d, LineCaption, d.PageCount(), pageLimit, q);
  }

  /** When no page after the limit has a caption, the report is the leeway
      diagnostic of the page after the limit. */
  lemma NoFigureAfterLimit(d: Document, pageLimit: nat)
    requires pageLimit < d.PageCount()
    requires forall k :: pageLimit < k <= d.PageCount() ==> !Checker.PageHas(d, k, LineCaption)
    ensures FiguresAfterLimitOf(d, pageLimit) == LeewayOf(BeforeReferences(d, pageLimit + 1))
  {
  }

  /** The last step of `figuresAfterLimit`. */
  method ReportLeeway(beforeReferences: Option<string>) returns (r: Option<string>)
    ensures r == LeewayOf(beforeReferences)
  {
    if beforeReferences.None? || |beforeReferences.value| <= Checker.LeewayForPageNr {
      return None;
    }
    var abusiveCharCount := |beforeReferences.value|;
    var content := beforeReferences.value[..Checker.LeewayForPageNr];
    return Some(Decimal(abusiveCharCount) + Checker.LeewayTag + content);
  }

  // ---------------------------------------------------------------------------
  // The checker object
  // ---------------------------------------------------------------------------

  /** `PdfChecker`: the document under review and the page limits. */
  class PdfChecker {
    var document: Document
    var pageLimit: nat
    var referenceLimit: int
    /** The regular expressions of `findEmails` and `previousWork`. */
    const searches: Checker.Searches

    /** A checker for `document` with the default limits: 10 pages of text
        and 2 of references. */
    constructor(document: Document, searches: Checker.Searches)
      ensures this.document == document && this.searches == searches
      ensures pageLimit == 10 && referenceLimit == 2
    {
      this.document := document;
      this.searches := searches;
      pageLimit := 10;
      referenceLimit := 2;
    }

    function TotalLimit(): (n: int)
      reads this
      ensures n - pageLimit == referenceLimit
    {
      pageLimit + referenceLimit
    }

    method SetDocument(document: Document)
      modifies this
      ensures this.document == document
      ensures pageLimit == old(pageLimit) && referenceLimit == old(referenceLimit)
    {
      this.document := document;
    }

    /** `isReferencesPage`. */
    method IsReferencesPage(pagenr: int) returns (before: Option<string>)
      requires 1 <= pagenr <= document.PageCount()
      ensures before == BeforeReferences(document, pagenr)
    {
      var pageText := document.TextAtPage(pagenr);
      var findRefs := Find(ReferencesHeading, pageText);
      if findRefs.Some? {
        before := Some(pageText[..findRefs.value.start]);
      } else {
        before := None;
      }
    }

    /** `referencesPage`: scan from the last page back for a references
        heading; 0 when no page has one. The earlier and the current checker
        agree on it. */
    method ReferencesPage() returns (p: nat)
      ensures p <= document.PageCount() && (p > 0 ==> Checker.HasHeading(document, p))
      ensures forall q :: p < q <= document.PageCount() ==> !Checker.HasHeading(document, q)
      ensures p == Checker.LastPageWith(document, ReferencesHeading, document.PageCount(), 0)
    {
      var pagenr: nat := document.PageCount();
      while pagenr > 0
        invariant pagenr <= document.PageCount()
        invariant Checker.LastPageWith(document, ReferencesHeading, pagenr, 0) ==
                  Checker.LastPageWith(document, ReferencesHeading, document.PageCount(), 0)
      {
        var before := IsReferencesPage(pagenr);
        if before.Some? {
          return pagenr;
        }
        pagenr := pagenr - 1;
      }
      return 0;
    }

    /** `figuresAfterLimit`: scan back from the last page to the page after
        the limit for a caption, then check the text before the references
        heading on the page after the limit. */
    method FiguresAfterLimit() returns (r: Option<string>)
      ensures r == FiguresAfterLimitOf(document, pageLimit)
    {
      if document.PageCount() <= pageLimit {
        return None;
      }
      ghost var d := document;
      ghost var q := Checker.LastPageWith(d, LineCaption, d.PageCount(), pageLimit);
      var figText := LastFigure();
      if figText.Some? {
        assert q > 0 && figText == PageContainsFigure(d, q);
        return figText;
      }
      assert q == 0;
      var beforeReferences := IsReferencesPage(pageLimit + 1);
      r := ReportLeeway(beforeReferences);
      assert r == LeewayOf(BeforeReferences(d, pageLimit + 1));
    }

    /** The scan of `figuresAfterLimit`: from the last page back to the page
        after the limit, the caption of the first page met that has one. */
    method LastFigure() returns (figText: Option<string>)
      ensures var q := Checker.LastPageWith(document, LineCaption, document.PageCount(), pageLimit);
              figText == if q > 0 then PageContainsFigure(document, q) else None
    {
      var pagenr: nat := document.PageCount();
      while pagenr > pageLimit
        invariant pagenr <= document.PageCount()
        invariant Checker.LastPageWith(document, LineCaption, pagenr, pageLimit) ==
                  Checker.LastPageWith(document, LineCaption, document.PageCount(), pageLimit)
      {
        figText := PageContainsFigure(document, pagenr);
        if figText.Some? {
          return;
        }
        pagenr := pagenr - 1;
      }
      return None;
    }
  }
}
