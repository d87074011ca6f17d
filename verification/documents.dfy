/** A submitted paper as the checkers see it: the text PDFBox extracts from
    each page and from the whole document, the file name, and the
    document-information entries. */
module Documents {
  import opened Wrappers
  import opened Text

  /** The document-information entries as stored in the PDF (absent or raw). */
  datatype Info = Info(author: Option<string>, creator: Option<string>, title: Option<string>)

  /** Pages are numbered from 1, as `textAtPage` numbers them. */
  datatype Document = Document(pages: seq<string>, fullText: string, fileName: string, info: Info)
  {
    function PageCount(): nat {
      |pages|
    }

    /** The text of page `n`; asking for a page outside `1..PageCount()` is an error. */
    function TextAtPage(n: int): string
      requires 1 <= n <= PageCount()
    {
      pages[n - 1]
    }
  }

  /** Strip an entry; a blank one counts as absent. */
  function Normalised(entry: Option<string>): (r: Option<string>)
    ensures r.Some? ==> r.value != "" && Strip(r.value) == r.value
    ensures r.None? <==> entry.None? || forall k :: 0 <= k < |entry.value| ==> IsWhitespace(entry.value[k])
    ensures r.Some? ==> r.value == Strip(entry.value)
  {
    match entry
    case None => None
    case Some(s) => if Strip(s) == "" then None else Some(Strip(s))
  }

  /** `metaDataAuthor`: the stripped author entry, absent when missing or blank. */
  function MetaDataAuthor(d: Document): Option<string> {
    Normalised(d.info.author)
  }

  /** `metaDataTitle`: the stripped title entry, absent when missing or blank. */
  function MetaDataTitle(d: Document): Option<string> {
    Normalised(d.info.title)
  }

  /** `metaDataCreator`: the creator entry as stored, absent when missing or empty. */
  function MetaDataCreator(d: Document): (r: Option<string>)
    ensures r.Some? <==> d.info.creator.Some? && d.info.creator.value != ""
    ensures r.Some? ==> r.value == d.info.creator.value
  {
    match d.info.creator
    case None => None
    case Some(c) => if c == "" then None else Some(c)
  }

  /** Page 3, when there is one, holds a line break. Header stripping reads the
      first line of page 3 with `substring(0, indexOf("\n"))`, which throws
      without one; the operations that may strip a header require this. */
  predicate Page3HasNewline(d: Document) {
    d.PageCount() < 3 || '\n' in d.TextAtPage(3)
  }
}
