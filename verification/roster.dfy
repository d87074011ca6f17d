/** The conference roster: papers by id, each with its title and its authors
    in the order the roster lists them, and the paper id a submission's file
    name carries. */
module Roster {
  import opened Wrappers
  import opened Text

  /** An author as the roster gives it; names are kept verbatim, LaTeX
      escapes included. */
  datatype Author = Author(email: string, first: string, last: string)
  {
    /** The displayed name: first name, a space, last name. */
    function Name(): string {
      first + " " + last
    }
  }

  /** A paper of the roster. */
  datatype PaperMetaData = PaperMetaData(id: string, title: string, authors: seq<Author>)

  /** One parsed roster row: its `paper`, `title`, `first`, `last` and `email` columns. */
  datatype Record = Record(paper: string, title: string, first: string, last: string, email: string)

  /** `hotCrpAuthor`: the author a row describes. */
  function RowAuthor(r: Record): Author {
    Author(r.email, r.first, r.last)
  }

  /** The roster after one row: the row's paper is created with the row's
      title if its id is new, and the row's author is appended to it. */
  function AfterRow(papers: map<string, PaperMetaData>, r: Record): (m: map<string, PaperMetaData>)
    ensures m.Keys == papers.Keys + {r.paper}
    ensures r.paper in papers ==> m[r.paper] == papers[r.paper].(authors := papers[r.paper].authors + [RowAuthor(r)])
    ensures r.paper !in papers ==> m[r.paper] == PaperMetaData(r.paper, r.title, [RowAuthor(r)])
    ensures forall id :: id in papers && id != r.paper ==> m[id] == papers[id]
  {
    var paper := if r.paper in papers then papers[r.paper] else PaperMetaData(r.paper, r.title, []);
    papers[r.paper := paper.(authors := paper.authors + [RowAuthor(r)])]
  }

  /** The roster after the rows, in order. */
  function AfterRows(papers: map<string, PaperMetaData>, rows: seq<Record>): (m: map<string, PaperMetaData>)
    ensures papers.Keys <= m.Keys
    ensures forall k :: 0 <= k < |rows| ==> rows[k].paper in m
  {
    if |rows| == 0 then papers
    else AfterRow(AfterRows(papers, rows[..|rows| - 1]), rows[|rows| - 1])
  }

  /** The authors the rows name for paper `id`, in row order. */
  function AuthorsFor(rows: seq<Record>, id: string): (a: seq<Author>)
    ensures |a| <= |rows|
  {
    if |rows| == 0 then []
    else AuthorsFor(rows[..|rows| - 1], id) + (if rows[|rows| - 1].paper == id then [RowAuthor(rows[|rows| - 1])] else [])
  }

  /** The first row about paper `id`. */
  function FirstRowFor(rows: seq<Record>, id: string): (k: Option<nat>)
    ensures k.Some? ==> k.value < |rows| && rows[k.value].paper == id
    ensures k.Some? ==> forall j :: 0 <= j < k.value ==> rows[j].paper != id
    ensures k.None? ==> forall j :: 0 <= j < |rows| ==> rows[j].paper != id
  {
    if |rows| == 0 then None
    else if rows[0].paper == id then Some(0)
    else match FirstRowFor(rows[1..], id)
      case None => None
      case Some(k) => Some(k + 1)
  }

  /** The first row about `id` among `init` and one more row `r`. */
  lemma {:induction false} FirstRowForSnoc(init: seq<Record>, r: Record, id: string)
    ensures FirstRowFor(init + [r], id) ==
              if FirstRowFor(init, id).Some? then FirstRowFor(init, id)
              else if r.paper == id then Some(|init|) else None
  {
    if |init| > 0 {
      assert (init + [r])[1..] == init[1..] + [r];
      FirstRowForSnoc(init[1..], r, id);
    }
  }

  /** Processing rows in order: a paper exists once a row names it, and it
      is filed under its own id. */
  lemma {:induction false} AfterRowsHas(papers: map<string, PaperMetaData>, rows: seq<Record>, id: string)
    requires forall p :: p in papers ==> papers[p].id == p
    ensures var m := AfterRows(papers, rows);
            && (id in m <==> id in papers || FirstRowFor(rows, id).Some?)
            && (id in m ==> m[id].id == id)
  {
    if |rows| > 0 {
      var init := rows[..|rows| - 1];
      var r := rows[|rows| - 1];
      assert rows == init + [r];
      AfterRowsHas(papers, init, id);
      FirstRowForSnoc(init, r, id);
    }
  }

  /** A paper's authors grow by exactly the rows naming it, in row order. */
  lemma {:induction false} AfterRowsAuthors(papers: map<string, PaperMetaData>, rows: seq<Record>, id: string)
    requires forall p :: p in papers ==> papers[p].id == p
    ensures var m := AfterRows(papers, rows);
            id in m ==> m[id].authors == (if id in papers then papers[id].authors else []) + AuthorsFor(rows, id)
  {
    if |rows| > 0 {
      var init := rows[..|rows| - 1];
      var r := rows[|rows| - 1];
      assert rows[..|rows| - 1] == init;
      var m0 := AfterRows(papers, init);
      var m := AfterRow(m0, r);
      assert AfterRows(papers, rows) == m;
      assert AuthorsFor(rows, id) == AuthorsFor(init, id) + (if r.paper == id then [RowAuthor(r)] else []);
      AfterRowsAuthors(papers, init, id);
      if id in m && r.paper == id && id !in m0 {
        AfterRowsHas(papers, init, id);
        NoRowNoAuthors(init, id);
      }
    }
  }

  /** A paper keeps the title it was created with: its roster title, or
      that of the first row naming it when it was new. */
  lemma {:induction false} AfterRowsTitle(papers: map<string, PaperMetaData>, rows: seq<Record>, id: string)
    requires forall p :: p in papers ==> papers[p].id == p
    ensures var m := AfterRows(papers, rows);
            && (id in papers ==> m[id].title == papers[id].title)
            && (id !in papers && FirstRowFor(rows, id).Some? ==> m[id].title == rows[FirstRowFor(rows, id).value].title)
  {
    AfterRowsHas(papers, rows, id);
    if |rows| > 0 {
      var init := rows[..|rows| - 1];
      var r := rows[|rows| - 1];
      assert rows == init + [r];
      AfterRowsTitle(papers, init, id);
      AfterRowsHas(papers, init, id);
      FirstRowForSnoc(init, r, id);
      if FirstRowFor(init, id).Some? {
        assert rows[FirstRowFor(init, id).value] == init[FirstRowFor(init, id).value];
      }
    }
  }

  /** Rows that never name `id` contribute no author to it. */
  lemma {:induction false} NoRowNoAuthors(rows: seq<Record>, id: string)
    requires FirstRowFor(rows, id).None?
    ensures AuthorsFor(rows, id) == []
  {
    if |rows| > 0 {
      var init := rows[..|rows| - 1];
      assert forall j :: 0 <= j < |init| ==> init[j] == rows[j];
      assert forall j :: 0 <= j < |init| ==> init[j].paper != id;
      NoRowNoAuthors(init, id);
    }
  }

  /** `MetaData`: the roster loaded so far. */
  class MetaData {
    var papers: map<string, PaperMetaData>

    /** Every stored paper is filed under its own id. */
    ghost predicate Valid()
      reads this
    {
      forall id :: id in papers ==> papers[id].id == id
    }

    constructor()
      ensures papers == map[] && Valid()
    {
      papers := map[];
    }

    /** `getPaper`: the paper stored under `id`, absent if there is none. */
    function GetPaper(id: string): (r: Option<PaperMetaData>)
      reads this
      ensures r.Some? <==> id in papers
      ensures r.Some? ==> r.value == papers[id]
    {
      if id in papers then Some(papers[id]) else None
    }

    /** `processHotCRPRecord`: find or create the row's paper (`hotCrpPaper`),
        then append the row's author (`hotCrpAuthor`, `addAuthor`). */
    method ProcessRecord(r: Record) returns (paper: PaperMetaData)
      requires Valid()
      modifies this
      ensures Valid()
      ensures papers == AfterRow(old(papers), r)
      ensures paper == papers[r.paper]
    {
      var author := RowAuthor(r);
      paper := HotCrpPaper(r);
      paper := paper.(authors := paper.authors + [author]);
      papers := papers[r.paper := paper];
    }

    /** `hotCrpPaper`: the paper for the row's id, created with the row's
        title and stored if the id is new. */
    method HotCrpPaper(r: Record) returns (paper: PaperMetaData)
      requires Valid()
      modifies this
      ensures Valid()
      ensures r.paper in old(papers) ==> papers == old(papers) && paper == papers[r.paper]
      ensures r.paper !in old(papers) ==>
                paper == PaperMetaData(r.paper, r.title, []) && papers == old(papers)[r.paper := paper]
    {
      if r.paper in papers {
        paper := papers[r.paper];
      } else {
        paper := PaperMetaData(r.paper, r.title, []);
        papers := papers[r.paper := paper];
      }
    }

    /** The loop of `loadHotCRPauthors` over already-parsed rows. */
    method LoadRecords(rows: seq<Record>)
      requires Valid()
      modifies this
      ensures Valid()
      ensures papers == AfterRows(old(papers), rows)
    {
      for i := 0 to |rows|
        invariant Valid()
        invariant papers == AfterRows(old(papers), rows[..i])
      {
        assert rows[..i + 1][..i] == rows[..i];
        var _ := ProcessRecord(rows[i]);
      }
      assert rows[..|rows|] == rows;
    }

    /** `forFile`: the paper whose id the file name carries. */
    method ForFile(name: string) returns (r: Checked<Option<PaperMetaData>>)
      ensures r.Raised? <==> FileId(name).Raised?
      ensures r.Returned? ==> r.value == GetPaper(FileId(name).value)
    {
      var id := FileId(name);
      if id.Raised? {
        return Raised(id.exception);
      }
      return Returned(GetPaper(id.value));
    }
  }

  const PaperMarker := "-paper"
  const PdfSuffix := ".pdf"

  /** The id in a file name: the text between the last "-paper" and the last
      ".pdf". Without "-paper" the id is taken from position 5 on; when the
      positions are out of order `substring` throws. */
  function FileId(name: string): (r: Checked<string>)
    ensures LastIndexOf(name, PdfSuffix).None? ==> r.Raised?
    ensures r.Returned? ==> |r.value| <= |name| - |PdfSuffix|
  {
    var before := match LastIndexOf(name, PaperMarker) case Some(b) => b as int case None => -1;
    var suffix := match LastIndexOf(name, PdfSuffix) case Some(s) => s as int case None => -1;
    var start := before + |PaperMarker|;
    if 0 <= start <= suffix <= |name| then Returned(name[start..suffix])
    else Raised("StringIndexOutOfBoundsException")
  }

  /** File names of the form `<prefix>-paper<id>.pdf` give back the id, when
      the id holds no hyphen ("icse2017-paper13.pdf" gives "13"). */
  lemma FileIdRoundTrip(prefix: string, id: string)
    requires '-' !in id
    ensures FileId(prefix + PaperMarker + id + PdfSuffix) == Returned(id)
  {
    var name := prefix + PaperMarker + id + PdfSuffix;
    var s := |prefix| + |PaperMarker| + |id|;
    MarkerLast(prefix, id);
    SuffixLast(prefix + PaperMarker + id);
    assert name[|prefix| + |PaperMarker|..s] == id;
  }

  /** A name ending in ".pdf" has its last ".pdf" at the end. */
  lemma SuffixLast(stem: string)
    ensures LastIndexOf(stem + PdfSuffix, PdfSuffix) == Some(|stem|)
  {
    var name := stem + PdfSuffix;
    OccursAtSlice(name, PdfSuffix, |stem|);
    assert name[|stem|..] == PdfSuffix;
    LastIndexOfIs(name, PdfSuffix, |stem|);
  }

  /** In `<prefix>-paper<id>.pdf` with no hyphen in the id, the last
      "-paper" is the one after the prefix. */
  lemma MarkerLast(prefix: string, id: string)
    requires '-' !in id
    ensures LastIndexOf(prefix + PaperMarker + id + PdfSuffix, PaperMarker) == Some(|prefix|)
  {
    var tail := id + PdfSuffix;
    var name := prefix + PaperMarker + tail;
    assert name == prefix + PaperMarker + id + PdfSuffix;
    var b := |prefix|;
    assert OccursAt(name, PaperMarker, b, false) by {
      forall k | 0 <= k < |PaperMarker|
        ensures name[b + k] == PaperMarker[k]
      {
      }
    }
    forall j | b < j
      ensures !OccursAt(name, PaperMarker, j, false)
    {
      if j + |PaperMarker| <= |name| {
        if j < b + |PaperMarker| {
          assert name[j] == PaperMarker[j - b];
        } else {
          assert name[j] == tail[j - b - |PaperMarker|] == id[j - b - |PaperMarker|];
        }
        assert Fold(name[j + 0], false) != Fold(PaperMarker[0], false);
      }
    }
    LastIndexOfIs(name, PaperMarker, b);
  }

  /** Without "-paper" the id is taken from position 5 on, so
      "paper13.pdf" still gives "13"; a name too short for that, such as
      "a.pdf", throws. */
  lemma FileIdWithoutMarker(stem: string)
    requires '-' !in stem
    ensures |stem| >= 5 ==> FileId(stem + PdfSuffix) == Returned(stem[5..])
    ensures |stem| < 5 ==> FileId(stem + PdfSuffix).Raised?
  {
    var name := stem + PdfSuffix;
    assert '-' !in name by {
      assert forall k :: 0 <= k < |name| ==> name[k] == if k < |stem| then stem[k] else PdfSuffix[k - |stem|];
    }
    NoMarker(name);
    SuffixLast(stem);
    assert |stem| >= 5 ==> name[5..|stem|] == stem[5..];
  }

  /** A name without a hyphen holds no "-paper". */
  lemma NoMarker(name: string)
    requires '-' !in name
    ensures LastIndexOf(name, PaperMarker).None?
  {
    forall j
      ensures !OccursAt(name, PaperMarker, j, false)
    {
      if 0 <= j && j + |PaperMarker| <= |name| {
        assert Fold(name[j + 0], false) != Fold(PaperMarker[0], false);
      }
    }
  }
}
