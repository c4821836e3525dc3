/**
 * The chapter-renumbering pass over the generated `docs/` site: every `.html` page
 * except `docs/index.html` is renumbered by its position in sorted path order and gets
 * the two menu labels; afterwards the index page's redirect target is corrected.
 */
module SectionNumbers {

  import opened Wrappers
  import opened Text
  import opened Decimal
  import opened Paths

  /** The directory as the script sees it: each readable path with its text. */
  type Docs = map<Path, string>

  const IndexPage: Path := "docs/index.html"

  const HeaderPrefix: string := "<span class=\"header-section-number\">"
  const HeaderPattern: string := HeaderPrefix + "1"

  const MenuOpen: string := "<span class=\"menu-text\">"
  const MenuClose: string := "</span>"

  const Menu1Pattern: string := MenuOpen + "Programming for Data Analysis" + MenuClose
  const Menu1Label: string := MenuOpen + "1 Programming for Data Analysis" + MenuClose

  const Menu2Pattern: string := MenuOpen + "Statistical Analysis I" + MenuClose
  const Menu2Label: string := MenuOpen + "2 Statistical Analysis I" + MenuClose

  const RedirectPattern: string := "02-statistics1.html"
  const RedirectTarget: string := "00-index.html"

  /** The `ValueError` that `list.remove` raises when the index page was not listed. */
  datatype Error = IndexNotListed

  /** Every section number that starts with `1` gets that `1` replaced by the counter. */
  function RenumberHeaders(content: string, cnt: nat): string
  {
    ReplaceAll(content, HeaderPattern, HeaderPrefix + Str(cnt))
  }

  /** The two menu entries get their chapter number, the first label before the second. */
  function LabelMenu(content: string): string
  {
    ReplaceAll(ReplaceAll(content, Menu1Pattern, Menu1Label), Menu2Pattern, Menu2Label)
  }

  /** What one chapter page becomes when it is the `cnt`-th in sorted order (from 0). */
  function TransformChapter(content: string, cnt: nat): string
  {
    LabelMenu(RenumberHeaders(content, cnt))
  }

  /** What the index page becomes: links to the second chapter point to `00-index.html`. */
  function FixRedirect(content: string): string
  {
    ReplaceAll(content, RedirectPattern, RedirectTarget)
  }

  /** The directory once the index page has been rewritten by FixRedirect. */
  function FixIndex(docs: Docs): (r: Docs)
    requires IndexPage in docs
    ensures r.Keys == docs.Keys
    ensures r[IndexPage] == FixRedirect(docs[IndexPage])
    ensures forall p :: p in docs && p != IndexPage ==> r[p] == docs[p]
  {
    docs[IndexPage := FixRedirect(docs[IndexPage])]
  }

  lemma IndexPageIsHtml()
    ensures IsHtml(IndexPage)
  {
    assert IndexPage[|IndexPage| - |HtmlSuffix|..] == HtmlSuffix;
  }

  /** Remove the index page from the `.html` list and sort the rest; None when it is absent. */
  function ChapterList(html: seq<Path>): Option<seq<Path>>
  {
    match RemoveFirst(html, IndexPage)
    case None => None
    case Some(rest) => Some(Sort(rest))
  }

  /**
   * `html_files` once the index page is removed and the rest sorted: None when the
   * removal raises because the index page was not listed.
   */
  function Chapters(listing: seq<Path>): (r: Option<seq<Path>>)
    ensures r.None? <==> IndexPage !in listing
    ensures r.Some? ==> Sorted(r.value)
    ensures r.Some? ==> multiset(r.value) == multiset(FilterHtml(listing)) - multiset{IndexPage}
    ensures r.Some? ==> forall p :: p in r.value ==> p in listing && IsHtml(p)
  {
    IndexPageIsHtml();
    FilterHtmlMembers(listing);
    var html := FilterHtml(listing);
    ChapterListMembers(html);
    ChapterList(html)
  }

  /** The chapters are the `.html` list less one copy of the index page, in some order. */
  lemma ChapterListMembers(html: seq<Path>)
    ensures ChapterList(html).None? <==> IndexPage !in html
    ensures ChapterList(html).Some? ==>
      && Sorted(ChapterList(html).value)
      && multiset(ChapterList(html).value) == multiset(html) - multiset{IndexPage}
      && forall p :: p in ChapterList(html).value ==> p in html
  {
    if IndexPage in html {
      var chapters := ChapterList(html).value;
      forall p | p in chapters ensures p in html {
        assert p in multiset(chapters);
      }
    }
  }

  /** Every `.html` entry of the listing names a file that can be read. */
  predicate Readable(docs: Docs, listing: seq<Path>)
  {
    forall p :: p in listing && IsHtml(p) ==> p in docs
  }

  /** The directory after the loop has rewritten the chapters in order, counting from 0. */
  function NumberedDocs(docs: Docs, chapters: seq<Path>): (r: Docs)
    requires forall p :: p in chapters ==> p in docs
    ensures r.Keys == docs.Keys
    decreases |chapters|
  {
    if chapters == [] then docs
    else
      var k := |chapters| - 1;
      var prev := NumberedDocs(docs, chapters[..k]);
      prev[chapters[k] := TransformChapter(prev[chapters[k]], k)]
  }

  /** One more turn of the loop: the next chapter is rewritten with its position as counter. */
  lemma NumberedDocsStep(docs: Docs, chapters: seq<Path>, i: nat)
    requires forall p :: p in chapters ==> p in docs
    requires i < |chapters|
    ensures chapters[i] in NumberedDocs(docs, chapters[..i])
    ensures NumberedDocs(docs, chapters[..i + 1]) ==
      NumberedDocs(docs, chapters[..i])[chapters[i] :=
        TransformChapter(NumberedDocs(docs, chapters[..i])[chapters[i]], i)]
  {
    var prefix := chapters[..i + 1];
    assert prefix[..i] == chapters[..i] && prefix[i] == chapters[i];
  }

  /** The whole script: the directory afterwards, or the error that stops it. */
  function Script(docs: Docs, listing: seq<Path>): (r: Result<Docs, Error>)
    requires Readable(docs, listing)
    ensures r.Failure? <==> IndexPage !in listing
    ensures r.Success? ==> r.value.Keys == docs.Keys
  {
    match Chapters(listing)
    case None => Failure(IndexNotListed)
    case Some(chapters) =>
      IndexPageIsHtml();
      assert IndexPage in docs;
      Success(FixIndex(NumberedDocs(docs, chapters)))
  }

  /**
   * The run step by step: the removal fails and the script fails together; otherwise the
   * chapters are the sorted rest, all of them and the index page can be read, and the
   * result is the index fix applied after the chapter loop.
   */
  lemma ScriptSteps(docs: Docs, listing: seq<Path>)
    requires Readable(docs, listing)
    ensures Chapters(listing).None? ==> Script(docs, listing) == Failure(IndexNotListed)
    ensures Chapters(listing).Some? ==>
      && (forall p :: p in Chapters(listing).value ==> p in docs)
      && IndexPage in docs
      && Script(docs, listing) == Success(FixIndex(NumberedDocs(docs, Chapters(listing).value)))
  {
    if IndexPage in listing {
      IndexPageIsHtml();
    }
  }

  /** No path occurs twice (a directory listing never repeats an entry). */
  ghost predicate NoDuplicates(s: seq<Path>)
  {
    forall p :: multiset(s)[p] <= 1
  }

  /** A path the loop does not visit keeps its content. */
  lemma {:induction false} NumberedDocsOutside(docs: Docs, chapters: seq<Path>, p: Path)
    requires forall q :: q in chapters ==> q in docs
    requires p in docs && p !in chapters
    ensures NumberedDocs(docs, chapters)[p] == docs[p]
    decreases |chapters|
  {
    if chapters != [] {
      var k := |chapters| - 1;
      assert p !in chapters[..k];
      NumberedDocsOutside(docs, chapters[..k], p);
    }
  }

  /**
   * With no path repeated, the chapter at sorted position `k` ends up as its own old
   * content transformed with counter `k`: its result depends only on its content and
   * its position.
   */
  lemma {:induction false} NumberedDocsAt(docs: Docs, chapters: seq<Path>, k: nat)
    requires forall q :: q in chapters ==> q in docs
    requires NoDuplicates(chapters)
    requires k < |chapters|
    ensures NumberedDocs(docs, chapters)[chapters[k]] == TransformChapter(docs[chapters[k]], k)
    decreases |chapters|
  {
    var n := |chapters| - 1;
    var init, last := chapters[..n], chapters[n];
    NoDuplicatesInit(chapters);
    NumberedDocsStep(docs, chapters, n);
    assert chapters[..n + 1] == chapters;
    if k == n {
      NumberedDocsOutside(docs, init, last);
    } else {
      assert chapters[k] == init[k];
      NumberedDocsAt(docs, init, k);
    }
  }

  /** Dropping the last path keeps a list free of repeats, and that path is not left behind. */
  lemma NoDuplicatesInit(chapters: seq<Path>)
    requires chapters != [] && NoDuplicates(chapters)
    ensures NoDuplicates(chapters[..|chapters| - 1])
    ensures chapters[|chapters| - 1] !in chapters[..|chapters| - 1]
  {
    var n := |chapters| - 1;
    var init, last := chapters[..n], chapters[n];
    assert chapters == init + [last];
    assert multiset(chapters) == multiset(init) + multiset{last};
    assert last !in init by {
      assert multiset(chapters)[last] <= 1;
    }
    forall p ensures multiset(init)[p] <= 1 {
      assert multiset(chapters)[p] <= 1;
    }
  }

  /** Reordering the directory listing changes nothing: chapter numbers follow sorted order. */
  lemma ChaptersIgnoreListingOrder(listing1: seq<Path>, listing2: seq<Path>)
    requires multiset(listing1) == multiset(listing2)
    ensures Chapters(listing1) == Chapters(listing2)
  {
    var h1, h2 := FilterHtml(listing1), FilterHtml(listing2);
    assert multiset(h1) == multiset(h2) by {
      forall p ensures multiset(h1)[p] == multiset(h2)[p] {
        FilterHtmlCount(listing1, p);
        FilterHtmlCount(listing2, p);
      }
    }
    assert IndexPage in listing1 <==> IndexPage in listing2 by {
      assert IndexPage in listing1 <==> IndexPage in multiset(listing1);
      assert IndexPage in listing2 <==> IndexPage in multiset(listing2);
    }
    if IndexPage in listing1 {
      var c1, c2 := Chapters(listing1).value, Chapters(listing2).value;
      SortedUnique(c1, c2);
    }
  }

  /** With no entry listed twice, the index page is never among the chapters. */
  lemma ChaptersAreListedPagesButIndex(listing: seq<Path>)
    requires NoDuplicates(listing)
    requires IndexPage in listing
    ensures NoDuplicates(Chapters(listing).value)
    ensures forall p :: p in Chapters(listing).value <==> p in listing && IsHtml(p) && p != IndexPage
  {
    var chapters := Chapters(listing).value;
    var html := FilterHtml(listing);
    forall p ensures multiset(chapters)[p] <= 1
      && (p in chapters <==> p in listing && IsHtml(p) && p != IndexPage)
    {
      FilterHtmlCount(listing, p);
      assert p in chapters <==> multiset(chapters)[p] > 0;
      assert p in listing <==> multiset(listing)[p] > 0;
      assert multiset(listing)[p] <= 1;
    }
  }

  /**
   * What a successful run does to the directory: the `k`-th chapter in sorted order is
   * rewritten with counter `k`, the index page gets only the redirect fix, and every
   * other file is left as it was.
   */
  lemma ScriptEffect(docs: Docs, listing: seq<Path>)
    requires Readable(docs, listing)
    requires NoDuplicates(listing)
    requires IndexPage in listing
    ensures Script(docs, listing).Success?
    ensures Script(docs, listing).value[IndexPage] == FixRedirect(docs[IndexPage])
    ensures forall k :: 0 <= k < |Chapters(listing).value| ==>
      Script(docs, listing).value[Chapters(listing).value[k]]
        == TransformChapter(docs[Chapters(listing).value[k]], k)
    ensures forall p :: p in docs && p !in Chapters(listing).value && p != IndexPage ==>
      Script(docs, listing).value[p] == docs[p]
  {
    IndexPageIsHtml();
    var chapters := Chapters(listing).value;
    ChaptersAreListedPagesButIndex(listing);
    var numbered := NumberedDocs(docs, chapters);
    var after := Script(docs, listing).value;
    assert after == FixIndex(numbered);
    NumberedDocsOutside(docs, chapters, IndexPage);
    forall k | 0 <= k < |chapters|
      ensures after[chapters[k]] == TransformChapter(docs[chapters[k]], k)
    {
      assert chapters[k] in chapters;
      NumberedDocsAt(docs, chapters, k);
    }
    forall p | p in docs && p !in chapters && p != IndexPage
      ensures after[p] == docs[p]
    {
      NumberedDocsOutside(docs, chapters, p);
    }
  }

  /** An entry that is not an `.html` page is never rewritten, listed or not. */
  lemma NonHtmlUntouched(docs: Docs, listing: seq<Path>, p: Path)
    requires Readable(docs, listing)
    requires IndexPage in listing
    requires p in docs && !IsHtml(p)
    ensures Script(docs, listing).value[p] == docs[p]
  {
    IndexPageIsHtml();
    NumberedDocsOutside(docs, Chapters(listing).value, p);
  }

  /** A chapter holding none of the three search strings is written back unchanged. */
  lemma UntouchedChapter(content: string, cnt: nat)
    requires !Contains(content, HeaderPattern)
    requires !Contains(content, Menu1Pattern)
    requires !Contains(content, Menu2Pattern)
    ensures TransformChapter(content, cnt) == content
  {
    ReplaceAllNoMatch(content, HeaderPattern, HeaderPrefix + Str(cnt));
    ReplaceAllNoMatch(content, Menu1Pattern, Menu1Label);
    ReplaceAllNoMatch(content, Menu2Pattern, Menu2Label);
  }

  /**
   * A section number that starts with `1` has that `1` replaced by the counter; the scan
   * then goes on in the text after the `1`.
   */
  lemma RenumberLeadingOne(rest: string, cnt: nat)
    ensures RenumberHeaders(HeaderPattern + rest, cnt) == HeaderPrefix + Str(cnt) + RenumberHeaders(rest, cnt)
  {
    assert [] + HeaderPattern + rest == HeaderPattern + rest;
    ReplaceAllAround([], HeaderPattern, HeaderPrefix + Str(cnt), rest);
  }

  /** A single header in the text: its leading `1` becomes the counter, and the rest is kept. */
  lemma RenumberSingleHeader(rest: string, cnt: nat)
    requires !Contains(rest, HeaderPattern)
    ensures RenumberHeaders(HeaderPattern + rest, cnt) == HeaderPrefix + Str(cnt) + rest
  {
    RenumberLeadingOne(rest, cnt);
    ReplaceAllNoMatch(rest, HeaderPattern, HeaderPrefix + Str(cnt));
  }

  /** The first chapter (counter 0): section `1.1` becomes `0.1`. */
  lemma FirstChapterHeader()
    ensures RenumberHeaders(HeaderPrefix + "1.1</span>", 0) == HeaderPrefix + "0.1</span>"
  {
    assert HeaderPrefix + "1.1</span>" == HeaderPattern + ".1</span>";
    RenumberSingleHeader(".1</span>", 0);
    assert Str(0) == "0";
  }

  /**
   * The second chapter (counter 1) is written back with its headers as they were: the
   * matched `1` is replaced by `1` again, so section `1.2` stays `1.2`.
   */
  lemma SecondChapterHeadersUnchanged(content: string)
    ensures RenumberHeaders(content, 1) == content
  {
    assert Str(1) == "1";
    assert HeaderPrefix + Str(1) == HeaderPattern;
    ReplaceAllByItself(content, HeaderPattern);
  }

  /**
   * The pass is one-shot: for counter 10 a header renumbered once is renumbered again
   * by a second run (`1.x` becomes `10.x`, then `100.x`).
   */
  lemma RerunRenumbersAgain(rest: string)
    requires !Contains(rest, HeaderPattern)
    ensures RenumberHeaders(HeaderPattern + rest, 10) == HeaderPattern + "0" + rest
    ensures RenumberHeaders(HeaderPattern + "0" + rest, 10) == HeaderPattern + "00" + rest
  {
    assert Str(10) == "10";
    assert HeaderPrefix + Str(10) == HeaderPattern + "0";
    RenumberSingleHeader(rest, 10);
    NoMatchAfterChar('0', rest, HeaderPattern);
    assert HeaderPattern + "0" + rest == HeaderPattern + (['0'] + rest);
    RenumberSingleHeader(['0'] + rest, 10);
  }

  /** Neither menu entry holds a section-number header. */
  lemma MenusHoldNoHeader()
    ensures !Contains(Menu1Pattern, HeaderPattern)
    ensures !Contains(Menu2Pattern, HeaderPattern)
  {
    assert HeaderPattern[13] == 'h';
    assert forall j :: 13 <= j < 37 ==> Menu1Pattern[j] != 'h';
    NoMatchByChar(Menu1Pattern, HeaderPattern, 13);
    assert forall j :: 13 <= j < 30 ==> Menu2Pattern[j] != 'h';
    NoMatchByChar(Menu2Pattern, HeaderPattern, 13);
  }

  /**
   * The first menu entry, in whatever text the header step left, gets its `1 ` label;
   * the text before and after it is kept (when the entry occurs once and the label
   * step forms no second menu entry).
   */
  lemma FirstMenuLabel(before: string, after: string)
    requires forall j: nat :: j < |before| ==> !OccursAt(before + Menu1Pattern + after, Menu1Pattern, j)
    requires !Contains(after, Menu1Pattern)
    requires !Contains(before + Menu1Label + after, Menu2Pattern)
    ensures LabelMenu(before + Menu1Pattern + after) == before + Menu1Label + after
  {
    ReplaceAllAround(before, Menu1Pattern, Menu1Label, after);
    ReplaceAllNoMatch(after, Menu1Pattern, Menu1Label);
    ReplaceAllNoMatch(before + Menu1Label + after, Menu2Pattern, Menu2Label);
  }

  /**
   * The second menu entry, in whatever text the header step left, gets its `2 ` label;
   * the text before and after it is kept (when the entry occurs once and the text
   * holds no first menu entry).
   */
  lemma SecondMenuLabel(before: string, after: string)
    requires !Contains(before + Menu2Pattern + after, Menu1Pattern)
    requires forall j: nat :: j < |before| ==> !OccursAt(before + Menu2Pattern + after, Menu2Pattern, j)
    requires !Contains(after, Menu2Pattern)
    ensures LabelMenu(before + Menu2Pattern + after) == before + Menu2Label + after
  {
    ReplaceAllNoMatch(before + Menu2Pattern + after, Menu1Pattern, Menu1Label);
    ReplaceAllAround(before, Menu2Pattern, Menu2Label, after);
    ReplaceAllNoMatch(after, Menu2Pattern, Menu2Label);
  }

  /**
   * A sidebar listing both chapters: each entry gets its label, and the text before,
   * between and after them is kept (when each entry occurs once, the first before
   * the second).
   */
  lemma BothMenuLabels(a: string, b: string, c: string)
    requires forall j: nat :: j < |a| ==> !OccursAt(a + Menu1Pattern + b + Menu2Pattern + c, Menu1Pattern, j)
    requires !Contains(b + Menu2Pattern + c, Menu1Pattern)
    requires forall j: nat :: j < |a + Menu1Label + b| ==>
               !OccursAt(a + Menu1Label + b + Menu2Pattern + c, Menu2Pattern, j)
    requires !Contains(c, Menu2Pattern)
    ensures LabelMenu(a + Menu1Pattern + b + Menu2Pattern + c) == a + Menu1Label + b + Menu2Label + c
  {
    var rest := b + Menu2Pattern + c;
    Regroup(a, Menu1Pattern, b, Menu2Pattern, c, Menu1Label);
    ReplaceAllAround(a, Menu1Pattern, Menu1Label, rest);
    ReplaceAllNoMatch(rest, Menu1Pattern, Menu1Label);
    ReplaceAllAround(a + Menu1Label + b, Menu2Pattern, Menu2Label, c);
    ReplaceAllNoMatch(c, Menu2Pattern, Menu2Label);
  }

  /** A page that is exactly the first menu entry becomes the labelled entry, whatever the counter. */
  lemma FirstMenuEntryPage(cnt: nat)
    ensures TransformChapter(Menu1Pattern, cnt) == Menu1Label
  {
    MenusHoldNoHeader();
    ReplaceAllNoMatch(Menu1Pattern, HeaderPattern, HeaderPrefix + Str(cnt));
    ReplaceAllWhole(Menu1Pattern, Menu1Label);
    NoMatchByChar(Menu1Label, Menu2Pattern, 24);
    ReplaceAllNoMatch(Menu1Label, Menu2Pattern, Menu2Label);
  }

  /** A page that is exactly the second menu entry becomes the labelled entry, whatever the counter. */
  lemma SecondMenuEntryPage(cnt: nat)
    ensures TransformChapter(Menu2Pattern, cnt) == Menu2Label
  {
    MenusHoldNoHeader();
    ReplaceAllNoMatch(Menu2Pattern, HeaderPattern, HeaderPrefix + Str(cnt));
    ReplaceAllNoMatch(Menu2Pattern, Menu1Pattern, Menu1Label);
    ReplaceAllWhole(Menu2Pattern, Menu2Label);
  }

  /**
   * On the index page the first link to the second chapter is redirected to
   * `00-index.html`, the text before it is kept, and the scan goes on after it; when
   * the text after it holds no further link, that text is kept as well.
   */
  lemma RedirectLink(before: string, after: string)
    requires forall j: nat :: j < |before| ==> !OccursAt(before + RedirectPattern + after, RedirectPattern, j)
    ensures FixRedirect(before + RedirectPattern + after) == before + RedirectTarget + FixRedirect(after)
    ensures !Contains(after, RedirectPattern) ==>
              FixRedirect(before + RedirectPattern + after) == before + RedirectTarget + after
  {
    ReplaceAllAround(before, RedirectPattern, RedirectTarget, after);
    if !Contains(after, RedirectPattern) {
      ReplaceAllNoMatch(after, RedirectPattern, RedirectTarget);
    }
  }

  /**
   * The script's state: the `docs/` directory, the list `html_files` and the counter
   * `cnt`. Each method is one block of the script.
   */
  class Site {
    var docs: Docs
    var htmlFiles: seq<Path>
    var cnt: nat

    constructor (docs: Docs)
      ensures this.docs == docs && htmlFiles == [] && cnt == 0
    {
      this.docs := docs;
      htmlFiles := [];
      cnt := 0;
    }

    /** Start from an empty list and append each listed `.html` entry in turn. */
    method CollectHtml(listing: seq<Path>)
      modifies this`htmlFiles
      ensures htmlFiles == FilterHtml(listing)
    {
      htmlFiles := [];
      for i := 0 to |listing|
        invariant htmlFiles == FilterHtml(listing[..i])
      {
        var f := listing[i];
        assert listing[..i + 1][..i] == listing[..i];
        assert FilterHtml(listing[..i + 1]) == FilterHtml(listing[..i]) + if IsHtml(f) then [f] else [];
        BasenameTestIsHtml(f);
        if EndsWith(Basename(f), HtmlSuffix) {
          htmlFiles := htmlFiles + [f];
        }
      }
      assert listing[..|listing|] == listing;
    }

    /** Remove the index page from the list (raising if it is absent), then sort it. */
    method KeepChapters() returns (outcome: Outcome<Error>)
      modifies this`htmlFiles
      ensures ChapterList(old(htmlFiles)).None? ==> outcome == Fail(IndexNotListed) && htmlFiles == old(htmlFiles)
      ensures ChapterList(old(htmlFiles)).Some? ==> outcome == Pass && htmlFiles == ChapterList(old(htmlFiles)).value
    {
      var rest := RemoveFirst(htmlFiles, IndexPage);
      if rest.None? {
        return Fail(IndexNotListed);
      }
      htmlFiles := Sort(rest.value);
      outcome := Pass;
    }

    /** Rewrite each chapter in list order, the counter going up by one per file. */
    method NumberChapters()
      requires forall p :: p in htmlFiles ==> p in docs
      modifies this`docs, this`cnt
      ensures cnt == |htmlFiles|
      ensures docs == NumberedDocs(old(docs), htmlFiles)
    {
      cnt := 0;
      for i := 0 to |htmlFiles|
        invariant cnt == i
        invariant docs == NumberedDocs(old(docs), htmlFiles[..i])
      {
        var htmlf := htmlFiles[i];
        NumberedDocsStep(old(docs), htmlFiles, i);
        var content := docs[htmlf];
        content := ReplaceAll(content, HeaderPattern, HeaderPrefix + Str(0 + cnt));
        cnt := cnt + 1;
        content := ReplaceAll(content, Menu1Pattern, Menu1Label);
        content := ReplaceAll(content, Menu2Pattern, Menu2Label);
        docs := docs[htmlf := content];
      }
      assert htmlFiles[..|htmlFiles|] == htmlFiles;
    }

    /** Read the index page, redirect its links and write it back. */
    method FixIndexRedirect()
      requires IndexPage in docs
      modifies this`docs
      ensures docs == FixIndex(old(docs))
    {
      var content := docs[IndexPage];
      content := ReplaceAll(content, RedirectPattern, RedirectTarget);
      docs := docs[IndexPage := content];
    }

    /** Lines 11-18: the `.html` entries, less the index page, in sorted order. */
    method SelectChapters(listing: seq<Path>) returns (outcome: Outcome<Error>)
      modifies this`htmlFiles
      ensures outcome.Fail? <==> Chapters(listing).None?
      ensures outcome.Fail? ==> outcome == Fail(IndexNotListed)
      ensures outcome.Pass? ==> Some(htmlFiles) == Chapters(listing)
    {
      CollectHtml(listing);
      outcome := KeepChapters();
      assert ChapterList(FilterHtml(listing)) == Chapters(listing);
    }

    /** Lines 21-59: the chapter loop, then the index page's redirect. */
    method RewritePages()
      requires forall p :: p in htmlFiles ==> p in docs
      requires IndexPage in docs
      modifies this`docs, this`cnt
      ensures cnt == |htmlFiles|
      ensures docs == FixIndex(NumberedDocs(old(docs), htmlFiles))
    {
      NumberChapters();
      assert IndexPage in docs.Keys;
      FixIndexRedirect();
    }

    /** The script from top to bottom, given the entries the `docs` glob listed. */
    method Run(listing: seq<Path>) returns (outcome: Outcome<Error>)
      requires Readable(docs, listing)
      modifies this
      ensures Script(old(docs), listing).Failure? ==> outcome == Fail(IndexNotListed) && docs == old(docs)
      ensures Script(old(docs), listing).Success? ==>
        outcome == Pass && docs == Script(old(docs), listing).value
      ensures outcome == Pass ==> Chapters(listing) == Some(htmlFiles) && cnt == |htmlFiles|
    {
      ScriptSteps(docs, listing);
      outcome := SelectChapters(listing);
      if outcome.Fail? {
        return;
      }
      RewritePages();
    }
  }
}
