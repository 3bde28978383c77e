/** The page of app.js, which appends each loaded chunk with `appendJobs`
    and carries the last rendered category across calls in
    `jobslist.dataset.lastCategory`. */
module AppendPage {
  import opened Options
  import opened Text
  import opened Catalog
  import opened Search
  import opened Paging
  import opened Rendering
  import ReplacePage

  /** The cursor, the contents of `#jobslist`, `dataset.lastCategory`
      (absent reads as `''`), and the `#mainCategory` label. */
  datatype Page = Page(cursor: Cursor, rendered: seq<Item>, lastCategory: string, categoryLabel: Option<string>)

  /** `loadMoreJobs()` followed by `appendJobs(nextJobs)` when a chunk was
      loaded: the chunk is rendered from the stored category and appended,
      and the label takes the chunk's first category. */
  function LoadAndAppend(full: seq<Entry>, p: Page): Page {
    var chunk := NextChunk(full, p.cursor);
    if |chunk| == 0 then p
    else
      Page(LoadMore(full, p.cursor),
           p.rendered + RenderFrom(p.lastCategory, chunk),
           LastCategory(p.lastCategory, chunk),
           Some(chunk[0].mainCategory))
  }

  function Loaded(catalog: seq<Category>): Page {
    LoadAndAppend(Flatten(catalog), Page(Fresh, [], "", None))
  }

  /** The search handler and `resetJobs` as written: the list is cleared
      (`innerHTML = ""`) but `dataset.lastCategory` is not. */
  function Step(catalog: seq<Category>, p: Page, ev: ReplacePage.Event): Page {
    var full := Flatten(catalog);
    match ev
    case RevealMore => LoadAndAppend(full, p)
    case SearchCommitted(text) =>
      var words := Words(text);
      if |words| == 0 then LoadAndAppend(full, p.(cursor := Fresh, rendered := []))
      else LoadAndAppend(full, p.(cursor := Cursor(FilterJobs(catalog, words), [], 0), rendered := []))
  }

  /** The same handler with the stored category cleared together with the
      list, so that a new list starts its headings afresh. */
  function StepCorrected(catalog: seq<Category>, p: Page, ev: ReplacePage.Event): Page {
    var full := Flatten(catalog);
    match ev
    case RevealMore => LoadAndAppend(full, p)
    case SearchCommitted(text) =>
      var words := Words(text);
      if |words| == 0 then LoadAndAppend(full, Page(Fresh, [], "", p.categoryLabel))
      else LoadAndAppend(full, Page(Cursor(FilterJobs(catalog, words), [], 0), [], "", p.categoryLabel))
  }

  /** The label written by the last `appendJobs` call: the first category
      of the last chunk loaded. */
  ghost predicate LabelFromLastChunk(p: Page) {
    |p.cursor.displayed| == 0 ||
      (ChunkSize <= p.cursor.index && p.cursor.index - ChunkSize < |p.cursor.displayed| &&
       p.categoryLabel == Some(p.cursor.displayed[p.cursor.index - ChunkSize].mainCategory))
  }

  /** What holds of app.js as written: the list is the header rule applied
      to the displayed prefix, started from SOME category (the one left
      over from before the last reset), and the stored category is the one
      that rendering leaves behind. */
  ghost predicate Inv(catalog: seq<Category>, p: Page) {
    var full := Flatten(catalog);
    && Consistent(full, p.cursor)
    && |p.cursor.filtered| <= |full|
    && (exists b :: p.rendered == RenderFrom(b, p.cursor.displayed)
                    && p.lastCategory == LastCategory(b, p.cursor.displayed))
    && LabelFromLastChunk(p)
  }

  /** The intended invariant: the list is exactly the whole displayed
      prefix rendered from `''`, as the replace-render versions show it. */
  ghost predicate InvCorrected(catalog: seq<Category>, p: Page) {
    var full := Flatten(catalog);
    && Consistent(full, p.cursor)
    && |p.cursor.filtered| <= |full|
    && p.rendered == Render(p.cursor.displayed)
    && p.lastCategory == LastCategory("", p.cursor.displayed)
    && LabelFromLastChunk(p)
  }

  /** A non-empty chunk follows the displayed prefix exactly: the index
      had reached the end of the prefix and moves on to one chunk past the
      chunk's first entry. */
  lemma ChunkFollowsPrefix(full: seq<Entry>, c: Cursor)
    requires Consistent(full, c)
    requires |NextChunk(full, c)| > 0
    ensures |c.displayed| == c.index
    ensures LoadMore(full, c).displayed == c.displayed + NextChunk(full, c)
    ensures LoadMore(full, c).index == c.index + ChunkSize
  {
    var list := ActiveList(full, c.filtered);
    assert c.index < |list|;
  }

  lemma LoadAndAppendKeepsInv(catalog: seq<Category>, p: Page, b: string)
    requires Consistent(Flatten(catalog), p.cursor) && |p.cursor.filtered| <= |Flatten(catalog)|
    requires p.rendered == RenderFrom(b, p.cursor.displayed)
    requires p.lastCategory == LastCategory(b, p.cursor.displayed)
    requires LabelFromLastChunk(p)
    ensures Inv(catalog, LoadAndAppend(Flatten(catalog), p))
    ensures b == "" ==> InvCorrected(catalog, LoadAndAppend(Flatten(catalog), p))
  {
    var full := Flatten(catalog);
    var chunk := NextChunk(full, p.cursor);
    LoadMoreStep(full, p.cursor);
    if |chunk| > 0 {
      var q := LoadAndAppend(full, p);
      var d := p.cursor.displayed;
      ChunkFollowsPrefix(full, p.cursor);
      assert q.cursor == LoadMore(full, p.cursor);
      assert q.cursor.displayed == d + chunk;
      RenderFromAppend(b, d, chunk);
      assert q.rendered == RenderFrom(b, q.cursor.displayed);
      assert q.lastCategory == LastCategory(b, q.cursor.displayed);
      assert q.cursor.index - ChunkSize == |d|;
      assert q.cursor.displayed[|d|] == chunk[0];
      assert LabelFromLastChunk(q);
    }
  }

  /** Every event of app.js keeps `Inv`. */
  lemma StepKeepsInv(catalog: seq<Category>, p: Page, ev: ReplacePage.Event)
    requires Inv(catalog, p)
    ensures Inv(catalog, Step(catalog, p, ev))
    ensures ev.SearchCommitted? ==> Step(catalog, p, ev).cursor == Commit(catalog, ev.text)
  {
    var full := Flatten(catalog);
    var b :| p.rendered == RenderFrom(b, p.cursor.displayed) && p.lastCategory == LastCategory(b, p.cursor.displayed);
    match ev
    case RevealMore =>
      LoadAndAppendKeepsInv(catalog, p, b);
    case SearchCommitted(text) =>
      var words := Words(text);
      if |words| == 0 {
        LoadAndAppendKeepsInv(catalog, p.(cursor := Fresh, rendered := []), p.lastCategory);
      } else {
        FilterJobsSpec(catalog, words);
        SubsequenceLength(FilterJobs(catalog, words), full);
        LoadAndAppendKeepsInv(catalog, p.(cursor := Cursor(FilterJobs(catalog, words), [], 0), rendered := []), p.lastCategory);
      }
  }

  /** Every event keeps the intended invariant once resets clear the stored
      category: appending chunk by chunk then shows the same list the
      replace-render versions show. */
  lemma StepCorrectedKeepsInv(catalog: seq<Category>, p: Page, ev: ReplacePage.Event)
    requires InvCorrected(catalog, p)
    ensures InvCorrected(catalog, StepCorrected(catalog, p, ev))
    ensures StepCorrected(catalog, p, ev).rendered == Render(StepCorrected(catalog, p, ev).cursor.displayed)
  {
    var full := Flatten(catalog);
    match ev
    case RevealMore =>
      LoadAndAppendKeepsInv(catalog, p, "");
    case SearchCommitted(text) =>
      var words := Words(text);
      if |words| == 0 {
        LoadAndAppendKeepsInv(catalog, Page(Fresh, [], "", p.categoryLabel), "");
      } else {
        FilterJobsSpec(catalog, words);
        SubsequenceLength(FilterJobs(catalog, words), full);
        LoadAndAppendKeepsInv(catalog, Page(Cursor(FilterJobs(catalog, words), [], 0), [], "", p.categoryLabel), "");
      }
  }

  /** After the initial load, app.js shows the same list, cursor and label
      as the replace-render versions. */
  lemma LoadedMatchesReplace(catalog: seq<Category>)
    ensures InvCorrected(catalog, Loaded(catalog))
    ensures Loaded(catalog).cursor == ReplacePage.Loaded(catalog).cursor
    ensures Loaded(catalog).rendered == ReplacePage.Loaded(catalog).rendered
    ensures Loaded(catalog).categoryLabel == ReplacePage.Loaded(catalog).categoryLabel
  {
    LoadAndAppendKeepsInv(catalog, Page(Fresh, [], "", None), "");
    ReplacePage.LoadAndDisplayKeepsInv(catalog, ReplacePage.Page(Fresh, [], None));
  }

  /** From pages that agree, a scroll keeps app.js and the replace-render
      versions showing the same list. */
  lemma ScrollMatchesReplace(catalog: seq<Category>, p: Page, q: ReplacePage.Page)
    requires InvCorrected(catalog, p) && ReplacePage.Inv(catalog, q)
    requires p.cursor == q.cursor
    ensures Step(catalog, p, ReplacePage.RevealMore).cursor == ReplacePage.Step(catalog, q, ReplacePage.RevealMore).cursor
    ensures Step(catalog, p, ReplacePage.RevealMore).rendered == ReplacePage.Step(catalog, q, ReplacePage.RevealMore).rendered
  {
    LoadAndAppendKeepsInv(catalog, p, "");
    ReplacePage.StepKeepsInv(catalog, q, ReplacePage.RevealMore);
  }

  const PlainJob: Job := Job("", [], [], None)

  /** One category "A" with jobs "x" and "y". */
  const TwoJobs: seq<Category> := [Category("A", [("x", PlainJob), ("y", PlainJob)])]

  const EntryX: Entry := Entry("A", "x", PlainJob)
  const EntryY: Entry := Entry("A", "y", PlainJob)

  lemma TwoJobsFlattened()
    ensures Flatten(TwoJobs) == [EntryX, EntryY]
  {
    assert TwoJobs[1..] == [];
    assert EntriesOf(TwoJobs[0]) == [EntryX, EntryY];
  }

  lemma SearchForY()
    ensures Words("y") == ["y"]
    ensures FilterJobs(TwoJobs, ["y"]) == [EntryY]
  {
    assert Lower("y") == "y";
    assert Split("y", ' ') == ["y"] by {
      assert "y"[1..] == "";
    }
    assert ["y"][1..] == [];
    assert Lower("x") == "x";
    assert !Includes("x", "y") by {
      assert "x"[1..] == "";
      assert !Includes("", "y");
    }
    assert Includes("y", "y");
    assert !PairMatches("x", PlainJob, ["y"]);
    assert PairMatches("y", PlainJob, ["y"]);
    var pairs := TwoJobs[0].jobs;
    assert pairs[1..] == [("y", PlainJob)];
    assert pairs[1..][1..] == [];
    assert MatchingPairs(pairs[1..], ["y"]) == [("y", PlainJob)];
    assert MatchingPairs(pairs, ["y"]) == [("y", PlainJob)];
    assert TwoJobs[1..] == [];
  }

  /** The initial load of `TwoJobs` stores category "A". */
  lemma LoadedTwoJobs()
    ensures Loaded(TwoJobs).lastCategory == "A"
  {
    TwoJobsFlattened();
    assert NextChunk([EntryX, EntryY], Fresh) == [EntryX, EntryY];
    assert LastCategory("", [EntryX, EntryY]) == "A";
  }

  /** The stale stored category in action: after the initial load of
      `TwoJobs` shows heading "A" and both jobs, searching for "y" shows job
      "y" with no heading above it, because the stored category is still
      "A". The corrected handler shows heading "A" first. */
  lemma StaleHeadingAfterSearch()
    ensures var p1 := Step(TwoJobs, Loaded(TwoJobs), ReplacePage.SearchCommitted("y"));
      && p1.cursor.displayed == [EntryY]
      && p1.rendered == [JobItem(EntryY)]
      && p1.rendered != Render(p1.cursor.displayed)
    ensures var q1 := StepCorrected(TwoJobs, Loaded(TwoJobs), ReplacePage.SearchCommitted("y"));
      q1.rendered == [Heading("A"), JobItem(EntryY)]
  {
    TwoJobsFlattened();
    SearchForY();
    LoadedTwoJobs();
    var p0 := Loaded(TwoJobs);
    assert NextChunk([EntryX, EntryY], Cursor([EntryY], [], 0)) == [EntryY];
    assert [EntryY][1..] == [];
    assert RenderFrom("A", [EntryY]) == [JobItem(EntryY)];
    assert RenderFrom("", [EntryY]) == [Heading("A"), JobItem(EntryY)];
    var p1 := Step(TwoJobs, p0, ReplacePage.SearchCommitted("y"));
    assert p1 == LoadAndAppend([EntryX, EntryY], p0.(cursor := Cursor([EntryY], [], 0), rendered := []));
    assert p1.rendered == [] + RenderFrom("A", [EntryY]);
  }
}
