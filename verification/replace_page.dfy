/** The page of the replace-render versions (floating_vid_backup/2,
    floating_vid_backup, playing_vid_stays, vids_auto_play and backup, whose
    search, pagination and rendering lines are identical): every load
    re-renders the whole displayed prefix with `displayJobs`. */
module ReplacePage {
  import opened Options
  import opened Catalog
  import opened Search
  import opened Paging
  import opened Rendering

  /** A committed search (the debounce timer fired) or a scroll to the
      bottom of the page. */
  datatype Event = SearchCommitted(text: string) | RevealMore

  /** The cursor, the contents of `#jobslist`, and the `#mainCategory`
      categoryLabel, which is `None` until the script first writes it. */
  datatype Page = Page(cursor: Cursor, rendered: seq<Item>, categoryLabel: Option<string>)

  /** `loadMoreJobs()`: when a chunk was loaded, `displayJobs(displayedJobs)`
      replaces the list and the categoryLabel. */
  function LoadAndDisplay(full: seq<Entry>, p: Page): Page {
    if |NextChunk(full, p.cursor)| == 0 then p
    else
      var c := LoadMore(full, p.cursor);
      Page(c, Render(c.displayed), Some(MainCategoryLabel(c.displayed)))
  }

  /** The page after `loadJobs` fetched the catalog. */
  function Loaded(catalog: seq<Category>): Page {
    LoadAndDisplay(Flatten(catalog), Page(Fresh, [], None))
  }

  function Step(catalog: seq<Category>, p: Page, ev: Event): Page {
    var full := Flatten(catalog);
    match ev
    case RevealMore => LoadAndDisplay(full, p)
    case SearchCommitted(text) =>
      var words := Words(text);
      if |words| == 0 then LoadAndDisplay(full, p.(cursor := Fresh))
      else LoadAndDisplay(full, p.(cursor := Cursor(FilterJobs(catalog, words), [], 0)))
  }

  function Run(catalog: seq<Category>, events: seq<Event>): Page
    decreases |events|
  {
    if |events| == 0 then Loaded(catalog)
    else Step(catalog, Run(catalog, events[..|events| - 1]), events[|events| - 1])
  }

  /** The list shows exactly the header rule applied to the displayed
      prefix, and the categoryLabel is the first displayed entry's category (it has
      not been written while nothing is displayed). */
  ghost predicate Inv(catalog: seq<Category>, p: Page) {
    var full := Flatten(catalog);
    && Consistent(full, p.cursor)
    && |p.cursor.filtered| <= |full|
    && p.rendered == Render(p.cursor.displayed)
    && p.categoryLabel == (if |p.cursor.displayed| == 0 then None else Some(p.cursor.displayed[0].mainCategory))
  }

  lemma LoadAndDisplayKeepsInv(catalog: seq<Category>, p: Page)
    requires Consistent(Flatten(catalog), p.cursor) && |p.cursor.filtered| <= |Flatten(catalog)|
    requires |NextChunk(Flatten(catalog), p.cursor)| == 0 ==>
      p.rendered == Render(p.cursor.displayed) &&
      p.categoryLabel == (if |p.cursor.displayed| == 0 then None else Some(p.cursor.displayed[0].mainCategory))
    ensures Inv(catalog, LoadAndDisplay(Flatten(catalog), p))
  {
    LoadMoreStep(Flatten(catalog), p.cursor);
  }

  /** Every event keeps the invariant; in particular a committed search
      shows what `Commit` computes. */
  lemma StepKeepsInv(catalog: seq<Category>, p: Page, ev: Event)
    requires Inv(catalog, p)
    ensures Inv(catalog, Step(catalog, p, ev))
    ensures ev.SearchCommitted? ==> Step(catalog, p, ev).cursor == Commit(catalog, ev.text)
  {
    var full := Flatten(catalog);
    match ev
    case RevealMore =>
      LoadAndDisplayKeepsInv(catalog, p);
    case SearchCommitted(text) =>
      var words := Words(text);
      if |words| == 0 {
        LoadAndDisplayKeepsInv(catalog, p.(cursor := Fresh));
      } else {
        var q := p.(cursor := Cursor(FilterJobs(catalog, words), [], 0));
        FilterJobsSpec(catalog, words);
        SubsequenceLength(FilterJobs(catalog, words), full);
        LoadAndDisplayKeepsInv(catalog, q);
      }
  }

  lemma {:induction false} RunKeepsInv(catalog: seq<Category>, events: seq<Event>)
    ensures Inv(catalog, Run(catalog, events))
    decreases |events|
  {
    if |events| == 0 {
      LoadAndDisplayKeepsInv(catalog, Page(Fresh, [], None));
    } else {
      RunKeepsInv(catalog, events[..|events| - 1]);
      StepKeepsInv(catalog, Run(catalog, events[..|events| - 1]), events[|events| - 1]);
    }
  }

  /** Scrolling once everything is shown re-renders nothing. */
  lemma RevealMoreWhenExhausted(catalog: seq<Category>, p: Page)
    requires Inv(catalog, p)
    requires p.cursor.index >= |ActiveList(Flatten(catalog), p.cursor.filtered)|
    ensures Step(catalog, p, RevealMore) == p
  {
  }
}
