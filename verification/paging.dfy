/** The pagination cursor of the page script: `filteredJobs`,
    `displayedJobs` and `currentIndex`, advanced in chunks of 20 by
    `loadMoreJobs` and reset by a committed search. */
module Paging {
  import opened Catalog
  import opened Search

  /** `chunkSize` */
  const ChunkSize: nat := 20

  datatype Cursor = Cursor(filtered: seq<Entry>, displayed: seq<Entry>, index: nat)

  function Min(a: int, b: int): int {
    if a <= b then a else b
  }

  /** The cursor of a page that has shown nothing yet. */
  const Fresh: Cursor := Cursor([], [], 0)

  /** `filteredJobs.length > 0 ? filteredJobs : <flattened catalog>`:
      an empty filter result means "no filter". */
  function ActiveList(full: seq<Entry>, filtered: seq<Entry>): seq<Entry> {
    if |filtered| > 0 then filtered else full
  }

  /** `s.slice(lo, hi)`: the elements at positions `lo` up to but excluding
      `hi`, clamped to the end of `s`. */
  function Slice(s: seq<Entry>, lo: nat, hi: nat): (r: seq<Entry>)
    requires lo <= hi
    ensures |r| == if lo >= |s| then 0 else Min(hi, |s|) - lo
    ensures forall k :: 0 <= k < |r| ==> r[k] == s[lo + k]
  {
    if lo >= |s| then [] else s[lo..Min(hi, |s|)]
  }

  /** `jobsToLoad.slice(currentIndex, currentIndex + chunkSize)` */
  function NextChunk(full: seq<Entry>, c: Cursor): seq<Entry> {
    Slice(ActiveList(full, c.filtered), c.index, c.index + ChunkSize)
  }

  /** `loadMoreJobs()` on the cursor: an empty chunk changes nothing;
      otherwise the chunk is appended and the index moves on by a full chunk. */
  function LoadMore(full: seq<Entry>, c: Cursor): Cursor {
    var chunk := NextChunk(full, c);
    if |chunk| == 0 then c
    else Cursor(c.filtered, c.displayed + chunk, c.index + ChunkSize)
  }

  /** `resetJobs()`: no filter, nothing displayed, index 0, then one load. */
  function Reset(full: seq<Entry>): Cursor {
    LoadMore(full, Fresh)
  }

  /** The debounced search handler once the timer fires. */
  function Commit(catalog: seq<Category>, text: string): Cursor {
    var words := Words(text);
    if |words| == 0 then Reset(Flatten(catalog))
    else LoadMore(Flatten(catalog), Cursor(FilterJobs(catalog, words), [], 0))
  }

  /** What the cursor keeps true between events: the index is a whole
      number of chunks, at most one chunk past the end of the active list,
      and what is displayed is the prefix of the active list the index has
      reached. */
  ghost predicate Consistent(full: seq<Entry>, c: Cursor) {
    var list := ActiveList(full, c.filtered);
    && c.index % ChunkSize == 0
    && (c.index == 0 || c.index - ChunkSize < |list|)
    && c.displayed == list[..Min(c.index, |list|)]
  }

  /** `loadMoreJobs` keeps the cursor consistent. Once the active list is
      exhausted it is a no-op; before that it advances the index by exactly
      one chunk and displays `min(index, |list|)` entries. */
  lemma LoadMoreStep(full: seq<Entry>, c: Cursor)
    requires Consistent(full, c)
    ensures Consistent(full, LoadMore(full, c))
    ensures LoadMore(full, c).filtered == c.filtered
    ensures c.index >= |ActiveList(full, c.filtered)| ==> LoadMore(full, c) == c
    ensures c.index < |ActiveList(full, c.filtered)| ==>
      LoadMore(full, c).index == c.index + ChunkSize &&
      |LoadMore(full, c).displayed| == Min(c.index + ChunkSize, |ActiveList(full, c.filtered)|)
  {
    var list := ActiveList(full, c.filtered);
    var chunk := NextChunk(full, c);
    if c.index < |list| {
      var hi := Min(c.index + ChunkSize, |list|);
      assert chunk == list[c.index..hi];
      assert list[..c.index] + list[c.index..hi] == list[..hi];
    }
  }

  /** A fresh cursor is consistent. */
  lemma FreshConsistent(full: seq<Entry>)
    ensures Consistent(full, Fresh)
  {
  }

  /** A search whose words are empty (blank or space-only text) shows the
      first chunk of the full list with no filter, and any other search
      shows the first chunk of its result, falling back to the first chunk
      of the full list when nothing matches. */
  lemma CommitSpec(catalog: seq<Category>, text: string)
    ensures Consistent(Flatten(catalog), Commit(catalog, text))
    ensures (forall i :: 0 <= i < |text| ==> text[i] == ' ') ==>
      Commit(catalog, text) == Cursor([], Flatten(catalog)[..Min(ChunkSize, |Flatten(catalog)|)],
                                      if |Flatten(catalog)| == 0 then 0 else ChunkSize)
    ensures !(forall i :: 0 <= i < |text| ==> text[i] == ' ') ==>
      Commit(catalog, text).filtered == FilterJobs(catalog, Words(text))
    ensures FilterJobs(catalog, Words(text)) == [] ==>
      Commit(catalog, text).filtered == [] &&
      Commit(catalog, text).displayed == Flatten(catalog)[..Min(ChunkSize, |Flatten(catalog)|)]
    ensures FilterJobs(catalog, Words(text)) != [] ==>
      Commit(catalog, text).displayed ==
        FilterJobs(catalog, Words(text))[..Min(ChunkSize, |FilterJobs(catalog, Words(text))|)]
  {
    var full := Flatten(catalog);
    WordsShape(text);
    if |Words(text)| == 0 {
      KeepNoWords(full);
      FilterJobsIsKeep(catalog, []);
      FreshConsistent(full);
      LoadMoreStep(full, Fresh);
    } else {
      var c := Cursor(FilterJobs(catalog, Words(text)), [], 0);
      LoadMoreStep(full, c);
    }
  }

  /** The filter a consistent search leaves behind is a subsequence of the
      flattened catalog, so it is empty whenever the catalog is. */
  lemma CommitFilterIsSubsequence(catalog: seq<Category>, text: string)
    ensures IsSubsequence(Commit(catalog, text).filtered, Flatten(catalog))
    ensures |Commit(catalog, text).filtered| <= |Flatten(catalog)|
  {
    var full := Flatten(catalog);
    var r := Commit(catalog, text);
    if |Words(text)| == 0 {
      assert r.filtered == [];
    } else {
      FilterJobsSpec(catalog, Words(text));
    }
    SubsequenceLength(r.filtered, full);
  }

  /** Forty-five entries are revealed as 20, then 40, then all 45; a fourth
      call changes nothing. */
  lemma FortyFiveEntries(full: seq<Entry>)
    requires |full| == 45
    ensures var c1 := Reset(full);
            var c2 := LoadMore(full, c1);
            var c3 := LoadMore(full, c2);
            var c4 := LoadMore(full, c3);
            && c1.displayed == full[..20] && c1.index == 20
            && c2.displayed == full[..40] && c2.index == 40
            && c3.displayed == full && c3.index == 60
            && c4 == c3
  {
    var c1 := Reset(full);
    FreshConsistent(full);
    LoadMoreStep(full, Fresh);
    LoadMoreStep(full, c1);
    var c2 := LoadMore(full, c1);
    LoadMoreStep(full, c2);
    var c3 := LoadMore(full, c2);
    LoadMoreStep(full, c3);
    assert full[..45] == full;
  }
}
