/** The category-header rule shared by `appendJobs` (app.js) and
    `displayJobs` (the other versions), over an abstract list of rendered
    items instead of HTML. */
module Rendering {
  import opened Options
  import opened Catalog

  /** A rendered `<h2 class="main-category">` or job section. */
  datatype Item = Heading(category: string) | JobItem(entry: Entry)

  /** The category heading a reader sees in effect after `items`, when
      `last` was in effect before them. */
  function HeadingAfter(last: string, items: seq<Item>): string
    decreases |items|
  {
    if |items| == 0 then last
    else HeadingAfter(if items[0].Heading? then items[0].category else last, items[1..])
  }

  /** The entries rendered, in order, ignoring headings. */
  function JobsOf(items: seq<Item>): seq<Entry>
    decreases |items|
  {
    if |items| == 0 then []
    else if items[0].JobItem? then [items[0].entry] + JobsOf(items[1..])
    else JobsOf(items[1..])
  }

  /** The `lastCategory` left after rendering `es` from `last`. */
  function LastCategory(last: string, es: seq<Entry>): string {
    if |es| == 0 then last else es[|es| - 1].mainCategory
  }

  /** The loop of `appendJobs` / `displayJobs`: a heading goes before each
      entry whose category differs from the previous one's, the first entry
      being compared with `last`. */
  function RenderFrom(last: string, es: seq<Entry>): seq<Item>
    decreases |es|
  {
    if |es| == 0 then []
    else
      var c := es[0].mainCategory;
      (if c != last then [Heading(c)] else []) + [JobItem(es[0])] + RenderFrom(c, es[1..])
  }

  /** `displayJobs(jobs)`: the whole list rendered from `lastCategory = ''`. */
  function Render(es: seq<Entry>): seq<Item> {
    RenderFrom("", es)
  }

  lemma {:induction false} HeadingAfterAppend(last: string, a: seq<Item>, b: seq<Item>)
    ensures HeadingAfter(last, a + b) == HeadingAfter(HeadingAfter(last, a), b)
    decreases |a|
  {
    if |a| == 0 {
      assert a + b == b;
    } else {
      assert (a + b)[1..] == a[1..] + b;
      HeadingAfterAppend(if a[0].Heading? then a[0].category else last, a[1..], b);
    }
  }

  lemma {:induction false} JobsOfAppend(a: seq<Item>, b: seq<Item>)
    ensures JobsOf(a + b) == JobsOf(a) + JobsOf(b)
    decreases |a|
  {
    if |a| == 0 {
      assert a + b == b;
    } else {
      assert (a + b)[1..] == a[1..] + b;
      JobsOfAppend(a[1..], b);
    }
  }

  /** Every entry of `items` is shown under a heading of its own category. */
  ghost predicate EntriesUnderOwnHeading(last: string, items: seq<Item>) {
    forall k :: 0 <= k < |items| && items[k].JobItem? ==>
      HeadingAfter(last, items[..k]) == items[k].entry.mainCategory
  }

  /** A heading appears only where the heading in effect changes, and it is
      immediately followed by an entry of its category. */
  ghost predicate HeadingsOnlyAtChanges(last: string, items: seq<Item>) {
    forall k :: 0 <= k < |items| && items[k].Heading? ==>
      && HeadingAfter(last, items[..k]) != items[k].category
      && k + 1 < |items|
      && items[k + 1].JobItem?
      && items[k + 1].entry.mainCategory == items[k].category
  }

  lemma {:induction false} UnderOwnHeadingAppend(last: string, a: seq<Item>, b: seq<Item>)
    requires EntriesUnderOwnHeading(last, a)
    requires EntriesUnderOwnHeading(HeadingAfter(last, a), b)
    ensures EntriesUnderOwnHeading(last, a + b)
  {
    var r := a + b;
    forall k | 0 <= k < |r| && r[k].JobItem?
      ensures HeadingAfter(last, r[..k]) == r[k].entry.mainCategory
    {
      if k < |a| {
        assert r[..k] == a[..k];
        assert r[k] == a[k];
      } else {
        var j := k - |a|;
        assert r[k] == b[j];
        assert r[..k] == a + b[..j];
        HeadingAfterAppend(last, a, b[..j]);
      }
    }
  }

  lemma {:induction false} HeadingsOnlyAtChangesAppend(last: string, a: seq<Item>, b: seq<Item>)
    requires HeadingsOnlyAtChanges(last, a)
    requires HeadingsOnlyAtChanges(HeadingAfter(last, a), b)
    ensures HeadingsOnlyAtChanges(last, a + b)
  {
    var r := a + b;
    forall k | 0 <= k < |r| && r[k].Heading?
      ensures HeadingAfter(last, r[..k]) != r[k].category
      ensures k + 1 < |r| && r[k + 1].JobItem? && r[k + 1].entry.mainCategory == r[k].category
    {
      if k < |a| {
        assert r[..k] == a[..k];
        assert r[k] == a[k];
        assert r[k + 1] == a[k + 1];
      } else {
        var j := k - |a|;
        assert r[k] == b[j];
        assert r[..k] == a + b[..j];
        HeadingAfterAppend(last, a, b[..j]);
        assert r[k + 1] == b[j + 1];
      }
    }
  }

  /** The items rendered for one entry: its heading when the category
      changes, then the entry. */
  function Block(last: string, e: Entry): seq<Item> {
    (if e.mainCategory != last then [Heading(e.mainCategory)] else []) + [JobItem(e)]
  }

  lemma BlockSpec(last: string, e: Entry)
    ensures JobsOf(Block(last, e)) == [e]
    ensures HeadingAfter(last, Block(last, e)) == e.mainCategory
    ensures EntriesUnderOwnHeading(last, Block(last, e))
    ensures HeadingsOnlyAtChanges(last, Block(last, e))
  {
    var c := e.mainCategory;
    var pre := if c != last then [Heading(c)] else [];
    var head := Block(last, e);
    assert head == pre + [JobItem(e)];
    JobsOfAppend(pre, [JobItem(e)]);
    assert JobsOf([JobItem(e)]) == [e];
    HeadingAfterAppend(last, pre, [JobItem(e)]);
    forall k | 0 <= k < |head| && head[k].JobItem?
      ensures HeadingAfter(last, head[..k]) == head[k].entry.mainCategory
    {
      assert k == |pre| && head[..k] == pre;
    }
    forall k | 0 <= k < |head| && head[k].Heading?
      ensures HeadingAfter(last, head[..k]) != head[k].category
    {
      assert k == 0 && head[..k] == [];
    }
  }

  /** What the header rule guarantees a reader: the rendered entries are
      exactly `es` in order; every entry is shown under a heading of its own
      category; a heading appears only where the category changes and is
      followed by an entry of that category; and the category carried
      forward is that of the last entry. */
  lemma {:induction false} RenderFromSpec(last: string, es: seq<Entry>)
    ensures JobsOf(RenderFrom(last, es)) == es
    ensures EntriesUnderOwnHeading(last, RenderFrom(last, es))
    ensures HeadingsOnlyAtChanges(last, RenderFrom(last, es))
    ensures HeadingAfter(last, RenderFrom(last, es)) == LastCategory(last, es)
    decreases |es|
  {
    if |es| > 0 {
      var c := es[0].mainCategory;
      var head := Block(last, es[0]);
      var rest := RenderFrom(c, es[1..]);
      assert RenderFrom(last, es) == head + rest;
      RenderFromSpec(c, es[1..]);
      BlockSpec(last, es[0]);
      JobsOfAppend(head, rest);
      assert es == [es[0]] + es[1..];
      UnderOwnHeadingAppend(last, head, rest);
      HeadingsOnlyAtChangesAppend(last, head, rest);
      HeadingAfterAppend(last, head, rest);
      if |es| > 1 {
        assert es[1..][|es| - 2] == es[|es| - 1];
      }
    }
  }

  lemma {:induction false} HeadingRulesSuffix(last: string, items: seq<Item>, n: int)
    requires 0 <= n <= |items|
    requires EntriesUnderOwnHeading(last, items) && HeadingsOnlyAtChanges(last, items)
    ensures EntriesUnderOwnHeading(HeadingAfter(last, items[..n]), items[n..])
    ensures HeadingsOnlyAtChanges(HeadingAfter(last, items[..n]), items[n..])
  {
    var h := HeadingAfter(last, items[..n]);
    var b := items[n..];
    forall j | 0 <= j < |b| && b[j].JobItem?
      ensures HeadingAfter(h, b[..j]) == b[j].entry.mainCategory
    {
      assert items[..n + j] == items[..n] + b[..j];
      HeadingAfterAppend(last, items[..n], b[..j]);
      assert b[j] == items[n + j];
    }
    forall j | 0 <= j < |b| && b[j].Heading?
      ensures HeadingAfter(h, b[..j]) != b[j].category
      ensures j + 1 < |b| && b[j + 1].JobItem? && b[j + 1].entry.mainCategory == b[j].category
    {
      assert items[..n + j] == items[..n] + b[..j];
      HeadingAfterAppend(last, items[..n], b[..j]);
      assert b[j] == items[n + j];
      assert n + j + 1 < |items|;
      assert b[j + 1] == items[n + j + 1];
    }
  }

  /** The converse of `RenderFromSpec`: those guarantees leave no freedom.
      Any item list that shows exactly `es`, keeps every entry under its own
      heading and has headings only where the category changes is the one
      the header rule renders. */
  lemma {:induction false} RenderFromUnique(last: string, es: seq<Entry>, items: seq<Item>)
    requires JobsOf(items) == es
    requires EntriesUnderOwnHeading(last, items)
    requires HeadingsOnlyAtChanges(last, items)
    ensures items == RenderFrom(last, es)
    decreases |items|
  {
    if |items| > 0 {
      if items[0].Heading? {
        var c := items[0].category;
        assert items[..0] == [];
        var e0 := items[1].entry;
        assert JobsOf(items) == JobsOf(items[1..]);
        assert items[1..][0] == items[1];
        assert items[1..][1..] == items[2..];
        assert JobsOf(items[1..]) == [e0] + JobsOf(items[2..]);
        HeadingRulesSuffix(last, items, 2);
        assert items[..2] == [Heading(c), JobItem(e0)];
        assert [Heading(c), JobItem(e0)][1..] == [JobItem(e0)];
        assert HeadingAfter(c, [JobItem(e0)]) == HeadingAfter(c, []);
        assert HeadingAfter(last, items[..2]) == c;
        RenderFromUnique(c, es[1..], items[2..]);
        assert items == [Heading(c), JobItem(e0)] + items[2..];
      } else {
        var e0 := items[0].entry;
        assert items[..0] == [];
        assert last == e0.mainCategory;
        HeadingRulesSuffix(last, items, 1);
        assert items[..1] == [JobItem(e0)];
        assert HeadingAfter(last, items[..1]) == last;
        RenderFromUnique(last, es[1..], items[1..]);
        assert items == [JobItem(e0)] + items[1..];
      }
    }
  }

  /** Rendering a list in two pieces, the second starting from the category
      the first left behind, is rendering it in one go. This is why
      `appendJobs` carries `lastCategory` from chunk to chunk. */
  lemma {:induction false} RenderFromAppend(last: string, xs: seq<Entry>, ys: seq<Entry>)
    ensures RenderFrom(last, xs + ys) == RenderFrom(last, xs) + RenderFrom(LastCategory(last, xs), ys)
    decreases |xs|
  {
    if |xs| == 0 {
      assert xs + ys == ys;
    } else {
      var c := xs[0].mainCategory;
      assert (xs + ys)[0] == xs[0];
      assert (xs + ys)[1..] == xs[1..] + ys;
      RenderFromAppend(c, xs[1..], ys);
      assert LastCategory(c, xs[1..]) == LastCategory(last, xs);
    }
  }

  /** `updateMainCategory(jobs)` in the replace-render versions: the first
      entry's category, or empty text when there is none. */
  function MainCategoryLabel(jobs: seq<Entry>): (r: string)
    ensures |jobs| > 0 ==> r == jobs[0].mainCategory
    ensures |jobs| == 0 ==> r == ""
  {
    if |jobs| > 0 then jobs[0].mainCategory else ""
  }
}
