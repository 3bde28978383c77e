/** The job catalog as loaded from `jobs.json`, and its flattening into the
    ordered list of entries that search and pagination work on. */
module Catalog {
  import opened Options

  datatype Link = Link(category: string, url: string, pageTitle: Option<string>)

  datatype Video = Video(url: string)

  datatype Job = Job(degreeRequired: string, links: seq<Link>, videos: seq<Video>, jobsTable: Option<string>)

  /** One element of the catalog array. `jobs` lists the object's entries in
      the order `Object.entries` yields them. */
  datatype Category = Category(mainCategory: string, jobs: seq<(string, Job)>)

  /** The `{ main_category, jobTitle, job }` records built by the script. */
  datatype Entry = Entry(mainCategory: string, jobTitle: string, job: Job)

  function EntryOf(c: Category, j: int): Entry
    requires 0 <= j < |c.jobs|
  {
    Entry(c.mainCategory, c.jobs[j].0, c.jobs[j].1)
  }

  /** `Object.entries(category.jobs).map(...)` for one category. */
  function EntriesOf(c: Category): (r: seq<Entry>)
    ensures |r| == |c.jobs|
    ensures forall j :: 0 <= j < |r| ==> r[j] == EntryOf(c, j)
  {
    seq(|c.jobs|, j requires 0 <= j < |c.jobs| => EntryOf(c, j))
  }

  /** Number of jobs in the first categories of a catalog. */
  function JobCount(catalog: seq<Category>): nat
  {
    if |catalog| == 0 then 0 else JobCount(catalog[..|catalog| - 1]) + |catalog[|catalog| - 1].jobs|
  }

  /** Position in the flattened list of the first job of category `i`. */
  function Offset(catalog: seq<Category>, i: int): nat
    requires 0 <= i <= |catalog|
  {
    JobCount(catalog[..i])
  }

  /** Position in the flattened list of job `j` of category `i`. */
  function FlatIndex(catalog: seq<Category>, i: int, j: nat): nat
    requires 0 <= i < |catalog|
  {
    Offset(catalog, i) + j
  }

  /** `jobData.flatMap(category => Object.entries(category.jobs).map(...))`. */
  function Flatten(catalog: seq<Category>): seq<Entry>
  {
    if |catalog| == 0 then [] else EntriesOf(catalog[0]) + Flatten(catalog[1..])
  }

  lemma {:induction false} FlattenAppend(a: seq<Category>, b: seq<Category>)
    ensures Flatten(a + b) == Flatten(a) + Flatten(b)
    decreases |a|
  {
    if |a| == 0 {
      assert a + b == b;
    } else {
      assert (a + b)[1..] == a[1..] + b;
      FlattenAppend(a[1..], b);
    }
  }

  lemma {:induction false} FlattenLength(catalog: seq<Category>)
    ensures |Flatten(catalog)| == JobCount(catalog)
    decreases |catalog|
  {
    if |catalog| > 0 {
      var n := |catalog| - 1;
      var init := catalog[..n];
      FlattenLength(init);
      assert catalog == init + [catalog[n]];
      FlattenAppend(init, [catalog[n]]);
      assert Flatten([catalog[n]]) == EntriesOf(catalog[n]) by {
        assert [catalog[n]][1..] == [];
      }
    }
  }

  /** The entry for job `j` of category `i` sits right after the jobs of the
      categories before it: category order first, then insertion order. */
  lemma {:induction false} FlattenAt(catalog: seq<Category>, i: int, j: int)
    requires 0 <= i < |catalog| && 0 <= j < |catalog[i].jobs|
    ensures FlatIndex(catalog, i, j) < |Flatten(catalog)|
    ensures Flatten(catalog)[FlatIndex(catalog, i, j)] == EntryOf(catalog[i], j)
  {
    var pre := catalog[..i];
    var post := catalog[i..];
    assert catalog == pre + post;
    FlattenAppend(pre, post);
    FlattenLength(pre);
    assert post[0] == catalog[i];
  }

  /** The flattened list has one entry per job, laid out category by
      category and, within a category, in insertion order. */
  lemma {:induction false} FlattenLayout(catalog: seq<Category>)
    ensures |Flatten(catalog)| == JobCount(catalog)
    ensures forall i, j :: 0 <= i < |catalog| && 0 <= j < |catalog[i].jobs| ==>
      FlatIndex(catalog, i, j) < |Flatten(catalog)| &&
      Flatten(catalog)[FlatIndex(catalog, i, j)] == EntryOf(catalog[i], j)
  {
    FlattenLength(catalog);
    forall i, j | 0 <= i < |catalog| && 0 <= j < |catalog[i].jobs|
      ensures FlatIndex(catalog, i, j) < |Flatten(catalog)| &&
        Flatten(catalog)[FlatIndex(catalog, i, j)] == EntryOf(catalog[i], j)
    {
      FlattenAt(catalog, i, j);
    }
  }

  /** Every flattened entry comes from some job of some category. */
  lemma {:induction false} FlattenSources(catalog: seq<Category>, e: Entry)
    requires e in Flatten(catalog)
    ensures exists i, j :: 0 <= i < |catalog| && 0 <= j < |catalog[i].jobs| && e == EntryOf(catalog[i], j)
    decreases |catalog|
  {
    if e in EntriesOf(catalog[0]) {
      var j :| 0 <= j < |catalog[0].jobs| && EntriesOf(catalog[0])[j] == e;
      assert e == EntryOf(catalog[0], j);
    } else {
      FlattenSources(catalog[1..], e);
      var i, j :| 0 <= i < |catalog[1..]| && 0 <= j < |catalog[1..][i].jobs| && e == EntryOf(catalog[1..][i], j);
      assert catalog[1..][i] == catalog[i + 1];
    }
  }
}
