/** Search: tokenising the search text and filtering the catalog with the
    OR-across-words, OR-across-fields substring rule. */
module Search {
  import opened Text
  import opened Catalog

  /** `.filter(word => word.length > 0)` */
  function NonEmptyPieces(pieces: seq<string>): (r: seq<string>)
    ensures forall k :: 0 <= k < |r| ==> |r[k]| > 0 && r[k] in pieces
    ensures (forall k :: 0 <= k < |pieces| ==> pieces[k] == []) <==> r == []
    ensures IsSubsequence(r, pieces)
    ensures multiset(r) == multiset(pieces)[[] := 0]
    decreases |pieces|
  {
    if |pieces| == 0 then []
    else
      var p, ps := pieces[0], pieces[1..];
      var rest := NonEmptyPieces(ps);
      assert pieces == [p] + ps;
      var r := if |p| > 0 then [p] + rest else rest;
      PiecesFromInput(p, ps, rest);
      PiecesAllEmpty(p, ps, rest);
      PiecesInOrder(p, ps, rest);
      PiecesCounted(p, ps, rest);
      r
  }

  /** The steps of `NonEmptyPieces`, one lemma per clause of its contract. */
  lemma PiecesFromInput(p: string, ps: seq<string>, rest: seq<string>)
    requires forall k :: 0 <= k < |rest| ==> |rest[k]| > 0 && rest[k] in ps
    ensures var r := if |p| > 0 then [p] + rest else rest;
      forall k :: 0 <= k < |r| ==> |r[k]| > 0 && r[k] in [p] + ps
  {
    var r := if |p| > 0 then [p] + rest else rest;
    forall k | 0 <= k < |r| ensures |r[k]| > 0 && r[k] in [p] + ps {
      if |p| > 0 && k > 0 {
        assert r[k] == rest[k - 1];
      }
    }
  }

  lemma PiecesAllEmpty(p: string, ps: seq<string>, rest: seq<string>)
    requires (forall k :: 0 <= k < |ps| ==> ps[k] == []) <==> rest == []
    ensures var r := if |p| > 0 then [p] + rest else rest;
      (forall k :: 0 <= k < |[p] + ps| ==> ([p] + ps)[k] == []) <==> r == []
  {
    var all := [p] + ps;
    if |p| > 0 {
      assert all[0] != [];
      assert |[p] + rest| > 0;
    } else {
      if forall k :: 0 <= k < |ps| ==> ps[k] == [] {
        forall k | 0 <= k < |all| ensures all[k] == [] {
          if k > 0 { assert all[k] == ps[k - 1]; }
        }
      } else {
        var k :| 0 <= k < |ps| && ps[k] != [];
        assert all[k + 1] != [];
      }
    }
  }

  lemma PiecesInOrder(p: string, ps: seq<string>, rest: seq<string>)
    requires IsSubsequence(rest, ps)
    ensures IsSubsequence(if |p| > 0 then [p] + rest else rest, [p] + ps)
  {
    assert ([p] + ps)[1..] == ps;
    assert ([p] + rest)[1..] == rest;
  }

  lemma PiecesCounted(p: string, ps: seq<string>, rest: seq<string>)
    requires multiset(rest) == multiset(ps)[[] := 0]
    ensures multiset(if |p| > 0 then [p] + rest else rest) == multiset([p] + ps)[[] := 0]
  {
    assert multiset([p] + ps) == multiset{p} + multiset(ps);
    assert multiset([p] + rest) == multiset{p} + multiset(rest);
  }

  /** `searchString.toLowerCase().split(' ').filter(word => word.length > 0)` */
  function Words(text: string): seq<string>
  {
    NonEmptyPieces(Split(Lower(text), ' '))
  }

  /** Search words are the non-empty space-separated pieces of the
      lowercased text, in text order and each as often as it occurs there;
      they contain no space and no upper-case letter, and there are none
      exactly when the text is nothing but spaces (the empty text
      included). */
  lemma WordsShape(text: string)
    ensures IsSubsequence(Words(text), Split(Lower(text), ' '))
    ensures multiset(Words(text)) == multiset(Split(Lower(text), ' '))[[] := 0]
    ensures forall k :: 0 <= k < |Words(text)| ==>
      |Words(text)[k]| > 0 && ' ' !in Words(text)[k] && Lower(Words(text)[k]) == Words(text)[k]
    ensures Words(text) == [] <==> forall i :: 0 <= i < |text| ==> text[i] == ' '
  {
    WordsAreLower(text);
    WordsBlank(text);
  }

  lemma WordsAreLower(text: string)
    ensures forall k :: 0 <= k < |Words(text)| ==>
      |Words(text)[k]| > 0 && ' ' !in Words(text)[k] && Lower(Words(text)[k]) == Words(text)[k]
  {
    var low := Lower(text);
    var pieces := Split(low, ' ');
    var words := NonEmptyPieces(pieces);
    LowerIsLower(text);
    forall k | 0 <= k < |words|
      ensures ' ' !in words[k] && Lower(words[k]) == words[k]
    {
      var w := words[k];
      assert w in pieces;
      var p :| 0 <= p < |pieces| && pieces[p] == w;
      forall i | 0 <= i < |w| ensures LowerChar(w[i]) == w[i] {
        assert w[i] in pieces[p];
        assert w[i] in low;
        var j :| 0 <= j < |low| && low[j] == w[i];
      }
    }
  }

  lemma WordsBlank(text: string)
    ensures Words(text) == [] <==> forall i :: 0 <= i < |text| ==> text[i] == ' '
  {
    var low := Lower(text);
    var pieces := Split(low, ' ');
    JoinAllSeparators(pieces, ' ');
    assert (forall i :: 0 <= i < |low| ==> low[i] == ' ') <==> (forall i :: 0 <= i < |text| ==> text[i] == ' ');
  }

  /** `jobTitle.toLowerCase().includes(word)` for some word. */
  predicate TitleMatch(title: string, words: seq<string>) {
    exists k :: 0 <= k < |words| && Includes(Lower(title), words[k])
  }

  /** Some word is in the link's lowercased url or lowercased category. */
  predicate LinkMatch(link: Link, words: seq<string>) {
    exists k :: 0 <= k < |words| &&
      (Includes(Lower(link.url), words[k]) || Includes(Lower(link.category), words[k]))
  }

  /** The predicate `filterJobs` applies to each `[jobTitle, job]` pair. */
  predicate PairMatches(title: string, job: Job, words: seq<string>) {
    TitleMatch(title, words) || exists m :: 0 <= m < |job.links| && LinkMatch(job.links[m], words)
  }

  predicate Matches(e: Entry, words: seq<string>) {
    PairMatches(e.jobTitle, e.job, words)
  }

  /** A word hits an entry when it is a substring of one of the searched fields. */
  predicate WordHits(e: Entry, w: string) {
    Includes(Lower(e.jobTitle), w)
    || exists m :: 0 <= m < |e.job.links| &&
         (Includes(Lower(e.job.links[m].url), w) || Includes(Lower(e.job.links[m].category), w))
  }

  /** The source's nesting (words inside fields inside links) is the plain
      "some word hits some field" rule. */
  lemma MatchesIffSomeWordHits(e: Entry, words: seq<string>)
    ensures Matches(e, words) <==> exists k :: 0 <= k < |words| && WordHits(e, words[k])
  {
    if Matches(e, words) && !TitleMatch(e.jobTitle, words) {
      var m :| 0 <= m < |e.job.links| && LinkMatch(e.job.links[m], words);
      var k :| 0 <= k < |words| &&
        (Includes(Lower(e.job.links[m].url), words[k]) || Includes(Lower(e.job.links[m].category), words[k]));
      assert WordHits(e, words[k]);
    }
    if exists k :: 0 <= k < |words| && WordHits(e, words[k]) {
      var k :| 0 <= k < |words| && WordHits(e, words[k]);
      if !Includes(Lower(e.jobTitle), words[k]) {
        var m :| 0 <= m < |e.job.links| &&
          (Includes(Lower(e.job.links[m].url), words[k]) || Includes(Lower(e.job.links[m].category), words[k]));
        assert LinkMatch(e.job.links[m], words);
      }
    }
  }

  /** `xs` can be obtained from `ys` by deleting elements. */
  predicate IsSubsequence<T(==)>(xs: seq<T>, ys: seq<T>)
    decreases |ys|
  {
    |xs| == 0 ||
    (|ys| > 0 && ((xs[0] == ys[0] && IsSubsequence(xs[1..], ys[1..])) || IsSubsequence(xs, ys[1..])))
  }

  lemma {:induction false} SubsequenceLength<T>(xs: seq<T>, ys: seq<T>)
    requires IsSubsequence(xs, ys)
    ensures |xs| <= |ys|
    decreases |ys|
  {
    if |xs| > 0 {
      if xs[0] == ys[0] && IsSubsequence(xs[1..], ys[1..]) {
        SubsequenceLength(xs[1..], ys[1..]);
      } else {
        SubsequenceLength(xs, ys[1..]);
      }
    }
  }

  lemma {:induction false} SubsequenceOfSelf<T>(ys: seq<T>)
    ensures IsSubsequence(ys, ys)
    decreases |ys|
  {
    if |ys| > 0 {
      SubsequenceOfSelf(ys[1..]);
    }
  }

  /** Reference definition of the search result: the entries of a list
      that match, in list order. */
  function Keep(es: seq<Entry>, words: seq<string>): (r: seq<Entry>)
    ensures IsSubsequence(r, es)
    ensures forall k :: 0 <= k < |r| ==> Matches(r[k], words)
    ensures forall i :: 0 <= i < |es| && Matches(es[i], words) ==> es[i] in r
    ensures forall e :: multiset(r)[e] == if Matches(e, words) then multiset(es)[e] else 0
    decreases |es|
  {
    if |es| == 0 then []
    else
      var rest := Keep(es[1..], words);
      assert es == [es[0]] + es[1..];
      KeepCountCons(es[0], es[1..], rest, words);
      if Matches(es[0], words) then
        assert ([es[0]] + rest)[1..] == rest;
        [es[0]] + rest
      else
        rest
  }

  /** One step of the counting bookkeeping of `Keep`. */
  lemma KeepCountCons(x: Entry, xs: seq<Entry>, rest: seq<Entry>, words: seq<string>)
    requires forall e :: multiset(rest)[e] == if Matches(e, words) then multiset(xs)[e] else 0
    ensures Matches(x, words) ==>
      forall e :: multiset([x] + rest)[e] == if Matches(e, words) then multiset([x] + xs)[e] else 0
    ensures !Matches(x, words) ==>
      forall e :: multiset(rest)[e] == if Matches(e, words) then multiset([x] + xs)[e] else 0
  {
    assert multiset([x] + xs) == multiset{x} + multiset(xs);
    assert multiset([x] + rest) == multiset{x} + multiset(rest);
  }

  lemma {:induction false} KeepAppend(a: seq<Entry>, b: seq<Entry>, words: seq<string>)
    ensures Keep(a + b, words) == Keep(a, words) + Keep(b, words)
    decreases |a|
  {
    if |a| == 0 {
      assert a + b == b;
    } else {
      assert (a + b)[1..] == a[1..] + b;
      KeepAppend(a[1..], b, words);
    }
  }

  /** With no search word nothing matches. */
  lemma {:induction false} KeepNoWords(es: seq<Entry>)
    ensures Keep(es, []) == []
    decreases |es|
  {
    if |es| > 0 {
      KeepNoWords(es[1..]);
    }
  }

  /** The `[jobTitle, job]` pairs of one category that pass the filter. */
  function MatchingPairs(pairs: seq<(string, Job)>, words: seq<string>): seq<(string, Job)>
  {
    if |pairs| == 0 then []
    else if PairMatches(pairs[0].0, pairs[0].1, words) then [pairs[0]] + MatchingPairs(pairs[1..], words)
    else MatchingPairs(pairs[1..], words)
  }

  function Label(category: string, pairs: seq<(string, Job)>): (r: seq<Entry>)
    ensures |r| == |pairs|
  {
    seq(|pairs|, j requires 0 <= j < |pairs| => Entry(category, pairs[j].0, pairs[j].1))
  }

  /** `filterJobs(searchWords)`: per category, filter the pairs, then label
      them with the category, concatenating the categories in order. */
  function FilterJobs(catalog: seq<Category>, words: seq<string>): seq<Entry>
  {
    if |catalog| == 0 then []
    else Label(catalog[0].mainCategory, MatchingPairs(catalog[0].jobs, words)) + FilterJobs(catalog[1..], words)
  }

  lemma LabelCons(category: string, pair: (string, Job), pairs: seq<(string, Job)>)
    ensures Label(category, [pair] + pairs) == [Entry(category, pair.0, pair.1)] + Label(category, pairs)
  {
    var l := Label(category, [pair] + pairs);
    assert l[0] == Entry(category, pair.0, pair.1);
    assert l[1..] == Label(category, pairs);
  }

  lemma {:induction false} CategoryFilter(category: string, pairs: seq<(string, Job)>, words: seq<string>)
    ensures Label(category, MatchingPairs(pairs, words)) == Keep(Label(category, pairs), words)
    decreases |pairs|
  {
    if |pairs| > 0 {
      CategoryFilter(category, pairs[1..], words);
      var all := Label(category, pairs);
      var e0 := Entry(category, pairs[0].0, pairs[0].1);
      assert all[0] == e0;
      assert all[1..] == Label(category, pairs[1..]);
      assert Matches(e0, words) == PairMatches(pairs[0].0, pairs[0].1, words);
      if PairMatches(pairs[0].0, pairs[0].1, words) {
        LabelCons(category, pairs[0], MatchingPairs(pairs[1..], words));
        assert Keep(all, words) == [e0] + Keep(all[1..], words);
      } else {
        assert Keep(all, words) == Keep(all[1..], words);
      }
    }
  }

  /** `filterJobs` is the reference filter applied to the flattened catalog. */
  lemma {:induction false} FilterJobsIsKeep(catalog: seq<Category>, words: seq<string>)
    ensures FilterJobs(catalog, words) == Keep(Flatten(catalog), words)
    decreases |catalog|
  {
    if |catalog| > 0 {
      FilterJobsIsKeep(catalog[1..], words);
      assert Label(catalog[0].mainCategory, catalog[0].jobs) == EntriesOf(catalog[0]);
      CategoryFilter(catalog[0].mainCategory, catalog[0].jobs, words);
      KeepAppend(EntriesOf(catalog[0]), Flatten(catalog[1..]), words);
    }
  }

  /** The search result is an order-preserving subsequence of the flattened
      catalog, every entry of it matches, and no matching entry is dropped:
      each matching entry occurs as often as in the catalog. */
  lemma FilterJobsSpec(catalog: seq<Category>, words: seq<string>)
    ensures IsSubsequence(FilterJobs(catalog, words), Flatten(catalog))
    ensures forall k :: 0 <= k < |FilterJobs(catalog, words)| ==> Matches(FilterJobs(catalog, words)[k], words)
    ensures forall e :: e in Flatten(catalog) && Matches(e, words) ==> e in FilterJobs(catalog, words)
    ensures var r := FilterJobs(catalog, words);
      forall e :: multiset(r)[e] == if Matches(e, words) then multiset(Flatten(catalog))[e] else 0
  {
    FilterJobsIsKeep(catalog, words);
  }
}
