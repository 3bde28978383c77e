/** String helpers with the semantics of the JavaScript built-ins the page
    script uses: `toLowerCase` (ASCII letters only), `split` on a single
    separator character, `includes`, and `pop` of a split. */
module Text {

  /** ASCII case mapping; every other character is left alone. */
  function LowerChar(c: char): char {
    if 'A' <= c <= 'Z' then (c as int + 32) as char else c
  }

  predicate IsLowerChar(c: char) {
    !('A' <= c <= 'Z')
  }

  /** `s.toLowerCase()` restricted to ASCII. */
  function Lower(s: string): (r: string)
    ensures |r| == |s|
    ensures forall i :: 0 <= i < |s| ==> r[i] == LowerChar(s[i])
  {
    seq(|s|, i requires 0 <= i < |s| => LowerChar(s[i]))
  }

  /** Lowercasing is idempotent and produces no upper-case letter;
      a character that is not an upper-case letter is kept. */
  lemma LowerIsLower(s: string)
    ensures forall i :: 0 <= i < |s| ==> IsLowerChar(Lower(s)[i])
    ensures Lower(Lower(s)) == Lower(s)
    ensures forall i :: 0 <= i < |s| && IsLowerChar(s[i]) ==> Lower(s)[i] == s[i]
  {
  }

  /** Joins pieces with one separator between neighbours: the inverse of `Split`. */
  function Join(parts: seq<string>, sep: char): string
  {
    if |parts| == 0 then ""
    else if |parts| == 1 then parts[0]
    else parts[0] + [sep] + Join(parts[1..], sep)
  }

  /** `s.split(sep)` for a one-character separator: the maximal
      separator-free pieces between separators, empty pieces included. */
  function Split(s: string, sep: char): (r: seq<string>)
    ensures |r| >= 1
    ensures forall k :: 0 <= k < |r| ==> sep !in r[k]
    ensures forall k, c :: 0 <= k < |r| && c in r[k] ==> c in s
    ensures Join(r, sep) == s
    decreases |s|
  {
    if |s| == 0 then [""]
    else
      var rest := Split(s[1..], sep);
      assert forall c :: c in s[1..] ==> c in s;
      if s[0] == sep then [""] + rest
      else [[s[0]] + rest[0]] + rest[1..]
  }

  /** One step of `Split` on text that starts with a separator. */
  lemma SplitAfterSeparator(t: string, sep: char)
    ensures Split([sep] + t, sep) == [""] + Split(t, sep)
  {
    assert ([sep] + t)[1..] == t;
  }

  /** One step of `Split` on text that starts with another character. */
  lemma SplitAfterChar(c: char, t: string, sep: char)
    requires c != sep
    ensures Split([c] + t, sep) == [[c] + Split(t, sep)[0]] + Split(t, sep)[1..]
  {
    assert ([c] + t)[1..] == t;
  }

  /** Prefixing the first piece with a character prefixes the join. */
  lemma JoinConsChar(c: char, parts: seq<string>, sep: char)
    requires |parts| >= 1
    ensures Join([[c] + parts[0]] + parts[1..], sep) == [c] + Join(parts, sep)
  {
    var longer := [[c] + parts[0]] + parts[1..];
    if |parts| > 1 {
      assert longer[1..] == parts[1..];
    }
  }

  /** The other round trip: splitting a join of separator-free pieces gives
      the pieces back. Together with `Split`'s own contract, `Split` and
      `Join` are mutually inverse. */
  lemma {:induction false} SplitJoin(parts: seq<string>, sep: char)
    requires |parts| >= 1
    requires forall k :: 0 <= k < |parts| ==> sep !in parts[k]
    ensures Split(Join(parts, sep), sep) == parts
    decreases |parts|, |parts[0]|
  {
    if |parts[0]| == 0 {
      if |parts| > 1 {
        var tail := parts[1..];
        assert Join(parts, sep) == [sep] + Join(tail, sep);
        SplitJoin(tail, sep);
        SplitAfterSeparator(Join(tail, sep), sep);
        assert [""] + tail == parts;
      }
    } else {
      var c := parts[0][0];
      assert c != sep by { assert c in parts[0]; }
      var shorter := [parts[0][1..]] + parts[1..];
      forall k | 0 <= k < |shorter| ensures sep !in shorter[k] {
        if k == 0 {
          forall x | x in parts[0][1..] ensures x != sep {
            assert x in parts[0];
          }
        } else {
          assert shorter[k] == parts[k];
        }
      }
      SplitJoin(shorter, sep);
      assert [c] + parts[0][1..] == parts[0];
      assert [[c] + shorter[0]] + shorter[1..] == parts;
      JoinConsChar(c, shorter, sep);
      SplitAfterChar(c, Join(shorter, sep), sep);
    }
  }

  /** A join consists of separators only exactly when every piece is empty. */
  lemma {:induction false} JoinAllSeparators(parts: seq<string>, sep: char)
    requires forall k :: 0 <= k < |parts| ==> sep !in parts[k]
    ensures (forall i :: 0 <= i < |Join(parts, sep)| ==> Join(parts, sep)[i] == sep)
        ==> (forall k :: 0 <= k < |parts| ==> parts[k] == [])
    ensures (forall k :: 0 <= k < |parts| ==> parts[k] == [])
        ==> (forall i :: 0 <= i < |Join(parts, sep)| ==> Join(parts, sep)[i] == sep)
    decreases |parts|
  {
    if |parts| == 1 {
      if |parts[0]| > 0 {
        assert parts[0][0] in parts[0];
        assert Join(parts, sep)[0] == parts[0][0];
      }
    } else if |parts| > 1 {
      var tail := parts[1..];
      forall k | 0 <= k < |tail| ensures sep !in tail[k] {
        assert tail[k] == parts[k + 1];
      }
      JoinAllSeparators(tail, sep);
      var s := Join(parts, sep);
      var t := Join(tail, sep);
      assert s == parts[0] + [sep] + t;
      if |parts[0]| > 0 {
        assert parts[0][0] in parts[0];
        assert s[0] == parts[0][0];
      }
      if exists k :: 1 <= k < |parts| && parts[k] != [] {
        var k :| 1 <= k < |parts| && parts[k] != [];
        assert tail[k - 1] != [];
        assert exists i :: 0 <= i < |t| && t[i] != sep;
        var i :| 0 <= i < |t| && t[i] != sep;
        assert s[|parts[0]| + 1 + i] == t[i];
      }
      if forall k :: 0 <= k < |parts| ==> parts[k] == [] {
        assert parts[0] == [];
        assert s == [sep] + t;
        forall k | 0 <= k < |tail| ensures tail[k] == [] {
          assert tail[k] == parts[k + 1];
        }
        assert forall i :: 0 <= i < |t| ==> t[i] == sep;
        forall i | 0 <= i < |s| ensures s[i] == sep {
          if i > 0 { assert s[i] == t[i - 1]; }
        }
      }
    }
  }

  /** `needle` occurs in `hay` starting at position `i`. */
  predicate OccursAt(hay: string, needle: string, i: int) {
    0 <= i && i + |needle| <= |hay| && hay[i..i + |needle|] == needle
  }

  /** `hay.includes(needle)`, computed by scanning. */
  predicate Includes(hay: string, needle: string)
    decreases |hay|
  {
    (|needle| <= |hay| && hay[..|needle|] == needle)
    || (|hay| > 0 && Includes(hay[1..], needle))
  }

  /** The scan agrees with the positional definition of a substring. */
  lemma {:induction false} IncludesIff(hay: string, needle: string)
    ensures Includes(hay, needle) <==> exists i :: OccursAt(hay, needle, i)
    decreases |hay|
  {
    if Includes(hay, needle) {
      if |needle| <= |hay| && hay[..|needle|] == needle {
        assert OccursAt(hay, needle, 0);
      } else {
        IncludesIff(hay[1..], needle);
        var i :| OccursAt(hay[1..], needle, i);
        assert hay[i + 1..i + 1 + |needle|] == needle by {
          forall k | 0 <= k < |needle| ensures hay[i + 1 + k] == needle[k] {
            assert hay[1..][i..i + |needle|][k] == needle[k];
          }
        }
        assert OccursAt(hay, needle, i + 1);
      }
    }
    if exists i :: OccursAt(hay, needle, i) {
      var i :| OccursAt(hay, needle, i);
      if i > 0 {
        assert hay[1..][i - 1..i - 1 + |needle|] == hay[i..i + |needle|];
        assert OccursAt(hay[1..], needle, i - 1);
        IncludesIff(hay[1..], needle);
      }
    }
  }

  /** `s.split(sep).pop()`: the text after the last separator. */
  function LastPiece(s: string, sep: char): (r: string)
    ensures sep !in r
    ensures |r| <= |s| && s[|s| - |r|..] == r
    ensures |r| < |s| ==> s[|s| - |r| - 1] == sep
  {
    var parts := Split(s, sep);
    LastPieceOfJoin(parts, sep);
    parts[|parts| - 1]
  }

  lemma {:induction false} LastPieceOfJoin(parts: seq<string>, sep: char)
    requires |parts| >= 1
    ensures var s := Join(parts, sep); var p := parts[|parts| - 1];
      |p| <= |s| && s[|s| - |p|..] == p && (|p| < |s| ==> s[|s| - |p| - 1] == sep)
    decreases |parts|
  {
    if |parts| > 1 {
      LastPieceOfJoin(parts[1..], sep);
      var s := Join(parts, sep);
      var t := Join(parts[1..], sep);
      assert s == parts[0] + [sep] + t;
      assert parts[1..][|parts[1..]| - 1] == parts[|parts| - 1];
      var p := parts[|parts| - 1];
      assert s[|s| - |t|..] == t;
      assert s[|s| - |p|..] == t[|t| - |p|..];
      if |p| == |t| {
        assert s[|s| - |p| - 1] == sep;
      } else {
        assert s[|s| - |p| - 1] == t[|t| - |p| - 1];
      }
    }
  }
}
