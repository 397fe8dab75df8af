/**
  The post-processing of `splitBlocksAndGlobPath` (util.go:619-652): every
  block of the path text is globbed, the matches are concatenated in block
  order, sorted with `sort.Strings`, and, when only files are wanted, the
  entries that do not stat as a non-directory are squeezed out in place.
  The glob itself (`zglob.Glob`) and `os.Stat` are parameters.
*/
module Glob {
  import opened Wrappers
  import opened Seqs
  import opened Text
  import opened StringHelpers

  // ----- Go's string order as a total order -----

  lemma LexLessEqTotal(a: string, b: string)
    ensures LexLessEq(a, b) || LexLessEq(b, a)
    ensures LexLessEq(a, b) && LexLessEq(b, a) ==> a == b
  {
    LexTrichotomy(a, b);
  }

  lemma LexLessEqTransitive(a: string, b: string, c: string)
    requires LexLessEq(a, b) && LexLessEq(b, c)
    ensures LexLessEq(a, c)
  {
    if LexLess(a, b) && LexLess(b, c) {
      LexTransitive(a, b, c);
    }
  }

  /** Ascending in Go's string order, duplicates allowed. */
  predicate Sorted(xs: seq<string>) {
    forall i, j :: 0 <= i < j < |xs| ==> LexLessEq(xs[i], xs[j])
  }

  // ----- sort.Strings -----

  /** Places `x` before the first element it does not come after. */
  function Insert(x: string, s: seq<string>): seq<string> {
    if |s| == 0 || LexLessEq(x, s[0]) then [x] + s
    else [s[0]] + Insert(x, s[1..])
  }

  lemma {:induction false} InsertSpec(x: string, s: seq<string>)
    requires Sorted(s)
    ensures multiset(Insert(x, s)) == multiset(s) + multiset{x}
    ensures Sorted(Insert(x, s))
    decreases |s|
  {
    if |s| == 0 {
    } else if LexLessEq(x, s[0]) {
      forall j | 0 <= j < |s| ensures LexLessEq(x, s[j]) {
        if j > 0 { LexLessEqTransitive(x, s[0], s[j]); }
      }
      var r := [x] + s;
      assert forall j :: 0 < j < |r| ==> r[j] == s[j - 1];
    } else {
      LexLessEqTotal(x, s[0]);
      var rest := s[1..];
      assert Sorted(rest) by {
        forall i, j | 0 <= i < j < |rest| ensures LexLessEq(rest[i], rest[j]) {
          assert rest[i] == s[i + 1] && rest[j] == s[j + 1];
        }
      }
      InsertSpec(x, rest);
      var t := Insert(x, rest);
      assert s == [s[0]] + rest;
      HeadBelowInsert(x, s);
      var r := [s[0]] + t;
      assert forall j :: 0 < j < |r| ==> r[j] == t[j - 1];
    }
  }

  lemma HeadBelowInsert(x: string, s: seq<string>)
    requires Sorted(s) && |s| > 0 && LexLessEq(s[0], x)
    requires multiset(Insert(x, s[1..])) == multiset(s[1..]) + multiset{x}
    ensures forall j :: 0 <= j < |Insert(x, s[1..])| ==> LexLessEq(s[0], Insert(x, s[1..])[j])
  {
    var rest, t := s[1..], Insert(x, s[1..]);
    forall j | 0 <= j < |t| ensures LexLessEq(s[0], t[j]) {
      assert t[j] in multiset(t);
      if t[j] != x {
        assert t[j] in multiset(rest);
        var k :| 0 <= k < |rest| && rest[k] == t[j];
        assert rest[k] == s[k + 1];
      }
    }
  }

  /** Go's `sort.Strings`: the input in ascending order, duplicates kept. */
  function SortStrings(xs: seq<string>): (r: seq<string>)
    ensures Sorted(r)
    ensures multiset(r) == multiset(xs)
  {
    if |xs| == 0 then []
    else
      var init, last := xs[..|xs| - 1], xs[|xs| - 1];
      var t := SortStrings(init);
      InsertSpec(last, t);
      assert xs == init + [last];
      Insert(last, t)
  }

  /**
    A sorted permutation is unique: whatever algorithm `sort.Strings` uses,
    its result is `SortStrings` of the input.
  */
  lemma {:induction false} SortedUnique(xs: seq<string>, ys: seq<string>)
    requires Sorted(xs) && Sorted(ys) && multiset(xs) == multiset(ys)
    ensures xs == ys
    decreases |xs|
  {
    SameLength(xs, ys);
    if |xs| > 0 {
      var a, b := xs[0], ys[0];
      SortedHeadIsLeast(xs, b);
      SortedHeadIsLeast(ys, a);
      LexLessEqTotal(a, b);
      assert a == b;
      SortedTail(xs);
      SortedTail(ys);
      SortedUnique(xs[1..], ys[1..]);
      assert xs == [a] + xs[1..] && ys == [b] + ys[1..];
    }
  }

  lemma SameLength(xs: seq<string>, ys: seq<string>)
    requires multiset(xs) == multiset(ys)
    ensures |xs| == |ys|
  {
    assert |multiset(xs)| == |xs| && |multiset(ys)| == |ys|;
  }

  lemma SortedHeadIsLeast(xs: seq<string>, x: string)
    requires Sorted(xs) && x in multiset(xs)
    ensures LexLessEq(xs[0], x)
  {
    var i :| 0 <= i < |xs| && xs[i] == x;
    if i > 0 {
      assert LexLessEq(xs[0], xs[i]);
    }
  }

  lemma SortedTail(xs: seq<string>)
    requires Sorted(xs) && |xs| > 0
    ensures Sorted(xs[1..])
    ensures multiset(xs[1..]) == multiset(xs) - multiset{xs[0]}
  {
    var t := xs[1..];
    forall p, q | 0 <= p < q < |t| ensures LexLessEq(t[p], t[q]) {
      assert t[p] == xs[p + 1] && t[q] == xs[q + 1];
    }
    assert xs == [xs[0]] + t;
  }

  /** Dropping entries from a sorted list leaves it sorted. */
  lemma {:induction false} FilterSorted(xs: seq<string>, keep: string -> bool)
    requires Sorted(xs)
    ensures Sorted(Filter(xs, keep))
  {
    if |xs| > 0 {
      var init, last := xs[..|xs| - 1], xs[|xs| - 1];
      assert Sorted(init) by {
        forall i, j | 0 <= i < j < |init| ensures LexLessEq(init[i], init[j]) {
          assert init[i] == xs[i] && init[j] == xs[j];
        }
      }
      FilterSorted(init, keep);
      var f := Filter(init, keep);
      if keep(last) {
        forall i | 0 <= i < |f| ensures LexLessEq(f[i], last) {
          FilterMembership(init, keep, f[i]);
          var k :| 0 <= k < |init| && init[k] == f[i];
        }
        var r := f + [last];
        assert forall i :: 0 <= i < |f| ==> r[i] == f[i];
      }
    }
  }

  // ----- splitBlocksAndGlobPath -----

  /** How `zglob.Glob` ended: without error, with `os.ErrNotExist`, or with another error. */
  datatype GlobStatus = Matched | NotExist | Failed

  /** One call of `zglob.Glob`: the matches it returned and how it ended. */
  datatype GlobOutcome = GlobOutcome(matches: seq<string>, status: GlobStatus)

  /** "glob path failed" for the block whose glob failed. */
  datatype GlobFailure = GlobFailed(block: string)

  /**
    The matches of all blocks, in block order; the first block whose glob fails
    with anything but `os.ErrNotExist` aborts the whole call.
  */
  function Gathered(blocks: seq<string>, glob: string -> GlobOutcome): (r: Result<seq<string>, GlobFailure>)
    ensures r.Err? ==> r.error.block in blocks && glob(r.error.block).status == Failed
    ensures r.Ok? ==> forall b :: b in blocks ==> glob(b).status != Failed
  {
    if |blocks| == 0 then Ok([])
    else
      var last := blocks[|blocks| - 1];
      match Gathered(blocks[..|blocks| - 1], glob)
      case Err(e) => Err(e)
      case Ok(m) =>
        if glob(last).status == Failed then Err(GlobFailed(last))
        else Ok(m + glob(last).matches)
  }

  /** Once a prefix of the blocks has failed, the whole list fails the same way. */
  lemma {:induction false} GatheredFailureSticks(blocks: seq<string>, k: nat, glob: string -> GlobOutcome)
    requires k <= |blocks| && Gathered(blocks[..k], glob).Err?
    ensures Gathered(blocks, glob) == Gathered(blocks[..k], glob)
    decreases |blocks| - k
  {
    if k < |blocks| {
      assert blocks[..k + 1][..k] == blocks[..k];
      GatheredFailureSticks(blocks, k + 1, glob);
    } else {
      assert blocks[..k] == blocks;
    }
  }

  /** What `splitBlocksAndGlobPath(path, mustBeFile)` returns. */
  function GlobPaths(path: string, mustBeFile: bool, glob: string -> GlobOutcome, isFile: string -> bool)
    : (r: Result<seq<string>, GlobFailure>)
    ensures r.Err? ==> r.error.block in Blocks(path) && glob(r.error.block).status == Failed
    ensures mustBeFile && r.Ok? ==> forall i :: 0 <= i < |r.value| ==> isFile(r.value[i])
  {
    match Gathered(Blocks(path), glob)
    case Err(e) => Err(e)
    case Ok(m) =>
      var sorted := SortStrings(m);
      FilterElements(sorted, isFile);
      Ok(if mustBeFile then Filter(sorted, isFile) else sorted)
  }

  /** The gathering loop of `splitBlocksAndGlobPath`. */
  method GatherMatches(blocks: seq<string>, glob: string -> GlobOutcome) returns (r: Result<seq<string>, GlobFailure>)
    ensures r == Gathered(blocks, glob)
  {
    var matched: seq<string> := [];
    for i := 0 to |blocks|
      invariant Gathered(blocks[..i], glob) == Ok(matched)
    {
      assert blocks[..i + 1][..i] == blocks[..i];
      var g := glob(blocks[i]);
      if g.status == Failed {
        GatheredFailureSticks(blocks, i + 1, glob);
        return Err(GlobFailed(blocks[i]));
      }
      matched := matched + g.matches;
    }
    assert blocks[..|blocks|] == blocks;
    return Ok(matched);
  }

  /**
    `splitBlocksAndGlobPath`: globs every block, appending the matches, sorts
    them, and with `mustBeFile` compacts the sorted array in place, keeping the
    entries for which `isFile` holds (stat succeeded and not a directory).
  */
  method SplitBlocksAndGlobPath(path: string, mustBeFile: bool, glob: string -> GlobOutcome, isFile: string -> bool)
    returns (r: Result<seq<string>, GlobFailure>)
    ensures r == GlobPaths(path, mustBeFile, glob, isFile)
  {
    var blocks := SplitBlocks(path);
    var gathered := GatherMatches(blocks, glob);
    if gathered.Err? {
      return Err(gathered.error);
    }
    var matched := SortStrings(gathered.value);
    if !mustBeFile {
      return Ok(matched);
    }
    var arr := new string[|matched|](k requires 0 <= k < |matched| => matched[k]);
    assert arr[..] == matched;
    var end := Compact(arr, isFile);
    return Ok(arr[..end]);
  }

  /**
    The result is sorted and nothing is deduplicated: without `mustBeFile` it
    holds every match of every block exactly as often as the globs returned it;
    with `mustBeFile`, exactly the matches that are files, again with their
    multiplicities.
  */
  lemma GlobPathsSpec(path: string, mustBeFile: bool, glob: string -> GlobOutcome, isFile: string -> bool)
    ensures GlobPaths(path, mustBeFile, glob, isFile).Ok? <==> Gathered(Blocks(path), glob).Ok?
    ensures GlobPaths(path, mustBeFile, glob, isFile).Ok? ==> Sorted(GlobPaths(path, mustBeFile, glob, isFile).value)
    ensures GlobPaths(path, mustBeFile, glob, isFile).Ok? && !mustBeFile ==>
      multiset(GlobPaths(path, mustBeFile, glob, isFile).value) == multiset(Gathered(Blocks(path), glob).value)
    ensures GlobPaths(path, mustBeFile, glob, isFile).Ok? && mustBeFile ==>
      forall p :: multiset(GlobPaths(path, mustBeFile, glob, isFile).value)[p]
        == if isFile(p) then multiset(Gathered(Blocks(path), glob).value)[p] else 0
  {
    var g := Gathered(Blocks(path), glob);
    if g.Ok? {
      var sorted := SortStrings(g.value);
      if mustBeFile {
        FilterSorted(sorted, isFile);
        FilterElements(sorted, isFile);
      }
    }
  }

  /** The same matches, gathered in any order, give the same result. */
  lemma GlobPathsOrderIndependent(m: seq<string>, m': seq<string>, isFile: string -> bool)
    requires multiset(m) == multiset(m')
    ensures SortStrings(m) == SortStrings(m')
    ensures Filter(SortStrings(m), isFile) == Filter(SortStrings(m'), isFile)
  {
    SortedUnique(SortStrings(m), SortStrings(m'));
  }
}
