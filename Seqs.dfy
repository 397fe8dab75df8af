/**
  Sequence searching and splitting as Go's `strings`/`bytes` packages do it:
  `Index` (first occurrence), `Split`, `Join`, and the order-preserving filter
  that the compaction loops of util.go compute.
*/
module Seqs {
  import opened Wrappers

  /** `sep` occurs in `s` starting at position `i`. */
  predicate OccursAt<T(==)>(s: seq<T>, sep: seq<T>, i: int) {
    0 <= i && i + |sep| <= |s| && s[i..i + |sep|] == sep
  }

  /** `sep` does not occur anywhere in `s`. */
  ghost predicate Free<T>(s: seq<T>, sep: seq<T>) {
    forall j :: !OccursAt(s, sep, j)
  }

  lemma OccursAtTail<T>(s: seq<T>, sep: seq<T>, j: int)
    requires |s| > 0 && j >= 0
    ensures OccursAt(s, sep, j + 1) <==> OccursAt(s[1..], sep, j)
  {
    if 0 <= j && j + 1 + |sep| <= |s| {
      assert s[1..][j..j + |sep|] == s[j + 1..j + 1 + |sep|];
    }
  }

  /** Go's `strings.Index`: the first position at which `sep` occurs in `s`. */
  function IndexOf<T(==)>(s: seq<T>, sep: seq<T>): (r: Option<nat>)
    ensures r.Some? ==> OccursAt(s, sep, r.value)
    decreases |s|
  {
    if |s| < |sep| then None
    else if s[..|sep|] == sep then Some(0)
    else
      match IndexOf(s[1..], sep)
      case None => None
      case Some(k) => OccursAtTail(s, sep, k); Some(k + 1)
  }

  /**
    `IndexOf` finds the FIRST occurrence, and finds nothing exactly when there
    is no occurrence at all.
  */
  lemma {:induction false} IndexOfFirst<T>(s: seq<T>, sep: seq<T>)
    ensures IndexOf(s, sep).Some? ==> forall j :: 0 <= j < IndexOf(s, sep).value ==> !OccursAt(s, sep, j)
    ensures IndexOf(s, sep).None? <==> Free(s, sep)
    decreases |s|
  {
    if |s| < |sep| {
      assert Free(s, sep);
    } else if s[..|sep|] != sep {
      var tail := IndexOf(s[1..], sep);
      IndexOfFirst(s[1..], sep);
      assert !OccursAt(s, sep, 0);
      forall j | j >= 0 ensures OccursAt(s, sep, j + 1) <==> OccursAt(s[1..], sep, j) {
        OccursAtTail(s, sep, j);
      }
      if tail.None? {
        forall j ensures !OccursAt(s, sep, j) {
          if j > 0 { assert !OccursAt(s[1..], sep, j - 1); }
        }
      } else {
        forall j | 0 <= j < tail.value + 1 ensures !OccursAt(s, sep, j) {
          if j > 0 { assert !OccursAt(s[1..], sep, j - 1); }
        }
      }
    }
  }

  /**
    Go's `strings.Split` for a non-empty separator: the pieces between the
    non-overlapping occurrences of `sep`, found left to right.
  */
  function Split<T(==)>(s: seq<T>, sep: seq<T>): (parts: seq<seq<T>>)
    requires |sep| > 0
    ensures |parts| >= 1
    decreases |s|
  {
    match IndexOf(s, sep)
    case None => [s]
    case Some(i) => [s[..i]] + Split(s[i + |sep|..], sep)
  }

  /** Go's `strings.Join`. */
  function Join<T>(parts: seq<seq<T>>, sep: seq<T>): seq<T> {
    if |parts| == 0 then []
    else if |parts| == 1 then parts[0]
    else parts[0] + sep + Join(parts[1..], sep)
  }

  /** Joining the pieces of a split with the same separator gives back the input. */
  lemma {:induction false} SplitJoin<T>(s: seq<T>, sep: seq<T>)
    requires |sep| > 0
    ensures Join(Split(s, sep), sep) == s
    decreases |s|
  {
    if IndexOf(s, sep).Some? {
      var first, rest := SplitCut(s, sep);
      SplitJoin(rest, sep);
      JoinCons(first, Split(rest, sep), sep);
    }
  }

  /**
    The first occurrence of `sep` cuts `s` into a first piece free of `sep`
    and a shorter rest, and the split is that piece followed by the split of
    the rest.
  */
  lemma SplitCut<T>(s: seq<T>, sep: seq<T>) returns (first: seq<T>, rest: seq<T>)
    requires |sep| > 0 && IndexOf(s, sep).Some?
    ensures |rest| < |s|
    ensures s == first + sep + rest
    ensures Split(s, sep) == [first] + Split(rest, sep)
    ensures Free(first, sep)
  {
    var i := IndexOf(s, sep).value;
    first, rest := s[..i], s[i + |sep|..];
    SplitStep(s, sep);
    Around(s, sep, i);
    IndexOfFirst(s, sep);
    forall j ensures !OccursAt(first, sep, j) {
      if OccursAt(first, sep, j) {
        OccursInPrefix(s, sep, i, j);
      }
    }
  }

  /** An occurrence cuts `s` into the part before it, `sep`, and the part after it. */
  lemma Around<T>(s: seq<T>, sep: seq<T>, i: int)
    requires OccursAt(s, sep, i)
    ensures s == s[..i] + sep + s[i + |sep|..]
  {
    assert s == s[..i] + s[i..i + |sep|] + s[i + |sep|..];
  }

  lemma SplitStep<T>(s: seq<T>, sep: seq<T>)
    requires |sep| > 0 && IndexOf(s, sep).Some?
    ensures var i := IndexOf(s, sep).value; Split(s, sep) == [s[..i]] + Split(s[i + |sep|..], sep)
  {
  }

  lemma JoinCons<T>(a: seq<T>, parts: seq<seq<T>>, sep: seq<T>)
    requires |parts| >= 1
    ensures Join([a] + parts, sep) == a + sep + Join(parts, sep)
  {
    assert ([a] + parts)[0] == a;
    assert ([a] + parts)[1..] == parts;
  }

  /** No piece of a split contains the separator. */
  lemma {:induction false} SplitPiecesFree<T>(s: seq<T>, sep: seq<T>)
    requires |sep| > 0
    ensures forall k :: 0 <= k < |Split(s, sep)| ==> Free(Split(s, sep)[k], sep)
    decreases |s|
  {
    if IndexOf(s, sep).None? {
      IndexOfFirst(s, sep);
    } else {
      var first, rest := SplitCut(s, sep);
      SplitPiecesFree(rest, sep);
      var pieces, tail := Split(s, sep), Split(rest, sep);
      forall k | 0 <= k < |pieces| ensures Free(pieces[k], sep) {
        if k > 0 {
          assert pieces[k] == tail[k - 1];
        }
      }
    }
  }

  /** An occurrence in a prefix is an occurrence, at the same position, in the whole. */
  lemma OccursInPrefix<T>(s: seq<T>, sep: seq<T>, i: nat, j: int)
    requires i <= |s| && OccursAt(s[..i], sep, j)
    ensures OccursAt(s, sep, j) && j + |sep| <= i
  {
    assert s[..i][j..j + |sep|] == s[j..j + |sep|];
  }

  /** Every element of every piece of a split is an element of the input. */
  lemma {:induction false} SplitPiecesWithin<T>(s: seq<T>, sep: seq<T>)
    requires |sep| > 0
    ensures forall k, x :: 0 <= k < |Split(s, sep)| && x in Split(s, sep)[k] ==> x in s
    decreases |s|
  {
    if IndexOf(s, sep).Some? {
      var first, rest := SplitCut(s, sep);
      SplitPiecesWithin(rest, sep);
      forall k, x | 0 <= k < |Split(s, sep)| && x in Split(s, sep)[k] ensures x in s {
        if k == 0 {
          assert x in first;
        } else {
          assert x in Split(rest, sep)[k - 1];
          assert x in rest;
        }
      }
    }
  }

  /**
    The elements of `xs` that satisfy `keep`, in their original order: what the
    `end`-cursor compaction loops of util.go leave in the prefix they keep.
  */
  function Filter<T>(xs: seq<T>, keep: T -> bool): (r: seq<T>)
    ensures |r| <= |xs|
  {
    if |xs| == 0 then []
    else Filter(xs[..|xs| - 1], keep) + (if keep(xs[|xs| - 1]) then [xs[|xs| - 1]] else [])
  }

  lemma FilterSnoc<T>(xs: seq<T>, keep: T -> bool, x: T)
    ensures Filter(xs + [x], keep) == Filter(xs, keep) + if keep(x) then [x] else []
  {
    assert (xs + [x])[..|xs|] == xs;
  }

  /** The filter keeps exactly the elements that pass the test, with their multiplicities. */
  lemma {:induction false} FilterElements<T>(xs: seq<T>, keep: T -> bool)
    ensures forall i :: 0 <= i < |Filter(xs, keep)| ==> keep(Filter(xs, keep)[i])
    ensures forall x {:trigger multiset(xs)[x]} :: multiset(Filter(xs, keep))[x] == if keep(x) then multiset(xs)[x] else 0
  {
    if |xs| > 0 {
      var init, last := xs[..|xs| - 1], xs[|xs| - 1];
      FilterElements(init, keep);
      assert xs == init + [last];
    }
  }

  /** An element is kept exactly when it occurs in the input and passes the test. */
  lemma FilterMembership<T>(xs: seq<T>, keep: T -> bool, x: T)
    ensures x in Filter(xs, keep) <==> x in xs && keep(x)
  {
    FilterElements(xs, keep);
    assert x in Filter(xs, keep) <==> multiset(Filter(xs, keep))[x] > 0;
    assert x in xs <==> multiset(xs)[x] > 0;
  }
}
