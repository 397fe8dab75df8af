/**
  The string helpers of util.go: splitting on a separator with trimming,
  dropping empty pieces, splitting into a pair, unquoting, and splitting a
  text block on newlines and then on semicolons.
*/
module StringHelpers {
  import opened Wrappers
  import opened Seqs
  import opened Text

  /** Every element trimmed (the loop of `stringSplitAndTrim`). */
  function TrimAll(xs: seq<string>): (r: seq<string>)
    ensures |r| == |xs|
    ensures forall i :: 0 <= i < |xs| ==> r[i] == TrimSpace(xs[i])
  {
    seq(|xs|, i requires 0 <= i < |xs| => TrimSpace(xs[i]))
  }

  /** The test the compaction loop of `stringSplitAndTrimFilterSpace` keeps an element by. */
  predicate NonEmpty(x: string) {
    x != ""
  }

  /** What `stringSplitAndTrimFilterSpace(s, sep)` returns: the non-empty trimmed pieces, in order. */
  function Pieces(s: string, sep: string): (r: seq<string>)
    requires |sep| > 0
    ensures |r| <= |Split(s, sep)|
    ensures forall i :: 0 <= i < |r| ==> r[i] != ""
  {
    FilterElements(TrimAll(Split(s, sep)), NonEmpty);
    Filter(TrimAll(Split(s, sep)), NonEmpty)
  }

  /** Go's `strings.SplitN(s, sep, n)` for `n >= 1`: at most `n` pieces, the last one unsplit. */
  function SplitN(s: string, sep: string, n: nat): (parts: seq<string>)
    requires |sep| > 0 && n >= 1
    ensures 1 <= |parts| <= n
    decreases n
  {
    if n == 1 then [s]
    else match IndexOf(s, sep)
      case None => [s]
      case Some(i) => [s[..i]] + SplitN(s[i + |sep|..], sep, n - 1)
  }

  /** `stringAtAndTrim`: the trimmed `i`-th element, or the empty string past the end. */
  function StringAtAndTrim(s: seq<string>, i: nat): (r: string)
    ensures IsTrimmed(r)
    ensures i >= |s| ==> r == ""
    ensures i < |s| ==> r == TrimSpace(s[i])
    ensures i < |s| && IsTrimmed(s[i]) ==> r == s[i]
  {
    if i < |s| then
      if IsTrimmed(s[i]) then TrimSpaceOfTrimmed(s[i]); TrimSpace(s[i])
      else TrimSpace(s[i])
    else ""
  }

  /** `stringSplitAndTrim`: splits `s` on `sep`, then trims every piece in place. */
  method StringSplitAndTrim(s: string, sep: string) returns (secs: array<string>)
    requires |sep| > 0
    ensures fresh(secs)
    ensures secs[..] == TrimAll(Split(s, sep))
  {
    var parts := Split(s, sep);
    secs := new string[|parts|](i requires 0 <= i < |parts| => parts[i]);
    for i := 0 to secs.Length
      invariant forall k :: 0 <= k < i ==> secs[k] == TrimSpace(parts[k])
      invariant forall k :: i <= k < secs.Length ==> secs[k] == parts[k]
    {
      secs[i] := TrimSpace(secs[i]);
    }
  }

  /**
    The in-place compaction loop that util.go writes twice (in
    `stringSplitAndTrimFilterSpace` and at the end of `splitBlocksAndGlobPath`):
    an `end` write cursor trails the read index, and every element that passes
    `keep` is moved down to `end`. The kept prefix is the order-preserving filter
    of the original contents.
  */
  method Compact<T>(a: array<T>, keep: T -> bool) returns (end: nat)
    modifies a
    ensures end <= a.Length
    ensures a[..end] == Filter(old(a[..]), keep)
    ensures a[end..] == old(a[end..])
  {
    ghost var orig := a[..];
    end := 0;
    for i := 0 to a.Length
      invariant end <= i
      invariant a[..end] == Filter(orig[..i], keep)
      invariant forall k :: end <= k < a.Length ==> a[k] == orig[k]
    {
      ghost var kept := a[..end];
      assert orig[..i + 1] == orig[..i] + [orig[i]];
      FilterSnoc(orig[..i], keep, orig[i]);
      if keep(a[i]) {
        if i != end {
          a[end] := a[i];
        }
        assert a[..end] == kept;
        PrefixSnoc(a[..], end);
        end := end + 1;
      }
    }
    assert orig[..a.Length] == orig;
  }

  /** One more element of a sequence extends its prefix by that element. */
  lemma PrefixSnoc<T>(s: seq<T>, n: nat)
    requires n < |s|
    ensures s[..n + 1] == s[..n] + [s[n]]
  {
  }

  /**
    `stringSplitAndTrimFilterSpace`: the trimmed pieces of the split, with the
    empty ones squeezed out in place; the result is the kept prefix.
  */
  method StringSplitAndTrimFilterSpace(s: string, sep: string) returns (r: seq<string>)
    requires |sep| > 0
    ensures r == Pieces(s, sep)
  {
    var secs := StringSplitAndTrim(s, sep);
    var end := Compact(secs, NonEmpty);
    r := secs[..end];
  }

  /**
    Every piece `stringSplitAndTrimFilterSpace` returns is non-empty, trimmed
    and made of characters of `s`; with a one-character separator, it never
    contains the separator.
  */
  lemma PieceClean(s: string, sep: string, x: string)
    requires |sep| > 0 && x in Pieces(s, sep)
    ensures x != "" && IsTrimmed(x) && (forall c :: c in x ==> c in s) && (|sep| == 1 ==> sep[0] !in x)
  {
    var parts := Split(s, sep);
    FilterMembership(TrimAll(parts), NonEmpty, x);
    var k :| 0 <= k < |parts| && TrimAll(parts)[k] == x;
    SplitPieceFacts(s, sep, k);
    TrimSpaceWithin(parts[k]);
    if |sep| == 1 {
      assert sep == [sep[0]];
      FreeOfOne(parts[k], sep[0]);
    }
  }

  lemma SplitPieceFacts(s: string, sep: string, k: nat)
    requires |sep| > 0 && k < |Split(s, sep)|
    ensures forall c :: c in Split(s, sep)[k] ==> c in s
    ensures Free(Split(s, sep)[k], sep)
  {
    SplitPiecesWithin(s, sep);
    SplitPiecesFree(s, sep);
  }

  lemma FreeOfOne(x: string, c: char)
    requires Free(x, [c])
    ensures c !in x
  {
    forall j | 0 <= j < |x| ensures x[j] != c {
      assert x[j..j + 1] == [x[j]];
      assert !OccursAt(x, [c], j);
    }
  }

  lemma PiecesClean(s: string, sep: string)
    requires |sep| > 0
    ensures forall x :: x in Pieces(s, sep) ==> x != "" && IsTrimmed(x) && (|sep| == 1 ==> sep[0] !in x)
  {
    forall x | x in Pieces(s, sep) ensures x != "" && IsTrimmed(x) && (|sep| == 1 ==> sep[0] !in x) {
      PieceClean(s, sep, x);
    }
  }

  /**
    `stringSplitAndTrimToPair`: with the separator `" "`, the first two
    non-empty words; otherwise the two trimmed sides of the FIRST occurrence of
    `sep`, the second being empty when `sep` does not occur.
  */
  method StringSplitAndTrimToPair(s: string, sep: string) returns (s1: string, s2: string)
    requires |sep| > 0
    ensures sep == " " ==>
      var w := Pieces(s, sep);
      s1 == (if |w| > 0 then w[0] else "") && s2 == (if |w| > 1 then w[1] else "")
    ensures sep != " " && IndexOf(s, sep).Some? ==>
      var i := IndexOf(s, sep).value;
      s1 == TrimSpace(s[..i]) && s2 == TrimSpace(s[i + |sep|..])
    ensures sep != " " && IndexOf(s, sep).None? ==> s1 == TrimSpace(s) && s2 == ""
  {
    var secs: seq<string>;
    if sep == " " {
      secs := StringSplitAndTrimFilterSpace(s, sep);
      PiecesClean(s, sep);
    } else {
      secs := SplitN(s, sep, 2);
      SplitNTwo(s, sep);
    }
    s1, s2 := StringAtAndTrim(secs, 0), StringAtAndTrim(secs, 1);
  }

  lemma SplitNTwo(s: string, sep: string)
    requires |sep| > 0
    ensures IndexOf(s, sep).None? ==> SplitN(s, sep, 2) == [s]
    ensures IndexOf(s, sep).Some? ==>
      var i := IndexOf(s, sep).value;
      SplitN(s, sep, 2) == [s[..i], s[i + |sep|..]]
  {
  }

  predicate IsQuote(c: char) {
    c == '"' || c == '\''
  }

  /** The conditions under which `stringUnquote` strips the outer quotes. */
  predicate Quoted(s: string) {
    |s| >= 2 && IsQuote(s[0]) && s[|s| - 1] == s[0] && s[0] !in s[1..|s| - 1]
  }

  /**
    `stringUnquote`: drops a matching pair of outer quotes, provided the quote
    character does not occur between them; otherwise `s` itself.
  */
  function StringUnquote(s: string): (r: string)
    ensures |r| <= |s|
    ensures r == s || (|r| == |s| - 2 && r == s[1..|s| - 1])
  {
    if Quoted(s) then s[1..|s| - 1] else s
  }

  /** The quotes are stripped exactly when `Quoted(s)` holds. */
  lemma UnquoteChangesIffQuoted(s: string)
    ensures StringUnquote(s) != s <==> Quoted(s)
  {
    if Quoted(s) {
      assert |StringUnquote(s)| == |s| - 2;
    }
  }

  /** Unquoting undoes quoting with a quote character that the text does not contain. */
  lemma UnquoteQuote(q: char, text: string)
    requires IsQuote(q) && q !in text
    ensures StringUnquote([q] + text + [q]) == text
  {
    var s := [q] + text + [q];
    assert s[1..|s| - 1] == text;
  }

  /** `splitBlocks` on a list of lines: the `;`-pieces of each line, concatenated in line order. */
  function LinePieces(lines: seq<string>): seq<string> {
    if |lines| == 0 then []
    else LinePieces(lines[..|lines| - 1]) + Pieces(lines[|lines| - 1], ";")
  }

  /** What `splitBlocks(s)` returns. */
  function Blocks(s: string): seq<string> {
    LinePieces(Pieces(s, "\n"))
  }

  /** `splitBlocks`: the non-empty lines, each split on `;`, appended in order. */
  method SplitBlocks(s: string) returns (blocks: seq<string>)
    ensures blocks == Blocks(s)
  {
    blocks := [];
    var arr := StringSplitAndTrimFilterSpace(s, "\n");
    for i := 0 to |arr|
      invariant blocks == LinePieces(arr[..i])
    {
      LinePiecesSnoc(arr, i);
      var more := StringSplitAndTrimFilterSpace(arr[i], ";");
      blocks := blocks + more;
    }
    assert arr[..|arr|] == arr;
  }

  lemma LinePiecesSnoc(lines: seq<string>, i: nat)
    requires i < |lines|
    ensures LinePieces(lines[..i + 1]) == LinePieces(lines[..i]) + Pieces(lines[i], ";")
  {
    assert lines[..i + 1][..i] == lines[..i];
  }

  lemma {:induction false} LinePiecesClean(lines: seq<string>)
    requires forall l :: l in lines ==> '\n' !in l
    ensures forall b :: b in LinePieces(lines) ==> b != "" && IsTrimmed(b) && ';' !in b && '\n' !in b
  {
    if |lines| > 0 {
      var init, last := lines[..|lines| - 1], lines[|lines| - 1];
      LinePiecesClean(init);
      forall b | b in Pieces(last, ";") ensures b != "" && IsTrimmed(b) && ';' !in b && '\n' !in b {
        PieceClean(last, ";", b);
      }
    }
  }

  /** No entry of `splitBlocks(s)` is empty, carries surrounding whitespace, or holds a separator. */
  lemma BlocksClean(s: string)
    ensures forall b :: b in Blocks(s) ==> b != "" && IsTrimmed(b) && ';' !in b && '\n' !in b
  {
    PiecesClean(s, "\n");
    LinePiecesClean(Pieces(s, "\n"));
  }
}
