/**
  The pure parts of two file operations of util.go: how `fileReplacer`
  (util.go:494-533) chooses its transformation, with the literal
  `bytes.ReplaceAll` path worked out, and the decision `checkHash`
  (util.go:154-175) takes once the digest is known. File contents are bytes.
*/
module FileOps {
  import opened Wrappers
  import opened Seqs
  import opened Text

  newtype byte = x: int | 0 <= x < 256

  // ----- bytes.ReplaceAll -----

  /**
    Go's `bytes.ReplaceAll(s, old, new)` for a non-empty `old` (here `pat` and `repl`): every
    non-overlapping occurrence, found left to right, is replaced by `repl`.
  */
  function ReplaceAll<T(==)>(s: seq<T>, pat: seq<T>, repl: seq<T>): (r: seq<T>)
    requires |pat| > 0
    ensures |repl| == |pat| ==> |r| == |s|
    decreases |s|
  {
    match IndexOf(s, pat)
    case None => s
    case Some(i) => s[..i] + repl + ReplaceAll(s[i + |pat|..], pat, repl)
  }

  /** The reference definition: replacing is splitting on `pat` and joining with `repl`. */
  lemma {:induction false} ReplaceAllIsSplitJoin<T>(s: seq<T>, pat: seq<T>, repl: seq<T>)
    requires |pat| > 0
    ensures ReplaceAll(s, pat, repl) == Join(Split(s, pat), repl)
    decreases |s|
  {
    if IndexOf(s, pat).Some? {
      var first, rest := FirstCut(s, pat, repl);
      ReplaceAllIsSplitJoin(rest, pat, repl);
      SplitJoinGlue(s, pat, repl, first, rest);
    } else {
      ReplaceAllNone(s, pat, repl);
    }
  }

  /** The piece before the first occurrence of `pat` and the rest after it, as both sides see them. */
  lemma FirstCut<T>(s: seq<T>, pat: seq<T>, repl: seq<T>) returns (first: seq<T>, rest: seq<T>)
    requires |pat| > 0 && IndexOf(s, pat).Some?
    ensures |rest| < |s|
    ensures ReplaceAll(s, pat, repl) == first + repl + ReplaceAll(rest, pat, repl)
    ensures Split(s, pat) == [first] + Split(rest, pat)
  {
    var i := IndexOf(s, pat).value;
    first, rest := s[..i], s[i + |pat|..];
    ReplaceAllStep(s, pat, repl);
    SplitStep(s, pat);
  }

  /** One step of the induction: the first piece, then the rest, on both sides. */
  lemma SplitJoinGlue<T>(s: seq<T>, pat: seq<T>, repl: seq<T>, first: seq<T>, rest: seq<T>)
    requires |pat| > 0
    requires ReplaceAll(s, pat, repl) == first + repl + ReplaceAll(rest, pat, repl)
    requires Split(s, pat) == [first] + Split(rest, pat)
    requires ReplaceAll(rest, pat, repl) == Join(Split(rest, pat), repl)
    ensures ReplaceAll(s, pat, repl) == Join(Split(s, pat), repl)
  {
    JoinCons(first, Split(rest, pat), repl);
  }

  lemma ReplaceAllNone<T>(s: seq<T>, pat: seq<T>, repl: seq<T>)
    requires |pat| > 0 && IndexOf(s, pat).None?
    ensures ReplaceAll(s, pat, repl) == s == Join(Split(s, pat), repl)
  {
    assert Split(s, pat) == [s];
  }

  lemma ReplaceAllStep<T>(s: seq<T>, pat: seq<T>, repl: seq<T>)
    requires |pat| > 0 && IndexOf(s, pat).Some?
    ensures var i := IndexOf(s, pat).value; ReplaceAll(s, pat, repl) == s[..i] + repl + ReplaceAll(s[i + |pat|..], pat, repl)
  {
  }

  /** Replacing a pattern by itself changes nothing. */
  lemma ReplaceAllSelf<T>(s: seq<T>, pat: seq<T>)
    requires |pat| > 0
    ensures ReplaceAll(s, pat, pat) == s
  {
    ReplaceAllIsSplitJoin(s, pat, pat);
    SplitJoin(s, pat);
  }

  /** After the replacement no occurrence of `pat` is left, when `repl` cannot create one. */
  lemma {:induction false} ReplaceAllRemoves(s: seq<byte>, pat: seq<byte>, repl: seq<byte>, c: byte)
    requires pat == [c] && c !in repl
    ensures c !in ReplaceAll(s, pat, repl)
    decreases |s|
  {
    var found := IndexOf(s, pat);
    IndexOfFirst(s, pat);
    if found.None? {
      forall j | 0 <= j < |s| ensures s[j] != c {
        assert s[j..j + 1] == [s[j]];
        assert !OccursAt(s, pat, j);
      }
    } else {
      var i := found.value;
      ReplaceAllRemoves(s[i + |pat|..], pat, repl, c);
      ReplaceAllStep(s, pat, repl);
      forall j | 0 <= j < i ensures s[j] != c {
        assert !OccursAt(s, pat, j);
        assert s[j..j + 1] == [s[j]];
      }
    }
  }

  // ----- fileReplacer -----

  /** The transformation `fileReplacer(args, isRegexp)` applies to a file's content. */
  datatype Replacer =
    | NoOp
    | ReplaceLiteral(pat: seq<byte>, repl: seq<byte>)
    | MultiLiteral(pairs: seq<seq<byte>>)
    | RegexpPairs(pairs: seq<seq<byte>>)

  /**
    `fileReplacer`: no arguments replace nothing, whatever `isRegexp` says;
    otherwise two literal arguments are one old/new pair, any other number
    of literal arguments goes to `strings.NewReplacer`, and regular-expression
    arguments are read as pattern/replacement pairs.
  */
  function FileReplacer(args: seq<seq<byte>>, isRegexp: bool): (r: Replacer)
    ensures r == NoOp <==> |args| == 0
    ensures r.ReplaceLiteral? <==> !isRegexp && |args| == 2
    ensures r.ReplaceLiteral? ==> r.pat == args[0] && r.repl == args[1]
    ensures (r.MultiLiteral? || r.RegexpPairs?) ==> r.pairs == args
  {
    if |args| == 0 then NoOp
    else if !isRegexp then
      if |args| == 2 then ReplaceLiteral(args[0], args[1]) else MultiLiteral(args)
    else RegexpPairs(args)
  }

  /**
    The new content of a file after the replacer ran, for the transformations
    this model covers: the no-op and a literal pair with a non-empty `pat`.
  */
  function Apply(r: Replacer, content: seq<byte>): (out: Option<seq<byte>>)
    ensures r == NoOp ==> out == Some(content)
    ensures r.ReplaceLiteral? && |r.pat| > 0 ==> out == Some(ReplaceAll(content, r.pat, r.repl))
    ensures out.Some? && r.ReplaceLiteral? && Free(content, r.pat) ==> out.value == content
  {
    match r
    case NoOp => Some(content)
    case ReplaceLiteral(pat, repl) =>
      if |pat| == 0 then None else Some(ReplaceAll(content, pat, repl))
    case MultiLiteral(_) => None
    case RegexpPairs(_) => None
  }

  /** A literal replacement of `pat` by itself leaves the file as it was. */
  lemma ReplacingWithItselfIsNoOp(content: seq<byte>, pat: seq<byte>)
    requires |pat| > 0
    ensures Apply(FileReplacer([pat, pat], false), content) == Some(content)
  {
    ReplaceAllSelf(content, pat);
  }

  // ----- checkHash -----

  datatype HashAlg = Sha1 | Md5 | Sha256

  /** The names `syntax.ResourceHashAlgSha1`, `...MD5` and `...Sha256` stand for. */
  datatype AlgNames = AlgNames(sha1: string, md5: string, sha256: string)

  /** The `switch alg` of `checkHash`: the first case that names `alg`. */
  function AlgOf(names: AlgNames, alg: string): (r: Option<HashAlg>)
    ensures r == Some(Sha1) <==> alg == names.sha1
    ensures r == Some(Md5) <==> alg != names.sha1 && alg == names.md5
    ensures r == Some(Sha256) <==> alg != names.sha1 && alg != names.md5 && alg == names.sha256
  {
    if alg == names.sha1 then Some(Sha1)
    else if alg == names.md5 then Some(Md5)
    else if alg == names.sha256 then Some(Sha256)
    else None
  }

  /**
    How `checkHash` ends: the guard refused the algorithm or the signature
    (logged as fatal, before any read), reading the content failed (logged as
    fatal), or the digest was compared with the signature.
  */
  datatype HashVerdict = InvalidAlgOrSig | ReadFailed | Compared(equal: bool)

  const HexDigits: string := "0123456789abcdef"

  /** Go's `hex.EncodeToString`: two lower-case hex digits per byte. */
  function HexEncode(b: seq<byte>): (s: string)
    ensures |s| == 2 * |b|
  {
    if |b| == 0 then ""
    else [HexDigits[(b[0] / 16) as int], HexDigits[(b[0] % 16) as int]] + HexEncode(b[1..])
  }

  /** The value of a lower-case hex digit. */
  function HexValue(c: char): (r: Option<nat>)
    ensures r.Some? ==> r.value < 16
  {
    if '0' <= c <= '9' then Some(c as int - '0' as int)
    else if 'a' <= c <= 'f' then Some(c as int - 'a' as int + 10)
    else None
  }

  /** The inverse of `HexEncode`: pairs of lower-case hex digits, else nothing. */
  function HexDecode(s: string): Option<seq<byte>>
    decreases |s|
  {
    if |s| == 0 then Some([])
    else if |s| == 1 || HexValue(s[0]).None? || HexValue(s[1]).None? then None
    else
      var rest := HexDecode(s[2..]);
      if rest.None? then None
      else Some([(HexValue(s[0]).value * 16 + HexValue(s[1]).value) as byte] + rest.value)
  }

  lemma HexDigitValue(d: int)
    requires 0 <= d < 16
    ensures HexValue(HexDigits[d]) == Some(d)
  {
  }

  lemma {:induction false} HexDecodeEncode(b: seq<byte>)
    ensures HexDecode(HexEncode(b)) == Some(b)
    decreases |b|
  {
    if |b| > 0 {
      var hi, lo := (b[0] / 16) as int, (b[0] % 16) as int;
      HexDigitValue(hi);
      HexDigitValue(lo);
      ByteOfDigits(b[0]);
      HexDecodeEncode(b[1..]);
      var s := HexEncode(b);
      assert s == [HexDigits[hi], HexDigits[lo]] + HexEncode(b[1..]);
      assert s[2..] == HexEncode(b[1..]);
      assert b == [b[0]] + b[1..];
    }
  }

  lemma ByteOfDigits(x: byte)
    ensures ((x / 16) as int * 16 + (x % 16) as int) as byte == x
  {
  }

  lemma DigitsOfByte(hi: nat, lo: nat)
    requires hi < 16 && lo < 16
    ensures ((hi * 16 + lo) as byte / 16) as int == hi
    ensures ((hi * 16 + lo) as byte % 16) as int == lo
  {
  }

  lemma {:induction false} HexEncodeDecode(s: string)
    requires HexDecode(s).Some?
    ensures HexEncode(HexDecode(s).value) == s
    decreases |s|
  {
    if |s| > 0 {
      HexDecodeStep(s);
      var hi, lo := HexValue(s[0]).value, HexValue(s[1]).value;
      var rest := s[2..];
      HexEncodeDecode(rest);
      var b := HexDecode(s).value;
      var x := b[0];
      assert x == (hi * 16 + lo) as byte && b[1..] == HexDecode(rest).value;
      DigitsOfByte(hi, lo);
      HexDigitOf(s[0]);
      HexDigitOf(s[1]);
      HexEncodeStep(b);
      assert HexEncode(b) == [s[0], s[1]] + rest;
      assert s == [s[0], s[1]] + rest;
    }
  }

  lemma HexEncodeStep(b: seq<byte>)
    requires |b| > 0
    ensures HexEncode(b) == [HexDigits[(b[0] / 16) as int], HexDigits[(b[0] % 16) as int]] + HexEncode(b[1..])
  {
  }

  lemma HexDecodeStep(s: string)
    requires HexDecode(s).Some? && |s| > 0
    ensures |s| >= 2 && HexValue(s[0]).Some? && HexValue(s[1]).Some? && HexDecode(s[2..]).Some?
    ensures HexDecode(s).value
      == [(HexValue(s[0]).value * 16 + HexValue(s[1]).value) as byte] + HexDecode(s[2..]).value
  {
  }

  lemma HexDigitOf(c: char)
    requires HexValue(c).Some?
    ensures HexValue(c).value < 16 && HexDigits[HexValue(c).value] == c
  {
  }

  /** Lower-case hex strings and byte strings correspond one to one. */
  lemma HexEncodeIff(s: string, b: seq<byte>)
    ensures HexEncode(b) == s <==> HexDecode(s) == Some(b)
  {
    HexDecodeEncode(b);
    if HexDecode(s).Some? {
      HexEncodeDecode(s);
    }
  }

  /**
    `checkHash` with the digest function as a parameter: `content` is None when
    reading failed; otherwise the lower-case hex of its digest is compared with
    the lower-cased signature.
  */
  function CheckHash(names: AlgNames, alg: string, sig: string, content: Option<seq<byte>>,
                     digest: (HashAlg, seq<byte>) -> seq<byte>): (v: HashVerdict)
    ensures v.Compared? ==> AlgOf(names, alg).Some? && sig != "" && content.Some?
    ensures v == Compared(true) ==> |sig| == 2 * |digest(AlgOf(names, alg).value, content.value)|
  {
    match AlgOf(names, alg)
    case None => InvalidAlgOrSig
    case Some(a) =>
      if sig == "" then InvalidAlgOrSig
      else match content
        case None => ReadFailed
        case Some(data) => Compared(HexEncode(digest(a, data)) == ToLower(sig))
  }

  /** The guard refuses before any read exactly when the algorithm is unknown or the signature empty. */
  lemma CheckHashGuard(names: AlgNames, alg: string, sig: string, content: Option<seq<byte>>,
                       digest: (HashAlg, seq<byte>) -> seq<byte>)
    ensures CheckHash(names, alg, sig, content, digest) == InvalidAlgOrSig <==> AlgOf(names, alg).None? || sig == ""
    ensures AlgOf(names, alg).Some? && sig != "" && content.None? ==> CheckHash(names, alg, sig, content, digest) == ReadFailed
  {
  }

  /**
    The check passes exactly when the signature, read case-insensitively, is
    the hex spelling of the digest of the content.
  */
  lemma CheckHashPasses(names: AlgNames, alg: string, sig: string, data: seq<byte>,
                        digest: (HashAlg, seq<byte>) -> seq<byte>)
    requires AlgOf(names, alg).Some? && sig != ""
    ensures CheckHash(names, alg, sig, Some(data), digest) == Compared(true)
      <==> HexDecode(ToLower(sig)) == Some(digest(AlgOf(names, alg).value, data))
  {
    HexEncodeIff(ToLower(sig), digest(AlgOf(names, alg).value, data));
  }

  /** Upper- and lower-case spellings of a signature give the same verdict. */
  lemma CheckHashIgnoresCase(names: AlgNames, alg: string, sig: string, sig': string, content: Option<seq<byte>>,
                             digest: (HashAlg, seq<byte>) -> seq<byte>)
    requires ToLower(sig) == ToLower(sig')
    ensures CheckHash(names, alg, sig, content, digest) == CheckHash(names, alg, sig', content, digest)
  {
    assert sig == "" <==> sig' == "" by {
      assert |sig| == |ToLower(sig)| == |ToLower(sig')| == |sig'|;
    }
  }
}
