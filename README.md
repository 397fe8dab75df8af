# tash `util.go` helpers in Dafny

tash is a task runner: a YAML file declares tasks, each a list of actions.
Its `util.go` holds the helpers that actions share. This project models the
parts of that file that are string, list and condition logic:

- the string helpers: `stringAtAndTrim`, `stringSplitAndTrim`,
  `stringSplitAndTrimFilterSpace`, `stringSplitAndTrimToPair`, `stringUnquote`
  and `splitBlocks`;
- the literal parsers `parseBool` and `parseInt`, including the part of
  Go's `strconv.ParseInt` that `parseInt` relies on;
- the condition engine `checkCondition`: operator defaulting, alias
  resolution, the binary/unary dispatch and every error it returns;
- the tail of `splitBlocksAndGlobPath`, which concatenates the glob matches,
  sorts them and compacts them in place;
- the literal path of `fileReplacer` (`bytes.ReplaceAll`);
- the decision `checkHash` takes once the digest is known.

The project is split by concern, one module per file:

| file | module | contents |
|---|---|---|
| `Wrappers.dfy` | `Wrappers` | `Option` and `Result` |
| `Seqs.dfy` | `Seqs` | Go's `strings.Index`, `strings.Split` and `strings.Join` on any sequence, plus the order-preserving filter |
| `Text.dfy` | `Text` | `unicode.IsSpace`, `strings.TrimSpace`, ASCII `strings.ToLower`, and Go's string order |
| `StringHelpers.dfy` | `StringHelpers` | the string helpers and `splitBlocks`; the in-place loops are methods over arrays |
| `Literals.dfy` | `Literals` | `parseBool`, `strconv.ParseInt(s, base, 64)` and `parseInt` |
| `Conditions.dfy` | `Conditions` | `checkCondition` |
| `Glob.dfy` | `Glob` | `sort.Strings` and `splitBlocksAndGlobPath` |
| `FileOps.dfy` | `FileOps` | the literal replacer and the hash verdict |

Some of what these helpers use lies outside `util.go`. Each such thing is a
parameter of the model:

- The operator names (`syntax.Op_*`) and the alias table
  (`syntax.OperatorAlias`) are `Conditions.Syntax`.
- The environment lookup, the POSIX regular-expression matcher, `os.Stat`
  modification times and mode tests, and `exec.LookPath` are
  `Conditions.Host`.
- The glob and the "stat succeeds and is not a directory" test are functions
  passed to `Glob.SplitBlocksAndGlobPath`.
- The hash algorithm names and the digest function are passed to
  `FileOps.CheckHash`.

The pieces that loop in place are imperative Dafny, each proved against a
specification function:

- `stringSplitAndTrim` trims an array in place.
- The compaction loop with an `end` write cursor, which appears twice in
  `util.go`, is one generic method, `StringHelpers.Compact`, over an array.
- `splitBlocks` and the gathering loop of `splitBlocksAndGlobPath` append in
  a loop.

Where the code and the natural reading of the operation differ, the model
follows the code:

- `parseInt` hands the prefixed string to `strconv.ParseInt`, so every
  `0x`/`0o`/`0b` literal is a syntax error.
- The glob results are sorted but never deduplicated.
- A binary operator with no compare field compares against `""`.
- An unknown operator given a compare field is refused with "operator
  doesn't needs compare field", not with "invalid condition operator".

## Model

| member | source | states |
|---|---|---|
| Text.TrimSpace | util.go:37 | the result neither starts nor ends with whitespace and is no longer than the input |
| Text.TrimSpaceSplits | util.go:59 | the input is a whitespace prefix, then the trimmed result, then a whitespace suffix |
| Text.TrimSpaceCharacterized | util.go:59 | whenever `s` is whitespace, a trimmed `t` and whitespace, `TrimSpace(s)` is `t` (the reference definition of trimming) |
| Text.TrimSpaceIdempotent | util.go:59 | trimming twice is trimming once |
| Text.TrimSpaceWithin | util.go:59 | trimming only removes characters |
| Text.IsSpace | util.go:37 | the whitespace set of `unicode.IsSpace`; `TrimSpaceCharacterized` states what trimming does with it |
| Text.LexLess | util.go:313-324 | Go's string `<`; `LexTrichotomy` and `LexTransitive` state that it is a strict total order |
| Text.ToLower | util.go:277 | same length; every character lower-cased |
| Text.LexTrichotomy | util.go:313-324 | Go's string `<` is a strict total order: exactly one of `<`, `==`, `>` holds |
| Text.LexTransitive | util.go:313-324 | Go's string `<` is transitive |
| Seqs.IndexOf | util.go:69 | a found position is an occurrence of the separator |
| Seqs.IndexOfFirst | util.go:69 | the found position is the first occurrence; nothing is found exactly when the separator does not occur |
| Seqs.Split | util.go:57 | `strings.Split` yields at least one piece |
| Seqs.SplitJoin | util.go:57 | joining the pieces with the separator gives back the input |
| Seqs.SplitPiecesFree | util.go:57 | no piece contains the separator |
| Seqs.SplitPiecesWithin | util.go:57 | every element of every piece comes from the input |
| Seqs.Filter | util.go:45-53 | the kept elements are never more than the input |
| Seqs.FilterElements | util.go:45-53 | each element occurs as often as in the input when kept, and not at all otherwise |
| Seqs.FilterMembership | util.go:45-53 | an element is kept exactly when it occurs in the input and passes the test |
| StringHelpers.TrimAll | util.go:58-60 | one piece per input piece, each the `TrimSpace` of the input piece at the same position |
| StringHelpers.StringAtAndTrim | util.go:35-40 | within range, the `TrimSpace` of the element (the element itself when already trimmed); `""` past the end; always trimmed |
| StringHelpers.StringSplitAndTrim | util.go:56-62 | a fresh array holding exactly the trimmed pieces of the split, in order |
| StringHelpers.Compact | util.go:44-53 | the prefix up to the returned `end` is the order-preserving filter of the array's original contents |
| StringHelpers.Pieces | util.go:42-54 | at most one piece per piece of the split, none empty; `FilterElements` and `PieceClean` state exactly which |
| StringHelpers.StringSplitAndTrimFilterSpace | util.go:42-54 | the result is exactly the non-empty trimmed pieces of the split, in order |
| StringHelpers.PieceClean | util.go:42-54 | every returned piece is non-empty, trimmed and made of input characters; with a one-character separator it does not contain that separator |
| StringHelpers.PiecesClean | util.go:42-54 | no returned piece is empty or carries surrounding whitespace |
| StringHelpers.SplitN | util.go:69 | `strings.SplitN` with `n >= 1` yields between 1 and `n` pieces |
| StringHelpers.SplitNTwo | util.go:69 | with `n = 2`, the input splits at the FIRST occurrence of the separator, or stays whole when there is none |
| StringHelpers.StringSplitAndTrimToPair | util.go:64-72 | with `" "`, the first two non-empty words, or `""`; otherwise the trimmed sides of the first occurrence, the second `""` when the separator is absent |
| StringHelpers.StringUnquote | util.go:587-608 | never longer than the input; either the input or its inside without the two outer characters |
| StringHelpers.UnquoteChangesIffQuoted | util.go:587-608 | the quotes are stripped if and only if the input has length at least 2, starts with `'` or `"`, ends with the same quote, and that quote does not occur inside |
| StringHelpers.UnquoteQuote | util.go:587-608 | unquoting undoes quoting with a quote that the text does not contain |
| StringHelpers.Blocks | util.go:610-617 | what `splitBlocks` returns; `BlocksClean` states that its entries are clean |
| StringHelpers.SplitBlocks | util.go:610-617 | the `;`-pieces of each non-empty trimmed line, concatenated in line order |
| StringHelpers.BlocksClean | util.go:610-617 | no block is empty, carries surrounding whitespace, or holds `;` or a newline |
| Literals.ParseBool | util.go:276-285 | true exactly for "true", "yes" (any case) and "1"; false exactly for "", "false", "no" (any case) and "0"; any other input is an error carrying it |
| Literals.StrconvParseInt | util.go:271-274 | every accepted value is an int64; every error carries the input |
| Literals.ScanDigits | util.go:271-274 | a successful scan never decreases the accumulated value and stays within 64 unsigned bits; a range error needs at least one digit; `ScanDigitsSpec` gives the exact outcome |
| Literals.ScanDigitsSpec | util.go:271-274 | the digit scan succeeds exactly on an all-digit string whose value fits 64 unsigned bits, and returns that value |
| Literals.StrconvParseIntSpec | util.go:271-274 | accepted exactly when the input is a signed numeral in the base whose value is an int64, with that value |
| Literals.FormatNatValue | util.go:271-274 | the digits `FormatNat` prints denote the number (the inverse of the digit scan) |
| Literals.ParseFormatRoundTrip | util.go:271-274 | parsing the base-`b` spelling of any int64 gives it back |
| Literals.PrefixBase | util.go:265-272 | base 16, 8 or 2 exactly for a `0x`, `0o` or `0b` prefix, and 10 exactly for an unprefixed string |
| Literals.ParseInt | util.go:264-275 | `parseInt(s)` always equals a plain base-10 `strconv.ParseInt(s)` |
| Literals.ScanPrefixed | util.go:265-272 | for a `0x`/`0o`/`0b` literal the scan stops at the prefix letter, in base 10 and in the base the prefix selects |
| Literals.PrefixedLiteralRejected | util.go:265-272 | every `0x`/`0o`/`0b` literal is a syntax error |
| Literals.DecimalRoundTrip | util.go:264-275 | every int64 written in decimal parses back to itself |
| Conditions.CheckCondition | util.go:286-492 | "doesn't need compare field" only with a compare field, "invalid operator" only without one, and both only for a name no binary operator has; `DispatchByName` and the lemmas below state the rest |
| Conditions.Canonical | util.go:287-299 | a non-empty operator is replaced by its alias when it has one; an empty one becomes the name of `bool_true` without a compare field and of `string_equal` with one |
| Conditions.EvalBinary | util.go:306-384 | the string comparisons never fail; every error is the one of the operator's family and carries its operands |
| Conditions.EvalUnary | util.go:409-486 | only `bool_true`/`bool_not` (unparsable value) and `binary` (failed lookup) fail, each with its own error |
| Conditions.NumberOperand | util.go:338-343 | accepted exactly when empty or an int64 decimal numeral, and then worth 0 or the numeral's value |
| Conditions.Lookup | util.go:306 | a Go `switch` on strings: a found case carries the name, and nothing is found only when no case does |
| Conditions.CompareStringsTotal | util.go:313-324 | the six string operators are those of a total order: converses and negations agree |
| Conditions.DispatchByName | util.go:305-491 | under distinct operator names, a binary operator evaluates its family with an absent compare read as `""`; a unary one evaluates without a compare field and is refused with one |
| Conditions.DefaultIsBoolTrue | util.go:292-294 | no operator and no compare field: the value is parsed as a boolean (`""` is false, `"yes"` true, anything unparsable an error) |
| Conditions.DefaultWithCompareIsEqual | util.go:292-297 | no operator but a compare field: the result is string equality |
| Conditions.AbsentCompareIsEmpty | util.go:301-304 | a binary operator without a compare field behaves as with the compare field `""` |
| Conditions.CompareRefusedOutsideBinary | util.go:385-388 | any non-binary operator, known or not, is refused when a compare field is present |
| Conditions.UnknownOperatorRefused | util.go:487-488 | an operator that names no operator after aliasing is refused as invalid |
| Conditions.NumberCompareSpec | util.go:326-360 | the number operators succeed exactly on empty (read as 0) or int64 decimal operands, fail with an error otherwise, and compare in integer order |
| Conditions.NumberCompareRefusesPrefixed | util.go:338-345 | a `0x`/`0o`/`0b` operand, as value or as compare field, makes every number operator fail |
| Conditions.BoolNotNegates | util.go:413-421 | `bool_true` succeeds exactly when the value parses as a boolean, with that value; `bool_not` succeeds exactly when `bool_true` does, with the opposite result |
| Conditions.BoolAndOrSpec | util.go:373-384 | `bool_and`/`bool_or` fail exactly when either side does not parse, and otherwise combine both sides |
| Conditions.BinaryLookupSpec | util.go:478-486 | a missing executable is `false`; only another lookup failure is an error |
| Glob.SortStrings | util.go:629 | the result is sorted in Go's string order and is a permutation of the input, duplicates kept |
| Glob.SortedUnique | util.go:629 | two sorted permutations of the same strings are equal, so any sort gives `SortStrings` |
| Glob.FilterSorted | util.go:634-650 | dropping entries from a sorted list leaves it sorted |
| Glob.Gathered | util.go:620-628 | a failure names a block of the list whose glob failed; success means no block's glob failed |
| Glob.GlobPaths | util.go:619-652 | a failure names a block whose glob failed; with `mustBeFile` every entry is a file; `GlobPathsSpec` states the rest |
| Glob.GatheredFailureSticks | util.go:622-626 | once a block's glob fails, the whole call fails with that block |
| Glob.GatherMatches | util.go:620-628 | the loop returns the block-ordered concatenation of the matches, or the first failing block |
| Glob.SplitBlocksAndGlobPath | util.go:619-652 | the method computes `GlobPaths`: gathered, sorted, and with `mustBeFile` compacted in place to the entries that are files |
| Glob.GlobPathsSpec | util.go:619-652 | it succeeds exactly when no glob fails; the result is sorted; without `mustBeFile` it holds every match with its multiplicity, and with it exactly the matches that are files |
| Glob.GlobPathsOrderIndependent | util.go:629 | matches gathered in any order give the same sorted and filtered result |
| FileOps.ReplaceAll | util.go:527 | a replacement as long as the pattern keeps the length; `Apply` states that content without the pattern is unchanged |
| FileOps.ReplaceAllIsSplitJoin | util.go:527 | `bytes.ReplaceAll` equals splitting on the old bytes and joining with the new |
| FileOps.ReplaceAllSelf | util.go:527 | replacing a pattern with itself changes nothing |
| FileOps.ReplaceAllRemoves | util.go:527 | when the replacement lacks a one-byte pattern, no such byte is left |
| FileOps.FileReplacer | util.go:494-553 | no replacement exactly for no arguments; one literal pair exactly for two literal arguments; otherwise the arguments go to the multi-pair or the regexp replacer |
| FileOps.Apply | util.go:495-528 | no arguments leave the content as is; a literal pair with a non-empty pattern yields `ReplaceAll(content, pat, repl)`, which changes nothing when the pattern does not occur |
| FileOps.ReplacingWithItselfIsNoOp | util.go:522-528 | `fileReplacer([p, p], false)` leaves every file as it was |
| FileOps.AlgOf | util.go:156-163 | the first algorithm whose name matches, in switch order |
| FileOps.HexEncode | util.go:174 | two hex digits per byte |
| FileOps.HexValue | util.go:174 | a hex digit has a value below 16 |
| FileOps.HexDecodeEncode | util.go:174 | decoding the hex spelling gives back the bytes |
| FileOps.HexEncodeDecode | util.go:174 | a decodable string is the hex spelling of what it decodes to |
| FileOps.HexEncodeIff | util.go:174 | lower-case hex strings and byte strings correspond one to one |
| FileOps.CheckHash | util.go:154-175 | a comparison happens only for a known algorithm, a non-empty signature and readable content, and passes only when the signature has two characters per digest byte |
| FileOps.CheckHashGuard | util.go:164-173 | refused before any read exactly when the algorithm is unknown or the signature empty; otherwise a read failure fails the check |
| FileOps.CheckHashPasses | util.go:168-174 | the check passes exactly when the lower-cased signature is the hex spelling of the digest |
| FileOps.CheckHashIgnoresCase | util.go:174 | signatures that differ only in letter case give the same verdict |

## Left out

- `copyFile`, `copyPath`, `openFile`, `runInDir` and `downloadFile` are left out: they are file-system, directory and HTTP I/O.
- `execCommand`, `runCommand` and `getCmdStringOutput` are left out: they spawn processes and pipelines through a library that is not part of this model. Their "empty command line string" guards (util.go:207-209, util.go:254-256) are not modelled either.
- `stringToSlash`, `ptrsToSlash` and `sliceToSlash` are left out: `filepath.ToSlash` depends on the operating system.
- The file operators of `checkCondition` (`os.Stat`/`os.Lstat` mode tests, `newerThan`/`olderThan`) and `binary` (`exec.LookPath`) are modelled only through their outcomes, supplied by `Conditions.Host`. The same holds for `string_regexp`, since Go's POSIX regular-expression engine is not modelled, and for `env_defined`, since the environment type is not part of this model.
- The regexp branch of `fileReplacer` and `strings.NewReplacer` are left out: `FileOps.Apply` returns None for them. Compiling the patterns in the regexp branch can fail, and an odd number of arguments there makes Go panic; neither is modelled.
- FileOps.Apply: `bytes.ReplaceAll` with an empty old string (which inserts the new bytes at the start, after every UTF-8 sequence and so also at the end) is left out, so `Apply` returns None there.
- Reading and rewriting the file in `fileReplacer`'s `withFileContent` is left out: it is I/O. The model states the new content only.
- The digest computation in `checkHash` is a parameter; so are the `io.Copy` failure and the logger. `log.fatalln` is modelled as a verdict, not as a process exit.
- `zglob.Glob` and `os.Stat` in `splitBlocksAndGlobPath` are parameters.
- Text.ToLower: lower-cases ASCII letters only. It is compared only with ASCII words ("true", "yes", hex digits), and no other character lower-cases into one of their letters.
- Text.TrimSpace: works on code points, not on UTF-8 bytes. The invalid-UTF-8 handling of Go's `strings.TrimSpace` is left out.
- Text.LexLess: orders strings by code point. This is the same as Go's byte order for valid UTF-8.
- The operator names, `syntax.OperatorAlias` and the hash algorithm names live outside `util.go`; `syntax/configuration.go` declares the configuration types and the constant `DefaultArraySeparator = " "`, and holds neither these names nor the alias table. They are parameters here.
- Literals.StrconvParseInt: covers explicit bases 2 to 36 only. Base 0, with its prefix and underscore rules, is never used by `parseInt`.
