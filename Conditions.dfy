/**
  `checkCondition` (util.go:286-492): the condition engine of tash. A condition
  is a value, an operator name and an optional compare field. The operator is
  defaulted, normalised through the alias table, then dispatched: first over
  the binary operators, which use the compare field (an absent one reads as
  ""), then, in the default branch, over the unary operators, which refuse a
  compare field.

  The operator names and the alias table live outside util.go; they are the
  `Syntax` parameter here. Everything that asks the operating system (stat,
  lstat, the executable lookup), the environment object and the POSIX regular
  expression engine is the `Host` parameter.
*/
module Conditions {
  import opened Wrappers
  import opened Text
  import opened Literals

  /** The six comparison operators that both the string and the number families offer. */
  datatype Cmp = Gt | Ge | Eq | Ne | Le | Lt

  /** The file predicates of the unary branch, each an `os.Stat`/`os.Lstat` mode test. */
  datatype FileTest =
    | Exist | BlockDevice | CharDevice | Dir | Regular | Setgid
    | Symlink | Sticky | NamedPipe | NotEmpty | Socket | Setuid

  /** The operators of the outer switch: they read the compare field. */
  datatype BinaryOp =
    | StringRegexp
    | StringCompare(cmp: Cmp)
    | NumberCompare(cmp: Cmp)
    | FileNewerThan
    | FileOlderThan
    | BoolAnd
    | BoolOr

  /** The operators of the inner switch, reached only without a compare field. */
  datatype UnaryOp =
    | StringNotEmpty
    | StringEmpty
    | BoolTrue
    | BoolNot
    | EnvDefined
    | FileStat(test: FileTest)
    | FileBinary

  datatype Op = Binary(b: BinaryOp) | Unary(u: UnaryOp)

  /** The `syntax.Op_*` operator names and the `syntax.OperatorAlias` table. */
  datatype Syntax = Syntax(name: Op -> string, alias: map<string, string>)

  /** What `exec.LookPath` reports: found, `exec.ErrNotFound`, or another failure. */
  datatype LookPathOutcome = Found | NotFound | LookupError

  /**
    The outside world as the evaluator sees it: whether the environment defines
    a name, whether a POSIX pattern matches a value (None when the pattern does
    not compile), a file's modification time (None when `os.Stat` fails), the
    outcome of each file predicate, and the executable lookup.
  */
  datatype Host = Host(
    envExists: string -> bool,
    regexpMatch: (string, string) -> Option<bool>,
    modTime: string -> Option<int>,
    fileTest: (FileTest, string) -> bool,
    lookPath: string -> LookPathOutcome)

  /** The errors `checkCondition` returns, each carrying what its message names. */
  datatype CondError =
    | RegexpCompileFailed(pattern: string)
    | NotNumbers(value: string, compare: string)
    | FilesInaccessible(value: string, compare: string)
    | InvalidBooleans(value: string, compare: string)
    | CompareNotNeeded(operator: string)
    | InvalidBoolean(value: string)
    | BinaryLookupFailed(value: string)
    | InvalidOperator(operator: string)

  /** The cases of the outer switch, in source order. */
  const BinaryOps: seq<BinaryOp> := [
    StringRegexp,
    StringCompare(Gt), StringCompare(Ge), StringCompare(Eq),
    StringCompare(Ne), StringCompare(Le), StringCompare(Lt),
    NumberCompare(Gt), NumberCompare(Ge), NumberCompare(Eq),
    NumberCompare(Ne), NumberCompare(Le), NumberCompare(Lt),
    FileNewerThan, FileOlderThan, BoolAnd, BoolOr]

  /** The cases of the inner switch, in source order. */
  const UnaryOps: seq<UnaryOp> := [
    StringNotEmpty, StringEmpty, BoolTrue, BoolNot, EnvDefined,
    FileStat(Exist), FileStat(BlockDevice), FileStat(CharDevice), FileStat(Dir),
    FileStat(Regular), FileStat(Setgid), FileStat(Symlink), FileStat(Sticky),
    FileStat(NamedPipe), FileStat(NotEmpty), FileStat(Socket), FileStat(Setuid),
    FileBinary]

  lemma BinaryOpsComplete(b: BinaryOp)
    ensures b in BinaryOps
  {
    match b
    case StringCompare(c) => assert c == Gt || c == Ge || c == Eq || c == Ne || c == Le || c == Lt;
    case NumberCompare(c) => assert c == Gt || c == Ge || c == Eq || c == Ne || c == Le || c == Lt;
    case _ =>
  }

  /** When the outer switch finds no case, no binary operator has that name. */
  lemma NoBinaryNamed(syn: Syntax, o: string)
    requires Lookup(BinaryOps, b => syn.name(Binary(b)), o).None?
    ensures forall b :: syn.name(Binary(b)) != o
  {
    forall b ensures syn.name(Binary(b)) != o {
      BinaryOpsComplete(b);
      assert (b' => syn.name(Binary(b')))(b) == syn.name(Binary(b));
    }
  }

  lemma UnaryOpsComplete(u: UnaryOp)
    ensures u in UnaryOps
  {
    match u
    case FileStat(t) =>
      match t {
        case Exist => case BlockDevice => case CharDevice => case Dir =>
        case Regular => case Setgid => case Symlink => case Sticky =>
        case NamedPipe => case NotEmpty => case Socket => case Setuid =>
      }
    case _ =>
  }

  /** A Go `switch` on a string: the first case whose constant equals `o`. */
  function Lookup<T>(cases: seq<T>, name: T -> string, o: string): (r: Option<T>)
    ensures r.Some? ==> r.value in cases && name(r.value) == o
    ensures r.None? ==> forall x :: x in cases ==> name(x) != o
  {
    if |cases| == 0 then None
    else if name(cases[0]) == o then Some(cases[0])
    else Lookup(cases[1..], name, o)
  }

  /** Go's `a < b`-style operators on int64 values. */
  function CompareInts(c: Cmp, a: int, b: int): bool {
    match c
    case Gt => a > b
    case Ge => a >= b
    case Eq => a == b
    case Ne => a != b
    case Le => a <= b
    case Lt => a < b
  }

  /** Go's comparison operators on strings: byte-wise lexicographic order. */
  function CompareStrings(c: Cmp, a: string, b: string): bool {
    match c
    case Gt => LexLess(b, a)
    case Ge => LexLessEq(b, a)
    case Eq => a == b
    case Ne => a != b
    case Le => LexLessEq(a, b)
    case Lt => LexLess(a, b)
  }

  /**
    The string comparisons are those of a total order: `>` is `<` reversed,
    each operator is the negation of its opposite.
  */
  lemma CompareStringsTotal(a: string, b: string)
    ensures CompareStrings(Gt, a, b) == CompareStrings(Lt, b, a)
    ensures CompareStrings(Ge, a, b) == CompareStrings(Le, b, a)
    ensures CompareStrings(Gt, a, b) == !CompareStrings(Le, a, b)
    ensures CompareStrings(Lt, a, b) == !CompareStrings(Ge, a, b)
    ensures CompareStrings(Ne, a, b) == !CompareStrings(Eq, a, b)
    ensures CompareStrings(Le, a, b) && CompareStrings(Ge, a, b) ==> a == b
  {
    LexTrichotomy(a, b);
  }

  /** A number operand: the empty string stands for 0, anything else goes through `parseInt`. */
  function NumberOperand(x: string): (r: Result<int, NumError>)
    ensures r.Ok? <==> IsNumberOperand(x)
    ensures r.Ok? ==> r.value == OperandValue(x)
  {
    StrconvParseIntSpec(x, 10);
    if x == "" then Ok(0) else ParseInt(x)
  }

  /** The operands the number operators accept: empty, or a decimal numeral within int64 range. */
  predicate IsNumberOperand(x: string) {
    x == "" || (IsNumeral(x, 10) && IsInt64(NumeralValue(x, 10)))
  }

  function OperandValue(x: string): int
    requires IsNumberOperand(x)
  {
    if x == "" then 0 else NumeralValue(x, 10)
  }

  /** The outer switch of `checkCondition`: the binary operators, with `compare` already defaulted to "". */
  function EvalBinary(host: Host, op: BinaryOp, value: string, compare: string): (r: Result<bool, CondError>)
    ensures op.StringCompare? ==> r.Ok?
    ensures r.Err? ==>
      (op.StringRegexp? && r.error == RegexpCompileFailed(compare))
      || (op.NumberCompare? && r.error == NotNumbers(value, compare))
      || ((op.FileNewerThan? || op.FileOlderThan?) && r.error == FilesInaccessible(value, compare))
      || ((op.BoolAnd? || op.BoolOr?) && r.error == InvalidBooleans(value, compare))
  {
    match op
    case StringRegexp =>
      (match host.regexpMatch(compare, value)
       case None => Err(RegexpCompileFailed(compare))
       case Some(m) => Ok(m))
    case StringCompare(c) => Ok(CompareStrings(c, value, compare))
    case NumberCompare(c) =>
      var v1, v2 := NumberOperand(value), NumberOperand(compare);
      if v1.Err? || v2.Err? then Err(NotNumbers(value, compare))
      else Ok(CompareInts(c, v1.value, v2.value))
    case FileNewerThan =>
      var t1, t2 := host.modTime(value), host.modTime(compare);
      if t1.None? || t2.None? then Err(FilesInaccessible(value, compare))
      else Ok(t1.value > t2.value)
    case FileOlderThan =>
      var t1, t2 := host.modTime(value), host.modTime(compare);
      if t1.None? || t2.None? then Err(FilesInaccessible(value, compare))
      else Ok(t1.value < t2.value)
    case BoolAnd =>
      var o1, o2 := ParseBool(value), ParseBool(compare);
      if o1.Err? || o2.Err? then Err(InvalidBooleans(value, compare))
      else Ok(o1.value && o2.value)
    case BoolOr =>
      var o1, o2 := ParseBool(value), ParseBool(compare);
      if o1.Err? || o2.Err? then Err(InvalidBooleans(value, compare))
      else Ok(o1.value || o2.value)
  }

  /** The inner switch of `checkCondition`: the unary operators. */
  function EvalUnary(host: Host, op: UnaryOp, value: string): (r: Result<bool, CondError>)
    ensures r.Err? ==>
      ((op.BoolTrue? || op.BoolNot?) && r.error == InvalidBoolean(value))
      || (op.FileBinary? && r.error == BinaryLookupFailed(value))
  {
    match op
    case StringNotEmpty => Ok(value != "")
    case StringEmpty => Ok(value == "")
    case BoolTrue =>
      (match ParseBool(value)
       case Err(_) => Err(InvalidBoolean(value))
       case Ok(b) => Ok(b))
    case BoolNot =>
      (match ParseBool(value)
       case Err(_) => Err(InvalidBoolean(value))
       case Ok(b) => Ok(!b))
    case EnvDefined => Ok(host.envExists(value))
    case FileStat(t) => Ok(host.fileTest(t, value))
    case FileBinary =>
      (match host.lookPath(value)
       case Found => Ok(true)
       case NotFound => Ok(false)
       case LookupError => Err(BinaryLookupFailed(value)))
  }

  /** The operator after defaulting and one pass through the alias table. */
  function Canonical(syn: Syntax, operator: string, compareField: Option<string>): (o: string)
    ensures operator != "" && operator !in syn.alias ==> o == operator
    ensures operator != "" && operator in syn.alias ==> o == syn.alias[operator]
    ensures operator == "" && compareField.None? && WellFormed(syn) ==> o == syn.name(Unary(BoolTrue))
    ensures operator == "" && compareField.Some? && WellFormed(syn) ==> o == syn.name(Binary(StringCompare(Eq)))
  {
    var o :=
      if operator != "" then operator
      else if compareField.None? then syn.name(Unary(BoolTrue))
      else syn.name(Binary(StringCompare(Eq)));
    if o in syn.alias then syn.alias[o] else o
  }

  /** `checkCondition(envs, value, operator, compareField)`. */
  function CheckCondition(syn: Syntax, host: Host, value: string, operator: string, compareField: Option<string>)
    : (r: Result<bool, CondError>)
    ensures r.Err? && r.error.CompareNotNeeded? ==> compareField.Some?
    ensures r.Err? && r.error.InvalidOperator? ==> compareField.None?
    ensures r.Err? && (r.error.CompareNotNeeded? || r.error.InvalidOperator?) ==>
      forall b :: syn.name(Binary(b)) != Canonical(syn, operator, compareField)
  {
    var o := Canonical(syn, operator, compareField);
    match Lookup(BinaryOps, b => syn.name(Binary(b)), o)
    case Some(b) => EvalBinary(host, b, value, compareField.GetOr(""))
    case None =>
      NoBinaryNamed(syn, o);
      if compareField.Some? then Err(CompareNotNeeded(o))
      else match Lookup(UnaryOps, u => syn.name(Unary(u)), o)
        case Some(u) => EvalUnary(host, u, value)
        case None => Err(InvalidOperator(o))
  }

  // ----- what the dispatch means for a well-formed syntax -----

  /**
    The operator names are distinct (Go refuses duplicate `case` constants, and
    the canonical names are meant to be told apart), and the alias table leaves
    every canonical name as it is.
  */
  ghost predicate WellFormed(syn: Syntax) {
    (forall a: Op, b: Op :: syn.name(a) == syn.name(b) ==> a == b)
    && (forall a: Op :: syn.name(a) in syn.alias ==> syn.alias[syn.name(a)] == syn.name(a))
  }

  lemma LookupFinds<T>(cases: seq<T>, name: T -> string, x: T)
    requires x in cases
    requires forall a, b :: a in cases && b in cases && name(a) == name(b) ==> a == b
    ensures Lookup(cases, name, name(x)) == Some(x)
  {
  }

  /** Under a well-formed syntax, the name of an operator dispatches to that operator. */
  lemma {:induction false} DispatchByName(syn: Syntax, host: Host, op: Op, value: string, compareField: Option<string>)
    requires WellFormed(syn) && syn.name(op) != ""
    ensures op.Binary? ==>
      CheckCondition(syn, host, value, syn.name(op), compareField) == EvalBinary(host, op.b, value, compareField.GetOr(""))
    ensures op.Unary? && compareField.None? ==>
      CheckCondition(syn, host, value, syn.name(op), compareField) == EvalUnary(host, op.u, value)
    ensures op.Unary? && compareField.Some? ==>
      CheckCondition(syn, host, value, syn.name(op), compareField) == Err(CompareNotNeeded(syn.name(op)))
  {
    var o := syn.name(op);
    assert Canonical(syn, o, compareField) == o;
    match op
    case Binary(b) =>
      BinaryNamesDistinct(syn);
      BinaryOpsComplete(b);
      LookupFinds(BinaryOps, b' => syn.name(Binary(b')), b);
    case Unary(u) =>
      UnaryNamesDistinct(syn);
      UnaryOpsComplete(u);
      LookupFinds(UnaryOps, u' => syn.name(Unary(u')), u);
  }

  lemma BinaryNamesDistinct(syn: Syntax)
    requires WellFormed(syn)
    ensures forall a, b :: a in BinaryOps && b in BinaryOps && syn.name(Binary(a)) == syn.name(Binary(b)) ==> a == b
  {
    forall a, b | a in BinaryOps && b in BinaryOps && syn.name(Binary(a)) == syn.name(Binary(b)) ensures a == b {
      assert Binary(a) == Binary(b);
    }
  }

  lemma UnaryNamesDistinct(syn: Syntax)
    requires WellFormed(syn)
    ensures forall a, b :: a in UnaryOps && b in UnaryOps && syn.name(Unary(a)) == syn.name(Unary(b)) ==> a == b
  {
    forall a, b | a in UnaryOps && b in UnaryOps && syn.name(Unary(a)) == syn.name(Unary(b)) ensures a == b {
      assert Unary(a) == Unary(b);
    }
  }

  /**
    Without an operator and without a compare field, the value is parsed as a
    boolean: "" is false, "yes" is true, and an unparsable value is an error.
  */
  lemma DefaultIsBoolTrue(syn: Syntax, host: Host, value: string)
    requires WellFormed(syn) && syn.name(Unary(BoolTrue)) != ""
    ensures CheckCondition(syn, host, value, "", None) == EvalUnary(host, BoolTrue, value)
    ensures CheckCondition(syn, host, value, "", None).Ok? <==> ParseBool(value).Ok?
    ensures CheckCondition(syn, host, "", "", None) == Ok(false)
    ensures CheckCondition(syn, host, "yes", "", None) == Ok(true)
  {
    var n := syn.name(Unary(BoolTrue));
    forall v: string ensures CheckCondition(syn, host, v, "", None) == CheckCondition(syn, host, v, n, None) {
      assert Canonical(syn, "", None) == n == Canonical(syn, n, None);
    }
    DispatchByName(syn, host, Unary(BoolTrue), value, None);
    DispatchByName(syn, host, Unary(BoolTrue), "", None);
    DispatchByName(syn, host, Unary(BoolTrue), "yes", None);
    assert EqualFold("yes", "yes");
  }

  /** Without an operator but with a compare field, the condition is string equality. */
  lemma DefaultWithCompareIsEqual(syn: Syntax, host: Host, value: string, compare: string)
    requires WellFormed(syn) && syn.name(Binary(StringCompare(Eq))) != ""
    ensures CheckCondition(syn, host, value, "", Some(compare)) == Ok(value == compare)
  {
    var n := syn.name(Binary(StringCompare(Eq)));
    assert Canonical(syn, "", Some(compare)) == n == Canonical(syn, n, Some(compare));
    DispatchByName(syn, host, Binary(StringCompare(Eq)), value, Some(compare));
  }

  /** A binary operator given no compare field compares against "". */
  lemma AbsentCompareIsEmpty(syn: Syntax, host: Host, value: string, operator: string)
    requires operator != ""
    requires Lookup(BinaryOps, b => syn.name(Binary(b)), Canonical(syn, operator, None)).Some?
    ensures CheckCondition(syn, host, value, operator, None) == CheckCondition(syn, host, value, operator, Some(""))
  {
    assert Canonical(syn, operator, None) == Canonical(syn, operator, Some(""));
  }

  /**
    Any operator that is not binary, known or not, is refused with
    "operator doesn't needs compare field" when a compare field is present.
  */
  lemma CompareRefusedOutsideBinary(syn: Syntax, host: Host, value: string, operator: string, compare: string)
    requires operator != ""
    requires Lookup(BinaryOps, b => syn.name(Binary(b)), Canonical(syn, operator, None)).None?
    ensures CheckCondition(syn, host, value, operator, Some(compare)) == Err(CompareNotNeeded(Canonical(syn, operator, None)))
  {
    assert Canonical(syn, operator, None) == Canonical(syn, operator, Some(compare));
  }

  /** An operator that names no operator, even after aliasing, is refused. */
  lemma UnknownOperatorRefused(syn: Syntax, host: Host, value: string, operator: string)
    requires operator != ""
    requires forall op: Op :: syn.name(op) != Canonical(syn, operator, None)
    ensures CheckCondition(syn, host, value, operator, None) == Err(InvalidOperator(Canonical(syn, operator, None)))
  {
  }

  /**
    The number operators accept exactly empty operands (read as 0) and decimal
    int64 numerals, refuse anything else with an error rather than `false`, and
    then compare in integer order.
  */
  lemma NumberCompareSpec(host: Host, c: Cmp, value: string, compare: string)
    ensures EvalBinary(host, NumberCompare(c), value, compare).Ok? <==> IsNumberOperand(value) && IsNumberOperand(compare)
    ensures EvalBinary(host, NumberCompare(c), value, compare).Err? ==>
      EvalBinary(host, NumberCompare(c), value, compare).error == NotNumbers(value, compare)
    ensures EvalBinary(host, NumberCompare(c), value, compare).Ok? ==>
      EvalBinary(host, NumberCompare(c), value, compare).value == CompareInts(c, OperandValue(value), OperandValue(compare))
  {
    StrconvParseIntSpec(value, 10);
    StrconvParseIntSpec(compare, 10);
  }

  /** A `0x`, `0o` or `0b` operand, on either side, makes every number operator fail. */
  lemma NumberCompareRefusesPrefixed(host: Host, c: Cmp, value: string, compare: string)
    requires IsPrefixed(value) || IsPrefixed(compare)
    ensures EvalBinary(host, NumberCompare(c), value, compare) == Err(NotNumbers(value, compare))
  {
    if IsPrefixed(value) {
      PrefixedLiteralRejected(value);
    } else {
      PrefixedLiteralRejected(compare);
    }
  }

  /** `bool_not` succeeds exactly when `bool_true` does, with the opposite answer. */
  lemma BoolNotNegates(host: Host, value: string)
    ensures EvalUnary(host, BoolNot, value).Ok? <==> EvalUnary(host, BoolTrue, value).Ok?
    ensures EvalUnary(host, BoolNot, value).Ok? ==> EvalUnary(host, BoolNot, value).value == !EvalUnary(host, BoolTrue, value).value
    ensures EvalUnary(host, BoolTrue, value).Ok? <==> ParseBool(value).Ok?
    ensures EvalUnary(host, BoolTrue, value).Ok? ==> EvalUnary(host, BoolTrue, value).value == ParseBool(value).value
  {
  }

  /** `bool_and` and `bool_or` fail when either side is not a boolean, and otherwise combine them. */
  lemma BoolAndOrSpec(host: Host, value: string, compare: string)
    ensures EvalBinary(host, BoolAnd, value, compare).Err? <==> ParseBool(value).Err? || ParseBool(compare).Err?
    ensures EvalBinary(host, BoolOr, value, compare).Err? <==> ParseBool(value).Err? || ParseBool(compare).Err?
    ensures EvalBinary(host, BoolAnd, value, compare).Ok? ==>
      EvalBinary(host, BoolAnd, value, compare).value == (ParseBool(value).value && ParseBool(compare).value)
    ensures EvalBinary(host, BoolOr, value, compare).Ok? ==>
      EvalBinary(host, BoolOr, value, compare).value == (ParseBool(value).value || ParseBool(compare).value)
  {
  }

  /** A missing executable is `false`, not an error; only a failing lookup is an error. */
  lemma BinaryLookupSpec(host: Host, value: string)
    ensures EvalUnary(host, FileBinary, value).Err? <==> host.lookPath(value) == LookupError
    ensures EvalUnary(host, FileBinary, value).Ok? ==> EvalUnary(host, FileBinary, value).value == (host.lookPath(value) == Found)
  {
  }
}
