/**
 Reading a row into variables: each cell that was delivered is parsed into what the variable for its
 column can hold.
 */
module Cells {
  import opened Bytes
  import opened Quoting
  import opened Headers
  import opened Integers
  import opened Tables
  import opened CsvReaders
  import Floats

  /** What a variable can hold; `min` and `max` are the limits of its type, or of the exponent of a
      floating-point number. */
  datatype Target =
    | TextTarget
    | CharTarget
    | UnsignedTarget(max: nat)
    | SignedTarget(min: int, max: nat)
    | RealTarget(min: int, max: nat)
  {
    /** Every integer type holds all digits and their negations. */
    predicate Valid() {
      match this
      case TextTarget => true
      case CharTarget => true
      case UnsignedTarget(max) => 9 <= max
      case SignedTarget(min, max) => min <= -9 && 9 <= max
      case RealTarget(min, max) => min <= -9 && 9 <= max
    }
  }

  datatype Cell = TextCell(s: Text) | CharCell(c: Byte) | IntCell(x: int) | RealCell(r: real)

  datatype CellResult =
    | Good(cell: Cell)
    | NotASingleCharacter
    | NotANumber
    | Overflow
    | Underflow
    | NoNegation

  function OfInteger(r: ParseResult): CellResult {
    match r
    case Parsed(x) => Good(IntCell(x))
    case OverflowThrown => Overflow
    case UnderflowThrown => Underflow
    case NoDigit => NotANumber
  }

  function OfReal(r: Floats.FloatResult): CellResult {
    match r
    case Number(x) => Good(RealCell(x))
    case NotANumber => NotANumber
    case NegationOverflow => NoNegation
  }

  /** What the text of a cell is as a value for the target. */
  ghost function CellOf(s: Text, t: Target, policy: OverflowPolicy): CellResult
    requires t.Valid()
  {
    match t
    case TextTarget => Good(TextCell(s))
    case CharTarget => if |s| == 1 then Good(CharCell(s[0])) else NotASingleCharacter
    case UnsignedTarget(max) => OfInteger(UnsignedResult(s, max, policy))
    case SignedTarget(min, max) => OfInteger(SignedResult(s, min, max, policy))
    case RealTarget(min, max) => OfReal(Floats.PartsOf(s, min, max).Result())
  }

  method ParseCell(s: Text, t: Target, policy: OverflowPolicy) returns (r: CellResult)
    requires t.Valid()
    ensures r == CellOf(s, t, policy)
  {
    match t
    case TextTarget => r := Good(TextCell(s));
    case CharTarget =>
      if s == [] {
        return NotASingleCharacter;
      }
      var x := s[0];
      if s[1..] != [] {
        return NotASingleCharacter;
      }
      r := Good(CharCell(x));
    case UnsignedTarget(max) =>
      var n := ParseUnsignedInteger(s, max, policy);
      r := OfInteger(n);
    case SignedTarget(min, max) =>
      var n := ParseSignedInteger(s, min, max, policy);
      r := OfInteger(n);
    case RealTarget(min, max) =>
      var x := Floats.ParseFloat(s, min, max);
      r := OfReal(x);
  }

  /** The exception for one column. */
  datatype ColumnError = ColumnError(column: nat, why: CellResult)

  /** The variable holds what its cell says; without a cell it is as it was. */
  ghost predicate AssignedTo(cell: Option<Text>, t: Target, policy: OverflowPolicy, before: Cell, after: Cell)
    requires t.Valid()
  {
    if cell.Some? then CellOf(cell.value, t, policy) == Good(after) else after == before
  }

  /** The first `n` variables do. */
  ghost predicate Assigned(row: Row, targets: seq<Target>, policy: OverflowPolicy, n: nat,
                           before: seq<Cell>, after: seq<Cell>)
    requires n <= |row| == |targets| == |before| == |after| && forall k :: 0 <= k < |targets| ==> targets[k].Valid()
  {
    forall k :: 0 <= k < n ==> AssignedTo(row[k], targets[k], policy, before[k], after[k])
  }

  /** Parses the cells of a row into variables, up to the first that cannot be. */
  method ParseCells(row: Row, targets: seq<Target>, policy: OverflowPolicy, vars: seq<Cell>)
    returns (vars': seq<Cell>, error: Option<ColumnError>)
    requires |row| == |targets| == |vars| && forall k :: 0 <= k < |targets| ==> targets[k].Valid()
    ensures |vars'| == |vars|
    ensures error.None? ==> Assigned(row, targets, policy, |row|, vars, vars')
    ensures error.Some? ==>
      && error.value.column < |row| && row[error.value.column].Some? && !error.value.why.Good?
      && Assigned(row, targets, policy, error.value.column, vars, vars')
      && CellOf(row[error.value.column].value, targets[error.value.column], policy) == error.value.why
      && forall k :: error.value.column < k < |row| ==> vars'[k] == vars[k]
  {
    vars' := vars;
    for k := 0 to |row|
      invariant |vars'| == |vars| && Assigned(row, targets, policy, k, vars, vars')
      invariant forall i :: k <= i < |row| ==> vars'[i] == vars[i]
    {
      if row[k].Some? {
        var r := ParseCell(row[k].value, targets[k], policy);
        if !r.Good? {
          return vars', Some(ColumnError(k, r));
        }
        vars' := vars'[k := r.cell];
      }
    }
    error := None;
  }

  // ----- what the results mean -----

  /** The text is an integer: an optional sign and digits. */
  ghost predicate IsInteger(s: Text, x: int) {
    exists sign, digits :: IsMadeOf(s, sign, digits, []) && x == Negated(sign == [45], Value(digits))
  }

  /** The text is a decimal text whose exponent is an int with a negation. */
  ghost predicate IsReal(s: Text, x: real, min: int, max: nat) {
    exists d: Floats.Decimal ::
      d.Valid() && s == d.sign + d.Unsigned() && x == d.Number()
      && min <= d.exponent.Denotes() <= max && 0 <= d.exponent.Denotes() + max
  }

  /** The text stands for a value that the target holds. */
  ghost predicate StandsFor(s: Text, t: Target, cell: Cell) {
    match t
    case TextTarget => cell == TextCell(s)
    case CharTarget => cell.CharCell? && s == [cell.c]
    case UnsignedTarget(max) => cell.IntCell? && AllDigits(s) && cell.x == Value(s) <= max
    case SignedTarget(min, max) => cell.IntCell? && IsInteger(s, cell.x) && min <= cell.x <= max
    case RealTarget(min, max) => cell.RealCell? && IsReal(s, cell.r, min, max)
  }

  lemma UnsignedIsRead(s: Text, max: nat, policy: OverflowPolicy)
    requires AllDigits(s) && Value(s) <= max
    ensures UnsignedResult(s, max, policy) == Parsed(Value(s))
  {
    assert s == s + [];
    UnsignedMeaning(s, s, [], max, policy);
  }

  lemma SignedIsRead(s: Text, x: int, min: int, max: nat, policy: OverflowPolicy)
    requires IsInteger(s, x) && min <= x <= max && min <= 0
    ensures SignedResult(s, min, max, policy) == Parsed(x)
  {
    var sign, digits :| IsMadeOf(s, sign, digits, []) && x == Negated(sign == [45], Value(digits));
    SignedMeaning(s, sign, digits, [], min, max, policy);
  }

  lemma RealIsRead(s: Text, x: real, min: int, max: nat)
    requires IsReal(s, x, min, max) && min <= -9 && 9 <= max
    ensures Floats.PartsOf(s, min, max).Result() == Floats.Number(x)
  {
    var d: Floats.Decimal :| d.Valid() && s == d.sign + d.Unsigned() && x == d.Number()
      && min <= d.exponent.Denotes() <= max && 0 <= d.exponent.Denotes() + max;
    Floats.DecimalRightIff(d, min, max);
  }

  /** Main result: a text that stands for a value of the target is read as that value, under every policy. */
  lemma StandsForIsRead(s: Text, t: Target, cell: Cell, policy: OverflowPolicy)
    requires t.Valid() && StandsFor(s, t, cell)
    ensures CellOf(s, t, policy) == Good(cell)
  {
    match t
    case UnsignedTarget(max) => UnsignedIsRead(s, max, policy);
    case SignedTarget(min, max) => SignedIsRead(s, cell.x, min, max, policy);
    case RealTarget(min, max) => RealIsRead(s, cell.r, min, max);
    case _ =>
  }

  lemma IsIntegerOf(s: Text, sign: Text, digits: Text, x: int)
    requires s == sign + digits && IsSign(sign) && AllDigits(digits) && x == Negated(sign == [45], Value(digits))
    ensures IsInteger(s, x)
  {
    assert digits + [] == digits;
    assert IsMadeOf(s, sign, digits, []);
  }

  /** A printed number stands for itself. */
  lemma PrintStandsFor(n: int, min: int, max: nat)
    requires min <= n <= max
    ensures StandsFor(Print(n), SignedTarget(min, max), IntCell(n))
    ensures 0 <= n ==> StandsFor(Print(n), UnsignedTarget(max), IntCell(n))
  {
    var magnitude := if n < 0 then -n else n;
    var digits := PrintNat(magnitude);
    PrintedValue(magnitude);
    IsIntegerOf(Print(n), if n < 0 then [45] else [], digits, n);
  }

  /** Which texts are refused as a character, and as a floating-point number. */
  lemma RefusedIff(s: Text, t: Target, policy: OverflowPolicy)
    requires t.Valid()
    ensures CellOf(s, t, policy) == NotASingleCharacter <==> t.CharTarget? && |s| != 1
    ensures t.TextTarget? || t.CharTarget? ==> CellOf(s, t, policy) in {Good(TextCell(s)), NotASingleCharacter}
                                               || (|s| == 1 && CellOf(s, t, policy) == Good(CharCell(s[0])))
    ensures t.RealTarget? ==>
      (CellOf(s, t, policy) == NotANumber <==> !exists d, junk :: Floats.IsWritten(s, d, junk, t.min, t.max))
  {
    if t.RealTarget? {
      Floats.NotANumberIff(s, t.min, t.max);
    }
  }

  /** Which texts are refused as an integer, and why: a number that the type does not hold is reported as that
      by the policy that throws, whatever stands behind its digits; otherwise anything there is an error. */
  lemma IntegerRefusedIff(s: Text, sign: Text, digits: Text, rest: Text, t: Target, policy: OverflowPolicy)
    requires t.Valid() && (t.SignedTarget? || t.UnsignedTarget?) && IsMadeOf(s, sign, digits, rest)
    requires t.UnsignedTarget? ==> sign == []
    ensures var x := Negated(sign == [45], Value(digits));
      var (small, great) := (t.SignedTarget? && x < t.min, x > t.max);
      && (CellOf(s, t, policy) == Underflow <==> small && policy == ThrowOnOverflow)
      && (CellOf(s, t, policy) == Overflow <==> great && policy == ThrowOnOverflow)
      && (CellOf(s, t, policy) == NotANumber <==> rest != [] && !small && !great)
  {
    if t.SignedTarget? {
      SignedMeaning(s, sign, digits, rest, t.min, t.max, policy);
    } else {
      UnsignedMeaning(s, digits, rest, t.max, policy);
    }
  }

  /** A sign is no part of an unsigned number. */
  lemma UnsignedRefusesSign(s: Text, max: nat, policy: OverflowPolicy)
    requires 9 <= max && s != [] && (s[0] == 43 || s[0] == 45)
    ensures CellOf(s, UnsignedTarget(max), policy) == NotANumber
  {
    assert s == [] + s;
    UnsignedMeaning(s, [], s, max, policy);
  }

  // ----- tables of values, written and read -----

  /** The cells of a row stand for values of the targets of the columns that are requested. */
  ghost predicate RowStandsFor(header: seq<Text>, cells: seq<Text>, values: seq<Cell>, names: seq<Text>,
                               targets: seq<Target>) {
    && |cells| == |values| == |header| && |targets| == |names|
    && forall j, k :: 0 <= j < |header| && 0 <= k < |names| && header[j] == names[k] ==>
         StandsFor(cells[j], targets[k], values[j])
  }

  ghost predicate TableStandsFor(header: seq<Text>, table: seq<seq<Text>>, values: seq<seq<Cell>>,
                                 names: seq<Text>, targets: seq<Target>) {
    |values| == |table| &&
    forall i :: 0 <= i < |table| ==> RowStandsFor(header, table[i], values[i], names, targets)
  }

  /** The values of a row under their headers; a column that is not there leaves its variable alone. */
  ghost predicate ValuesUnder(header: seq<Text>, values: seq<Cell>, names: seq<Text>,
                              before: seq<Cell>, after: seq<Cell>) {
    && |values| == |header| && |before| == |after| == |names|
    && (forall j, k :: 0 <= j < |header| && 0 <= k < |names| && header[j] == names[k] ==> after[k] == values[j])
    && (forall k :: 0 <= k < |names| && names[k] !in header ==> after[k] == before[k])
  }

  /** The cell under a header is good for its variable. */
  lemma CellUnderHeader(header: seq<Text>, cells: seq<Text>, values: seq<Cell>, names: seq<Text>,
                        targets: seq<Target>, row: Row, policy: OverflowPolicy, j: nat, k: nat)
    requires UnderHeaders(header, cells, names, row) && RowStandsFor(header, cells, values, names, targets)
    requires j < |header| && k < |names| && header[j] == names[k] && targets[k].Valid()
    ensures row[k].Some? && CellOf(row[k].value, targets[k], policy) == Good(values[j])
  {
    StandsForIsRead(cells[j], targets[k], values[j], policy);
  }

  /** Reads such a row into variables: none of its cells is refused. */
  method ReadValues(header: seq<Text>, ghost cells: seq<Text>, ghost values: seq<Cell>, names: seq<Text>, row: Row,
                    targets: seq<Target>, policy: OverflowPolicy, vars: seq<Cell>)
    returns (vars': seq<Cell>)
    requires UnderHeaders(header, cells, names, row) && RowStandsFor(header, cells, values, names, targets)
    requires |vars| == |names| && forall k :: 0 <= k < |targets| ==> targets[k].Valid()
    ensures ValuesUnder(header, values, names, vars, vars')
  {
    var error;
    vars', error := ParseCells(row, targets, policy, vars);
    if error.Some? {
      NoneIsRefused(header, cells, values, names, targets, row, policy, error.value.column);
    }
    forall j, k | 0 <= j < |header| && 0 <= k < |names| && header[j] == names[k]
      ensures vars'[k] == values[j]
    {
      CellUnderHeader(header, cells, values, names, targets, row, policy, j, k);
      assert AssignedTo(row[k], targets[k], policy, vars[k], vars'[k]);
    }
    forall k | 0 <= k < |names| && names[k] !in header
      ensures vars'[k] == vars[k]
    {
      assert AssignedTo(row[k], targets[k], policy, vars[k], vars'[k]);
    }
  }

  lemma NoneIsRefused(header: seq<Text>, cells: seq<Text>, values: seq<Cell>, names: seq<Text>,
                      targets: seq<Target>, row: Row, policy: OverflowPolicy, k: nat)
    requires UnderHeaders(header, cells, names, row) && RowStandsFor(header, cells, values, names, targets)
    requires k < |row| && row[k].Some? && targets[k].Valid()
    ensures CellOf(row[k].value, targets[k], policy).Good?
  {
    var j :| 0 <= j < |header| && header[j] == names[k];
    CellUnderHeader(header, cells, values, names, targets, row, policy, j, k);
  }

  /** Main result: a table whose cells stand for values, written in any way it can be written, read through
      the buffer and parsed into typed variables comes back: each requested column has the value under the
      header of its name. */
  method WriteThenReadValues(trims: set<Byte>, p: QuotePolicy, blockLen: nat, marked: bool, open: bool,
                             header: seq<Text>, headerLayout: Layout, table: seq<seq<Text>>, layouts: seq<Layout>,
                             ghost values: seq<seq<Cell>>, names: seq<Text>, ignore: IgnorePolicy,
                             targets: seq<Target>, policy: OverflowPolicy, vars: seq<Cell>)
    returns (rows: seq<seq<Cell>>)
    requires 2 <= blockLen && IsFile(trims, p, blockLen, marked, open, header, headerLayout, table, layouts)
    requires Acceptable(header, true, names, ignore) && Distinct(names)
    requires |vars| == |names| && forall k :: 0 <= k < |targets| ==> targets[k].Valid()
    requires TableStandsFor(header, table, values, names, targets)
    ensures |rows| == |table|
    ensures forall i :: 0 <= i < |table| ==> ValuesUnder(header, values[i], names, vars, rows[i])
  {
    ghost var tail;
    var result;
    result, tail := WriteThenRead(trims, p, blockLen, marked, open, header, headerLayout, table, layouts,
                                  names, ignore);
    rows := ReadAllValues(header, table, values, names, result, targets, policy, vars);
  }

  /** The loop over the rows. */
  method ReadAllValues(header: seq<Text>, ghost table: seq<seq<Text>>, ghost values: seq<seq<Cell>>,
                       names: seq<Text>, result: TableResult, targets: seq<Target>, policy: OverflowPolicy,
                       vars: seq<Cell>)
    returns (rows: seq<seq<Cell>>)
    requires HoldsTable(header, table, names, result) && TableStandsFor(header, table, values, names, targets)
    requires |vars| == |names| && forall k :: 0 <= k < |targets| ==> targets[k].Valid()
    ensures |rows| == |table|
    ensures forall i :: 0 <= i < |table| ==> ValuesUnder(header, values[i], names, vars, rows[i])
  {
    rows := [];
    for i := 0 to |result.rows|
      invariant |rows| == i
      invariant forall n :: 0 <= n < i ==> ValuesUnder(header, values[n], names, vars, rows[n])
    {
      assert UnderHeaders(header, table[i], names, result.rows[i]);
      assert RowStandsFor(header, table[i], values[i], names, targets);
      var row := ReadValues(header, table[i], values[i], names, result.rows[i], targets, policy, vars);
      rows := rows + [row];
    }
  }
}
