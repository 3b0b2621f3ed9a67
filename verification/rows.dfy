/**
 Rows, on plain byte sequences: how a line falls into columns, when parsing a line succeeds, and
 what a quoted row reads back as.
 */
module Rows {
  import opened Bytes
  import opened Quoting

  /** The raw columns of a line, and whether the last one ends outside quotes. An unclosed last
      column is not among the columns. */
  datatype Columns = Columns(cols: seq<Text>, closed: bool)

  function RawColumns(p: QuotePolicy, text: Text): Columns
    decreases |text|
  {
    match ColumnEnd(p, text)
    case None => Columns([], false)
    case Some(e) =>
      EndInRange(p, text, 0, false);
      if e == |text| then Columns([text], true)
      else
        var r := RawColumns(p, text[e + 1..]);
        Columns([text[..e]] + r.cols, r.closed)
  }

  lemma EndInRange(p: QuotePolicy, s: Text, k: nat, open: bool)
    requires k <= |s|
    ensures EndFrom(p, s, k, open).Some? ==> k <= EndFrom(p, s, k, open).value <= |s|
    ensures EndFrom(p, s, k, open).Some? && EndFrom(p, s, k, open).value < |s| ==>
      s[EndFrom(p, s, k, open).value] == p.sep
    decreases |s| - k
  {
  }

  function Join(sep: Byte, cols: seq<Text>): Text {
    if cols == [] then [] else if |cols| == 1 then cols[0] else cols[0] + [sep] + Join(sep, cols[1..])
  }

  /** Splitting a line into columns loses nothing. */
  lemma {:induction false} JoinRawColumns(p: QuotePolicy, text: Text)
    requires RawColumns(p, text).closed
    ensures RawColumns(p, text).cols != []
    ensures Join(p.sep, RawColumns(p, text).cols) == text
    decreases |text|
  {
    EndInRange(p, text, 0, false);
    var e := ColumnEnd(p, text).value;
    if e < |text| {
      var rest := text[e + 1..];
      JoinRawColumns(p, rest);
      var cols := RawColumns(p, rest).cols;
      assert ([text[..e]] + cols)[1..] == cols;
      assert text == text[..e] + [p.sep] + rest;
    }
  }

  /** How many separators of a text stand after an even number of quotes. */
  function Separators(p: QuotePolicy, s: Text): nat {
    if s == [] then 0
    else
      var init := s[..|s| - 1];
      Separators(p, init) + if s[|s| - 1] == p.sep && !Open(p, init) then 1 else 0
  }

  lemma {:induction false} QuotesConcat(p: QuotePolicy, a: Text, b: Text)
    ensures Quotes(p, a + b) == Quotes(p, a) + Quotes(p, b)
  {
    if b == [] {
      assert a + b == a;
    } else {
      QuotesConcat(p, a, b[..|b| - 1]);
      assert (a + b)[..|a + b| - 1] == a + b[..|b| - 1];
    }
  }

  lemma OpenConcat(p: QuotePolicy, a: Text, b: Text)
    requires !Open(p, a)
    ensures Open(p, a + b) <==> Open(p, b)
  {
    QuotesConcat(p, a, b);
  }

  /** Behind a text that ends outside quotes, separators count as they would alone. */
  lemma {:induction false} SeparatorsConcat(p: QuotePolicy, a: Text, b: Text)
    requires !Open(p, a)
    ensures Separators(p, a + b) == Separators(p, a) + Separators(p, b)
  {
    if b == [] {
      assert a + b == a;
    } else {
      var init := b[..|b| - 1];
      SeparatorsConcat(p, a, init);
      OpenConcat(p, a, init);
      InitOfConcat(a, b);
    }
  }

  lemma InitOfConcat(a: Text, b: Text)
    requires b != []
    ensures (a + b)[..|a + b| - 1] == a + b[..|b| - 1]
  {
  }

  /** No separator counts in a text in which each one is inside quotes. */
  lemma {:induction false} NoSeparators(p: QuotePolicy, s: Text)
    requires forall j :: 0 <= j < |s| && s[j] == p.sep ==> Open(p, s[..j])
    ensures Separators(p, s) == 0
  {
    if s != [] {
      var init := s[..|s| - 1];
      assert forall j :: 0 <= j < |init| ==> init[..j] == s[..j];
      NoSeparators(p, init);
    }
  }

  /** Counting across the separator behind a column. */
  lemma CountAcross(p: QuotePolicy, col: Text, rest: Text)
    requires !IsQuote(p, p.sep) && !Open(p, col) && Separators(p, col) == 0
    ensures Open(p, col + [p.sep] + rest) <==> Open(p, rest)
    ensures Separators(p, col + [p.sep] + rest) == 1 + Separators(p, rest)
  {
    var head := col + [p.sep];
    assert head[..|head| - 1] == col;
    QuotesConcat(p, head, rest);
    SeparatorsConcat(p, head, rest);
  }

  lemma ColumnIsPlain(p: QuotePolicy, text: Text, e: nat)
    requires IsColumnEnd(p, text, e)
    ensures !Open(p, text[..e]) && Separators(p, text[..e]) == 0
  {
    var col := text[..e];
    assert forall j :: 0 <= j < e ==> col[..j] == text[..j] && col[j] == text[j];
    NoSeparators(p, col);
  }

  /** A line has one more column than it has separators at even parity, and its last column is closed
      if and only if its quotes are balanced. */
  lemma {:induction false} ColumnCount(p: QuotePolicy, text: Text)
    requires !IsQuote(p, p.sep)
    ensures RawColumns(p, text).closed <==> !Open(p, text)
    ensures |RawColumns(p, text).cols| == Separators(p, text) + if Open(p, text) then 0 else 1
    decreases |text|
  {
    ScanIsParity(p, text);
    match ColumnEnd(p, text)
    case None =>
      NoSeparators(p, text);
    case Some(e) =>
      ColumnIsPlain(p, text, e);
      if e < |text| {
        ColumnCount(p, text[e + 1..]);
        CountAcross(p, text[..e], text[e + 1..]);
        assert text == text[..e] + [p.sep] + text[e + 1..];
      } else {
        assert text[..e] == text;
      }
  }

  // ----- parsing a line -----

  datatype RowOutcome = Parsed | TooFewColumns | TooManyColumns | EscapedStringNotClosed

  /** What parsing a line for `n` columns reports. */
  function LineOutcome(c: Columns, n: nat): RowOutcome {
    if n < |c.cols| || (n == |c.cols| && !c.closed) then TooManyColumns
    else if n == |c.cols| then Parsed
    else if c.closed then TooFewColumns
    else EscapedStringNotClosed
  }

  /** Main result: a line with balanced quotes parses exactly when it has as many columns as are
      wanted, and the error says which way it misses; unbalanced quotes are reported only when the
      columns before them do not already fill the row. */
  lemma ParsesIffCountMatches(p: QuotePolicy, text: Text, n: nat)
    requires !IsQuote(p, p.sep)
    ensures var (o, k) := (LineOutcome(RawColumns(p, text), n), Separators(p, text) + 1);
      && (o == Parsed <==> !Open(p, text) && n == k)
      && (o == TooFewColumns <==> !Open(p, text) && k < n)
      && (o == EscapedStringNotClosed <==> Open(p, text) && k <= n)
      && (o == TooManyColumns <==> n < k)
  {
    ColumnCount(p, text);
  }

  // ----- the cells of a row -----

  /** The content that each slot gets when column `i` feeds slot `order[i]`, or none if that is -1. */
  function Cells(order: seq<int>, fields: seq<Text>): map<int, Text>
    requires |order| == |fields|
  {
    if order == [] then map[]
    else
      var n := |order| - 1;
      var m := Cells(order[..n], fields[..n]);
      if order[n] == -1 then m else m[order[n] := fields[n]]
  }

  lemma CellsAppend(order: seq<int>, fields: seq<Text>, slot: int, field: Text)
    requires |order| == |fields|
    ensures Cells(order + [slot], fields + [field])
      == if slot == -1 then Cells(order, fields) else Cells(order, fields)[slot := field]
  {
    assert (order + [slot])[..|order|] == order && (fields + [field])[..|fields|] == fields;
  }

  /** A slot has content if and only if a column feeds it. */
  lemma {:induction false} CellsKeys(order: seq<int>, fields: seq<Text>)
    requires |order| == |fields|
    ensures forall s :: s in Cells(order, fields) <==> s != -1 && s in order
  {
    if order != [] {
      var n := |order| - 1;
      CellsKeys(order[..n], fields[..n]);
      assert order == order[..n] + [order[n]];
    }
  }

  /** A slot holds the content of the last column that feeds it. */
  lemma {:induction false} CellsMeaning(order: seq<int>, fields: seq<Text>, k: nat)
    requires |order| == |fields| && k < |order| && order[k] != -1
    requires forall j :: k < j < |order| ==> order[j] != order[k]
    ensures order[k] in Cells(order, fields) && Cells(order, fields)[order[k]] == fields[k]
  {
    var n := |order| - 1;
    if k < n {
      CellsMeaning(order[..n], fields[..n], k);
    }
  }

  // ----- writing a row -----

  /** The contents of the columns of a line. */
  function Fields(trims: set<Byte>, p: QuotePolicy, cols: seq<Text>): (r: seq<Text>)
    ensures |r| == |cols|
    ensures forall i :: 0 <= i < |cols| ==> r[i] == Field(trims, p, cols[i])
  {
    if cols == [] then [] else [Field(trims, p, cols[0])] + Fields(trims, p, cols[1..])
  }

  /** The columns that a writer makes of the cells of a row. */
  function SpellAll(p: QuotePolicy, cells: seq<Text>, sps: seq<Spelling>): (r: seq<Text>)
    requires |sps| == |cells|
    ensures |r| == |cells|
    ensures forall i :: 0 <= i < |cells| ==> r[i] == Spelled(p, cells[i], sps[i])
  {
    if cells == [] then [] else [Spelled(p, cells[0], sps[0])] + SpellAll(p, cells[1..], sps[1..])
  }

  /** A row as a writer puts it: its cells, each written in its own way, joined by the separator. */
  function WrittenRow(p: QuotePolicy, cells: seq<Text>, sps: seq<Spelling>): Text
    requires |sps| == |cells|
  {
    Join(p.sep, SpellAll(p, cells, sps))
  }

  ghost predicate CanSpellAll(trims: set<Byte>, p: QuotePolicy, cells: seq<Text>, sps: seq<Spelling>) {
    |sps| == |cells| && forall i :: 0 <= i < |cells| ==> CanSpell(trims, p, cells[i], sps[i])
  }

  lemma RawColumnsStep(p: QuotePolicy, text: Text, head: Text, rest: Text, cols: seq<Text>)
    requires text == head + ([p.sep] + rest) && ColumnEnd(p, text) == Some(|head|)
    requires RawColumns(p, rest) == Columns(cols, true)
    ensures RawColumns(p, text) == Columns([head] + cols, true)
  {
    assert text[..|head|] == head && text[|head| + 1..] == rest;
  }

  lemma JoinStep(sep: Byte, head: Text, more: seq<Text>)
    requires more != []
    ensures Join(sep, [head] + more) == head + ([sep] + Join(sep, more))
  {
    assert ([head] + more)[1..] == more;
    ConcatStep(head, sep, Join(sep, more));
  }

  lemma WrittenRowStep(p: QuotePolicy, cells: seq<Text>, sps: seq<Spelling>, head: Text)
    requires |sps| == |cells| > 1 && head == Spelled(p, cells[0], sps[0])
    ensures WrittenRow(p, cells, sps) == head + ([p.sep] + WrittenRow(p, cells[1..], sps[1..]))
    ensures SpellAll(p, cells, sps) == [head] + SpellAll(p, cells[1..], sps[1..])
  {
    JoinStep(p.sep, head, SpellAll(p, cells[1..], sps[1..]));
  }

  lemma CanSpellRest(trims: set<Byte>, p: QuotePolicy, cells: seq<Text>, sps: seq<Spelling>)
    requires CanSpellAll(trims, p, cells, sps) && cells != []
    ensures CanSpell(trims, p, cells[0], sps[0]) && CanSpellAll(trims, p, cells[1..], sps[1..])
  {
  }

  lemma WrittenRowOfOne(p: QuotePolicy, cells: seq<Text>, sps: seq<Spelling>)
    requires |sps| == |cells| == 1
    ensures WrittenRow(p, cells, sps) == Spelled(p, cells[0], sps[0]) + []
    ensures SpellAll(p, cells, sps) == [WrittenRow(p, cells, sps)]
  {
  }

  lemma {:induction false} RawColumnsOfWritten(trims: set<Byte>, p: QuotePolicy, cells: seq<Text>, sps: seq<Spelling>)
    requires CanSpellAll(trims, p, cells, sps) && cells != []
    ensures RawColumns(p, WrittenRow(p, cells, sps)) == Columns(SpellAll(p, cells, sps), true)
  {
    var head := Spelled(p, cells[0], sps[0]);
    CanSpellRest(trims, p, cells, sps);
    if |cells| == 1 {
      WrittenRowOfOne(p, cells, sps);
      ColumnEndOfSpelled(trims, p, cells[0], sps[0], []);
    } else {
      var rest, more := WrittenRow(p, cells[1..], sps[1..]), SpellAll(p, cells[1..], sps[1..]);
      RawColumnsOfWritten(trims, p, cells[1..], sps[1..]);
      WrittenRowStep(p, cells, sps, head);
      ColumnEndOfSpelled(trims, p, cells[0], sps[0], [p.sep] + rest);
      RawColumnsStep(p, WrittenRow(p, cells, sps), head, rest, more);
    }
  }

  lemma FieldsOfWritten(trims: set<Byte>, p: QuotePolicy, cells: seq<Text>, sps: seq<Spelling>)
    requires CanSpellAll(trims, p, cells, sps)
    ensures Fields(trims, p, SpellAll(p, cells, sps)) == cells
  {
    forall i | 0 <= i < |cells|
      ensures Field(trims, p, SpellAll(p, cells, sps)[i]) == cells[i]
    {
      FieldOfSpelled(trims, p, cells[i], sps[i]);
    }
  }

  /** Main result: every non-empty row reads back, in whatever way each of its cells is written; between
      quotes a cell may hold any bytes. */
  lemma RowRoundTrip(trims: set<Byte>, p: QuotePolicy, cells: seq<Text>, sps: seq<Spelling>)
    requires CanSpellAll(trims, p, cells, sps) && cells != []
    ensures var c := RawColumns(p, WrittenRow(p, cells, sps));
      c.closed && Fields(trims, p, c.cols) == cells
    ensures forall n: nat :: LineOutcome(RawColumns(p, WrittenRow(p, cells, sps)), n) == Parsed <==> n == |cells|
  {
    RawColumnsOfWritten(trims, p, cells, sps);
    FieldsOfWritten(trims, p, cells, sps);
  }
}
