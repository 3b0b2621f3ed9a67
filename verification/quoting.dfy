/**
 Columns of one line, on plain byte sequences: where a column ends, what trimming and unescaping
 make of it, and the quoted form that a writer produces.
 */
module Quoting {
  import opened Bytes

  /** The two quote policies, with their template arguments. */
  datatype QuotePolicy =
    | NoQuoteEscape(sep: Byte)
    | DoubleQuoteEscape(sep: Byte, quote: Byte)

  predicate IsQuote(p: QuotePolicy, c: Byte) {
    p.DoubleQuoteEscape? && c == p.quote
  }

  // ----- where a column ends -----

  /** The scan of a column from index `k`, inside quotes or not: the index at which it stops, or None
      when the text ends inside quotes. */
  function EndFrom(p: QuotePolicy, s: Text, k: nat, open: bool): Option<nat>
    requires k <= |s|
    decreases |s| - k
  {
    if k == |s| then (if open then None else Some(k))
    else if !open && s[k] == p.sep then Some(k)
    else EndFrom(p, s, k + 1, if IsQuote(p, s[k]) then !open else open)
  }

  function ColumnEnd(p: QuotePolicy, s: Text): Option<nat> {
    EndFrom(p, s, 0, false)
  }

  /** How many quotes a text holds. */
  function Quotes(p: QuotePolicy, s: Text): nat {
    if s == [] then 0 else Quotes(p, s[..|s| - 1]) + if IsQuote(p, s[|s| - 1]) then 1 else 0
  }

  /** A text that ends inside quotes. */
  predicate Open(p: QuotePolicy, s: Text) {
    Quotes(p, s) % 2 == 1
  }

  /** Index `e` is the first at which the text ends or a separator stands after an even number of
      quotes. */
  ghost predicate IsColumnEnd(p: QuotePolicy, s: Text, e: nat) {
    && e <= |s| && !Open(p, s[..e])
    && (e == |s| || s[e] == p.sep)
    && (forall j :: 0 <= j < e && s[j] == p.sep ==> Open(p, s[..j]))
  }

  /** The text ends inside quotes, and so does it before every separator. */
  ghost predicate Unclosed(p: QuotePolicy, s: Text) {
    && Open(p, s)
    && (forall j :: 0 <= j < |s| && s[j] == p.sep ==> Open(p, s[..j]))
  }

  lemma QuotesStep(p: QuotePolicy, s: Text, k: nat)
    requires k < |s|
    ensures Quotes(p, s[..k + 1]) == Quotes(p, s[..k]) + if IsQuote(p, s[k]) then 1 else 0
  {
    assert s[..k + 1][..k] == s[..k];
  }

  lemma {:induction false} EndFromMeaning(p: QuotePolicy, s: Text, k: nat, open: bool)
    requires k <= |s| && open == Open(p, s[..k])
    requires forall j :: 0 <= j < k && s[j] == p.sep ==> Open(p, s[..j])
    ensures match EndFrom(p, s, k, open)
      case Some(e) => k <= e && IsColumnEnd(p, s, e)
      case None => Unclosed(p, s)
    decreases |s| - k
  {
    if k == |s| {
      assert s[..k] == s;
    } else if open || s[k] != p.sep {
      QuotesStep(p, s, k);
      EndFromMeaning(p, s, k + 1, if IsQuote(p, s[k]) then !open else open);
    }
  }

  /** Main result: the scan stops at the first separator or NUL that has an even number of quotes
      before it, and fails exactly when the text ends at odd parity with no such place before. */
  lemma ScanIsParity(p: QuotePolicy, s: Text)
    ensures forall e: nat :: ColumnEnd(p, s) == Some(e) <==> IsColumnEnd(p, s, e)
    ensures ColumnEnd(p, s) == None <==> Unclosed(p, s)
  {
    assert s[..0] == [] && s[..|s|] == s;
    EndFromMeaning(p, s, 0, false);
    forall e: nat | IsColumnEnd(p, s, e)
      ensures ColumnEnd(p, s) == Some(e)
    {
      EndIsReached(p, s, e, 0, false);
    }
  }

  lemma {:induction false} EndIsReached(p: QuotePolicy, s: Text, e: nat, k: nat, open: bool)
    requires IsColumnEnd(p, s, e) && k <= e && open == Open(p, s[..k])
    ensures EndFrom(p, s, k, open) == Some(e)
    decreases e - k
  {
    if k < e {
      QuotesStep(p, s, k);
      EndIsReached(p, s, e, k + 1, if IsQuote(p, s[k]) then !open else open);
    }
  }

  // ----- trimming -----

  function TrimStart(trims: set<Byte>, s: Text): Text {
    if s != [] && s[0] in trims then TrimStart(trims, s[1..]) else s
  }

  function TrimEnd(trims: set<Byte>, s: Text): Text {
    if s != [] && s[|s| - 1] in trims then TrimEnd(trims, s[..|s| - 1]) else s
  }

  function Trim(trims: set<Byte>, s: Text): Text {
    TrimEnd(trims, TrimStart(trims, s))
  }

  ghost predicate AllIn(trims: set<Byte>, s: Text) {
    forall i :: 0 <= i < |s| ==> s[i] in trims
  }

  /** `t` is `s` without trim characters at either end, and no shorter. */
  ghost predicate IsTrimmed(trims: set<Byte>, s: Text, t: Text) {
    && (t != [] ==> t[0] !in trims && t[|t| - 1] !in trims)
    && exists i: nat, j: nat :: i <= j <= |s| && s[i..j] == t && AllIn(trims, s[..i]) && AllIn(trims, s[j..])
  }

  lemma {:induction false} TrimStartDrops(trims: set<Byte>, s: Text) returns (i: nat)
    ensures i <= |s| && TrimStart(trims, s) == s[i..] && AllIn(trims, s[..i])
    ensures i < |s| ==> s[i] !in trims
  {
    i := 0;
    if s != [] && s[0] in trims {
      var k := TrimStartDrops(trims, s[1..]);
      i := k + 1;
      assert s[..i] == [s[0]] + s[1..][..k];
    }
  }

  lemma {:induction false} TrimEndDrops(trims: set<Byte>, s: Text) returns (j: nat)
    ensures j <= |s| && TrimEnd(trims, s) == s[..j] && AllIn(trims, s[j..])
    ensures 0 < j ==> s[j - 1] !in trims
  {
    j := |s|;
    if s != [] && s[|s| - 1] in trims {
      j := TrimEndDrops(trims, s[..|s| - 1]);
      assert s[j..] == s[..|s| - 1][j..] + [s[|s| - 1]];
      assert s[..|s| - 1][..j] == s[..j];
    }
  }

  lemma TrimIsTrimmed(trims: set<Byte>, s: Text)
    ensures IsTrimmed(trims, s, Trim(trims, s))
  {
    var i := TrimStartDrops(trims, s);
    var j := TrimEndDrops(trims, s[i..]);
    assert s[i..][..j] == s[i..i + j];
    assert s[i..][j..] == s[i + j..];
    assert s[i..i + j] == Trim(trims, s) && AllIn(trims, s[..i]) && AllIn(trims, s[i + j..]);
    if j > 0 {
      assert Trim(trims, s)[0] == s[i];
    }
  }

  /** A text that neither begins nor ends with a trim character. */
  predicate IsBare(trims: set<Byte>, s: Text) {
    s != [] ==> s[0] !in trims && s[|s| - 1] !in trims
  }

  lemma {:induction false} TrimStartOfPadded(trims: set<Byte>, before: Text, s: Text)
    requires AllIn(trims, before) && (s != [] ==> s[0] !in trims)
    ensures TrimStart(trims, before + s) == s
  {
    if before == [] {
      assert before + s == s;
    } else {
      assert (before + s)[1..] == before[1..] + s;
      TrimStartOfPadded(trims, before[1..], s);
    }
  }

  lemma {:induction false} TrimEndOfPadded(trims: set<Byte>, s: Text, after: Text)
    requires AllIn(trims, after) && (s != [] ==> s[|s| - 1] !in trims)
    ensures TrimEnd(trims, s + after) == s
  {
    if after == [] {
      assert s + after == s;
    } else {
      var n := |after| - 1;
      assert (s + after)[..|s + after| - 1] == s + after[..n];
      TrimEndOfPadded(trims, s, after[..n]);
    }
  }

  lemma {:induction false} TrimStartOfAll(trims: set<Byte>, s: Text)
    requires AllIn(trims, s)
    ensures TrimStart(trims, s) == []
  {
    if s != [] {
      TrimStartOfAll(trims, s[1..]);
    }
  }

  /** Trimming undoes padding, whatever trim characters that is made of. */
  lemma TrimOfPadded(trims: set<Byte>, before: Text, s: Text, after: Text)
    requires AllIn(trims, before) && AllIn(trims, after) && IsBare(trims, s)
    ensures Trim(trims, before + s + after) == s
  {
    if s == [] {
      TrimStartOfAll(trims, before + s + after);
    } else {
      assert before + s + after == before + (s + after);
      TrimStartOfPadded(trims, before, s + after);
      TrimEndOfPadded(trims, s, after);
    }
  }

  // ----- unescaping -----

  /** Drops one of every two adjacent quotes. */
  function Undouble(q: Byte, s: Text): (r: Text)
    ensures |r| <= |s|
  {
    if s == [] then []
    else if s[0] == q && |s| > 1 && s[1] == q then [q] + Undouble(q, s[2..])
    else [s[0]] + Undouble(q, s[1..])
  }

  /** Writes every quote twice. */
  function Double(q: Byte, s: Text): Text {
    if s == [] then []
    else (if s[0] == q then [q, q] else [s[0]]) + Double(q, s[1..])
  }

  function Unescape(p: QuotePolicy, s: Text): Text {
    if p.DoubleQuoteEscape? && |s| >= 2 && s[0] == p.quote && s[|s| - 1] == p.quote then
      Undouble(p.quote, s[1..|s| - 1])
    else s
  }

  /** The quoted form of a cell (RFC 4180, section 2, items 5 to 7). */
  function Quoted(q: Byte, s: Text): Text {
    [q] + Double(q, s) + [q]
  }

  lemma {:induction false} UndoubleDouble(q: Byte, s: Text)
    ensures Undouble(q, Double(q, s)) == s
  {
    if s != [] {
      UndoubleDouble(q, s[1..]);
      if s[0] == q {
        assert Double(q, s)[2..] == Double(q, s[1..]);
      } else {
        assert Double(q, s)[1..] == Double(q, s[1..]);
      }
    }
  }

  /** Main result: unescaping inverts quoting. */
  lemma UnescapeQuoted(p: QuotePolicy, s: Text)
    requires p.DoubleQuoteEscape?
    ensures Unescape(p, Quoted(p.quote, s)) == s
  {
    var t := Quoted(p.quote, s);
    assert t[1..|t| - 1] == Double(p.quote, s);
    UndoubleDouble(p.quote, s);
  }

  /** Every quote is one of an adjacent pair. */
  predicate IsDoubled(q: Byte, s: Text) {
    if s == [] then true
    else if s[0] != q then IsDoubled(q, s[1..])
    else |s| > 1 && s[1] == q && IsDoubled(q, s[2..])
  }

  /** Quoting gives back exactly the texts in which every quote was doubled. */
  lemma {:induction false} DoubleUndouble(q: Byte, s: Text)
    ensures Double(q, Undouble(q, s)) == s <==> IsDoubled(q, s)
    ensures |s| <= |Double(q, Undouble(q, s))|
  {
    if s != [] {
      var step := if s[0] == q && |s| > 1 && s[1] == q then 2 else 1;
      var rest := Undouble(q, s[step..]);
      DoubleUndouble(q, s[step..]);
      assert ([s[0]] + rest)[1..] == rest;
      var d := Double(q, [s[0]] + rest);
      if step == 2 {
        assert d == [q, q] + Double(q, rest);
        assert s == [q, q] + s[2..];
        assert d[2..] == Double(q, rest);
      } else if s[0] != q {
        assert s == [s[0]] + s[1..];
        assert d[1..] == Double(q, rest);
      } else {
        assert |d| == 2 + |Double(q, rest)| > |s|;
      }
    }
  }

  /** A column that is not between quotes is left as it is; one that is loses these, and one of every two
      adjacent quotes between them. */
  lemma UnescapeMeaning(p: QuotePolicy, s: Text)
    ensures (p.NoQuoteEscape? || !exists t: Text :: s == [p.quote] + t + [p.quote]) ==> Unescape(p, s) == s
    ensures p.DoubleQuoteEscape? ==>
      forall t: Text :: s == [p.quote] + t + [p.quote] ==> Unescape(p, s) == Undouble(p.quote, t)
  {
    if p.DoubleQuoteEscape? {
      if |s| >= 2 && s[0] == p.quote && s[|s| - 1] == p.quote {
        assert s == [p.quote] + s[1..|s| - 1] + [p.quote];
      }
      forall t: Text | s == [p.quote] + t + [p.quote]
        ensures Unescape(p, s) == Undouble(p.quote, t)
      {
        assert s[1..|s| - 1] == t && s[|s| - 1] == p.quote;
      }
    }
  }

  function Repeated(b: Byte, n: nat): Text {
    if n == 0 then [] else [b] + Repeated(b, n - 1)
  }

  lemma UndoublePair(q: Byte, rest: Text)
    ensures Undouble(q, [q, q] + rest) == [q] + Undouble(q, rest)
  {
    assert ([q, q] + rest)[2..] == rest;
  }

  lemma UndoubleSingle(q: Byte, rest: Text)
    requires rest != [] ==> rest[0] != q
    ensures Undouble(q, [q] + rest) == [q] + Undouble(q, rest)
  {
    assert ([q] + rest)[1..] == rest;
  }

  lemma UndoubleMore(q: Byte, run: Text, left: Text, rest: Text)
    requires Undouble(q, run + rest) == left + Undouble(q, rest)
    ensures Undouble(q, [q] + ([q] + run) + rest) == [q] + left + Undouble(q, rest)
  {
    assert [q] + ([q] + run) + rest == [q, q] + (run + rest);
    UndoublePair(q, run + rest);
    assert [q] + (left + Undouble(q, rest)) == [q] + left + Undouble(q, rest);
  }

  /** Of `n` quotes in a row half are left, and one more if their number is odd; all other bytes stay. */
  lemma {:induction false} UndoubleRun(q: Byte, n: nat, rest: Text)
    requires rest != [] ==> rest[0] != q
    ensures Undouble(q, Repeated(q, n) + rest) == Repeated(q, (n + 1) / 2) + Undouble(q, rest)
  {
    if n == 0 {
      assert [] + rest == rest && [] + Undouble(q, rest) == Undouble(q, rest);
    } else if n == 1 {
      assert Repeated(q, 1) == [q] + Repeated(q, 0) == [q];
      UndoubleSingle(q, rest);
    } else {
      UndoubleRun(q, n - 2, rest);
      UndoubleMore(q, Repeated(q, n - 2), Repeated(q, (n - 1) / 2), rest);
      assert Repeated(q, n) == [q] + ([q] + Repeated(q, n - 2));
      assert Repeated(q, (n + 1) / 2) == [q] + Repeated(q, (n - 1) / 2);
    }
  }

  lemma UndoubleOther(q: Byte, b: Byte, rest: Text)
    requires b != q
    ensures Undouble(q, [b] + rest) == [b] + Undouble(q, rest)
  {
    assert ([b] + rest)[1..] == rest;
  }

  /** The content of the column whose raw text is `raw`. */
  function Field(trims: set<Byte>, p: QuotePolicy, raw: Text): Text {
    Unescape(p, Trim(trims, raw))
  }

  // ----- cells as they can be written -----

  /** How a cell is written: what stands before and after it, and whether it is put between quotes. */
  datatype Spelling = Spelling(before: Text, quoted: bool, after: Text)

  function Spelled(p: QuotePolicy, cell: Text, sp: Spelling): Text {
    sp.before + (if sp.quoted && p.DoubleQuoteEscape? then Quoted(p.quote, cell) else cell) + sp.after
  }

  /** The cell can be written so: padding is made of trim characters; between quotes the cell may hold
      anything; outside it holds no separator and no quote, and nothing that would be trimmed. */
  ghost predicate CanSpell(trims: set<Byte>, p: QuotePolicy, cell: Text, sp: Spelling) {
    && AllIn(trims, sp.before) && AllIn(trims, sp.after) && p.sep !in sp.before && p.sep !in sp.after
    && (p.DoubleQuoteEscape? ==> p.quote != p.sep && p.quote !in trims)
    && (sp.quoted ==> p.DoubleQuoteEscape?)
    && (!sp.quoted ==>
          p.sep !in cell && IsBare(trims, cell) && (p.DoubleQuoteEscape? ==> p.quote !in cell))
  }

  /** Main result: however a cell is written, its column reads back as the cell. */
  lemma FieldOfSpelled(trims: set<Byte>, p: QuotePolicy, cell: Text, sp: Spelling)
    requires CanSpell(trims, p, cell, sp)
    ensures Field(trims, p, Spelled(p, cell, sp)) == cell
  {
    if sp.quoted {
      TrimOfPadded(trims, sp.before, Quoted(p.quote, cell), sp.after);
      UnescapeQuoted(p, cell);
    } else {
      TrimOfPadded(trims, sp.before, cell, sp.after);
    }
  }

  /** The scan passes over bytes that are neither separators nor quotes. */
  lemma {:induction false} ScanPassesPlain(p: QuotePolicy, s: Text, k: nat, e: nat)
    requires k <= e <= |s| && forall i :: k <= i < e ==> s[i] != p.sep && !IsQuote(p, s[i])
    ensures EndFrom(p, s, k, false) == EndFrom(p, s, e, false)
    decreases e - k
  {
    if k < e {
      ScanPassesPlain(p, s, k + 1, e);
    }
  }

  /** The scan passes over doubled text and stays inside the quotes. */
  lemma {:induction false} ScanPassesDoubled(p: QuotePolicy, s: Text, k: nat, cell: Text)
    requires p.DoubleQuoteEscape? && p.quote != p.sep
    requires k + |Double(p.quote, cell)| <= |s|
    requires s[k..k + |Double(p.quote, cell)|] == Double(p.quote, cell)
    ensures EndFrom(p, s, k, true) == EndFrom(p, s, k + |Double(p.quote, cell)|, true)
    decreases |cell|
  {
    if cell != [] {
      var d := Double(p.quote, cell);
      var step := if cell[0] == p.quote then 2 else 1;
      assert d[step..] == Double(p.quote, cell[1..]);
      assert s[k..k + |d|][step..] == s[k + step..k + |d|];
      assert s[k] == d[0];
      if step == 2 {
        assert s[k + 1] == d[1];
      }
      ScanPassesDoubled(p, s, k + step, cell[1..]);
    }
  }

  lemma SliceOfSlice(s: Text, k: nat, n: nat, i: nat, j: nat)
    requires i <= j <= n && k + n <= |s|
    ensures s[k..k + n][i..j] == s[k + i..k + j]
  {
    var t := s[k..k + n];
    forall x | 0 <= x < j - i
      ensures t[i..j][x] == s[k + i..k + j][x]
    {
      assert t[i + x] == s[k + (i + x)];
    }
  }

  lemma ScanPassesQuoted(p: QuotePolicy, s: Text, k: nat, cell: Text)
    requires p.DoubleQuoteEscape? && p.quote != p.sep && k + |Quoted(p.quote, cell)| <= |s|
    requires s[k..k + |Quoted(p.quote, cell)|] == Quoted(p.quote, cell)
    ensures EndFrom(p, s, k, false) == EndFrom(p, s, k + |Quoted(p.quote, cell)|, false)
  {
    var d := Double(p.quote, cell);
    var t := s[k..k + (|d| + 2)];
    assert t[0] == p.quote && t[1..|d| + 1] == d && t[|d| + 1] == p.quote;
    assert s[k] == t[0] && s[k + 1 + |d|] == t[|d| + 1];
    SliceOfSlice(s, k, |d| + 2, 1, |d| + 1);
    ScanPassesDoubled(p, s, k + 1, cell);
  }

  /** The parts of a text that is put together of four. */
  lemma FourSlices(a: Text, b: Text, c: Text, d: Text, s: Text)
    requires s == a + b + c + d
    ensures s[0..|a|] == a
    ensures s[|a|..|a| + |b|] == b
    ensures s[|a| + |b|..|a| + |b| + |c|] == c
  {
  }

  lemma ScanPassesPadding(p: QuotePolicy, s: Text, k: nat, b: Text)
    requires k + |b| <= |s| && s[k..k + |b|] == b && p.sep !in b && (p.DoubleQuoteEscape? ==> p.quote !in b)
    ensures EndFrom(p, s, k, false) == EndFrom(p, s, k + |b|, false)
  {
    forall i | k <= i < k + |b|
      ensures s[i] != p.sep && !IsQuote(p, s[i])
    {
      assert s[i] == s[k..k + |b|][i - k] == b[i - k];
      assert b[i - k] in b;
    }
    ScanPassesPlain(p, s, k, k + |b|);
  }

  lemma ScanPassesBody(trims: set<Byte>, p: QuotePolicy, cell: Text, sp: Spelling, body: Text, s: Text, k: nat)
    requires CanSpell(trims, p, cell, sp) && body == if sp.quoted then Quoted(p.quote, cell) else cell
    requires k + |body| <= |s| && s[k..k + |body|] == body
    ensures EndFrom(p, s, k, false) == EndFrom(p, s, k + |body|, false)
  {
    if sp.quoted {
      ScanPassesQuoted(p, s, k, cell);
    } else {
      ScanPassesPadding(p, s, k, cell);
    }
  }

  lemma ScanPassesParts(trims: set<Byte>, p: QuotePolicy, cell: Text, sp: Spelling, body: Text, s: Text, i: nat, j: nat,
                        k: nat)
    requires CanSpell(trims, p, cell, sp) && body == if sp.quoted then Quoted(p.quote, cell) else cell
    requires i == |sp.before| && j == i + |body| && k == j + |sp.after| <= |s|
    requires s[0..i] == sp.before && s[i..j] == body && s[j..k] == sp.after
    ensures EndFrom(p, s, 0, false) == EndFrom(p, s, k, false)
  {
    ScanPassesPadding(p, s, 0, sp.before);
    ScanPassesBody(trims, p, cell, sp, body, s, i);
    ScanPassesPadding(p, s, j, sp.after);
  }

  lemma ScanPassesSpelled(trims: set<Byte>, p: QuotePolicy, cell: Text, sp: Spelling, s: Text, after: Text)
    requires CanSpell(trims, p, cell, sp) && s == Spelled(p, cell, sp) + after
    ensures EndFrom(p, s, 0, false) == EndFrom(p, s, |Spelled(p, cell, sp)|, false)
  {
    var body := if sp.quoted then Quoted(p.quote, cell) else cell;
    var i := |sp.before|;
    var j := i + |body|;
    FourSlices(sp.before, body, sp.after, after, s);
    ScanPassesParts(trims, p, cell, sp, body, s, i, j, j + |sp.after|);
  }

  /** Main result: the scan stops exactly at the end of a written cell that ends the text or is followed by
      a separator. */
  lemma ColumnEndOfSpelled(trims: set<Byte>, p: QuotePolicy, cell: Text, sp: Spelling, after: Text)
    requires CanSpell(trims, p, cell, sp) && (after == [] || after[0] == p.sep)
    ensures ColumnEnd(p, Spelled(p, cell, sp) + after) == Some(|Spelled(p, cell, sp)|)
  {
    var s := Spelled(p, cell, sp) + after;
    ScanPassesSpelled(trims, p, cell, sp, s, after);
    assert after != [] ==> s[|Spelled(p, cell, sp)|] == p.sep;
  }
}
