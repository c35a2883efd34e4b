/** Undoing the writer: a reader that keeps bare CRs as characters, neither trims nor drops,
    and so gets back every table from its print. */
module CsvInverse {
  import opened Sequences
  import opened Csv
  import opened CsvPrinter
  import opened CsvRecords
  import opened CsvRoundTrip
  import opened CsvText

  function EmitExact(c: char, d: char, q: Quoting): seq<Token> {
    if c == CR then [Ch(CR)] else Emit(c, d, q)
  }

  function LexExact(s: string, d: char, q: Quoting): seq<Token> {
    if s == [] then [] else EmitExact(s[0], d, q) + LexExact(s[1..], d, Next(s[0], q))
  }

  function Unprint(s: string, d: char): Table {
    Records(LexExact(s, d, Outside))
  }

  /** An empty row prints like a row with one empty cell, and the empty table like that row alone. */
  function FillRow(r: Row): (f: Row)
    ensures f != []
  {
    if r == [] then [""] else r
  }

  function Fill(t: Table): (f: Table)
    ensures f != []
  {
    if t == [] then [[""]]
    else if |t| == 1 then [FillRow(t[0])]
    else [FillRow(t[0])] + Fill(t[1..])
  }

  /** The tokens of a table with every CR a character. */
  function ExactTokens(t: Table): seq<Token> {
    if t == [] then []
    else if |t| == 1 then HardTokens(t[0])
    else HardTokens(t[0]) + [Eol] + ExactTokens(t[1..])
  }

  lemma {:induction false} ExactConcat(x: string, y: string, d: char, q: Quoting)
    ensures LexExact(x + y, d, q) == LexExact(x, d, q) + LexExact(y, d, End(x, q))
  {
    hide EmitExact, Next;
    if x == [] {
      assert x + y == y;
    } else {
      hide LexExact;
      ExactConcat(x[1..], y, d, Next(x[0], q));
      ConcatParts(x, y);
      ExactFirst(x, d, q);
      ExactFirst(x + y, d, q);
      LexFirst(x, d, q);
      ConcatAssociative(EmitExact(x[0], d, q), LexExact(x[1..], d, Next(x[0], q)), LexExact(y, d, End(x, q)));
    }
  }

  lemma ExactFirst(s: string, d: char, q: Quoting)
    requires s != []
    ensures LexExact(s, d, q) == EmitExact(s[0], d, q) + LexExact(s[1..], d, Next(s[0], q))
  {
  }

  lemma ExactOne(c: char, d: char, q: Quoting)
    ensures LexExact([c], d, q) == EmitExact(c, d, q)
  {
    assert [c][1..] == [];
  }

  lemma {:induction false} ExactDoubled(s: string, d: char)
    ensures LexExact(Doubled(s), d, Inside) == Chars(s)
  {
    if s == [] {
    } else {
      hide LexExact, End;
      hide Doubled;
      ExactDoubled(s[1..], d);
      ExactDoubledChar(s[0], d);
      DoubledFirst(s);
      ExactConcat(if s[0] == QUOTE then [QUOTE, QUOTE] else [s[0]], Doubled(s[1..]), d, Inside);
      assert Chars(s) == [Ch(s[0])] + Chars(s[1..]);
    }
  }

  lemma DoubledFirst(s: string)
    requires s != []
    ensures Doubled(s) == (if s[0] == QUOTE then [QUOTE, QUOTE] else [s[0]]) + Doubled(s[1..])
  {
  }

  lemma ExactDoubledChar(c: char, d: char)
    ensures var first := if c == QUOTE then [QUOTE, QUOTE] else [c];
            LexExact(first, d, Inside) == [Ch(c)] && End(first, Inside) == Inside
  {
    LexDoubledChar(c, d);
    ExactOne(c, d, Inside);
    if c == QUOTE {
      assert [QUOTE, QUOTE][1..] == [QUOTE];
      ExactOne(QUOTE, d, Closed);
    }
  }

  lemma {:induction false} ExactPlain(s: string, d: char)
    requires IsDelimiter(d) && !NeedsQuotes(s)
    ensures LexExact(s, d, Outside) == Chars(s)
  {
    if s == [] {
    } else {
      assert !Special(s[0]);
      forall i | 0 <= i < |s[1..]| ensures !Special(s[1..][i]) {
        assert s[1..][i] == s[i + 1];
      }
      ExactPlain(s[1..], d);
      assert Chars(s) == [Ch(s[0])] + Chars(s[1..]);
    }
  }

  lemma ExactEscape(cell: string, d: char)
    requires IsDelimiter(d)
    ensures LexExact(Escape(cell), d, Outside) == Chars(cell)
  {
    if NeedsQuotes(cell) {
      hide NeedsQuotes, Doubled, LexExact, End;
      LexDoubled(cell, d);
      ExactDoubled(cell, d);
      LexOne(QUOTE, d, Outside);
      ExactOne(QUOTE, d, Outside);
      ExactOne(QUOTE, d, Inside);
      ExactConcat([QUOTE], Doubled(cell), d, Outside);
      LexConcat([QUOTE], Doubled(cell), d, Outside);
      ExactConcat([QUOTE] + Doubled(cell), [QUOTE], d, Outside);
    } else {
      ExactPlain(cell, d);
    }
  }

  lemma {:induction false} ExactRow(r: Row, d: char)
    requires IsDelimiter(d)
    ensures LexExact(PrintRow(r, d), d, Outside) == HardTokens(r)
  {
    if r == [] {
    } else if |r| == 1 {
      ExactEscape(r[0], d);
    } else {
      hide LexExact, Escape, End;
      LexEscape(r[0], d);
      ExactEscape(r[0], d);
      ExactRow(r[1..], d);
      ExactOne(d, d, End(Escape(r[0]), Outside));
      LexOne(d, d, End(Escape(r[0]), Outside));
      ExactConcat(Escape(r[0]), [d], d, Outside);
      LexConcat(Escape(r[0]), [d], d, Outside);
      ExactConcat(Escape(r[0]) + [d], PrintRow(r[1..], d), d, Outside);
      assert HardRow(r)[1..] == HardRow(r[1..]);
    }
  }

  lemma {:induction false} ExactTable(t: Table, d: char)
    requires IsDelimiter(d)
    ensures LexExact(PrintTable(t, d), d, Outside) == ExactTokens(t)
  {
    if t == [] {
    } else if |t| == 1 {
      ExactRow(t[0], d);
    } else {
      hide LexExact, PrintRow, HardTokens, End;
      var row := PrintRow(t[0], d);
      LexRow(t[0], d, d);
      ExactRow(t[0], d);
      ExactTable(t[1..], d);
      ExactOne(LF, d, End(row, Outside));
      LexOne(LF, d, End(row, Outside));
      ExactConcat(row, [LF], d, Outside);
      LexConcat(row, [LF], d, Outside);
      ExactConcat(row + [LF], PrintTable(t[1..], d), d, Outside);
    }
  }

  lemma RecordsOfRow(r: Row)
    ensures Records(HardTokens(r)) == [FillRow(r)]
  {
    if r != [] {
      RecordsOfHardRow(r);
    }
  }

  lemma {:induction false} RecordsOfTable(t: Table)
    ensures Records(ExactTokens(t)) == Fill(t)
  {
    hide HardTokens, FillRow;
    if t == [] {
    } else if |t| == 1 {
      RecordsOfRow(t[0]);
    } else {
      RecordsOfRow(t[0]);
      RecordsOfTable(t[1..]);
      RecordsConcat(HardTokens(t[0]), ExactTokens(t[1..]));
    }
  }

  /** The writer can be undone: for every table, whatever CRs and white space its cells contain. */
  lemma UnprintPrint(t: Table, d: char)
    requires IsDelimiter(d)
    ensures Unprint(PrintTable(t, d), d) == Fill(t)
  {
    ExactTable(t, d);
    RecordsOfTable(t);
  }

  lemma {:induction false} PrintFilled(t: Table, d: char)
    ensures PrintTable(Fill(t), d) == PrintTable(t, d)
  {
    hide Escape;
    PrintFilledRow([], d);
    if t == [] {
    } else if |t| == 1 {
      PrintFilledRow(t[0], d);
    } else {
      PrintFilledRow(t[0], d);
      PrintFilled(t[1..], d);
      assert Fill(t)[0] == FillRow(t[0]) && Fill(t)[1..] == Fill(t[1..]);
    }
  }

  lemma PrintFilledRow(r: Row, d: char)
    ensures PrintRow(FillRow(r), d) == PrintRow(r, d)
    ensures PrintTable([FillRow(r)], d) == PrintRow(r, d)
  {
  }

  /** Two tables print alike exactly when they differ in empty rows standing for empty cells only. */
  lemma PrintsAlike(t: Table, u: Table, d: char)
    requires IsDelimiter(d)
    ensures PrintTable(t, d) == PrintTable(u, d) <==> Fill(t) == Fill(u)
  {
    UnprintPrint(t, d);
    UnprintPrint(u, d);
    PrintFilled(t, d);
    PrintFilled(u, d);
  }

  ghost predicate NoEmptyRows(t: Table) {
    forall k :: 0 <= k < |t| ==> t[k] != []
  }

  lemma {:induction false} FillsNothing(t: Table)
    requires NoEmptyRows(t)
    ensures Fill(t) == if t == [] then [[""]] else t
  {
    if |t| <= 1 {
    } else {
      FillsNothing(t[1..]);
    }
  }

  /** The writer loses nothing: different non-empty tables of non-empty rows print differently. */
  lemma PrintInjective(t: Table, u: Table, d: char)
    requires IsDelimiter(d) && t != [] && u != [] && NoEmptyRows(t) && NoEmptyRows(u)
    ensures PrintTable(t, d) == PrintTable(u, d) <==> t == u
  {
    PrintsAlike(t, u, d);
    FillsNothing(t);
    FillsNothing(u);
  }

  /** So do different tables of trimmed rows that are not blank, the empty table included. */
  lemma PrintInjectiveOnClean(t: Table, u: Table, d: char)
    requires IsDelimiter(d) && IsClean(t) && IsClean(u)
    ensures PrintTable(t, d) == PrintTable(u, d) <==> t == u
  {
    PrintsAlike(t, u, d);
    assert NoEmptyRows(t) && NoEmptyRows(u);
    assert Blank([""]);
    FillsNothing(t);
    FillsNothing(u);
  }

  /** A download starts with the byte order mark, and behind it every table can be recovered. */
  lemma UnprintDownload(t: Table)
    ensures Download(t) != [] && Download(t)[0] == '\U{FEFF}'
    ensures Unprint(Download(t)[1..], ',') == Fill(t)
  {
    UnprintPrint(t, ',');
    assert ([BOM] + PrintTable(t, ','))[1..] == PrintTable(t, ',');
  }
}
