/** The CSV writer of the customer board, and what its output reads as. */
module CsvPrinter {
  import opened Sequences
  import opened Csv

  predicate Special(c: char) {
    c == QUOTE || c == LF || c == ',' || c == ';'
  }

  predicate NeedsQuotes(cell: string) {
    exists i :: 0 <= i < |cell| && Special(cell[i])
  }

  function Doubled(s: string): string {
    if s == [] then []
    else (if s[0] == QUOTE then [QUOTE, QUOTE] else [s[0]]) + Doubled(s[1..])
  }

  function Escape(cell: string): string {
    if NeedsQuotes(cell) then [QUOTE] + Doubled(cell) + [QUOTE] else cell
  }

  lemma {:induction false} DoubledLength(s: string)
    ensures |Doubled(s)| >= |s|
  {
    if s == [] {
    } else {
      DoubledLength(s[1..]);
    }
  }

  /** The writer leaves a cell as it is exactly when it has no quote, line feed, comma or semicolon. */
  lemma EscapeLeavesAlone(cell: string)
    ensures Escape(cell) == cell <==> '"' !in cell && '\n' !in cell && ',' !in cell && ';' !in cell
  {
    DoubledLength(cell);
  }

  /** `cells.map(csvEscape).join(glue)` */
  function PrintRow(cells: Row, glue: char): string {
    if cells == [] then ""
    else if |cells| == 1 then Escape(cells[0])
    else Escape(cells[0]) + [glue] + PrintRow(cells[1..], glue)
  }

  /** The joined lines; the board's own download uses the comma. */
  function PrintTable(t: Table, glue: char): string {
    if t == [] then ""
    else if |t| == 1 then PrintRow(t[0], glue)
    else PrintRow(t[0], glue) + [LF] + PrintTable(t[1..], glue)
  }

  function Download(t: Table): string {
    [BOM] + PrintTable(t, ',')
  }

  // ----- the tokens of printed text

  function Chars(s: string): (ts: seq<Token>)
    ensures |ts| == |s| && forall i :: 0 <= i < |s| ==> ts[i] == Ch(s[i])
  {
    seq(|s|, i requires 0 <= i < |s| => Ch(s[i]))
  }

  /** A CR that reaches the text without quotes around it. */
  predicate BareCr(cell: string, p: nat)
    requires p < |cell|
  {
    !NeedsQuotes(cell) && cell[p] == CR
  }

  /** The tokens a printed cell reads as: its characters, but a bare CR ends the record. */
  function CellTokens(cell: string): (ts: seq<Token>)
    ensures |ts| == |cell|
    ensures forall p :: 0 <= p < |cell| ==> ts[p] == if BareCr(cell, p) then Eol else Ch(cell[p])
  {
    seq(|cell|, p requires 0 <= p < |cell| => if BareCr(cell, p) then Eol else Ch(cell[p]))
  }

  function Join(parts: seq<seq<Token>>, sep: Token): seq<Token> {
    if parts == [] then []
    else if |parts| == 1 then parts[0]
    else parts[0] + [sep] + Join(parts[1..], sep)
  }

  function CellsTokens(r: Row): (ts: seq<seq<Token>>)
    ensures |ts| == |r| && forall j :: 0 <= j < |r| ==> ts[j] == CellTokens(r[j])
  {
    seq(|r|, j requires 0 <= j < |r| => CellTokens(r[j]))
  }

  function RowTokens(r: Row, sep: Token): seq<Token> {
    Join(CellsTokens(r), sep)
  }

  function TableTokens(t: Table, sep: Token): seq<Token> {
    if t == [] then []
    else if |t| == 1 then RowTokens(t[0], sep)
    else RowTokens(t[0], sep) + [Eol] + TableTokens(t[1..], sep)
  }

  lemma {:induction false} LexConcat(x: string, y: string, d: char, q: Quoting)
    ensures Lex(x + y, d, q) == Lex(x, d, q) + Lex(y, d, End(x, q))
    ensures End(x + y, q) == End(y, End(x, q))
  {
    hide Emit, Next;
    if x == [] {
      assert x + y == y;
    } else {
      hide Lex, End;
      LexConcat(x[1..], y, d, Next(x[0], q));
      LexFirst(x, d, q);
      LexFirst(x + y, d, q);
      ConcatParts(x, y);
      ConcatAssociative(Emit(x[0], d, q), Lex(x[1..], d, Next(x[0], q)), Lex(y, d, End(x, q)));
    }
  }

  lemma LexFirst(s: string, d: char, q: Quoting)
    requires s != []
    ensures Lex(s, d, q) == Emit(s[0], d, q) + Lex(s[1..], d, Next(s[0], q))
    ensures End(s, q) == End(s[1..], Next(s[0], q))
  {
  }

  lemma LexOne(c: char, d: char, q: Quoting)
    ensures Lex([c], d, q) == Emit(c, d, q) && End([c], q) == Next(c, q)
  {
    assert [c][1..] == [];
  }

  lemma LexDoubledChar(c: char, d: char)
    ensures var first := if c == QUOTE then [QUOTE, QUOTE] else [c];
            Lex(first, d, Inside) == [Ch(c)] && End(first, Inside) == Inside
  {
    LexOne(c, d, Inside);
    if c == QUOTE {
      assert [QUOTE, QUOTE] == [QUOTE] + [QUOTE];
      LexConcat([QUOTE], [QUOTE], d, Inside);
      LexOne(QUOTE, d, Closed);
    }
  }

  lemma {:induction false} LexDoubled(s: string, d: char)
    ensures Lex(Doubled(s), d, Inside) == Chars(s)
    ensures End(Doubled(s), Inside) == Inside
  {
    if s == [] {
    } else {
      LexDoubled(s[1..], d);
      LexDoubledChar(s[0], d);
      LexConcat(if s[0] == QUOTE then [QUOTE, QUOTE] else [s[0]], Doubled(s[1..]), d, Inside);
      assert Chars(s) == [Ch(s[0])] + Chars(s[1..]);
    }
  }

  lemma {:induction false} LexPlain(s: string, d: char)
    requires IsDelimiter(d) && !NeedsQuotes(s)
    ensures Lex(s, d, Outside) == CellTokens(s)
    ensures End(s, Outside) == Outside
  {
    if s == [] {
    } else {
      assert !Special(s[0]);
      forall i | 0 <= i < |s[1..]| ensures !Special(s[1..][i]) {
        assert s[1..][i] == s[i + 1];
      }
      LexPlain(s[1..], d);
      assert CellTokens(s) == [CellTokens(s)[0]] + CellTokens(s[1..]);
    }
  }

  lemma LexEscape(cell: string, d: char)
    requires IsDelimiter(d)
    ensures Lex(Escape(cell), d, Outside) == CellTokens(cell)
    ensures End(Escape(cell), Outside) != Inside
  {
    if NeedsQuotes(cell) {
      LexConcat([QUOTE] + Doubled(cell), [QUOTE], d, Outside);
      LexConcat([QUOTE], Doubled(cell), d, Outside);
      LexOne(QUOTE, d, Outside);
      LexOne(QUOTE, d, Inside);
      LexDoubled(cell, d);
      assert CellTokens(cell) == Chars(cell);
    } else {
      LexPlain(cell, d);
    }
  }

  /** How the character between two printed cells reads. */
  function Glue(glue: char, d: char): Token {
    if glue == d then Sep else Ch(glue)
  }

  lemma {:induction false} LexRow(r: Row, glue: char, d: char)
    requires IsDelimiter(d) && IsDelimiter(glue)
    ensures Lex(PrintRow(r, glue), d, Outside) == RowTokens(r, Glue(glue, d))
    ensures End(PrintRow(r, glue), Outside) != Inside
  {
    if r == [] {
    } else if |r| == 1 {
      LexEscape(r[0], d);
    } else {
      LexEscape(r[0], d);
      LexRow(r[1..], glue, d);
      LexConcat(Escape(r[0]) + [glue], PrintRow(r[1..], glue), d, Outside);
      LexConcat(Escape(r[0]), [glue], d, Outside);
      LexOne(glue, d, End(Escape(r[0]), Outside));
      assert CellsTokens(r)[1..] == CellsTokens(r[1..]);
    }
  }

  lemma {:induction false} LexTable(t: Table, glue: char, d: char)
    requires IsDelimiter(d) && IsDelimiter(glue)
    ensures Lex(PrintTable(t, glue), d, Outside) == TableTokens(t, Glue(glue, d))
  {
    if t == [] {
    } else if |t| == 1 {
      LexRow(t[0], glue, d);
    } else {
      LexRow(t[0], glue, d);
      LexTable(t[1..], glue, d);
      LexConcat(PrintRow(t[0], glue) + [LF], PrintTable(t[1..], glue), d, Outside);
      LexConcat(PrintRow(t[0], glue), [LF], d, Outside);
      LexOne(LF, d, End(PrintRow(t[0], glue), Outside));
    }
  }

  lemma {:induction false} PlainChars(s: string, d: char)
    requires QUOTE !in s && LF !in s && CR !in s && d !in s
    ensures Lex(s, d, Outside) == Chars(s) && End(s, Outside) == Outside
  {
    if s == [] {
    } else {
      PlainChars(s[1..], d);
      assert Chars(s) == [Ch(s[0])] + Chars(s[1..]);
    }
  }

  lemma {:induction false} CharsAreUnquoted(s: string, d: char)
    requires Lex(s, d, Outside) == Chars(s)
    ensures QUOTE !in s && LF !in s && d !in s
  {
    if s == [] {
    } else {
      NoMoreTokens(s[1..], d, Next(s[0], Outside));
      var first, rest := Emit(s[0], d, Outside), Lex(s[1..], d, Next(s[0], Outside));
      assert |first| + |rest| == |s|;
      assert (first + rest)[0] == Ch(s[0]);
      assert rest == (first + rest)[1..] == Chars(s)[1..] == Chars(s[1..]);
      CharsAreUnquoted(s[1..], d);
    }
  }

  lemma {:induction false} NoMoreTokens(s: string, d: char, q: Quoting)
    ensures |Lex(s, d, q)| <= |s|
  {
    if s == [] {
    } else {
      NoMoreTokens(s[1..], d, Next(s[0], q));
    }
  }

  /** It quotes a cell without a CR exactly when the cell would otherwise not read as its own
      characters with one of the two delimiters. */
  lemma QuotesWhenNeeded(cell: string)
    requires CR !in cell
    ensures Escape(cell) == cell <==>
            Lex(cell, ',', Outside) == Chars(cell) && Lex(cell, ';', Outside) == Chars(cell)
  {
    EscapeLeavesAlone(cell);
    if Escape(cell) == cell {
      PlainChars(cell, ',');
      PlainChars(cell, ';');
    } else if Lex(cell, ',', Outside) == Chars(cell) && Lex(cell, ';', Outside) == Chars(cell) {
      CharsAreUnquoted(cell, ',');
      CharsAreUnquoted(cell, ';');
    }
  }
}
