/** The CSV reader of the customer board: a declarative reading of a text as
    tokens, records and cleaned rows, and the one-pass loop that computes it. */
module Csv {
  import opened JsString
  import opened Sequences

  type Row = seq<string>
  type Table = seq<Row>

  const QUOTE: char := '"'
  const LF: char := '\n'
  const CR: char := '\r'
  const BOM: char := '\U{FEFF}'

  predicate IsDelimiter(d: char) {
    d == ',' || d == ';'
  }

  // ----- tokens: the quoting automaton

  /** Where the reader stands: outside quotes, inside them, or just behind a
      quote that either closed the quoted part or is the first half of `""`. */
  datatype Quoting = Outside | Inside | Closed

  datatype Token = Ch(c: char) | Sep | Eol

  function Next(c: char, q: Quoting): Quoting {
    if c == QUOTE then (if q == Inside then Closed else Inside)
    else if q == Inside then Inside
    else Outside
  }

  function Emit(c: char, d: char, q: Quoting): seq<Token> {
    if c == QUOTE then (if q == Closed then [Ch(QUOTE)] else [])
    else if q == Inside then [Ch(c)]
    else if c == d then [Sep]
    else if c == LF || c == CR then [Eol]
    else [Ch(c)]
  }

  function Lex(s: string, d: char, q: Quoting): seq<Token> {
    if s == [] then [] else Emit(s[0], d, q) + Lex(s[1..], d, Next(s[0], q))
  }

  function End(s: string, q: Quoting): Quoting {
    if s == [] then q else End(s[1..], Next(s[0], q))
  }

  // ----- records and rows

  /** One more token in front of the records. */
  function Prepend(t: Token, rs: Table): (more: Table)
    requires |rs| > 0 && |rs[0]| > 0
    ensures |more| > 0 && |more[0]| > 0
  {
    match t
    case Eol => [[""]] + rs
    case Sep => [[""] + rs[0]] + rs[1..]
    case Ch(c) => [[[c] + rs[0][0]] + rs[0][1..]] + rs[1..]
  }

  /** The records of a token list, cells untrimmed. */
  function Records(ts: seq<Token>): (rs: Table)
    ensures |rs| > 0 && |rs[0]| > 0
  {
    if ts == [] then [[""]] else Prepend(ts[0], Records(ts[1..]))
  }

  function TrimRow(r: Row): (t: Row)
    ensures |t| == |r| && forall i :: 0 <= i < |r| ==> t[i] == Trim(r[i])
  {
    seq(|r|, i requires 0 <= i < |r| => Trim(r[i]))
  }

  predicate Blank(r: Row) {
    forall i :: 0 <= i < |r| ==> r[i] == ""
  }

  /** Every cell trimmed, rows without a non-empty cell dropped. */
  function Clean(t: Table): Table {
    if t == [] then []
    else
      var r := TrimRow(t[0]);
      (if Blank(r) then [] else [r]) + Clean(t[1..])
  }

  function Parse(raw: string, d: char): Table {
    Clean(Records(Lex(raw, d, Outside)))
  }

  lemma CleanOne(r: Row)
    ensures Clean([r]) == if Blank(TrimRow(r)) then [] else [TrimRow(r)]
  {
    assert Clean([r][1..]) == [];
  }

  lemma CleanFirst(t: Table)
    requires t != []
    ensures Clean(t) == Clean([t[0]]) + Clean(t[1..])
  {
    CleanOne(t[0]);
  }

  lemma CleanNothing()
    ensures Clean([]) == []
  {
  }

  lemma {:induction false} CleanConcat(a: Table, b: Table)
    ensures Clean(a + b) == Clean(a) + Clean(b)
  {
    hide Clean;
    if a == [] {
      assert a + b == b;
      CleanNothing();
    } else {
      ConcatParts(a, b);
      CleanFirst(a);
      CleanFirst(a + b);
      CleanConcat(a[1..], b);
      ConcatAssociative(Clean([a[0]]), Clean(a[1..]), Clean(b));
    }
  }

  lemma CleanCons(r: Row, t: Table)
    ensures Clean([r] + t) == Clean([r]) + Clean(t)
  {
    CleanConcat([r], t);
  }

  // ----- the loop

  /** The records still to come, with the row and the cell that the loop has begun. */
  ghost function Pending(row: Row, value: string, rs: Table): Table
    requires |rs| > 0 && |rs[0]| > 0
  {
    [row + [value + rs[0][0]] + rs[0][1..]] + rs[1..]
  }

  /** The cleaned rows that the rest `s` of the text adds in a given state of the loop. */
  ghost function ToCome(s: string, d: char, inQuotes: bool, row: Row, value: string): Table {
    Clean(Pending(row, value, Records(Lex(s, d, if inQuotes then Inside else Outside))))
  }

  /** What the loop appends to `rows` when it closes a record. */
  function Finished(row: Row, value: string): Table {
    var r := row + [Trim(value)];
    if Blank(r) then [] else [r]
  }

  lemma NothingPending(rs: Table)
    requires |rs| > 0 && |rs[0]| > 0
    ensures Pending([], "", rs) == rs
  {
    assert "" + rs[0][0] == rs[0][0];
    assert [] + [rs[0][0]] + rs[0][1..] == rs[0];
  }

  lemma PendingChar(row: Row, value: string, c: char, ts: seq<Token>)
    ensures Pending(row, value, Records([Ch(c)] + ts)) == Pending(row, value + [c], Records(ts))
  {
    var rs := Records(ts);
    assert ([Ch(c)] + ts)[1..] == ts;
    assert value + ([c] + rs[0][0]) == (value + [c]) + rs[0][0];
  }

  lemma TrimRowSnoc(row: Row, value: string)
    requires TrimRow(row) == row
    ensures TrimRow(row + [value]) == row + [Trim(value)] == TrimRow(row + [Trim(value)])
  {
    TrimIdempotent(value);
    forall i | 0 <= i < |row| ensures Trim(row[i]) == row[i] {
      assert TrimRow(row)[i] == Trim(row[i]);
    }
  }

  lemma PendingSep(row: Row, value: string, ts: seq<Token>)
    requires TrimRow(row) == row
    ensures Clean(Pending(row, value, Records([Sep] + ts)))
         == Clean(Pending(row + [Trim(value)], "", Records(ts)))
  {
    var rs := Records(ts);
    assert ([Sep] + ts)[1..] == ts;
    var before := row + [value + ""] + rs[0];
    var after := (row + [Trim(value)]) + ["" + rs[0][0]] + rs[0][1..];
    assert Pending(row, value, Records([Sep] + ts)) == [before] + rs[1..];
    assert value + "" == value && "" + rs[0][0] == rs[0][0];
    TrimRowSnoc(row, value);
    assert before == (row + [value]) + rs[0];
    assert after == (row + [Trim(value)]) + rs[0];
    TrimRowConcat(row + [value], rs[0]);
    TrimRowConcat(row + [Trim(value)], rs[0]);
    CleanCons(before, rs[1..]);
    CleanCons(after, rs[1..]);
    CleanOne(before);
    CleanOne(after);
  }

  lemma TrimRowConcat(a: Row, b: Row)
    ensures TrimRow(a + b) == TrimRow(a) + TrimRow(b)
  {
  }

  lemma FinishedIsClean(row: Row, value: string)
    requires TrimRow(row) == row
    ensures Clean([row + [value]]) == Finished(row, value)
  {
    CleanOne(row + [value]);
    TrimRowSnoc(row, value);
  }

  lemma PendingEol(row: Row, value: string, ts: seq<Token>)
    requires TrimRow(row) == row
    ensures Clean(Pending(row, value, Records([Eol] + ts))) == Finished(row, value) + Clean(Records(ts))
  {
    var rs := Records(ts);
    assert ([Eol] + ts)[1..] == ts;
    var all := Records([Eol] + ts);
    assert all[0] == [""] && all[1..] == rs && all[0][1..] == [];
    assert value + all[0][0] == value;
    assert row + [value] + [] == row + [value];
    assert Pending(row, value, all) == [row + [value]] + rs;
    CleanCons(row + [value], rs);
    FinishedIsClean(row, value);
  }

  /** After a closing quote that is not doubled the automaton may forget the quote. */
  lemma ForgetClosed(s: string, d: char)
    requires s == [] || s[0] != QUOTE
    ensures Lex(s, d, Closed) == Lex(s, d, Outside)
  {
  }

  lemma StepStart(raw: string, d: char)
    ensures ToCome(raw, d, false, [], "") == Parse(raw, d)
  {
    NothingPending(Records(Lex(raw, d, Outside)));
  }

  lemma StepQuote(s: string, d: char, inQuotes: bool, row: Row, value: string)
    requires s != [] && s[0] == QUOTE
    ensures ToCome(s, d, inQuotes, row, value) ==
            if inQuotes && |s| > 1 && s[1] == QUOTE then ToCome(s[2..], d, true, row, value + [QUOTE])
            else ToCome(s[1..], d, !inQuotes, row, value)
  {
    if inQuotes && |s| > 1 && s[1] == QUOTE {
      assert s[1..][1..] == s[2..];
      assert Lex(s[1..], d, Closed) == [Ch(QUOTE)] + Lex(s[2..], d, Inside);
      assert Lex(s, d, Inside) == Lex(s[1..], d, Closed);
      PendingChar(row, value, QUOTE, Lex(s[2..], d, Inside));
    } else if inQuotes {
      ForgetClosed(s[1..], d);
      assert Lex(s, d, Inside) == Lex(s[1..], d, Closed);
    } else {
      assert Lex(s, d, Outside) == Lex(s[1..], d, Inside);
    }
  }

  lemma StepDelimiter(s: string, d: char, row: Row, value: string)
    requires s != [] && s[0] == d && IsDelimiter(d) && TrimRow(row) == row
    ensures ToCome(s, d, false, row, value) == ToCome(s[1..], d, false, row + [Trim(value)], "")
  {
    PendingSep(row, value, Lex(s[1..], d, Outside));
  }

  lemma StepRecord(s: string, d: char, row: Row, value: string)
    requires s != [] && (s[0] == LF || s[0] == CR) && IsDelimiter(d) && TrimRow(row) == row
    ensures ToCome(s, d, false, row, value) == Finished(row, value) + ToCome(s[1..], d, false, [], "")
  {
    hide Pending, Records, Clean;
    var ts := Lex(s[1..], d, Outside);
    assert Lex(s, d, Outside) == [Eol] + ts;
    PendingEol(row, value, ts);
    NothingPending(Records(ts));
  }

  /** A CR followed by an LF would close one more record, but a blank one. */
  lemma StepNewline(s: string, d: char, row: Row, value: string)
    requires s != [] && (s[0] == LF || s[0] == CR) && IsDelimiter(d) && TrimRow(row) == row
    ensures ToCome(s, d, false, row, value) ==
            Finished(row, value) +
            ToCome(if s[0] == CR && |s| > 1 && s[1] == LF then s[2..] else s[1..], d, false, [], "")
  {
    hide ToCome;
    StepRecord(s, d, row, value);
    if s[0] == CR && |s| > 1 && s[1] == LF {
      assert s[1..][1..] == s[2..];
      StepRecord(s[1..], d, [], "");
      assert Finished([], "") == [];
    }
  }

  lemma StepChar(s: string, d: char, inQuotes: bool, row: Row, value: string)
    requires s != [] && s[0] != QUOTE && (inQuotes || (s[0] != d && s[0] != LF && s[0] != CR))
    ensures ToCome(s, d, inQuotes, row, value) == ToCome(s[1..], d, inQuotes, row, value + [s[0]])
  {
    PendingChar(row, value, s[0], Lex(s[1..], d, if inQuotes then Inside else Outside));
  }

  lemma PendingNothing(row: Row, value: string)
    requires TrimRow(row) == row
    ensures Clean(Pending(row, value, Records([]))) == Finished(row, value)
  {
    var rs := [[""]];
    assert value + rs[0][0] == value;
    assert row + [value] + rs[0][1..] == row + [value];
    assert Pending(row, value, rs) == [row + [value]] + rs[1..] == [row + [value]];
    FinishedIsClean(row, value);
  }

  lemma StepEnd(d: char, inQuotes: bool, row: Row, value: string)
    requires TrimRow(row) == row
    ensures ToCome("", d, inQuotes, row, value) == Finished(row, value)
  {
    PendingNothing(row, value);
  }

  method ParseCsvRows(raw: string, delimiter: char) returns (rows: Table)
    requires IsDelimiter(delimiter)
    ensures rows == Parse(raw, delimiter)
  {
    hide ToCome, Parse;
    rows := [];
    var row: Row := [];
    var value := "";
    var inQuotes := false;
    var index := 0;
    assert raw[0..] == raw;
    StepStart(raw, delimiter);

    while index < |raw|
      invariant 0 <= index <= |raw|
      invariant TrimRow(row) == row
      invariant Parse(raw, delimiter) == rows + ToCome(raw[index..], delimiter, inQuotes, row, value)
    {
      var c := raw[index];
      ghost var rest := raw[index..];
      assert rest[1..] == raw[index + 1..];
      assert index + 1 < |raw| ==> rest[1] == raw[index + 1] && rest[2..] == raw[index + 2..];
      TrimRowSnoc(row, value);

      if c == QUOTE {
        StepQuote(rest, delimiter, inQuotes, row, value);
        if inQuotes && index + 1 < |raw| && raw[index + 1] == QUOTE {
          value := value + [QUOTE];
          index := index + 1;
        } else {
          inQuotes := !inQuotes;
        }
      } else if !inQuotes && c == delimiter {
        StepDelimiter(rest, delimiter, row, value);
        row := row + [Trim(value)];
        value := "";
      } else if !inQuotes && (c == LF || c == CR) {
        StepNewline(rest, delimiter, row, value);
        if c == CR && index + 1 < |raw| && raw[index + 1] == LF {
          index := index + 1;
        }
        row := row + [Trim(value)];
        value := "";
        if !Blank(row) {
          rows := rows + [row];
        }
        row := [];
      } else {
        StepChar(rest, delimiter, inQuotes, row, value);
        value := value + [c];
      }
      index := index + 1;
    }

    assert raw[index..] == "";
    StepEnd(delimiter, inQuotes, row, value);
    assert Parse(raw, delimiter) == rows + Finished(row, value);
    assert Trim("") == "";
    if |value| > 0 || |row| > 0 {
      row := row + [Trim(value)];
      if !Blank(row) {
        rows := rows + [row];
      }
    }
  }
}
