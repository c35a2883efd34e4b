/** Guessing the delimiter of an imported text. */
module CsvDetect {
  import opened JsString
  import opened Csv
  import opened CsvPrinter
  import opened CsvRecords
  import opened CsvRoundTrip
  import opened CsvText

  function Detected(raw: string): Table {
    var commaRows := Parse(raw, ',');
    if |commaRows| == 0 then []
    else if |commaRows[0]| > 1 then commaRows
    else
      var semicolonRows := Parse(raw, ';');
      if |semicolonRows| > 0 then semicolonRows else commaRows
  }

  /** An export comes back as its rows, and so does what a spreadsheet saves with semicolons. */
  method DetectCsvRows(raw: string) returns (rows: Table)
    ensures rows == Detected(raw)
    ensures forall t: Table, n: nat | Rectangular(t, n) && CrSafe(t) :: raw == Download(t) ==> rows == Clean(t)
    ensures forall t: Table | CrSafe(t) && Clean(t) != [] :: raw == PrintTable(t, ';') ==> rows == Clean(t)
  {
    hide Parse, Clean, CrSafe, PrintTable, Download;
    forall t: Table, n: nat | Rectangular(t, n) && CrSafe(t) && raw == Download(t)
      ensures Detected(raw) == Clean(t)
    {
      DetectExport(t, n);
    }
    forall t: Table | CrSafe(t) && Clean(t) != [] && raw == PrintTable(t, ';')
      ensures Detected(raw) == Clean(t)
    {
      DetectSemicolon(t);
    }
    var commaRows := ParseCsvRows(raw, ',');
    if |commaRows| == 0 {
      return [];
    }
    if |commaRows[0]| > 1 {
      return commaRows;
    }
    var semicolonRows := ParseCsvRows(raw, ';');
    rows := if |semicolonRows| > 0 then semicolonRows else commaRows;
  }

  /** No printed row contains a glue character. */
  predicate Narrow(t: Table) {
    forall k :: 0 <= k < |t| ==> |t[k]| <= 1
  }

  /** Every row has `n` cells, as in every exported table. */
  predicate Rectangular(t: Table, n: nat) {
    forall k :: 0 <= k < |t| ==> |t[k]| == n
  }

  // ----- a text read with the other delimiter

  lemma {:induction false} NarrowTokens(t: Table, sep: Token)
    requires Narrow(t)
    ensures TableTokens(t, sep) == TableTokens(t, Sep)
  {
    if |t| <= 1 {
    } else {
      NarrowTokens(t[1..], sep);
    }
  }

  lemma {:induction false} JoinHasNoSep(r: Row, sep: Token)
    requires sep != Sep
    ensures Sep !in RowTokens(r, sep)
  {
    if |r| <= 1 {
    } else {
      JoinHasNoSep(r[1..], sep);
      assert CellsTokens(r)[1..] == CellsTokens(r[1..]);
    }
  }

  /** Without the right delimiter every row is one cell wide. */
  lemma {:induction false} WrongDelimiterWidth(t: Table, sep: Token)
    requires sep != Sep
    ensures forall k :: 0 <= k < |RereadAll(t, sep)| ==> |RereadAll(t, sep)[k]| == 1
  {
    if t == [] {
    } else {
      WrongDelimiterWidth(t[1..], sep);
      WrongDelimiterRow(t[0], sep);
    }
  }

  lemma WrongDelimiterRow(r: Row, sep: Token)
    requires sep != Sep
    ensures forall k :: 0 <= k < |Reread(r, sep)| ==> |Reread(r, sep)[k]| == 1
  {
    var ts := RowTokens(r, sep);
    JoinHasNoSep(r, sep);
    NoSeps(ts);
    RecordsWidth(ts);
    CleanWidth(Records(ts), 1);
  }

  /** A row of several cells shows at least its glue. */
  lemma GlueShows(r: Row, sep: Token)
    requires |r| > 1 && sep.Ch? && !IsSpace(sep.c)
    ensures Reread(r, sep) != []
  {
    RowInvisible(r, sep);
    NothingVisible(RowTokens(r, sep));
  }

  lemma WrongDelimiterRowRight(r: Row, sep: Token)
    requires sep.Ch? && !IsSpace(sep.c) && Reread(r, sep) == Clean([r])
    ensures |r| <= 1
  {
    hide Reread, Clean;
    WrongDelimiterRow(r, sep);
    assert Reread(r, sep) != [] ==> |Reread(r, sep)[0]| == 1;
    CleanOne(r);
    if |r| > 1 {
      GlueShows(r, sep);
    }
  }

  /** The wrong delimiter gives the right table only if no row needed a delimiter. */
  lemma WrongDelimiterRight(t: Table, sep: Token)
    requires sep.Ch? && !IsSpace(sep.c)
    requires RereadAll(t, sep) == Clean(t)
    ensures Narrow(t)
  {
    hide Reread, RereadAll, Clean;
    forall k | 0 <= k < |t| ensures |t[k]| <= 1 {
      RowByRow(t, sep, k);
      WrongDelimiterRowRight(t[k], sep);
    }
  }

  lemma ReadPrinted(t: Table, glue: char, d: char)
    requires IsDelimiter(glue) && IsDelimiter(d)
    ensures Parse(PrintTable(t, glue), d) == RereadAll(t, Glue(glue, d))
  {
    LexTable(t, glue, d);
    RereadTable(t, Glue(glue, d));
  }

  // ----- the two detection theorems

  /** The guess on a comma-joined export is right if and only if no bare CR stands beside
      something visible and, unless nothing is left to read, either the first row left has
      several cells or no row has any. */
  lemma DetectComma(t: Table)
    ensures Detected(PrintTable(t, ',')) == Clean(t) <==>
            CrSafe(t) && (Clean(t) == [] || |Clean(t)[0]| > 1 || Narrow(t))
  {
    hide Clean, RereadAll, CrSafe;
    var other := Glue(',', ';');
    ReadPrinted(t, ',', ',');
    ReadPrinted(t, ',', ';');
    RoundTrip(t, ',');
    RereadAllCount(t, other);
    var commaRows, semicolonRows := RereadAll(t, Sep), RereadAll(t, other);
    assert commaRows == Clean(t) <==> CrSafe(t);
    if Narrow(t) {
      NarrowSame(t, other);
    }
    if semicolonRows == Clean(t) {
      WrongDelimiterRight(t, other);
    }
  }

  lemma NarrowSame(t: Table, sep: Token)
    requires Narrow(t)
    ensures RereadAll(t, sep) == RereadAll(t, Sep)
  {
    NarrowTokens(t, sep);
    RereadTable(t, sep);
    RereadTable(t, Sep);
  }

  /** On an export, whose rows all have the same width, only the CR can go wrong. */
  lemma DetectExport(t: Table, n: nat)
    requires Rectangular(t, n)
    ensures Detected(Download(t)) == Clean(t) <==> CrSafe(t)
  {
    hide Clean, Parse, PrintTable;
    DetectComma(t);
    BomInvisible(PrintTable(t, ','), ',');
    BomInvisible(PrintTable(t, ','), ';');
    CleanRowsOf(t, n);
  }

  lemma {:induction false} CleanRowsOf(t: Table, n: nat)
    requires Rectangular(t, n)
    ensures n == 0 ==> Clean(t) == []
    ensures forall k :: 0 <= k < |Clean(t)| ==> |Clean(t)[k]| == n
  {
    if t == [] {
    } else {
      CleanRowsOf(t[1..], n);
    }
  }

  /** A semicolon-joined text is read right if and only if it is free of such CRs and
      something is left to read, or nothing was ever joined. */
  lemma DetectSemicolon(t: Table)
    ensures Detected(PrintTable(t, ';')) == Clean(t) <==>
            CrSafe(t) && (Clean(t) != [] || Narrow(t))
  {
    hide Clean, RereadAll, CrSafe;
    var other := Glue(';', ',');
    ReadPrinted(t, ';', ',');
    ReadPrinted(t, ';', ';');
    RoundTrip(t, ';');
    RereadAllCount(t, other);
    RereadAllCount(t, Sep);
    WrongDelimiterWidth(t, other);
    var commaRows, semicolonRows := RereadAll(t, other), RereadAll(t, Sep);
    if Narrow(t) {
      NarrowSame(t, other);
    }
    if commaRows == Clean(t) {
      WrongDelimiterRight(t, other);
    }
  }

  /** A one-cell title above a wider row always hides the delimiter. */
  lemma TitleMisleads(title: string, row: Row)
    requires Trim(title) != "" && |row| > 1
    ensures Detected(PrintTable([[title], row], ',')) != Clean([[title], row])
  {
    hide Detected, Clean, PrintTable, CrSafe, Trim;
    var t := [[title], row];
    DetectComma(t);
    assert |t[1]| > 1;
    CleanFirst(t);
    CleanOne([title]);
    assert TrimRow([title]) == [Trim(title)] && [Trim(title)][0] != "";
  }

  /** Such a file without any CR. */
  lemma TitleMisleadsHere()
    ensures var t := [["Title"], ["a", "b"]];
            CrSafe(t) && Detected(PrintTable(t, ',')) != Clean(t)
  {
    hide Detected, Clean, PrintTable, TrimRow;
    TrimKeepsTrimmed("Title");
    TitleMisleads("Title", ["a", "b"]);
  }

  /** One row of two empty cells: joined with a semicolon it is read as one row that shows it. */
  lemma BlankRowMisleads()
    ensures var t := [["", ""]];
            CrSafe(t) && Clean(t) == [] && Detected(PrintTable(t, ';')) != []
  {
    hide Detected, PrintTable;
    var t := [["", ""]];
    DetectSemicolon(t);
    assert |t[0]| == 2;
    BlankIsInvisible(["", ""]);
  }

  // ----- the guess on any text

  /** The first row left is the first record with a visible character. */
  lemma {:induction false} FirstVisible(t: Table, k: nat)
    requires k < |t| && !InvisibleRow(t[k]) && forall j :: 0 <= j < k ==> InvisibleRow(t[j])
    ensures Clean(t) != [] && |Clean(t)[0]| == |t[k]|
  {
    hide Clean, InvisibleRow, TrimRow, Blank;
    CleanFirst(t);
    CleanOne(t[0]);
    BlankIsInvisible(t[0]);
    if k == 0 {
    } else {
      FirstVisible(t[1..], k - 1);
    }
  }

  lemma {:induction false} NoneVisible(t: Table)
    ensures Clean(t) == [] <==> forall j :: 0 <= j < |t| ==> InvisibleRow(t[j])
  {
    if t == [] {
    } else {
      hide Clean, InvisibleRow;
      CleanFirst(t);
      BlankIsInvisible(t[0]);
      NoneVisible(t[1..]);
      assert forall j :: 1 <= j < |t| ==> t[j] == t[1..][j - 1];
      assert forall j :: 0 <= j < |t| - 1 ==> t[1..][j] == t[j + 1];
    }
  }

  /** For every text: the comma reading is taken exactly if its first visible record has several
      cells, or if the semicolon reading has nothing to show. */
  lemma DetectAny(raw: string, k: nat)
    requires var rs := Records(Lex(raw, ',', Outside));
             k < |rs| && !InvisibleRow(rs[k]) && forall j :: 0 <= j < k ==> InvisibleRow(rs[j])
    ensures Detected(raw) ==
            if |Records(Lex(raw, ',', Outside))[k]| > 1 || Invisible(Lex(raw, ';', Outside))
            then Parse(raw, ',') else Parse(raw, ';')
  {
    hide Clean, Records, Lex, InvisibleRow;
    FirstVisible(Records(Lex(raw, ',', Outside)), k);
    NothingVisible(Lex(raw, ';', Outside));
  }

  /** The line has a character that is neither white space nor the delimiter. */
  predicate Shows(line: string, d: char) {
    exists i :: 0 <= i < |line| && !IsSpace(line[i]) && line[i] != d
  }

  lemma {:induction false} FieldsShow(line: string, d: char)
    ensures InvisibleRow(Fields(line, d)) <==> !Shows(line, d)
    ensures |Fields(line, d)| > 1 <==> d in line
  {
    if line == [] {
      EmptyCellInvisible([]);
    } else {
      hide InvisibleRow;
      var rest := Fields(line[1..], d);
      FieldsShow(line[1..], d);
      assert line == [line[0]] + line[1..];
      ShowsFirst(line, d);
      if line[0] == d {
        EmptyCellInvisible(rest);
      } else {
        InvisibleGlue(line[0], rest);
      }
    }
  }

  lemma ShowsFirst(line: string, d: char)
    requires line != []
    ensures Shows(line, d) <==> (!IsSpace(line[0]) && line[0] != d) || Shows(line[1..], d)
  {
    if Shows(line[1..], d) {
      var i :| 0 <= i < |line| - 1 && !IsSpace(line[1..][i]) && line[1..][i] != d;
      assert !IsSpace(line[i + 1]) && line[i + 1] != d;
    }
  }

  lemma AllFieldsShow(ls: seq<string>, d: char)
    ensures Clean(AllFields(ls, d)) == [] <==> forall j :: 0 <= j < |ls| ==> !Shows(ls[j], d)
  {
    hide Clean, InvisibleRow, Fields, Shows;
    NoneVisible(AllFields(ls, d));
    forall j | 0 <= j < |ls| ensures InvisibleRow(AllFields(ls, d)[j]) <==> !Shows(ls[j], d) {
      FieldsShow(ls[j], d);
    }
  }

  /** For a text without quotes, by its characters: its lines are split at the commas if the first
      line with a visible character besides commas has one, and at the semicolons otherwise, unless
      that leaves nothing to show. */
  lemma DetectPlain(s: string, k: nat)
    requires '"' !in s
    requires k < |Lines(s)| && Shows(Lines(s)[k], ',')
    requires forall j :: 0 <= j < k ==> !Shows(Lines(s)[j], ',')
    ensures Detected(s) ==
            if ',' in Lines(s)[k] || forall j :: 0 <= j < |Lines(s)| ==> !Shows(Lines(s)[j], ';')
            then Clean(AllFields(Lines(s), ',')) else Clean(AllFields(Lines(s), ';'))
  {
    hide Clean, Parse, InvisibleRow, Fields, Shows, Lines;
    var ls := Lines(s);
    PlainText(s, ',');
    PlainText(s, ';');
    var t := AllFields(ls, ',');
    forall j | 0 <= j <= k ensures InvisibleRow(t[j]) <==> !Shows(ls[j], ',') {
      FieldsShow(ls[j], ',');
    }
    FieldsShow(ls[k], ',');
    FirstVisible(t, k);
    AllFieldsShow(ls, ';');
  }

  /** A text without quotes and without such a line has no rows. */
  lemma DetectNothing(s: string)
    requires '"' !in s && forall j :: 0 <= j < |Lines(s)| ==> !Shows(Lines(s)[j], ',')
    ensures Detected(s) == []
  {
    hide Clean, Parse, InvisibleRow, Fields, Shows, Lines;
    PlainText(s, ',');
    AllFieldsShow(Lines(s), ',');
  }
}
