/** Printing a table and reading it back: exactly when the table survives. */
module CsvRoundTrip {
  import opened JsString
  import opened Sequences
  import opened Csv
  import opened CsvPrinter
  import opened CsvRecords

  /** A row survives when each bare CR lies in the white space before its first visible
      character or behind its last one, or when the row has no visible character. */
  predicate RowSafe(r: Row) {
    Blank(TrimRow(r)) ||
    forall j, p | 0 <= j < |r| && 0 <= p < |r[j]| ::
      BareCr(r[j], p) ==>
        (j == 0 && AllSpace(r[j][..p])) || (j == |r| - 1 && AllSpace(r[j][p + 1..]))
  }

  predicate CrSafe(t: Table) {
    forall k :: 0 <= k < |t| ==> RowSafe(t[k])
  }

  // ----- one row

  function HardRow(r: Row): (parts: seq<seq<Token>>)
    ensures |parts| == |r| && forall j :: 0 <= j < |r| ==> parts[j] == Chars(r[j])
  {
    seq(|r|, j requires 0 <= j < |r| => Chars(r[j]))
  }

  /** The tokens of a row without any bare CR. */
  function HardTokens(r: Row): seq<Token> {
    Join(HardRow(r), Sep)
  }

  lemma {:induction false} RecordsOfChars(s: string, ts: seq<Token>)
    ensures Records(Chars(s) + ts) ==
            [[s + Records(ts)[0][0]] + Records(ts)[0][1..]] + Records(ts)[1..]
  {
    var rs := Records(ts);
    if s == [] {
      hide Records;
      assert Chars(s) + ts == ts;
      assert s + rs[0][0] == rs[0][0];
      assert rs[0] == [rs[0][0]] + rs[0][1..];
      assert rs == [rs[0]] + rs[1..];
    } else {
      hide Records;
      RecordsOfChars(s[1..], ts);
      RecordsOfFirst(s[0], Chars(s[1..]) + ts);
      assert Chars(s) + ts == [Ch(s[0])] + (Chars(s[1..]) + ts);
      assert [s[0]] + (s[1..] + rs[0][0]) == s + rs[0][0];
    }
  }

  lemma RecordsOfFirst(c: char, ts: seq<Token>)
    ensures Records([Ch(c)] + ts) == [[[c] + Records(ts)[0][0]] + Records(ts)[0][1..]] + Records(ts)[1..]
  {
    assert ([Ch(c)] + ts)[1..] == ts;
  }

  lemma RecordsOfCell(s: string)
    ensures Records(Chars(s)) == [[s]]
  {
    RecordsOfChars(s, []);
    assert Chars(s) + [] == Chars(s);
    var rs := Records([]);
    assert rs == [[""]] && rs[0][1..] == [] && rs[1..] == [];
    assert s + rs[0][0] == s;
    assert [s + rs[0][0]] + rs[0][1..] == [s];
    assert [[s]] + rs[1..] == [[s]];
  }

  lemma {:induction false} RecordsOfHardRow(r: Row)
    requires r != []
    ensures Records(HardTokens(r)) == [r]
  {
    if |r| == 1 {
      RecordsOfCell(r[0]);
      assert r == [r[0]];
    } else {
      RecordsOfHardRow(r[1..]);
      assert HardRow(r)[1..] == HardRow(r[1..]);
      var rest := HardTokens(r[1..]);
      assert HardTokens(r) == Chars(r[0]) + ([Sep] + rest);
      RecordsOfChars(r[0], [Sep] + rest);
      assert ([Sep] + rest)[1..] == rest;
      assert r[0] + "" == r[0];
      assert r == [r[0]] + r[1..];
    }
  }

  lemma {:induction false} RowSoftens(r: Row)
    ensures Softens(RowTokens(r, Sep), HardTokens(r))
  {
    if |r| <= 1 {
    } else {
      RowSoftens(r[1..]);
      assert HardRow(r)[1..] == HardRow(r[1..]);
      assert CellsTokens(r)[1..] == CellsTokens(r[1..]);
    }
  }

  /** Where an end of record inside a printed row comes from. */
  lemma {:induction false} LocateEol(r: Row, i: nat) returns (j: nat, p: nat)
    requires i < |RowTokens(r, Sep)| && RowTokens(r, Sep)[i] == Eol
    ensures |HardTokens(r)| == |RowTokens(r, Sep)|
    ensures j < |r| && p < |r[j]| && BareCr(r[j], p)
    ensures j == 0 ==> HardTokens(r)[..i] == Chars(r[0])[..p]
    ensures j == |r| - 1 ==> HardTokens(r)[i + 1..] == Chars(r[j])[p + 1..]
  {
    hide RowTokens, HardTokens;
    RowSoftens(r);
    RowTokensCons(r, Sep);
    HardTokensCons(r);
    if |r| == 1 || i < |r[0]| {
      return 0, i;
    }
    var k := i - |r[0]| - 1;
    RowSoftens(r[1..]);
    j, p := LocateEol(r[1..], k);
    j := j + 1;
    assert HardTokens(r)[i + 1..] == HardTokens(r[1..])[k + 1..];
  }

  lemma HardTokensCons(r: Row)
    requires r != []
    ensures HardTokens(r) == if |r| == 1 then Chars(r[0]) else Chars(r[0]) + [Sep] + HardTokens(r[1..])
  {
    assert HardRow(r)[1..] == HardRow(r[1..]);
  }

  lemma SpaceChars(s: string)
    ensures SpaceTokens(Chars(s)) <==> AllSpace(s)
  {
    if SpaceTokens(Chars(s)) {
      forall i | 0 <= i < |s| ensures IsSpace(s[i]) {
        assert SpaceToken(Chars(s)[i]);
      }
    }
  }

  lemma SafeIsOutside(r: Row)
    requires RowSafe(r) && !Blank(TrimRow(r))
    ensures |RowTokens(r, Sep)| == |HardTokens(r)|
    ensures EolsOutside(RowTokens(r, Sep), HardTokens(r))
  {
    RowSoftens(r);
    var soft, hard := RowTokens(r, Sep), HardTokens(r);
    forall i | 0 <= i < |soft| && soft[i] == Eol
      ensures SpaceTokens(hard[..i]) || SpaceTokens(hard[i + 1..])
    {
      var j, p := LocateEol(r, i);
      if j == 0 && AllSpace(r[j][..p]) {
        SpaceChars(r[j][..p]);
        assert Chars(r[0])[..p] == Chars(r[j][..p]);
      } else {
        SpaceChars(r[j][p + 1..]);
        assert Chars(r[j])[p + 1..] == Chars(r[j][p + 1..]);
      }
    }
  }

  lemma InvisibleConcat(a: seq<Token>, b: seq<Token>)
    ensures Invisible(a + b) <==> Invisible(a) && Invisible(b)
  {
    if Invisible(a + b) {
      forall i | 0 <= i < |b| ensures b[i].Ch? ==> IsSpace(b[i].c) {
        assert (a + b)[|a| + i] == b[i];
      }
      forall i | 0 <= i < |a| ensures a[i].Ch? ==> IsSpace(a[i].c) {
        assert (a + b)[i] == a[i];
      }
    }
  }

  /** A bare CR is white space, so a cell shows as much with its CRs as without. */
  lemma CellInvisible(cell: string)
    ensures Invisible(CellTokens(cell)) <==> AllSpace(cell)
  {
    if Invisible(CellTokens(cell)) {
      forall p | 0 <= p < |cell| ensures IsSpace(cell[p]) {
        assert CellTokens(cell)[p] == if BareCr(cell, p) then Eol else Ch(cell[p]);
      }
    }
  }

  lemma {:induction false} RowInvisible(r: Row, sep: Token)
    requires sep != Eol
    ensures Invisible(RowTokens(r, sep)) <==>
            InvisibleRow(r) && (|r| <= 1 || sep == Sep || (sep.Ch? && IsSpace(sep.c)))
  {
    if r == [] {
    } else if |r| == 1 {
      CellInvisible(r[0]);
    } else {
      CellInvisible(r[0]);
      RowInvisible(r[1..], sep);
      assert CellsTokens(r)[1..] == CellsTokens(r[1..]);
      InvisibleConcat(CellTokens(r[0]) + [sep], RowTokens(r[1..], sep));
      InvisibleConcat(CellTokens(r[0]), [sep]);
      assert [sep][0] == sep;
      assert InvisibleRow(r) <==> AllSpace(r[0]) && InvisibleRow(r[1..]) by {
        if InvisibleRow(r[1..]) {
          assert forall k :: 1 <= k < |r| ==> r[k] == r[1..][k - 1];
        }
      }
    }
  }

  lemma RowTokensCons(r: Row, sep: Token)
    ensures RowTokens(r, sep) == if r == [] then []
                                 else if |r| == 1 then CellTokens(r[0])
                                 else CellTokens(r[0]) + [sep] + RowTokens(r[1..], sep)
  {
    assert r != [] ==> CellsTokens(r)[1..] == CellsTokens(r[1..]);
  }

  /** Splitting a printed row at a bare CR of its first cell. */
  lemma SplitFirstCell(r: Row, p: nat) returns (a: seq<Token>, b: seq<Token>)
    requires r != [] && p < |r[0]| && BareCr(r[0], p)
    ensures RowTokens(r, Sep) == a + [Eol] + b
    ensures Seps(a) == 0 && Seps(b) == |r| - 1
    ensures a == CellTokens(r[0])[..p] && (|r| == 1 ==> b == CellTokens(r[0])[p + 1..])
  {
    hide RowTokens, Seps;
    var cell := CellTokens(r[0]);
    RowTokensCons(r, Sep);
    a, b := cell[..p], cell[p + 1..];
    assert cell == a + [Eol] + b;
    NoSeps(a);
    NoSeps(b);
    if |r| > 1 {
      var rest := RowTokens(r[1..], Sep);
      SepsOfRow(r[1..]);
      SepsConcat(b, [Sep] + rest);
      SepFirst(rest);
      b := b + ([Sep] + rest);
    }
  }

  /** Splitting a printed row at any bare CR. */
  lemma {:induction false} SplitRow(r: Row, j: nat, p: nat) returns (a: seq<Token>, b: seq<Token>)
    requires j < |r| && p < |r[j]| && BareCr(r[j], p)
    ensures RowTokens(r, Sep) == a + [Eol] + b
    ensures Seps(a) == j && Seps(b) == |r| - 1 - j
    ensures j == 0 ==> a == CellTokens(r[0])[..p]
    ensures j == |r| - 1 ==> b == CellTokens(r[j])[p + 1..]
  {
    hide RowTokens, Seps;
    if j == 0 {
      a, b := SplitFirstCell(r, p);
    } else {
      var cell := CellTokens(r[0]);
      RowTokensCons(r, Sep);
      NoSeps(cell);
      a, b := SplitRow(r[1..], j - 1, p);
      SepsConcat(cell, [Sep] + a);
      SepFirst(a);
      assert cell + [Sep] + (a + [Eol] + b) == cell + ([Sep] + a) + [Eol] + b;
      a := cell + ([Sep] + a);
    }
  }

  lemma SepFirst(ts: seq<Token>)
    ensures Seps([Sep] + ts) == 1 + Seps(ts)
  {
    assert ([Sep] + ts)[1..] == ts;
  }

  lemma {:induction false} SepsOfRow(r: Row)
    ensures Seps(RowTokens(r, Sep)) == if r == [] then 0 else |r| - 1
  {
    if r == [] {
    } else {
      NoSeps(CellTokens(r[0]));
      if |r| > 1 {
        SepsOfRow(r[1..]);
        assert CellsTokens(r)[1..] == CellsTokens(r[1..]);
        SepsConcat(CellTokens(r[0]), [Sep] + RowTokens(r[1..], Sep));
        assert RowTokens(r, Sep) == CellTokens(r[0]) + ([Sep] + RowTokens(r[1..], Sep));
      }
    }
  }

  /** The rows a printed row reads as. */
  function Reread(r: Row, sep: Token): Table {
    Clean(Records(RowTokens(r, sep)))
  }

  lemma SafeRowSurvives(r: Row)
    requires RowSafe(r)
    ensures Reread(r, Sep) == Clean([r])
  {
    if Blank(TrimRow(r)) {
      BlankIsInvisible(r);
      RowInvisible(r, Sep);
      NothingVisible(RowTokens(r, Sep));
    } else {
      RowSoftens(r);
      SafeIsOutside(r);
      SoftEolsInvisible(RowTokens(r, Sep), HardTokens(r));
      RecordsOfHardRow(r);
    }
  }

  lemma OnlySafeRowsSurvive(r: Row)
    requires Reread(r, Sep) == Clean([r])
    ensures RowSafe(r)
  {
    CleanOne(r);
    if !Blank(TrimRow(r)) {
      forall j, p | 0 <= j < |r| && 0 <= p < |r[j]| && BareCr(r[j], p)
        ensures (j == 0 && AllSpace(r[j][..p])) || (j == |r| - 1 && AllSpace(r[j][p + 1..]))
      {
        OneSideIsBlank(r, j, p);
      }
    }
  }

  /** Of the two parts a bare CR leaves, one must hold the whole row and the other nothing. */
  lemma OneSideIsBlank(r: Row, j: nat, p: nat)
    requires j < |r| && p < |r[j]| && BareCr(r[j], p)
    requires Reread(r, Sep) == [TrimRow(r)]
    ensures (j == 0 && AllSpace(r[j][..p])) || (j == |r| - 1 && AllSpace(r[j][p + 1..]))
  {
    hide Clean, Records, RowTokens, Seps, Invisible;
    var a, b := SplitRow(r, j, p);
    RecordsConcat(a, b);
    CleanConcat(Records(a), Records(b));
    var left, right := Clean(Records(a)), Clean(Records(b));
    assert left + right == [TrimRow(r)];
    if left == [] {
      assert right == [TrimRow(r)];
      RecordsWidth(b);
      CleanWidth(Records(b), 1 + Seps(b));
      assert |right[0]| == |r|;
      assert j == 0;
      NothingVisible(a);
      PartInvisible(r[j], 0, p);
    } else {
      assert |left + right| == |left| + |right|;
      assert right == [] && left == [TrimRow(r)];
      RecordsWidth(a);
      CleanWidth(Records(a), 1 + Seps(a));
      assert |left[0]| == |r|;
      assert j == |r| - 1;
      NothingVisible(b);
      PartInvisible(r[j], p + 1, |r[j]|);
      assert r[j][p + 1..|r[j]|] == r[j][p + 1..];
      assert CellTokens(r[j])[p + 1..|r[j]|] == CellTokens(r[j])[p + 1..];
    }
  }

  lemma PartInvisible(cell: string, lo: nat, hi: nat)
    requires lo <= hi <= |cell|
    ensures Invisible(CellTokens(cell)[lo..hi]) ==> AllSpace(cell[lo..hi])
    ensures lo == 0 ==> cell[lo..hi] == cell[..hi] && CellTokens(cell)[lo..hi] == CellTokens(cell)[..hi]
  {
    var part := CellTokens(cell)[lo..hi];
    if Invisible(part) {
      forall i | 0 <= i < hi - lo ensures IsSpace(cell[lo..hi][i]) {
        assert part[i] == if BareCr(cell, lo + i) then Eol else Ch(cell[lo + i]);
      }
    }
  }

  // ----- whole tables

  /** What the printed rows read as, one after the other. */
  function RereadAll(t: Table, sep: Token): Table {
    if t == [] then [] else Reread(t[0], sep) + RereadAll(t[1..], sep)
  }

  lemma RereadFirst(t: Table, sep: Token)
    requires t != []
    ensures RereadAll(t, sep) == Reread(t[0], sep) + RereadAll(t[1..], sep)
  {
  }

  lemma {:induction false} RereadTable(t: Table, sep: Token)
    ensures Clean(Records(TableTokens(t, sep))) == RereadAll(t, sep)
  {
    if t == [] {
      BlankIsInvisible([""]);
    } else if |t| == 1 {
      assert RereadAll(t[1..], sep) == [];
    } else {
      RereadTable(t[1..], sep);
      RecordsConcat(RowTokens(t[0], sep), TableTokens(t[1..], sep));
      CleanConcat(Records(RowTokens(t[0], sep)), Records(TableTokens(t[1..], sep)));
    }
  }

  /** A row never loses its place: it reads as at least as many rows as it should. */
  lemma RereadCount(r: Row, sep: Token)
    requires sep != Eol
    ensures |Reread(r, sep)| >= |Clean([r])|
  {
    BlankIsInvisible(r);
    CleanOne(r);
    RowInvisible(r, sep);
    NothingVisible(RowTokens(r, sep));
  }

  lemma {:induction false} RereadAllCount(t: Table, sep: Token)
    requires sep != Eol
    ensures |RereadAll(t, sep)| >= |Clean(t)|
  {
    if t == [] {
    } else {
      RereadCount(t[0], sep);
      RereadAllCount(t[1..], sep);
      assert t == [t[0]] + t[1..];
      CleanCons(t[0], t[1..]);
    }
  }

  /** Extra rows of one row cannot be made up for by another: equality is row by row. */
  lemma {:induction false} RowByRow(t: Table, sep: Token, k: nat)
    requires sep != Eol && RereadAll(t, sep) == Clean(t) && k < |t|
    ensures Reread(t[k], sep) == Clean([t[k]])
  {
    hide Clean, Reread, RereadAll;
    CleanFirst(t);
    RereadFirst(t, sep);
    RereadCount(t[0], sep);
    RereadAllCount(t[1..], sep);
    var a, b := Reread(t[0], sep), RereadAll(t[1..], sep);
    var x, y := Clean([t[0]]), Clean(t[1..]);
    assert |a + b| == |a| + |b| && |x + y| == |x| + |y|;
    Cancel(a, b, x, y);
    if k == 0 {
    } else {
      RowByRow(t[1..], sep, k - 1);
    }
  }

  lemma {:induction false} SafeRowsSurvive(t: Table)
    requires CrSafe(t)
    ensures RereadAll(t, Sep) == Clean(t)
  {
    if t == [] {
    } else {
      SafeRowSurvives(t[0]);
      SafeRowsSurvive(t[1..]);
      assert t == [t[0]] + t[1..];
      CleanCons(t[0], t[1..]);
    }
  }

  /** The round trip: a printed table reads as the table with its cells trimmed and its
      blank rows dropped if and only if no bare CR stands beside something visible. */
  lemma RoundTrip(t: Table, d: char)
    requires IsDelimiter(d)
    ensures Parse(PrintTable(t, d), d) == Clean(t) <==> CrSafe(t)
  {
    LexTable(t, d, d);
    RereadTable(t, Sep);
    if CrSafe(t) {
      SafeRowsSurvive(t);
    }
    if RereadAll(t, Sep) == Clean(t) {
      forall k | 0 <= k < |t| ensures RowSafe(t[k]) {
        RowByRow(t, Sep, k);
        OnlySafeRowsSurvive(t[k]);
      }
    }
  }

  /** The mark in front of a downloaded file never shows. */
  lemma BomInvisible(raw: string, d: char)
    requires IsDelimiter(d)
    ensures Parse([BOM] + raw, d) == Parse(raw, d)
  {
    hide Records, Clean;
    LexConcat([BOM], raw, d, Outside);
    LexOne(BOM, d, Outside);
    DropLeading(Ch(BOM), Lex(raw, d, Outside));
  }

  lemma DownloadRoundTrip(t: Table)
    ensures Parse(Download(t), ',') == Clean(t) <==> CrSafe(t)
  {
    RoundTrip(t, ',');
    BomInvisible(PrintTable(t, ','), ',');
  }

  /** The writer leaves a cell unquoted when a CR is its only special character, and then
      one row is read as two. */
  lemma BareCrIsLost()
    ensures !CrSafe([["a\rb"]])
    ensures Parse(PrintTable([["a\rb"]], ','), ',') == [["a"], ["b"]]
    ensures Clean([["a\rb"]]) == [["a\rb"]]
  {
    hide Clean, Records, Lex, CrSafe, PrintTable, TableTokens, TrimRow;
    var cell := "a\rb";
    TokensOfBareCr();
    LexTable([[cell]], ',', ',');
    RecordsConcat(Chars("a"), Chars("b"));
    RecordsOfCell("a");
    RecordsOfCell("b");
    CleanConcat([["a"]], [["b"]]);
    CleanTrimmedCell("a");
    CleanTrimmedCell("b");
    CleanTrimmedCell(cell);
    RoundTrip([[cell]], ',');
  }

  lemma TokensOfBareCr()
    ensures TableTokens([["a\rb"]], Sep) == Chars("a") + [Eol] + Chars("b")
  {
    var cell := "a\rb";
    assert BareCr(cell, 1);
    assert CellTokens(cell) == Chars("a") + [Eol] + Chars("b");
  }

  lemma CleanTrimmedCell(s: string)
    requires s != "" && !IsSpace(s[0]) && !IsSpace(s[|s| - 1])
    ensures Clean([[s]]) == [[s]]
  {
    TrimKeepsTrimmed(s);
    assert TrimRow([s]) == [s] && [s][0] != "";
    CleanOne([s]);
  }
}
