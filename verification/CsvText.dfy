/** Reading arbitrary texts: the declarative reading of texts without quotes, and the
    normal form that printing and reading again leaves alone. */
module CsvText {
  import opened JsString
  import opened Csv
  import opened CsvPrinter
  import opened CsvRecords
  import opened CsvRoundTrip

  // ----- texts without quotes

  /** The lines of a text; a CR, an LF and a CR followed by an LF each end one. */
  function Lines(s: string): (ls: seq<string>)
    ensures |ls| > 0
  {
    if s == [] then [""]
    else if s[0] == CR && |s| > 1 && s[1] == LF then [""] + Lines(s[2..])
    else if s[0] == CR || s[0] == LF then [""] + Lines(s[1..])
    else var ls := Lines(s[1..]); [[s[0]] + ls[0]] + ls[1..]
  }

  /** `line.split(d)` */
  function Fields(line: string, d: char): (cells: Row)
    ensures |cells| > 0
  {
    if line == [] then [""]
    else
      var cells := Fields(line[1..], d);
      if line[0] == d then [""] + cells else [[line[0]] + cells[0]] + cells[1..]
  }

  function AllFields(ls: seq<string>, d: char): (t: Table)
    ensures |t| == |ls| && forall i :: 0 <= i < |ls| ==> t[i] == Fields(ls[i], d)
  {
    seq(|ls|, i requires 0 <= i < |ls| => Fields(ls[i], d))
  }

  /** `s.replace(/\r\n?/g, '\n')` */
  function WithLf(s: string): string {
    if s == [] then []
    else if s[0] == CR && |s| > 1 && s[1] == LF then [LF] + WithLf(s[2..])
    else (if s[0] == CR then [LF] else [s[0]]) + WithLf(s[1..])
  }

  /** The first record is the first line's fields, and the others clean up to the other lines'. */
  ghost predicate ReadsAs(rs: Table, ls: seq<string>, d: char)
    requires |rs| > 0 && |ls| > 0
  {
    rs[0] == Fields(ls[0], d) && Clean(rs[1..]) == Clean(AllFields(ls[1..], d))
  }

  lemma {:induction false} PlainRecords(s: string, d: char)
    requires IsDelimiter(d) && QUOTE !in s
    ensures ReadsAs(Records(Lex(s, d, Outside)), Lines(s), d)
    decreases |s|
  {
    if s == [] {
      assert AllFields(Lines(s)[1..], d) == [];
    } else {
      hide ReadsAs, Fields;
      var rest := Records(Lex(s[1..], d, Outside));
      assert Lex(s, d, Outside)[1..] == Lex(s[1..], d, Outside);
      PlainRecords(s[1..], d);
      if s[0] == CR && |s| > 1 && s[1] == LF {
        PlainRecords(s[2..], d);
        assert s[1..][1..] == s[2..];
        LineBreak(rest, Lines(s[1..]), d);
        LineFeed(rest, Lines(s[2..]), d);
      } else if s[0] == CR || s[0] == LF {
        LineBreak(rest, Lines(s[1..]), d);
      } else {
        OneMoreChar(s[0], rest, Lines(s[1..]), d);
      }
    }
  }

  lemma LineBreak(rs: Table, ls: seq<string>, d: char)
    requires |rs| > 0 && |ls| > 0 && ReadsAs(rs, ls, d)
    ensures ReadsAs([[""]] + rs, [""] + ls, d)
  {
    assert ([[""]] + rs)[1..] == rs && ([""] + ls)[1..] == ls;
    FirstLineClean(rs, ls, d);
  }

  /** The blank line between a CR and an LF does not show. */
  lemma LineFeed(rs: Table, ls: seq<string>, d: char)
    requires |rs| > 0 && |ls| > 0 && ReadsAs([[""]] + rs, [""] + ([""] + ls), d)
    ensures ReadsAs([[""]] + rs, [""] + ls, d)
  {
    var all := [""] + ls;
    assert ([[""]] + rs)[1..] == rs && ([""] + all)[1..] == all && all[1..] == ls;
    var t := AllFields(all, d);
    assert t == [[""]] + AllFields(ls, d);
    CleanCons([""], AllFields(ls, d));
    BlankIsInvisible([""]);
  }

  lemma OneMoreChar(c: char, rs: Table, ls: seq<string>, d: char)
    requires |rs| > 0 && |ls| > 0 && |rs[0]| > 0 && ReadsAs(rs, ls, d)
    ensures ReadsAs(Prepend(if c == d then Sep else Ch(c), rs), [[c] + ls[0]] + ls[1..], d)
  {
    hide Clean;
    assert ([c] + ls[0])[1..] == ls[0];
    assert ([[c] + ls[0]] + ls[1..])[1..] == ls[1..];
    assert Prepend(if c == d then Sep else Ch(c), rs)[1..] == rs[1..];
  }

  lemma FirstLineClean(rs: Table, ls: seq<string>, d: char)
    requires |rs| > 0 && |ls| > 0
    requires ReadsAs(rs, ls, d)
    ensures Clean(rs) == Clean(AllFields(ls, d))
  {
    hide Clean, Fields;
    var t := AllFields(ls, d);
    assert t[0] == rs[0] && t[1..] == AllFields(ls[1..], d);
    CleanFirst(rs);
    CleanFirst(t);
  }

  /** A text without quotes reads as its lines split at the delimiter, trimmed, without blank rows. */
  lemma PlainText(s: string, d: char)
    requires IsDelimiter(d) && QUOTE !in s
    ensures Parse(s, d) == Clean(AllFields(Lines(s), d))
  {
    PlainRecords(s, d);
    FirstLineClean(Records(Lex(s, d, Outside)), Lines(s), d);
  }

  lemma {:induction false} LinesWithLf(s: string)
    ensures Lines(WithLf(s)) == Lines(s)
    ensures QUOTE !in s ==> QUOTE !in WithLf(s)
    decreases |s|
  {
    if s == [] {
    } else if s[0] == CR && |s| > 1 && s[1] == LF {
      LinesWithLf(s[2..]);
      assert WithLf(s)[1..] == WithLf(s[2..]);
    } else {
      LinesWithLf(s[1..]);
      assert WithLf(s)[1..] == WithLf(s[1..]);
    }
  }

  lemma {:induction false} WithLfHasNoCr(s: string)
    ensures CR !in WithLf(s)
    ensures CR !in s ==> WithLf(s) == s
    decreases |s|
  {
    if s == [] {
    } else if s[0] == CR && |s| > 1 && s[1] == LF {
      WithLfHasNoCr(s[2..]);
    } else {
      WithLfHasNoCr(s[1..]);
    }
  }

  /** Which line ends a quote-free file uses does not matter. */
  lemma LineEndsDoNotMatter(s: string, d: char)
    requires IsDelimiter(d) && QUOTE !in s
    ensures Parse(WithLf(s), d) == Parse(s, d)
    ensures CR !in WithLf(s)
  {
    WithLfHasNoCr(s);
    LinesWithLf(s);
    PlainText(s, d);
    PlainText(WithLf(s), d);
  }

  // ----- normal form

  ghost predicate IsClean(t: Table) {
    forall k :: 0 <= k < |t| ==> TrimRow(t[k]) == t[k] && !Blank(t[k])
  }

  /** Every cell that contains a CR also contains a character that makes the writer quote it. */
  predicate CrQuoted(t: Table) {
    forall k, j, p | 0 <= k < |t| && 0 <= j < |t[k]| && 0 <= p < |t[k][j]| :: !BareCr(t[k][j], p)
  }

  lemma {:induction false} CleanIsClean(t: Table)
    ensures IsClean(Clean(t))
  {
    if t == [] {
    } else {
      CleanIsClean(t[1..]);
      var r := TrimRow(t[0]);
      forall i | 0 <= i < |r| ensures Trim(r[i]) == r[i] {
        TrimIdempotent(t[0][i]);
      }
    }
  }

  lemma {:induction false} CleanKeepsClean(t: Table)
    requires IsClean(t)
    ensures Clean(t) == t
  {
    if t == [] {
    } else {
      CleanKeepsClean(t[1..]);
    }
  }

  lemma TrimmedSides(cell: string, p: nat)
    requires Trim(cell) == cell && p < |cell| && IsSpace(cell[p])
    ensures !AllSpace(cell[..p]) && !AllSpace(cell[p + 1..])
  {
    TrimEnds(cell);
    assert 0 < p < |cell| - 1;
    assert !IsSpace(cell[..p][0]);
    assert !IsSpace(cell[p + 1..][|cell| - p - 2]);
  }

  /** In a trimmed cell there is no white space for a CR to hide in. */
  lemma CleanRowSafe(r: Row)
    requires TrimRow(r) == r && !Blank(r)
    ensures RowSafe(r) <==> forall j, p | 0 <= j < |r| && 0 <= p < |r[j]| :: !BareCr(r[j], p)
  {
    if RowSafe(r) {
      forall j, p | 0 <= j < |r| && 0 <= p < |r[j]| ensures !BareCr(r[j], p) {
        if BareCr(r[j], p) {
          assert TrimRow(r)[j] == Trim(r[j]);
          TrimmedSides(r[j], p);
        }
      }
    }
  }

  lemma CleanTableSafe(t: Table)
    requires IsClean(t)
    ensures CrSafe(t) <==> CrQuoted(t)
  {
    forall k | 0 <= k < |t|
      ensures RowSafe(t[k]) <==> forall j, p | 0 <= j < |t[k]| && 0 <= p < |t[k][j]| :: !BareCr(t[k][j], p)
    {
      CleanRowSafe(t[k]);
    }
  }

  /** What was read can be printed and read again unchanged exactly when no cell read has a
      CR that the writer would leave unquoted. */
  lemma NormalForm(raw: string, d: char)
    requires IsDelimiter(d)
    ensures var t := Parse(raw, d);
            Parse(PrintTable(t, d), d) == t <==> CrQuoted(t)
  {
    var t := Parse(raw, d);
    CleanIsClean(Records(Lex(raw, d, Outside)));
    CleanKeepsClean(t);
    CleanTableSafe(t);
    RoundTrip(t, d);
  }

  lemma {:induction false} LexChars(s: string, d: char, q: Quoting, c: char)
    requires Ch(c) in Lex(s, d, q)
    ensures c in s
  {
    if Ch(c) in Emit(s[0], d, q) {
    } else {
      LexChars(s[1..], d, Next(s[0], q), c);
    }
  }

  lemma {:induction false} RecordChars(ts: seq<Token>, k: nat, j: nat, c: char)
    requires k < |Records(ts)| && j < |Records(ts)[k]| && c in Records(ts)[k][j]
    ensures Ch(c) in ts
  {
    if ts == [] || ts[0] == Ch(c) {
    } else {
      var rs := Records(ts[1..]);
      match ts[0]
      case Eol => RecordChars(ts[1..], k - 1, j, c);
      case Sep => RecordChars(ts[1..], k, if k == 0 then j - 1 else j, c);
      case Ch(b) =>
        if k == 0 && j == 0 {
          assert c in [b] + rs[0][0];
        }
        RecordChars(ts[1..], k, j, c);
    }
  }

  lemma {:induction false} CleanChars(t: Table, k: nat, j: nat, c: char) returns (k': nat)
    requires k < |Clean(t)| && j < |Clean(t)[k]| && c in Clean(t)[k][j]
    ensures k' < |t| && j < |t[k']| && c in t[k'][j]
  {
    var r := TrimRow(t[0]);
    if Blank(r) {
      k' := CleanChars(t[1..], k, j, c);
      k' := k' + 1;
    } else if k == 0 {
      TrimChars(t[0][j], c);
      k' := 0;
    } else {
      k' := CleanChars(t[1..], k - 1, j, c);
      k' := k' + 1;
    }
  }

  /** For a text without CR, printing what was read and reading it changes nothing. */
  lemma NormalFormWithoutCr(raw: string, d: char)
    requires IsDelimiter(d) && CR !in raw
    ensures Parse(PrintTable(Parse(raw, d), d), d) == Parse(raw, d)
  {
    var ts := Lex(raw, d, Outside);
    var t := Parse(raw, d);
    forall k, j, p | 0 <= k < |t| && 0 <= j < |t[k]| && 0 <= p < |t[k][j]| ensures !BareCr(t[k][j], p) {
      if t[k][j][p] == CR {
        var k' := CleanChars(Records(ts), k, j, CR);
        RecordChars(ts, k', j, CR);
        LexChars(raw, d, Outside, CR);
      }
    }
    NormalForm(raw, d);
  }

  /** A table whose CRs all stand in quoted cells survives printing. */
  lemma QuotedCrSurvives(t: Table, d: char)
    requires IsDelimiter(d) && CrQuoted(t)
    ensures Parse(PrintTable(t, d), d) == Clean(t)
  {
    RoundTrip(t, d);
  }

  /** A quoted cell with a CR is read, but once printed it is read as two rows. */
  lemma NoNormalForm()
    ensures var t := Parse("\"a\rb\"", ',');
            t == [["a\rb"]] && Parse(PrintTable(t, ','), ',') == [["a"], ["b"]]
  {
    hide Lex, End, Records, Clean, PrintTable;
    var cell, raw := "a\rb", "\"a\rb\"";
    assert raw == [QUOTE] + cell + [QUOTE];
    LexQuoted(cell, ',');
    RecordsOfCell(cell);
    CleanTrimmedCell(cell);
    BareCrIsLost();
  }

  lemma LexQuoted(cell: string, d: char)
    requires QUOTE !in cell
    ensures Lex([QUOTE] + cell + [QUOTE], d, Outside) == Chars(cell)
  {
    hide Lex, End;
    LexInside(cell, d);
    LexConcat([QUOTE], cell, d, Outside);
    LexOne(QUOTE, d, Outside);
    assert Lex([QUOTE] + cell, d, Outside) == Chars(cell);
    LexConcat([QUOTE] + cell, [QUOTE], d, Outside);
    LexOne(QUOTE, d, Inside);
  }

  lemma {:induction false} NothingDoubled(s: string)
    requires QUOTE !in s
    ensures Doubled(s) == s
  {
    if s == [] {
    } else {
      NothingDoubled(s[1..]);
    }
  }

  // ----- quotes in any text

  function Quotes(s: string): nat {
    if s == [] then 0 else (if s[0] == QUOTE then 1 else 0) + Quotes(s[1..])
  }

  /** The reader is inside quotes exactly behind an odd number of them. */
  lemma {:induction false} InsideIsOdd(s: string, q: Quoting)
    ensures End(s, q) == Inside <==> (Quotes(s) + if q == Inside then 1 else 0) % 2 == 1
  {
    if s == [] {
    } else {
      InsideIsOdd(s[1..], Next(s[0], q));
    }
  }

  lemma {:induction false} ClosedBehindQuote(s: string, q: Quoting)
    requires s != [] && s[|s| - 1] != QUOTE
    ensures End(s, q) != Closed
  {
    if |s| == 1 {
    } else {
      ClosedBehindQuote(s[1..], Next(s[0], q));
    }
  }

  lemma {:induction false} LexInside(s: string, d: char)
    requires QUOTE !in s
    ensures Lex(s, d, Inside) == Chars(s) && End(s, Inside) == Inside
  {
    NothingDoubled(s);
    LexDoubled(s, d);
  }

  /** The tokens of a part in quotes are its characters, whatever stands around it. */
  lemma LexQuotedPart(x: string, y: string, z: string, d: char)
    requires Quotes(x) % 2 == 0 && (x == "" || x[|x| - 1] != QUOTE)
    requires QUOTE !in y && (z == "" || z[0] != QUOTE)
    ensures Lex(x + [QUOTE] + y + [QUOTE] + z, d, Outside)
         == Lex(x, d, Outside) + Chars(y) + Lex(z, d, Outside)
    ensures End(x, Outside) == Outside
  {
    hide Lex, End, Quotes;
    OutsideBehind(x);
    var started, quoted := x + [QUOTE], x + [QUOTE] + y;
    LexConcat(x, [QUOTE], d, Outside);
    LexOne(QUOTE, d, Outside);
    assert Lex(started, d, Outside) == Lex(x, d, Outside) && End(started, Outside) == Inside;
    LexConcat(started, y, d, Outside);
    LexInside(y, d);
    LexConcat(quoted, [QUOTE], d, Outside);
    LexOne(QUOTE, d, Inside);
    assert Lex(quoted + [QUOTE], d, Outside) == Lex(quoted, d, Outside);
    LexConcat(quoted + [QUOTE], z, d, Outside);
    ForgetClosed(z, d);
  }

  lemma OutsideBehind(x: string)
    requires Quotes(x) % 2 == 0 && (x == "" || x[|x| - 1] != QUOTE)
    ensures End(x, Outside) == Outside
  {
    InsideIsOdd(x, Outside);
    if x != "" {
      ClosedBehindQuote(x, Outside);
    }
  }

  /** Quotes around a part of a text that needs none do not show, wherever in a cell they stand. */
  lemma QuotesDoNotShow(x: string, y: string, z: string, d: char)
    requires IsDelimiter(d)
    requires Quotes(x) % 2 == 0 && (x == "" || x[|x| - 1] != QUOTE)
    requires QUOTE !in y && LF !in y && CR !in y && d !in y && (z == "" || z[0] != QUOTE)
    ensures Parse(x + [QUOTE] + y + [QUOTE] + z, d) == Parse(x + y + z, d)
  {
    LexQuotedPart(x, y, z, d);
    PlainChars(y, d);
    hide Lex, End;
    LexConcat(x, y, d, Outside);
    LexConcat(x + y, z, d, Outside);
  }

  /** A quote that is never closed reads as if it were closed at the end of the text. */
  lemma UnclosedQuote(s: string, d: char)
    requires Quotes(s) % 2 == 1
    ensures Parse(s + [QUOTE], d) == Parse(s, d)
  {
    hide Lex, End;
    InsideIsOdd(s, Outside);
    LexConcat(s, [QUOTE], d, Outside);
    LexOne(QUOTE, d, Inside);
    assert Lex(s, d, Outside) + [] == Lex(s, d, Outside);
  }
}
