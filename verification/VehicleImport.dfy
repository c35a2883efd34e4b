/** The vehicle import: the board sends the rows in chunks and adds up the answers, the
    service works each request off row by row and ignores rows beyond its cap. */
module VehicleImport {
  import opened Sequences
  import opened Options

  const CHUNK_SIZE: int := 150
  const MAX_ROWS: nat := 1000

  datatype Fault = Fault(plateNumber: Option<string>, message: string)
  datatype ImportError = ImportError(rowIndex: nat, fault: Fault)
  datatype Summary = Summary(totalRows: nat, importedCount: nat, skippedCount: nat, errors: seq<ImportError>)

  /** The service's database after creating one vehicle, or the reason why it was not created. */
  type Create<!S, !Row> = (S, Row) -> (S, Option<Fault>)

  /** The result of working rows off one by one. */
  datatype Tally<S> = Tally(state: S, imported: nat, errors: seq<ImportError>)

  // ----- the service

  /** Rows created in order, each in the state the earlier ones left; the first has index `first`. */
  function WorkOff<S, Row>(create: Create<S, Row>, s: S, rows: seq<Row>, first: nat): (t: Tally<S>)
    ensures t.imported + |t.errors| == |rows|
  {
    if rows == [] then Tally(s, 0, [])
    else
      var (after, fault) := create(s, rows[0]);
      var rest := WorkOff(create, after, rows[1..], first + 1);
      if fault.None? then rest.(imported := rest.imported + 1)
      else rest.(errors := [ImportError(first, fault.value)] + rest.errors)
  }

  function Capped<Row>(rows: seq<Row>): seq<Row> {
    if |rows| > MAX_ROWS then rows[..MAX_ROWS] else rows
  }

  /** One request to the service; it refuses an empty one. */
  function Serve<S, Row>(create: Create<S, Row>, s: S, rows: seq<Row>): (S, Summary)
    requires rows != []
  {
    var t := WorkOff(create, s, Capped(rows), 1);
    (t.state, Summary(|Capped(rows)|, t.imported, |Capped(rows)| - t.imported, t.errors))
  }

  // ----- the board

  function Chunks<Row>(rows: seq<Row>, chunkSize: int): seq<seq<Row>>
    decreases |rows|
  {
    if chunkSize <= 0 then [rows]
    else if rows == [] then []
    else if |rows| <= chunkSize then [rows]
    else [rows[..chunkSize]] + Chunks(rows[chunkSize..], chunkSize)
  }

  predicate NonEmpty<Row>(chunks: seq<seq<Row>>) {
    forall i :: 0 <= i < |chunks| ==> |chunks[i]| > 0
  }

  predicate AtMost<Row>(chunks: seq<seq<Row>>, size: int) {
    forall i :: 0 <= i < |chunks| ==> |chunks[i]| <= size
  }

  predicate AllButLastFull<Row>(chunks: seq<seq<Row>>, size: int) {
    forall i :: 0 <= i < |chunks| - 1 ==> |chunks[i]| == size
  }

  function Concat<Row>(chunks: seq<seq<Row>>): seq<Row> {
    if chunks == [] then [] else chunks[0] + Concat(chunks[1..])
  }

  /** The chunks that the rows from `index` on still make. */
  ghost function ToCut<Row>(rows: seq<Row>, index: nat, chunkSize: int): seq<seq<Row>> {
    if index < |rows| then Chunks(rows[index..], chunkSize) else []
  }

  lemma AllToCut<Row>(rows: seq<Row>, chunkSize: int)
    ensures Chunks(rows, chunkSize) == if chunkSize <= 0 then [rows] else ToCut(rows, 0, chunkSize)
  {
    assert rows[0..] == rows;
  }

  lemma NextChunk<Row>(rows: seq<Row>, index: nat, end: nat, chunkSize: int)
    requires chunkSize > 0 && index < |rows|
    requires end == if index + chunkSize < |rows| then index + chunkSize else |rows|
    ensures ToCut(rows, index, chunkSize) == [rows[index..end]] + ToCut(rows, index + chunkSize, chunkSize)
  {
    var rest := rows[index..];
    if |rest| > chunkSize {
      assert rest[..chunkSize] == rows[index..end] && rest[chunkSize..] == rows[end..];
    } else {
      assert rest == rows[index..end];
    }
  }

  method SplitImportRows<Row>(rows: seq<Row>, chunkSize: int) returns (chunks: seq<seq<Row>>)
    ensures chunks == Chunks(rows, chunkSize)
  {
    hide Chunks;
    AllToCut(rows, chunkSize);
    if chunkSize <= 0 {
      return [rows];
    }
    chunks := [];
    var index := 0;
    while index < |rows|
      invariant 0 <= index
      invariant Chunks(rows, chunkSize) == chunks + ToCut(rows, index, chunkSize)
      decreases |rows| - index
    {
      var end := if index + chunkSize < |rows| then index + chunkSize else |rows|;
      NextChunk(rows, index, end, chunkSize);
      chunks := chunks + [rows[index..end]];
      index := index + chunkSize;
    }
  }

  function Shift(errors: seq<ImportError>, offset: nat): (shifted: seq<ImportError>)
    ensures |shifted| == |errors|
    ensures forall i :: 0 <= i < |errors| ==> shifted[i] == errors[i].(rowIndex := errors[i].rowIndex + offset)
  {
    seq(|errors|, i requires 0 <= i < |errors| => errors[i].(rowIndex := errors[i].rowIndex + offset))
  }

  function InsertByRow(e: ImportError, es: seq<ImportError>): seq<ImportError> {
    if es == [] then [e]
    else if e.rowIndex <= es[0].rowIndex then [e] + es
    else [es[0]] + InsertByRow(e, es[1..])
  }

  /** A stable sort by row index. */
  function SortByRow(es: seq<ImportError>): seq<ImportError> {
    if es == [] then [] else InsertByRow(es[0], SortByRow(es[1..]))
  }

  /** What has been added up over the chunks sent so far, and the database they left. */
  datatype Totals<S> = Totals(state: S, processed: nat, imported: nat, skipped: nat, errors: seq<ImportError>)

  function AddAnswer<S, Row>(create: Create<S, Row>, t: Totals<S>, chunk: seq<Row>): Totals<S>
    requires chunk != []
  {
    var (after, answer) := Serve(create, t.state, chunk);
    Totals(after, t.processed + |chunk|, t.imported + answer.importedCount, t.skipped + answer.skippedCount,
           t.errors + Shift(answer.errors, t.processed))
  }

  /** Sending chunks one after the other. */
  function Send<S, Row>(create: Create<S, Row>, t: Totals<S>, chunks: seq<seq<Row>>): Totals<S>
    requires NonEmpty(chunks)
    decreases |chunks|
  {
    if chunks == [] then t else Send(create, AddAnswer(create, t, chunks[0]), chunks[1..])
  }

  function ImportInChunks<S, Row>(create: Create<S, Row>, s: S, rows: seq<Row>, chunkSize: int): (S, Summary)
    requires rows != []
  {
    ChunksNonEmpty(rows, chunkSize);
    var t := Send(create, Totals(s, 0, 0, 0, []), Chunks(rows, chunkSize));
    (t.state, Summary(|rows|, t.imported, t.skipped, SortByRow(t.errors)))
  }

  /** The import handler; a file without rows is refused before. */
  method ImportFile<S, Row>(create: Create<S, Row>, database: S, rows: seq<Row>, chunkSize: int)
    returns (after: S, summary: Summary)
    requires rows != []
    ensures (after, summary) == ImportInChunks(create, database, rows, chunkSize)
  {
    ChunksNonEmpty(rows, chunkSize);
    var chunks := SplitImportRows(rows, chunkSize);
    var imported: nat, skipped: nat, processedRows: nat := 0, 0, 0;
    var errors: seq<ImportError> := [];
    after := database;
    ghost var all := Send(create, Totals(database, 0, 0, 0, []), chunks);
    var pending := chunks;
    while pending != []
      invariant NonEmpty(pending)
      invariant all == Send(create, Totals(after, processedRows, imported, skipped, errors), pending)
      decreases |pending|
    {
      var chunk := pending[0];
      pending := pending[1..];
      var (next, answer) := Serve(create, after, chunk);
      assert |answer.errors| == 0 ==> errors + Shift(answer.errors, processedRows) == errors;
      after := next;
      imported := imported + answer.importedCount;
      skipped := skipped + answer.skippedCount;
      if |answer.errors| > 0 {
        errors := errors + Shift(answer.errors, processedRows);
      }
      processedRows := processedRows + |chunk|;
    }
    summary := Summary(|rows|, imported, skipped, SortByRow(errors));
  }

  // ----- chunking

  lemma {:induction false} ChunksNonEmpty<Row>(rows: seq<Row>, chunkSize: int)
    requires rows != []
    ensures Chunks(rows, chunkSize) != [] && NonEmpty(Chunks(rows, chunkSize))
    decreases |rows|
  {
    if chunkSize <= 0 || |rows| <= chunkSize {
    } else {
      ChunksNonEmpty(rows[chunkSize..], chunkSize);
    }
  }

  /** The chunks are the rows, cut into pieces as long as asked for but for the last, which may be
      shorter. */
  lemma {:induction false} ChunksPartition<Row>(rows: seq<Row>, chunkSize: int)
    ensures Concat(Chunks(rows, chunkSize)) == rows
    ensures chunkSize > 0 ==> AtMost(Chunks(rows, chunkSize), chunkSize)
    ensures chunkSize > 0 ==> AllButLastFull(Chunks(rows, chunkSize), chunkSize)
    decreases |rows|
  {
    if chunkSize <= 0 || |rows| <= chunkSize {
      assert [rows][1..] == [];
      assert Concat([rows]) == rows + Concat([][..]) == rows;
    } else {
      var rest := Chunks(rows[chunkSize..], chunkSize);
      assert Chunks(rows, chunkSize) == [rows[..chunkSize]] + rest;
      hide Chunks;
      ChunksPartition(rows[chunkSize..], chunkSize);
      ConcatFirst(rows[..chunkSize], rest);
      SplitAt(rows, chunkSize);
    }
  }

  lemma ConcatFirst<Row>(chunk: seq<Row>, chunks: seq<seq<Row>>)
    ensures Concat([chunk] + chunks) == chunk + Concat(chunks)
  {
    assert ([chunk] + chunks)[1..] == chunks;
  }

  // ----- working rows off in pieces

  lemma WorkOffFirst<S, Row>(create: Create<S, Row>, s: S, rows: seq<Row>, first: nat)
    requires rows != []
    ensures var (after, fault) := create(s, rows[0]);
            var rest := WorkOff(create, after, rows[1..], first + 1);
            WorkOff(create, s, rows, first) ==
            if fault.None? then rest.(imported := rest.imported + 1)
            else rest.(errors := [ImportError(first, fault.value)] + rest.errors)
  {
  }

  lemma {:induction false} WorkOffConcat<S, Row>(create: Create<S, Row>, s: S, a: seq<Row>, b: seq<Row>, first: nat)
    ensures var t := WorkOff(create, s, a, first);
            var u := WorkOff(create, t.state, b, first + |a|);
            WorkOff(create, s, a + b, first) == Tally(u.state, t.imported + u.imported, t.errors + u.errors)
  {
    if a == [] {
      assert a + b == b;
    } else {
      ConcatParts(a, b);
      WorkOffFirst(create, s, a, first);
      WorkOffFirst(create, s, a + b, first);
      hide WorkOff;
      WorkOffConcat(create, create(s, a[0]).0, a[1..], b, first + 1);
    }
  }

  lemma {:induction false} WorkOffShift<S, Row>(create: Create<S, Row>, s: S, rows: seq<Row>, first: nat, n: nat)
    ensures var t := WorkOff(create, s, rows, first);
            WorkOff(create, s, rows, first + n) == t.(errors := Shift(t.errors, n))
  {
    if rows == [] {
    } else {
      WorkOffShift(create, create(s, rows[0]).0, rows[1..], first + 1, n);
      assert first + n + 1 == first + 1 + n;
    }
  }

  /** Row indices from `lo` on and below `hi`, each higher than the one before. */
  ghost predicate Ascending(es: seq<ImportError>, lo: nat, hi: nat) {
    && (forall i :: 0 <= i < |es| ==> lo <= es[i].rowIndex < hi)
    && (forall i, j :: 0 <= i < j < |es| ==> es[i].rowIndex < es[j].rowIndex)
  }

  lemma AscendingCons(e: ImportError, es: seq<ImportError>, hi: nat)
    requires Ascending(es, e.rowIndex + 1, hi) && e.rowIndex < hi
    ensures Ascending([e] + es, e.rowIndex, hi)
  {
  }

  lemma {:induction false} ErrorRows<S, Row>(create: Create<S, Row>, s: S, rows: seq<Row>, first: nat)
    ensures Ascending(WorkOff(create, s, rows, first).errors, first, first + |rows|)
  {
    if rows == [] {
    } else {
      var one := create(s, rows[0]);
      ErrorRows(create, one.0, rows[1..], first + 1);
      var es := WorkOff(create, one.0, rows[1..], first + 1).errors;
      if one.1.Some? {
        AscendingCons(ImportError(first, one.1.value), es, first + |rows|);
      } else {
        assert WorkOff(create, s, rows, first).errors == es;
      }
    }
  }

  lemma {:induction false} SortedStays(es: seq<ImportError>, lo: nat, hi: nat)
    requires Ascending(es, lo, hi)
    ensures SortByRow(es) == es
  {
    if es == [] {
    } else {
      assert Ascending(es[1..], lo, hi);
      SortedStays(es[1..], lo, hi);
    }
  }

  lemma ServeWhole<S, Row>(create: Create<S, Row>, s: S, rows: seq<Row>)
    requires 0 < |rows| <= MAX_ROWS
    ensures var w := WorkOff(create, s, rows, 1);
            Serve(create, s, rows) == (w.state, Summary(|rows|, w.imported, |w.errors|, w.errors))
  {
  }

  /** Chunks the service takes whole are worked off as if they had come at once. */
  lemma {:induction false} SendIsWorkOff<S, Row>(create: Create<S, Row>, t: Totals<S>, chunks: seq<seq<Row>>)
    requires NonEmpty(chunks) && AtMost(chunks, MAX_ROWS)
    ensures var w := WorkOff(create, t.state, Concat(chunks), t.processed + 1);
            Send(create, t, chunks)
            == Totals(w.state, t.processed + |Concat(chunks)|, t.imported + w.imported,
                      t.skipped + |w.errors|, t.errors + w.errors)
    decreases |chunks|
  {
    hide WorkOff, Serve;
    if chunks == [] {
      WorkOffNothing(create, t.state, t.processed + 1);
      assert t.errors + [] == t.errors;
    } else {
      var c, rest := chunks[0], Concat(chunks[1..]);
      ServeWhole(create, t.state, c);
      var next := AddAnswer(create, t, c);
      WorkOffShift(create, t.state, c, 1, t.processed);
      WorkOffConcat(create, t.state, c, rest, t.processed + 1);
      SendIsWorkOff(create, next, chunks[1..]);
    }
  }

  lemma WorkOffNothing<S, Row>(create: Create<S, Row>, s: S, first: nat)
    ensures WorkOff(create, s, [], first) == Tally(s, 0, [])
  {
  }

  /** The import in chunks leaves the database, the counts and the errors, in order and with the
      row numbers of the file, as if each row of the file had been worked off in one go. */
  lemma ChunkedImport<S, Row>(create: Create<S, Row>, s: S, rows: seq<Row>, chunkSize: int)
    requires rows != []
    requires 0 < chunkSize <= MAX_ROWS || |rows| <= MAX_ROWS
    ensures var t := WorkOff(create, s, rows, 1);
            ImportInChunks(create, s, rows, chunkSize)
            == (t.state, Summary(|rows|, t.imported, |rows| - t.imported, t.errors))
  {
    hide WorkOff, Send, Chunks, SortByRow;
    ChunksNonEmpty(rows, chunkSize);
    ChunksPartition(rows, chunkSize);
    PiecesFit(rows, chunkSize);
    SendIsWorkOff(create, Totals(s, 0, 0, 0, []), Chunks(rows, chunkSize));
    ErrorRows(create, s, rows, 1);
    var es := WorkOff(create, s, rows, 1).errors;
    assert [] + es == es;
    SortedStays(es, 1, 1 + |rows|);
  }

  lemma {:induction false} PiecesFit<Row>(rows: seq<Row>, chunkSize: int)
    requires rows != []
    requires 0 < chunkSize <= MAX_ROWS || |rows| <= MAX_ROWS
    ensures NonEmpty(Chunks(rows, chunkSize)) && AtMost(Chunks(rows, chunkSize), MAX_ROWS)
    decreases |rows|
  {
    if chunkSize <= 0 || |rows| <= chunkSize {
    } else {
      PiecesFit(rows[chunkSize..], chunkSize);
    }
  }

  /** Every row of the file is accounted for if and only if no request exceeds the cap. */
  lemma NoRowLost<S, Row>(create: Create<S, Row>, s: S, rows: seq<Row>, chunkSize: int)
    requires rows != []
    ensures var summary := ImportInChunks(create, s, rows, chunkSize).1;
            summary.importedCount + summary.skippedCount == summary.totalRows
            <==> 0 < chunkSize <= MAX_ROWS || |rows| <= MAX_ROWS
  {
    ChunksNonEmpty(rows, chunkSize);
    ChunksPartition(rows, chunkSize);
    var chunks := Chunks(rows, chunkSize);
    if 0 < chunkSize <= MAX_ROWS || |rows| <= MAX_ROWS {
      ChunkedImport(create, s, rows, chunkSize);
    } else {
      CountedRows(create, Totals(s, 0, 0, 0, []), chunks);
      assert |chunks[0]| > MAX_ROWS;
      Counted(chunks);
    }
  }

  /** Sent at once, a file above the cap has only as many rows accounted for as the cap allows. */
  lemma OneRequestLosesRows<S, Row>(create: Create<S, Row>, s: S, rows: seq<Row>)
    requires |rows| > MAX_ROWS
    ensures var summary := ImportInChunks(create, s, rows, 0).1;
            summary.totalRows == |rows| && summary.importedCount + summary.skippedCount == MAX_ROWS
  {
    hide WorkOff, SortByRow;
    var chunks := Chunks(rows, 0);
    assert chunks == [rows] && chunks[1..] == [];
    CountedRows(create, Totals(s, 0, 0, 0, []), chunks);
  }

  /** The rows the service looks at. */
  function Looked<Row>(chunks: seq<seq<Row>>): nat {
    if chunks == [] then 0 else |Capped(chunks[0])| + Looked(chunks[1..])
  }

  lemma {:induction false} CountedRows<S, Row>(create: Create<S, Row>, t: Totals<S>, chunks: seq<seq<Row>>)
    requires NonEmpty(chunks)
    ensures var u := Send(create, t, chunks);
            u.imported + u.skipped == t.imported + t.skipped + Looked(chunks)
    decreases |chunks|
  {
    if chunks == [] {
    } else {
      CountedRows(create, AddAnswer(create, t, chunks[0]), chunks[1..]);
    }
  }

  lemma {:induction false} Counted<Row>(chunks: seq<seq<Row>>)
    ensures Looked(chunks) <= |Concat(chunks)|
    ensures chunks != [] && |chunks[0]| > MAX_ROWS ==> Looked(chunks) < |Concat(chunks)|
  {
    if chunks == [] {
    } else {
      Counted(chunks[1..]);
    }
  }

  /** The board's own chunk size makes the chunked import and a single request agree exactly on
      the files that a single request takes whole. */
  lemma OneRequest<S, Row>(create: Create<S, Row>, s: S, rows: seq<Row>)
    requires rows != []
    ensures ImportInChunks(create, s, rows, CHUNK_SIZE) == Serve(create, s, rows) <==> |rows| <= 1000
  {
    ChunkedImport(create, s, rows, CHUNK_SIZE);
  }

  // ----- the service and the board, said without recursion over the rows to come

  /** The database behind the first `k` rows. */
  function StateAt<S, Row>(create: Create<S, Row>, s: S, rows: seq<Row>, k: nat): S
    requires k <= |rows|
  {
    if k == 0 then s else create(StateAt(create, s, rows, k - 1), rows[k - 1]).0
  }

  /** What creating row `k` comes to in the database the rows before it left. */
  function FaultAt<S, Row>(create: Create<S, Row>, s: S, rows: seq<Row>, k: nat): Option<Fault>
    requires k < |rows|
  {
    create(StateAt(create, s, rows, k), rows[k]).1
  }

  lemma {:induction false} StateShift<S, Row>(create: Create<S, Row>, s: S, rows: seq<Row>, k: nat)
    requires k < |rows|
    ensures StateAt(create, s, rows, k + 1) == StateAt(create, create(s, rows[0]).0, rows[1..], k)
  {
    if k == 0 {
      assert StateAt(create, s, rows, 0) == s;
    } else {
      StateShift(create, s, rows, k - 1);
      assert rows[1..][k - 1] == rows[k];
    }
  }

  /** Working rows off leaves the database behind the last of them and reports each row whose
      creation failed where it was its turn, by its position, and no other. */
  lemma {:induction false} WorkOffMeaning<S, Row>(create: Create<S, Row>, s: S, rows: seq<Row>, first: nat, e: ImportError)
    ensures var t := WorkOff(create, s, rows, first);
            && t.state == StateAt(create, s, rows, |rows|)
            && t.imported + |t.errors| == |rows|
            && (e in t.errors <==>
                first <= e.rowIndex < first + |rows|
                && FaultAt(create, s, rows, e.rowIndex - first) == Some(e.fault))
  {
    if rows == [] {
    } else {
      var next, k := create(s, rows[0]).0, e.rowIndex - first;
      StateShift(create, s, rows, |rows| - 1);
      WorkOffFirst(create, s, rows, first);
      hide WorkOff, StateAt;
      WorkOffMeaning(create, next, rows[1..], first + 1, e);
      StateAtStart(create, s, rows);
      if 0 < k < |rows| {
        StateShift(create, s, rows, k - 1);
        assert rows[1..][k - 1] == rows[k];
      }
    }
  }

  lemma StateAtStart<S, Row>(create: Create<S, Row>, s: S, rows: seq<Row>)
    ensures StateAt(create, s, rows, 0) == s
  {
  }

  /** A request is answered for its first thousand rows as if there were no others. */
  lemma CapMeaning<S, Row>(create: Create<S, Row>, s: S, rows: seq<Row>)
    requires |rows| > 1000
    ensures Serve(create, s, rows) == Serve(create, s, rows[..1000])
    ensures Serve(create, s, rows).1.totalRows == 1000
  {
  }

  /** The errors with a row index, in order. */
  function OfRow(es: seq<ImportError>, row: nat): seq<ImportError> {
    if es == [] then [] else (if es[0].rowIndex == row then [es[0]] else []) + OfRow(es[1..], row)
  }

  ghost predicate InOrder(es: seq<ImportError>) {
    forall i, j :: 0 <= i < j < |es| ==> es[i].rowIndex <= es[j].rowIndex
  }

  lemma OfRowFirst(e: ImportError, es: seq<ImportError>, row: nat)
    ensures OfRow([e] + es, row) == (if e.rowIndex == row then [e] else []) + OfRow(es, row)
  {
    assert ([e] + es)[1..] == es;
  }

  lemma InOrderFirst(e: ImportError, es: seq<ImportError>)
    ensures InOrder([e] + es) <==> InOrder(es) && forall x :: x in es ==> e.rowIndex <= x.rowIndex
  {
    var all := [e] + es;
    if InOrder(all) {
      forall i, j | 0 <= i < j < |es| ensures es[i].rowIndex <= es[j].rowIndex {
        assert all[i + 1].rowIndex <= all[j + 1].rowIndex;
      }
      forall x | x in es ensures e.rowIndex <= x.rowIndex {
        var j :| 0 <= j < |es| && es[j] == x;
        assert all[0].rowIndex <= all[j + 1].rowIndex;
      }
    }
  }

  lemma {:induction false} InsertMeaning(e: ImportError, es: seq<ImportError>, row: nat)
    requires InOrder(es)
    ensures InOrder(InsertByRow(e, es))
    ensures OfRow(InsertByRow(e, es), row) == OfRow([e] + es, row)
    ensures forall x :: x in InsertByRow(e, es) <==> x == e || x in es
  {
    hide InOrder, OfRow;
    if es == [] {
      assert [e] + es == [e];
      InOrderFirst(e, []);
      NothingInOrder();
    } else {
      FirstAndRest(es);
      InOrderFirst(es[0], es[1..]);
      if e.rowIndex <= es[0].rowIndex {
        InOrderFirst(e, es);
      } else {
        var rest := InsertByRow(e, es[1..]);
        InsertMeaning(e, es[1..], row);
        InOrderFirst(es[0], rest);
        OfRowFirst(es[0], rest, row);
        OfRowFirst(e, es[1..], row);
        OfRowFirst(e, es, row);
        OfRowFirst(es[0], es[1..], row);
      }
    }
  }

  lemma NothingInOrder()
    ensures InOrder([])
  {
  }

  /** The errors come in the order of their rows, those of one row in the order they came in. */
  lemma {:induction false} SortMeaning(es: seq<ImportError>, row: nat)
    ensures InOrder(SortByRow(es)) && OfRow(SortByRow(es), row) == OfRow(es, row)
  {
    if es == [] {
    } else {
      hide InOrder, OfRow;
      var rest := SortByRow(es[1..]);
      SortMeaning(es[1..], row);
      InsertMeaning(es[0], rest, row);
      OfRowFirst(es[0], rest, row);
      OfRowFirst(es[0], es[1..], row);
      FirstAndRest(es);
    }
  }

  /** The board sends 150 rows with each request but the last. */
  lemma RequestSizes<Row>(rows: seq<Row>, i: nat)
    requires rows != [] && i < |Chunks(rows, CHUNK_SIZE)|
    ensures var chunks := Chunks(rows, CHUNK_SIZE);
            && 1 <= |chunks[i]| <= 150 && (i < |chunks| - 1 ==> |chunks[i]| == 150)
            && Concat(chunks) == rows
  {
    ChunksNonEmpty(rows, CHUNK_SIZE);
    ChunksPartition(rows, CHUNK_SIZE);
  }
}
