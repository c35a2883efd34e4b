/** How token lists split into records: the facts the round trips rest on. */
module CsvRecords {
  import opened JsString
  import opened Sequences
  import opened Csv

  ghost predicate SpaceToken(t: Token) {
    t.Ch? && IsSpace(t.c)
  }

  ghost predicate SpaceTokens(ts: seq<Token>) {
    forall i :: 0 <= i < |ts| ==> SpaceToken(ts[i])
  }

  /** No visible character at all. */
  ghost predicate Invisible(ts: seq<Token>) {
    forall i :: 0 <= i < |ts| ==> ts[i].Ch? ==> IsSpace(ts[i].c)
  }

  function Seps(ts: seq<Token>): nat {
    if ts == [] then 0 else (if ts[0] == Sep then 1 else 0) + Seps(ts[1..])
  }

  lemma {:induction false} SepsConcat(a: seq<Token>, b: seq<Token>)
    ensures Seps(a + b) == Seps(a) + Seps(b)
  {
    if a == [] {
      assert a + b == b;
    } else {
      SepsConcat(a[1..], b);
      assert (a + b)[1..] == a[1..] + b;
    }
  }

  lemma {:induction false} NoSeps(ts: seq<Token>)
    requires Sep !in ts
    ensures Seps(ts) == 0
  {
    if ts == [] {
    } else {
      NoSeps(ts[1..]);
    }
  }

  lemma PrependConcat(t: Token, rs: Table, more: Table)
    requires |rs| > 0 && |rs[0]| > 0
    ensures Prepend(t, rs + more) == Prepend(t, rs) + more
  {
    assert (rs + more)[0] == rs[0] && (rs + more)[1..] == rs[1..] + more;
  }

  /** An end of record separates the records before it from those behind it. */
  lemma {:induction false} RecordsConcat(a: seq<Token>, b: seq<Token>)
    ensures Records(a + [Eol] + b) == Records(a) + Records(b)
  {
    if a == [] {
      assert a + [Eol] + b == [Eol] + b;
      assert ([Eol] + b)[1..] == b;
    } else {
      hide Prepend;
      RecordsConcat(a[1..], b);
      assert (a + [Eol] + b)[1..] == a[1..] + [Eol] + b;
      PrependConcat(a[0], Records(a[1..]), Records(b));
    }
  }

  lemma {:induction false} RecordsWidth(ts: seq<Token>)
    ensures forall k :: 0 <= k < |Records(ts)| ==> 1 <= |Records(ts)[k]| <= 1 + Seps(ts)
    ensures |Records(ts)[0]| <= 1 + Seps(ts)
  {
    if ts == [] {
    } else {
      RecordsWidth(ts[1..]);
      var rs := Records(ts[1..]);
      forall k | 0 <= k < |Records(ts)| ensures 1 <= |Records(ts)[k]| <= 1 + Seps(ts) {
        match ts[0]
        case Eol => if k > 0 { assert Records(ts)[k] == rs[k - 1]; }
        case Sep => if k > 0 { assert Records(ts)[k] == rs[k]; }
        case Ch(c) => if k > 0 { assert Records(ts)[k] == rs[k]; }
      }
    }
  }

  lemma {:induction false} CleanWidth(t: Table, n: nat)
    requires forall k :: 0 <= k < |t| ==> 1 <= |t[k]| <= n
    ensures forall k :: 0 <= k < |Clean(t)| ==> 1 <= |Clean(t)[k]| <= n
  {
    if t == [] {
    } else {
      CleanWidth(t[1..], n);
    }
  }

  ghost predicate InvisibleRow(r: Row) {
    forall i :: 0 <= i < |r| ==> AllSpace(r[i])
  }

  lemma BlankIsInvisible(r: Row)
    ensures Blank(TrimRow(r)) <==> InvisibleRow(r)
    ensures Clean([r]) == [] <==> InvisibleRow(r)
  {
    forall i | 0 <= i < |r| ensures Trim(r[i]) == "" <==> AllSpace(r[i]) {
      TrimEnds(r[i]);
    }
    assert InvisibleRow(r) ==> forall i :: 0 <= i < |r| ==> TrimRow(r)[i] == "";
    assert Blank(TrimRow(r)) ==> forall i :: 0 <= i < |r| ==> TrimRow(r)[i] == "" && AllSpace(r[i]);
    CleanOne(r);
  }

  lemma InvisibleCons(c: char, s: string)
    ensures AllSpace([c] + s) <==> IsSpace(c) && AllSpace(s)
  {
    if AllSpace([c] + s) {
      assert ([c] + s)[0] == c;
      forall i | 0 <= i < |s| ensures IsSpace(s[i]) {
        assert ([c] + s)[i + 1] == s[i];
      }
    }
  }

  lemma InvisibleFirst(r: Row, t: Table)
    ensures Clean([r] + t) == [] <==> InvisibleRow(r) && Clean(t) == []
  {
    CleanCons(r, t);
    BlankIsInvisible(r);
  }

  lemma InvisibleGlue(c: char, r: Row)
    requires r != []
    ensures InvisibleRow([[c] + r[0]] + r[1..]) <==> IsSpace(c) && InvisibleRow(r)
  {
    var g := [[c] + r[0]] + r[1..];
    InvisibleCons(c, r[0]);
    assert g[0] == [c] + r[0];
    assert forall i :: 1 <= i < |r| ==> g[i] == r[i];
  }

  /** Nothing survives the cleaning exactly when there is no visible character. */
  lemma {:induction false} NothingVisible(ts: seq<Token>)
    ensures Clean(Records(ts)) == [] <==> Invisible(ts)
  {
    if ts == [] {
      BlankIsInvisible([""]);
    } else {
      hide Clean, InvisibleRow;
      NothingVisible(ts[1..]);
      InvisibleTail(ts);
      var rs := Records(ts[1..]);
      assert rs == [rs[0]] + rs[1..];
      InvisibleFirst(rs[0], rs[1..]);
      match ts[0]
      case Eol =>
        InvisibleFirst([""], rs);
        EmptyCellInvisible([]);
      case Sep =>
        InvisibleFirst([""] + rs[0], rs[1..]);
        EmptyCellInvisible(rs[0]);
      case Ch(c) =>
        InvisibleFirst([[c] + rs[0][0]] + rs[0][1..], rs[1..]);
        InvisibleGlue(c, rs[0]);
    }
  }

  lemma EmptyCellInvisible(r: Row)
    ensures InvisibleRow([""] + r) <==> InvisibleRow(r)
    ensures InvisibleRow([""])
  {
    assert forall i :: 0 <= i < |r| ==> ([""] + r)[i + 1] == r[i];
  }

  lemma InvisibleTail(ts: seq<Token>)
    requires ts != []
    ensures Invisible(ts) <==> (ts[0].Ch? ==> IsSpace(ts[0].c)) && Invisible(ts[1..])
  {
    if Invisible(ts[1..]) {
      assert forall i :: 1 <= i < |ts| ==> ts[i] == ts[1..][i - 1];
    }
  }

  /** White space in front of everything is invisible. */
  lemma DropLeading(t: Token, ts: seq<Token>)
    requires t == Eol || SpaceToken(t)
    ensures Clean(Records([t] + ts)) == Clean(Records(ts))
  {
    assert ([t] + ts)[1..] == ts;
    var rs := Records(ts);
    if t == Eol {
      CleanCons([""], rs);
      BlankIsInvisible([""]);
    } else {
      var r := [[t.c] + rs[0][0]] + rs[0][1..];
      TrimLeadingSpace(t.c, rs[0][0]);
      assert TrimRow(r) == TrimRow(rs[0]);
      assert rs == [rs[0]] + rs[1..];
      CleanCons(r, rs[1..]);
      CleanCons(rs[0], rs[1..]);
      CleanOne(r);
      CleanOne(rs[0]);
    }
  }

  lemma {:induction false} DropTrailingWith(row: Row, value: string, ts: seq<Token>, c: char)
    requires IsSpace(c) && TrimRow(row) == row
    ensures Clean(Pending(row, value, Records(ts + [Ch(c)]))) == Clean(Pending(row, value, Records(ts)))
    decreases |ts|
  {
    hide Clean, Pending, Records;
    if ts == [] {
      assert ts + [Ch(c)] == [Ch(c)] + [];
      PendingChar(row, value, c, []);
      PendingNothing(row, value);
      PendingNothing(row, value + [c]);
      TrimTrailingSpace(value, c);
    } else {
      var rest := ts[1..];
      assert ts == [ts[0]] + rest && ts + [Ch(c)] == [ts[0]] + (rest + [Ch(c)]);
      match ts[0]
      case Eol =>
        DropTrailingWith([], "", rest, c);
        PendingEol(row, value, rest);
        PendingEol(row, value, rest + [Ch(c)]);
        NothingPending(Records(rest));
        NothingPending(Records(rest + [Ch(c)]));
      case Sep =>
        TrimRowSnoc(row, value);
        DropTrailingWith(row + [Trim(value)], "", rest, c);
        PendingSep(row, value, rest);
        PendingSep(row, value, rest + [Ch(c)]);
      case Ch(b) =>
        DropTrailingWith(row, value + [b], rest, c);
        PendingChar(row, value, b, rest);
        PendingChar(row, value, b, rest + [Ch(c)]);
    }
  }

  /** White space behind everything is invisible. */
  lemma DropTrailing(ts: seq<Token>, t: Token)
    requires t == Eol || SpaceToken(t)
    ensures Clean(Records(ts + [t])) == Clean(Records(ts))
  {
    if t == Eol {
      RecordsConcat(ts, []);
      assert ts + [Eol] + [] == ts + [Eol];
      CleanConcat(Records(ts), [[""]]);
      BlankIsInvisible([""]);
    } else {
      DropTrailingWith([], "", ts, t.c);
      NothingPending(Records(ts));
      NothingPending(Records(ts + [t]));
    }
  }

  /** `soft` is `hard` with some CR characters read as ends of records. */
  ghost predicate Softens(soft: seq<Token>, hard: seq<Token>) {
    && |soft| == |hard|
    && forall i :: 0 <= i < |soft| ==> soft[i] == hard[i] || (soft[i] == Eol && hard[i] == Ch(CR))
  }

  /** Every end of record stands in the white space around everything visible. */
  ghost predicate EolsOutside(soft: seq<Token>, hard: seq<Token>)
    requires |soft| == |hard|
  {
    forall i :: 0 <= i < |soft| ==> soft[i] == Eol ==> SpaceTokens(hard[..i]) || SpaceTokens(hard[i + 1..])
  }

  lemma {:induction false} SoftEolsInvisible(soft: seq<Token>, hard: seq<Token>)
    requires Softens(soft, hard) && EolsOutside(soft, hard)
    ensures Clean(Records(soft)) == Clean(Records(hard))
    decreases |soft|
  {
    hide Clean, Records;
    if soft == hard {
    } else if soft[0] == Eol || SpaceToken(soft[0]) {
      OutsideTail(soft, hard);
      SoftEolsInvisible(soft[1..], hard[1..]);
      FirstAndRest(soft);
      FirstAndRest(hard);
      DropLeading(soft[0], soft[1..]);
      DropLeading(hard[0], hard[1..]);
    } else {
      var n := |soft| - 1;
      LastIsSpace(soft, hard);
      OutsideInit(soft, hard);
      SoftEolsInvisible(soft[..n], hard[..n]);
      InitAndLast(soft);
      InitAndLast(hard);
      DropTrailing(soft[..n], soft[n]);
      DropTrailing(hard[..n], hard[n]);
    }
  }

  /** Behind a visible start every softened CR stands in the white space at the end. */
  lemma LastIsSpace(soft: seq<Token>, hard: seq<Token>)
    requires Softens(soft, hard) && EolsOutside(soft, hard) && soft != hard
    requires soft[0] != Eol && !SpaceToken(soft[0])
    ensures soft[|soft| - 1] == Eol || SpaceToken(soft[|soft| - 1])
    ensures SpaceToken(hard[|hard| - 1])
  {
    var n := |soft| - 1;
    var i :| 0 <= i <= n && soft[i] != hard[i];
    assert hard[..i][0] == hard[0];
    assert SpaceTokens(hard[i + 1..]);
    if i < n {
      assert hard[i + 1..][n - i - 1] == hard[n];
    }
  }

  lemma OutsideTail(soft: seq<Token>, hard: seq<Token>)
    requires Softens(soft, hard) && EolsOutside(soft, hard) && soft != []
    ensures Softens(soft[1..], hard[1..]) && EolsOutside(soft[1..], hard[1..])
  {
    var s, h := soft[1..], hard[1..];
    forall i | 0 <= i < |s| && s[i] == Eol
      ensures SpaceTokens(h[..i]) || SpaceTokens(h[i + 1..])
    {
      assert soft[i + 1] == Eol;
      if SpaceTokens(hard[..i + 1]) {
        assert forall k :: 0 <= k < i ==> h[..i][k] == hard[..i + 1][k + 1];
      } else {
        assert h[i + 1..] == hard[i + 2..];
      }
    }
  }

  lemma OutsideInit(soft: seq<Token>, hard: seq<Token>)
    requires Softens(soft, hard) && EolsOutside(soft, hard) && soft != []
    ensures Softens(soft[..|soft| - 1], hard[..|soft| - 1]) && EolsOutside(soft[..|soft| - 1], hard[..|soft| - 1])
  {
    var s, h := soft[..|soft| - 1], hard[..|soft| - 1];
    forall i | 0 <= i < |s| && s[i] == Eol
      ensures SpaceTokens(h[..i]) || SpaceTokens(h[i + 1..])
    {
      assert soft[i] == Eol;
      if SpaceTokens(hard[..i]) {
        assert h[..i] == hard[..i];
      } else {
        assert h[i + 1..] <= hard[i + 1..];
      }
    }
  }
}
