/** What the reconciliation pass guarantees about the table it returns and about its audit
    log: cell by cell for one step, column by column for one row, and for the whole table. */
module ReconcileProperties {
  import opened Cells
  import opened Strings
  import opened FinancialFields
  import opened Frames
  import opened Reconcile

  /** The columns the pass may write besides the listed ones. */
  predicate Special(n: string)
  {
    n == NotesColumn || n == LtmEbitda || n == LtmRevenue
  }

  // ---------------------------------------------------------------- one step

  /** A step leaves alone every cell of its row outside its own column, the notes and the
      two target columns. */
  lemma StepFrame(f: Frame, run: Run, i: nat, col: string, n: string)
    requires Fits(f, run) && i < f.height && col in f.cols
    requires n != col && !Special(n)
    ensures View(Step(f, run, i, col), n, i) == View(f, n, i)
  {
  }

  /** A step writes the converted number into its own cell, unless the value read is missing. */
  lemma StepOwn(f: Frame, run: Run, i: nat, col: string)
    requires Fits(f, run) && i < f.height && col in f.cols && !Special(col)
    ensures View(Step(f, run, i, col), col, i) ==
      if View(run.snap, col, i).Missing? then View(f, col, i)
      else Converted(View(run.snap, col, i), run.rate, run.render)
  {
  }

  /** The notes cell after one cell, read as `raw` from column `col`, has been handled. */
  function NoteAfter(cur: Cell, col: string, raw: Cell, render: real -> string): Cell
  {
    if raw.Missing? then cur
    else
      var frags := Fragments(col, raw, render);
      if frags == [] then cur else AppendNote(cur, Join(frags, Separator), render)
  }

  /** A step on another column appends that cell's fragments to the notes of its row. */
  lemma StepNotes(f: Frame, run: Run, i: nat, col: string)
    requires Fits(f, run) && i < f.height && col in f.cols && col != NotesColumn
    ensures View(Step(f, run, i, col), NotesColumn, i) ==
      NoteAfter(View(f, NotesColumn, i), col, View(run.snap, col, i), run.render)
  {
  }

  /** The cell of column `t` after one cell has been handled: the converted number if the
      cell names `t` as its target, otherwise what was there. */
  function CopyAfter(cur: Cell, t: string, raw: Cell, rate: real, render: real -> string): Cell
  {
    if !raw.Missing? && Target(raw, render) == Some(t) then Converted(raw, rate, render) else cur
  }

  /** A step on another column copies its number into the column its text names. */
  lemma StepCopy(f: Frame, run: Run, i: nat, col: string, t: string)
    requires Fits(f, run) && i < f.height && col in f.cols && col != t && t != NotesColumn
    ensures View(Step(f, run, i, col), t, i) ==
      CopyAfter(View(f, t, i), t, View(run.snap, col, i), run.rate, run.render)
  {
  }

  // ---------------------------------------------------------------- one row

  /** The notes of row `i` after the columns `cs`, starting from `cur`. */
  function NotesAfter(run: Run, i: nat, cs: seq<string>, cur: Cell): Cell
    decreases |cs|
  {
    if cs == [] then cur
    else
      var c := cs[|cs| - 1];
      NoteAfter(NotesAfter(run, i, cs[..|cs| - 1], cur), c, View(run.snap, c, i), run.render)
  }

  /** The cell of column `t` in row `i` after the columns `cs`, starting from `cur`. */
  function CopiesAfter(run: Run, i: nat, cs: seq<string>, t: string, cur: Cell): Cell
    decreases |cs|
  {
    if cs == [] then cur
    else
      var c := cs[|cs| - 1];
      CopyAfter(CopiesAfter(run, i, cs[..|cs| - 1], t, cur), t, View(run.snap, c, i), run.rate, run.render)
  }

  /** Within a row, a listed ordinary column ends as the converted value read from the
      snapshot (or stays as it is when that value is missing); an ordinary column that is
      not listed is not touched. */
  lemma {:induction false} RunRowOwn(g: Frame, run: Run, i: nat, cs: seq<string>, c: string)
    requires Fits(g, run) && i < g.height
    requires forall d :: d in cs ==> d in run.check
    requires !Special(c)
    ensures View(RunRow(g, run, i, cs), c, i) ==
      if c in cs && !View(run.snap, c, i).Missing? then Converted(View(run.snap, c, i), run.rate, run.render)
      else View(g, c, i)
    decreases |cs|
  {
    if cs != [] {
      var init, d := cs[..|cs| - 1], cs[|cs| - 1];
      assert cs == init + [d];
      RunRowOwn(g, run, i, init, c);
      if d == c {
        StepOwn(RunRow(g, run, i, init), run, i, c);
      } else {
        StepFrame(RunRow(g, run, i, init), run, i, d, c);
      }
    }
  }

  /** Within a row, the notes collect the fragments of the listed columns in list order. */
  lemma {:induction false} RunRowNotes(g: Frame, run: Run, i: nat, cs: seq<string>)
    requires Fits(g, run) && i < g.height
    requires forall d :: d in cs ==> d in run.check
    requires NotesColumn !in cs
    ensures View(RunRow(g, run, i, cs), NotesColumn, i) == NotesAfter(run, i, cs, View(g, NotesColumn, i))
    decreases |cs|
  {
    if cs != [] {
      var init := cs[..|cs| - 1];
      RunRowNotes(g, run, i, init);
      StepNotes(RunRow(g, run, i, init), run, i, cs[|cs| - 1]);
    }
  }

  /** Within a row, an unlisted column receives the numbers copied to it, the last one
      winning. */
  lemma {:induction false} RunRowCopies(g: Frame, run: Run, i: nat, cs: seq<string>, t: string)
    requires Fits(g, run) && i < g.height
    requires forall d :: d in cs ==> d in run.check
    requires t !in cs && t != NotesColumn
    ensures View(RunRow(g, run, i, cs), t, i) == CopiesAfter(run, i, cs, t, View(g, t, i))
    decreases |cs|
  {
    if cs != [] {
      var init := cs[..|cs| - 1];
      RunRowCopies(g, run, i, init, t);
      StepCopy(RunRow(g, run, i, init), run, i, cs[|cs| - 1], t);
    }
  }

  /** A step leaves no text in a column other than the notes that held none, and none in
      its own column when its cell is present. */
  lemma StepNoText(f: Frame, run: Run, i: nat, d: string, c: string)
    requires Fits(f, run) && i < f.height && d in f.cols && c != NotesColumn
    requires !View(f, c, i).Str? || (d == c && !View(run.snap, c, i).Missing?)
    ensures !View(Step(f, run, i, d), c, i).Str?
  {
  }

  /** Within a row, a column other than the notes ends without text if it started without
      text, or if it is listed and its cell is present. */
  lemma {:induction false} RunRowNoText(g: Frame, run: Run, i: nat, cs: seq<string>, c: string)
    requires Fits(g, run) && i < g.height
    requires forall d :: d in cs ==> d in run.check
    requires c != NotesColumn
    ensures !View(g, c, i).Str? ==> !View(RunRow(g, run, i, cs), c, i).Str?
    ensures c in cs && !View(run.snap, c, i).Missing? ==> !View(RunRow(g, run, i, cs), c, i).Str?
    decreases |cs|
  {
    if cs != [] {
      var init, d := cs[..|cs| - 1], cs[|cs| - 1];
      assert cs == init + [d];
      RunRowNoText(g, run, i, init, c);
      var h := RunRow(g, run, i, init);
      if !View(h, c, i).Str? || (d == c && !View(run.snap, c, i).Missing?) {
        StepNoText(h, run, i, d, c);
      }
    }
  }

  /** A cell adds nothing to the notes: it is missing or its text has no letter. */
  ghost predicate Silent(run: Run, i: nat, c: string)
  {
    var raw := View(run.snap, c, i);
    raw.Missing? || Keep(TextOf(raw, run.render), IsLetter) == []
  }

  /** Old notes are never lost: they stay present and their text stays in front. */
  lemma {:induction false} NotesKeepOld(run: Run, i: nat, cs: seq<string>, cur: Cell)
    requires !cur.Missing?
    ensures !NotesAfter(run, i, cs, cur).Missing?
    ensures TextOf(cur, run.render) <= TextOf(NotesAfter(run, i, cs, cur), run.render)
    decreases |cs|
  {
    if cs != [] {
      var c := cs[|cs| - 1];
      var prev := NotesAfter(run, i, cs[..|cs| - 1], cur);
      NotesKeepOld(run, i, cs[..|cs| - 1], cur);
      var a, b := TextOf(cur, run.render), TextOf(prev, run.render);
      var res := NoteAfter(prev, c, View(run.snap, c, i), run.render);
      if res != prev {
        var e := TextOf(res, run.render);
        assert b <= e;
        assert e[..|a|] == b[..|a|];
      }
    }
  }

  /** The notes end up missing exactly when they were missing and every listed cell is silent. */
  lemma {:induction false} NotesMissingIff(run: Run, i: nat, cs: seq<string>, cur: Cell)
    ensures NotesAfter(run, i, cs, cur).Missing? <==> cur.Missing? && forall c :: c in cs ==> Silent(run, i, c)
    decreases |cs|
  {
    if cs != [] {
      var init, c := cs[..|cs| - 1], cs[|cs| - 1];
      assert cs == init + [c];
      NotesMissingIff(run, i, init, cur);
      assert (forall d :: d in cs ==> Silent(run, i, d)) <==>
        (forall d :: d in init ==> Silent(run, i, d)) && Silent(run, i, c);
      var raw := View(run.snap, c, i);
      if !raw.Missing? {
        FragmentsEmptyIff(c, raw, run.render);
      }
    }
  }

  /** Cell `c` names column `t` as the place its number is copied to. */
  predicate Names(run: Run, i: nat, c: string, t: string)
  {
    var raw := View(run.snap, c, i);
    !raw.Missing? && Target(raw, run.render) == Some(t)
  }

  /** A column no listed cell names keeps its value. */
  lemma {:induction false} CopiesUntouched(run: Run, i: nat, cs: seq<string>, t: string, cur: Cell)
    requires forall c :: c in cs ==> !Names(run, i, c, t)
    ensures CopiesAfter(run, i, cs, t, cur) == cur
    decreases |cs|
  {
    if cs != [] {
      assert cs[|cs| - 1] in cs;
      CopiesUntouched(run, i, cs[..|cs| - 1], t, cur);
    }
  }

  /** The last listed cell that names a column decides its value. */
  lemma {:induction false} CopiesLast(run: Run, i: nat, cs: seq<string>, t: string, cur: Cell, j: nat)
    requires j < |cs| && Names(run, i, cs[j], t)
    requires forall k :: j < k < |cs| ==> !Names(run, i, cs[k], t)
    ensures CopiesAfter(run, i, cs, t, cur) == Converted(View(run.snap, cs[j], i), run.rate, run.render)
    decreases |cs|
  {
    var init, last := cs[..|cs| - 1], cs[|cs| - 1];
    assert CopiesAfter(run, i, cs, t, cur) ==
      CopyAfter(CopiesAfter(run, i, init, t, cur), t, View(run.snap, last, i), run.rate, run.render);
    if j < |cs| - 1 {
      assert forall k :: j < k < |init| ==> init[k] == cs[k];
      CopiesLast(run, i, init, t, cur, j);
    }
  }

  // ---------------------------------------------------------------- the whole table

  /** Once row `r` has been handled, the later rows leave it alone. */
  lemma {:induction false} RowSettled(f0: Frame, run: Run, k: nat, r: nat, n: string)
    requires Fits(f0, run) && r < k <= f0.height
    ensures View(RunRows(f0, run, k), n, r) == View(RunRow(RunRows(f0, run, r), run, r, run.check), n, r)
    decreases k
  {
    var prev := RunRows(f0, run, k - 1);
    assert RunRows(f0, run, k) == RunRow(prev, run, k - 1, run.check);
    if k > r + 1 {
      RowSettled(f0, run, k - 1, r, n);
    }
  }

  /** Row `r` of the result is row `r` of the starting table with the row's own pass applied. */
  lemma ProcessedRow(f: Frame, check: seq<string>, rate: real, render: real -> string, r: nat, n: string)
    requires Callable(f, check) && r < f.height
    ensures var run := RunOf(f, check, rate, render);
      var g := RunRows(run.snap, run, r);
      && View(g, n, r) == View(f, n, r)
      && View(Processed(f, check, rate, render), n, r) == View(RunRow(g, run, r, check), n, r)
  {
    var run := RunOf(f, check, rate, render);
    RowSettled(run.snap, run, f.height, r, n);
  }

  /** Every listed column other than the notes and the two target columns ends, in every row,
      as the cleaned (and, for CAD, converted) number of its old value, missing when that is
      missing; every other ordinary column is unchanged. */
  lemma ProcessedCells(f: Frame, check: seq<string>, rate: real, render: real -> string, c: string, r: nat)
    requires Callable(f, check) && r < f.height && !Special(c)
    ensures View(Processed(f, check, rate, render), c, r) ==
      if c in check && !View(f, c, r).Missing? then Converted(View(f, c, r), rate, render)
      else View(f, c, r)
  {
    var run := RunOf(f, check, rate, render);
    ProcessedRow(f, check, rate, render, r, c);
    RunRowOwn(RunRows(run.snap, run, r), run, r, check, c);
  }

  /** A listed column other than the notes holds no text after the pass, the two target
      columns included; an ordinary one is missing exactly when its old value does not
      clean to a number. */
  lemma ProcessedNoText(f: Frame, check: seq<string>, rate: real, render: real -> string, c: string, r: nat)
    requires Callable(f, check) && r < f.height && c in check && c != NotesColumn
    ensures !View(Processed(f, check, rate, render), c, r).Str?
    ensures !Special(c) ==>
      (View(Processed(f, check, rate, render), c, r).Missing? <==> CleanNumeric(View(f, c, r)).Missing?)
  {
    if !Special(c) {
      ProcessedCells(f, check, rate, render, c, r);
    } else {
      var run := RunOf(f, check, rate, render);
      var g := RunRows(run.snap, run, r);
      ProcessedRow(f, check, rate, render, r, c);
      assert View(run.snap, c, r) == View(f, c, r);
      RunRowNoText(g, run, r, check, c);
    }
  }

  /** When the notes column is not itself listed, each row's notes are its old notes with the
      fragments of the listed cells appended in list order. */
  lemma ProcessedNotes(f: Frame, check: seq<string>, rate: real, render: real -> string, r: nat)
    requires Callable(f, check) && r < f.height && NotesColumn !in check
    ensures View(Processed(f, check, rate, render), NotesColumn, r) ==
      NotesAfter(RunOf(f, check, rate, render), r, check, View(f, NotesColumn, r))
  {
    var run := RunOf(f, check, rate, render);
    ProcessedRow(f, check, rate, render, r, NotesColumn);
    RunRowNotes(RunRows(run.snap, run, r), run, r, check);
  }

  /** An unlisted column receives, in each row, the number of the last listed cell whose text
      names it, and keeps its old value when no cell names it. */
  lemma ProcessedCopies(f: Frame, check: seq<string>, rate: real, render: real -> string, t: string, r: nat)
    requires Callable(f, check) && r < f.height && t !in check && t != NotesColumn
    ensures View(Processed(f, check, rate, render), t, r) ==
      CopiesAfter(RunOf(f, check, rate, render), r, check, t, View(f, t, r))
  {
    var run := RunOf(f, check, rate, render);
    ProcessedRow(f, check, rate, render, r, t);
    RunRowCopies(RunRows(run.snap, run, r), run, r, check, t);
  }

  // ---------------------------------------------------------------- the audit log

  /** Every record of a row is the record of a present listed cell of that row. */
  lemma {:induction false} AuditRowSound(run: Run, i: nat, cs: seq<string>)
    ensures forall rec :: rec in AuditRow(run, i, cs) ==>
      && rec.columnName in cs
      && !View(run.snap, rec.columnName, i).Missing?
      && rec == Record(run, i, rec.columnName)
    decreases |cs|
  {
    if cs != [] {
      var init, c := cs[..|cs| - 1], cs[|cs| - 1];
      assert cs == init + [c];
      AuditRowSound(run, i, init);
    }
  }

  /** A log has a record for row `r`, column `c`. */
  ghost predicate Logged(log: seq<AuditRecord>, r: nat, c: string)
  {
    exists rec :: rec in log && rec.rowIndex == r && rec.columnName == c
  }

  /** `Logged`, found by walking the log from its end. */
  predicate Holds(log: seq<AuditRecord>, r: nat, c: string)
  {
    log != [] &&
      ((log[|log| - 1].rowIndex == r && log[|log| - 1].columnName == c) || Holds(log[..|log| - 1], r, c))
  }

  /** A log joined from two parts has a record exactly when one of the parts has it. */
  lemma {:induction false} HoldsAppend(a: seq<AuditRecord>, b: seq<AuditRecord>, r: nat, c: string)
    ensures Holds(a + b, r, c) <==> Holds(a, r, c) || Holds(b, r, c)
    decreases |b|
  {
    if b == [] {
      assert a + b == a;
    } else {
      var init := b[..|b| - 1];
      assert (a + b)[..|a + b| - 1] == a + init;
      HoldsAppend(a, init, r, c);
    }
  }

  /** A record found from the end is a record of the log. */
  lemma {:induction false} HoldsLogged(log: seq<AuditRecord>, r: nat, c: string)
    requires Holds(log, r, c)
    ensures Logged(log, r, c)
    decreases |log|
  {
    var last := log[|log| - 1];
    if !(last.rowIndex == r && last.columnName == c) {
      var init := log[..|log| - 1];
      HoldsLogged(init, r, c);
      var rec :| rec in init && rec.rowIndex == r && rec.columnName == c;
      assert rec in log;
    }
  }

  /** Every present listed cell of a row has its record in the row's log. */
  lemma {:induction false} AuditRowComplete(run: Run, i: nat, cs: seq<string>, c: string)
    requires c in cs && !View(run.snap, c, i).Missing?
    ensures Holds(AuditRow(run, i, cs), i, c)
    decreases |cs|
  {
    var init, d := cs[..|cs| - 1], cs[|cs| - 1];
    assert cs == init + [d];
    var prev, entry := AuditRow(run, i, init), Entry(run, i, d);
    assert AuditRow(run, i, cs) == prev + entry;
    HoldsAppend(prev, entry, i, c);
    if c == d {
      assert entry == [entry[0]];
    } else {
      AuditRowComplete(run, i, init, c);
    }
  }

  /** When every row lists only records of that row, each record of the joined rows is a
      record of its own row, and that row is one of the first `k`. */
  lemma {:induction false} RowsSound(k: nat, row: nat -> seq<AuditRecord>)
    requires forall i: nat, rec :: rec in row(i) ==> rec.rowIndex == i
    ensures forall rec :: rec in Rows(k, row) ==> rec.rowIndex < k && rec in row(rec.rowIndex)
  {
    if k > 0 {
      RowsSound(k - 1, row);
    }
  }

  /** A record in the list of one of the first `k` rows is in the joined rows. */
  lemma {:induction false} RowsComplete(k: nat, row: nat -> seq<AuditRecord>, r: nat, c: string)
    requires r < k && Holds(row(r), r, c)
    ensures Holds(Rows(k, row), r, c)
  {
    HoldsAppend(Rows(k - 1, row), row(k - 1), r, c);
    if r < k - 1 {
      RowsComplete(k - 1, row, r, c);
    }
  }

  /** When every row lists only records of that row, the joined rows come in row order. */
  lemma {:induction false} RowsOrdered(k: nat, row: nat -> seq<AuditRecord>)
    requires forall i: nat, rec :: rec in row(i) ==> rec.rowIndex == i
    ensures forall a, b :: 0 <= a < b < |Rows(k, row)| ==> Rows(k, row)[a].rowIndex <= Rows(k, row)[b].rowIndex
  {
    if k > 0 {
      var prev, last := Rows(k - 1, row), row(k - 1);
      var log := prev + last;
      assert Rows(k, row) == log;
      RowsOrdered(k - 1, row);
      RowsSound(k - 1, row);
      forall a, b | 0 <= a < b < |log| ensures log[a].rowIndex <= log[b].rowIndex {
        if b < |prev| {
          assert log[a] == prev[a] && log[b] == prev[b];
        } else if a < |prev| {
          assert log[a] == prev[a] && prev[a] in prev;
          assert log[b] == last[b - |prev|] && last[b - |prev|] in last;
        } else {
          assert log[a] == last[a - |prev|] && last[a - |prev|] in last;
          assert log[b] == last[b - |prev|] && last[b - |prev|] in last;
        }
      }
    }
  }

  /** Each row's records are records of that row. */
  lemma RowRecordsOwn(run: Run)
    ensures forall i: nat, rec :: rec in RowRecords(run)(i) ==> rec.rowIndex == i
  {
    forall i: nat, rec | rec in RowRecords(run)(i) ensures rec.rowIndex == i {
      AuditRowSound(run, i, run.check);
    }
  }

  /** The log of the first `k` rows holds only records of their present listed cells. */
  lemma AuditRowsSound(run: Run, k: nat)
    ensures forall rec :: rec in AuditRows(run, k) ==>
      && rec.rowIndex < k
      && rec.columnName in run.check
      && !View(run.snap, rec.columnName, rec.rowIndex).Missing?
      && rec == Record(run, rec.rowIndex, rec.columnName)
  {
    RowRecordsOwn(run);
    RowsSound(k, RowRecords(run));
    forall rec | rec in AuditRows(run, k)
      ensures rec.columnName in run.check && !View(run.snap, rec.columnName, rec.rowIndex).Missing?
      ensures rec == Record(run, rec.rowIndex, rec.columnName)
    {
      AuditRowSound(run, rec.rowIndex, run.check);
    }
  }

  /** Every present listed cell of the first `k` rows has its record in their log. */
  lemma AuditRowsComplete(run: Run, k: nat, r: nat, c: string)
    requires r < k && c in run.check && !View(run.snap, c, r).Missing?
    ensures Holds(AuditRows(run, k), r, c)
  {
    AuditRowComplete(run, r, run.check, c);
    RowsComplete(k, RowRecords(run), r, c);
  }

  /** The records come row by row. */
  lemma AuditRowsOrdered(run: Run, k: nat)
    ensures forall a, b :: 0 <= a < b < |AuditRows(run, k)| ==> AuditRows(run, k)[a].rowIndex <= AuditRows(run, k)[b].rowIndex
  {
    RowRecordsOwn(run);
    RowsOrdered(k, RowRecords(run));
  }

  /** The listed columns whose cell in row `i` of the snapshot is present, in list order. */
  function Present(run: Run, i: nat, cs: seq<string>): (ps: seq<string>)
    ensures |ps| <= |cs|
    ensures forall c :: c in ps <==> c in cs && !View(run.snap, c, i).Missing?
    ensures forall k :: 0 <= k < |ps| ==> !View(run.snap, ps[k], i).Missing?
    decreases |cs|
  {
    if cs == [] then []
    else
      var init, d := cs[..|cs| - 1], cs[|cs| - 1];
      assert cs == init + [d];
      Present(run, i, init) + (if View(run.snap, d, i).Missing? then [] else [d])
  }

  /** The entries `e(c)` of the columns `cs`, one after the other. */
  function Joined(cs: seq<string>, e: string -> seq<AuditRecord>): seq<AuditRecord>
    decreases |cs|
  {
    if cs == [] then [] else Joined(cs[..|cs| - 1], e) + e(cs[|cs| - 1])
  }

  /** The columns of `cs` whose entry is not empty, in list order. */
  function Having(cs: seq<string>, e: string -> seq<AuditRecord>): seq<string>
    decreases |cs|
  {
    if cs == [] then []
    else Having(cs[..|cs| - 1], e) + (if e(cs[|cs| - 1]) == [] then [] else [cs[|cs| - 1]])
  }

  /** When every entry has at most one record, the joined entries are the records of the
      columns that have one, in order. */
  lemma {:induction false} JoinedExact(cs: seq<string>, e: string -> seq<AuditRecord>)
    requires forall c :: |e(c)| <= 1
    ensures |Joined(cs, e)| == |Having(cs, e)|
    ensures forall k :: 0 <= k < |Having(cs, e)| ==>
      e(Having(cs, e)[k]) != [] && Joined(cs, e)[k] == e(Having(cs, e)[k])[0]
    decreases |cs|
  {
    if cs != [] {
      var init, d := cs[..|cs| - 1], cs[|cs| - 1];
      JoinedExact(init, e);
      var prev, hs := Joined(init, e), Having(init, e);
      var last := if e(d) == [] then [] else [d];
      assert Joined(cs, e) == prev + e(d);
      assert Having(cs, e) == hs + last;
      forall k | 0 <= k < |hs + last|
        ensures e((hs + last)[k]) != [] && (prev + e(d))[k] == e((hs + last)[k])[0]
      {
        if k < |hs| {
          assert (prev + e(d))[k] == prev[k] && (hs + last)[k] == hs[k];
        } else {
          assert (prev + e(d))[k] == e(d)[0] && (hs + last)[k] == d;
        }
      }
    }
  }

  /** The entry of each column of row `i`, as a function of the column. */
  function EntryOf(run: Run, i: nat): string -> seq<AuditRecord>
  {
    (c: string) => Entry(run, i, c)
  }

  lemma {:induction false} AuditRowJoined(run: Run, i: nat, cs: seq<string>)
    ensures AuditRow(run, i, cs) == Joined(cs, EntryOf(run, i))
    decreases |cs|
  {
    if cs != [] {
      AuditRowJoined(run, i, cs[..|cs| - 1]);
    }
  }

  lemma {:induction false} PresentHaving(run: Run, i: nat, cs: seq<string>)
    ensures Present(run, i, cs) == Having(cs, EntryOf(run, i))
    decreases |cs|
  {
    if cs != [] {
      PresentHaving(run, i, cs[..|cs| - 1]);
      var d := cs[|cs| - 1];
      assert EntryOf(run, i)(d) == [] <==> View(run.snap, d, i).Missing?;
    }
  }

  /** A row has one record per present listed cell. */
  lemma AuditRowLength(run: Run, i: nat, cs: seq<string>)
    ensures |AuditRow(run, i, cs)| == |Present(run, i, cs)|
  {
    AuditRowJoined(run, i, cs);
    PresentHaving(run, i, cs);
    JoinedExact(cs, EntryOf(run, i));
  }

  /** The `k`-th record of a row is the record of its `k`-th present listed cell. */
  lemma AuditRowAt(run: Run, i: nat, cs: seq<string>, k: nat)
    requires k < |Present(run, i, cs)|
    ensures k < |AuditRow(run, i, cs)| && AuditRow(run, i, cs)[k] == Record(run, i, Present(run, i, cs)[k])
  {
    AuditRowJoined(run, i, cs);
    PresentHaving(run, i, cs);
    JoinedExact(cs, EntryOf(run, i));
  }

  /** A row's records are the records of its present listed cells, one each, in list order. */
  lemma AuditRowExact(run: Run, i: nat, cs: seq<string>)
    ensures |AuditRow(run, i, cs)| == |Present(run, i, cs)|
    ensures forall k :: 0 <= k < |Present(run, i, cs)| ==>
      AuditRow(run, i, cs)[k] == Record(run, i, Present(run, i, cs)[k])
  {
    AuditRowLength(run, i, cs);
    forall k | 0 <= k < |Present(run, i, cs)|
      ensures AuditRow(run, i, cs)[k] == Record(run, i, Present(run, i, cs)[k])
    {
      AuditRowAt(run, i, cs, k);
    }
  }

  /** The sum of `n(0)` to `n(k - 1)`. */
  function Total(k: nat, n: nat -> nat): nat
  {
    if k == 0 then 0 else Total(k - 1, n) + n(k - 1)
  }

  lemma {:induction false} RowsLength(k: nat, row: nat -> seq<AuditRecord>, n: nat -> nat)
    requires forall i: nat :: i < k ==> |row(i)| == n(i)
    ensures |Rows(k, row)| == Total(k, n)
  {
    if k > 0 {
      RowsLength(k - 1, row, n);
    }
  }

  /** The number of present listed cells of each row. */
  function PresentCounts(run: Run): nat -> nat
  {
    (i: nat) => |Present(run, i, run.check)|
  }

  /** The number of present listed cells in the first `k` rows of the snapshot. */
  function PresentCount(run: Run, k: nat): nat
  {
    Total(k, PresentCounts(run))
  }

  /** The `j`-th record of row `i` sits in the joined rows right after the records of the
      rows before it. */
  lemma {:induction false} RowsAt(k: nat, row: nat -> seq<AuditRecord>, i: nat, j: nat)
    requires i < k && j < |row(i)|
    ensures |Rows(i, row)| + j < |Rows(k, row)|
    ensures Rows(k, row)[|Rows(i, row)| + j] == row(i)[j]
    decreases k
  {
    var prev := Rows(k - 1, row);
    assert Rows(k, row) == prev + row(k - 1);
    if i < k - 1 {
      RowsAt(k - 1, row, i, j);
    }
  }

  /** The log of the first `k` rows has one record per present listed cell of those rows. */
  lemma AuditRowsCount(run: Run, k: nat)
    ensures |AuditRows(run, k)| == PresentCount(run, k)
  {
    RowLengths(run);
    RowsLength(k, RowRecords(run), PresentCounts(run));
  }

  /** The log of the first `k` rows (for `k` the height, the audit log itself) is the rows'
      records one row after the other: row `i`'s records start at position
      `PresentCount(run, i)`, the number of present listed cells of the rows before it. */
  lemma AuditRowsAt(run: Run, k: nat, i: nat, j: nat)
    requires i < k && j < |Present(run, i, run.check)|
    ensures |AuditRow(run, i, run.check)| == |Present(run, i, run.check)|
    ensures PresentCount(run, i) + j < |AuditRows(run, k)|
    ensures AuditRows(run, k)[PresentCount(run, i) + j] == AuditRow(run, i, run.check)[j]
  {
    AuditRowLength(run, i, run.check);
    AuditRowsIndex(run, k, i, j);
  }

  lemma AuditRowsIndex(run: Run, k: nat, i: nat, j: nat)
    requires i < k && j < |Present(run, i, run.check)| && j < |AuditRow(run, i, run.check)|
    ensures PresentCount(run, i) + j < |AuditRows(run, k)|
      && AuditRows(run, k)[PresentCount(run, i) + j] == AuditRow(run, i, run.check)[j]
  {
    RowRecordsLength(run, i, j);
    PresentCountRows(run, i);
    RowsSlot(run, k, i, j);
    RowRecordsAt(run, i);
    SameAt(AuditRows(run, k), Rows(k, RowRecords(run)), AuditRow(run, i, run.check), RowRecords(run)(i),
      PresentCount(run, i), |Rows(i, RowRecords(run))|, j);
  }

  lemma RowRecordsAt(run: Run, i: nat)
    ensures RowRecords(run)(i) == AuditRow(run, i, run.check)
  {
  }

  lemma RowRecordsLength(run: Run, i: nat, j: nat)
    requires j < |Present(run, i, run.check)|
    ensures j < |RowRecords(run)(i)|
  {
    AuditRowLength(run, i, run.check);
    RowRecordsAt(run, i);
  }

  lemma PresentCountRows(run: Run, i: nat)
    ensures PresentCount(run, i) == |Rows(i, RowRecords(run))|
  {
    AuditRowsCount(run, i);
  }

  /** The `j`-th record of row `i` of the audit records sits after the records of the rows
      before it. */
  lemma RowsSlot(run: Run, k: nat, i: nat, j: nat)
    requires i < k && j < |RowRecords(run)(i)|
    ensures |Rows(i, RowRecords(run))| + j < |Rows(k, RowRecords(run))|
    ensures Rows(k, RowRecords(run))[|Rows(i, RowRecords(run))| + j] == RowRecords(run)(i)[j]
  {
    RowsAt(k, RowRecords(run), i, j);
  }

  /** Position `p + j` of `s` is position `j` of `u`, when `s`, `u` and `p` equal `t`, `v`
      and `q`, for which this holds. */
  lemma SameAt<T>(s: seq<T>, t: seq<T>, u: seq<T>, v: seq<T>, p: nat, q: nat, j: nat)
    requires s == t && u == v && p == q
    requires q + j < |t| && j < |v| && t[q + j] == v[j]
    ensures p + j < |s| && s[p + j] == u[j]
  {
  }

  /** Each row's records number its present listed cells. */
  lemma RowLengths(run: Run)
    ensures forall m: nat :: |RowRecords(run)(m)| == PresentCounts(run)(m)
  {
    forall m: nat
      ensures |RowRecords(run)(m)| == PresentCounts(run)(m)
    {
      AuditRowLength(run, m, run.check);
    }
  }

  /** The audit log has one record for each present listed cell, row by row, and nothing
      else; each record is the one the pass built for that cell. */
  lemma AuditLogExact(f: Frame, check: seq<string>, rate: real, render: real -> string)
    requires WellFormed(f)
    ensures var run := RunOf(f, check, rate, render);
      && (forall rec :: rec in AuditLog(f, check, rate, render) ==>
            && rec.rowIndex < f.height && rec.columnName in check
            && !View(f, rec.columnName, rec.rowIndex).Missing?
            && rec == Record(run, rec.rowIndex, rec.columnName))
      && (forall r: nat, c :: r < f.height && c in check && !View(f, c, r).Missing? ==>
            Logged(AuditLog(f, check, rate, render), r, c))
  {
    var run := RunOf(f, check, rate, render);
    AuditRowsSound(run, f.height);
    forall r: nat, c | r < f.height && c in check && !View(f, c, r).Missing?
      ensures Logged(AuditLog(f, check, rate, render), r, c)
    {
      AuditRowsComplete(run, f.height, r, c);
      HoldsLogged(AuditLog(f, check, rate, render), r, c);
    }
  }

  lemma AuditLogOrdered(f: Frame, check: seq<string>, rate: real, render: real -> string)
    requires WellFormed(f)
    ensures var log := AuditLog(f, check, rate, render);
      forall a, b :: 0 <= a < b < |log| ==> log[a].rowIndex <= log[b].rowIndex
  {
    AuditRowsOrdered(RunOf(f, check, rate, render), f.height);
  }

  /** The audit log has exactly one record per present listed cell of the snapshot. */
  lemma AuditLogCount(f: Frame, check: seq<string>, rate: real, render: real -> string)
    requires WellFormed(f)
    ensures |AuditLog(f, check, rate, render)| == PresentCount(RunOf(f, check, rate, render), f.height)
  {
    AuditRowsCount(RunOf(f, check, rate, render), f.height);
  }

  // ---------------------------------------------------------------- a settled table

  /** A cell the pass has nothing to do with: missing, or a number whose text has no letter. */
  predicate Plain(v: Cell, render: real -> string)
  {
    v.Missing? || (v.Num? && Keep(render(v.r), IsLetter) == [])
  }

  /** Every listed cell of the table is plain. */
  ghost predicate Settled(f: Frame, check: seq<string>, render: real -> string)
  {
    forall c, r :: c in check && 0 <= r < f.height ==> Plain(View(f, c, r), render)
  }

  /** A present plain cell keeps its value, gives no note and names no target. */
  lemma PlainIdle(col: string, raw: Cell, rate: real, render: real -> string)
    requires !raw.Missing? && Plain(raw, render)
    ensures Converted(raw, rate, render) == raw
    ensures Fragments(col, raw, render) == []
    ensures Target(raw, render) == None
  {
    var text := TextOf(raw, render);
    NoLettersNotCad(text);
    FragmentsEmptyIff(col, raw, render);
    ExtractTextEmptyIff(text);
    assert !Contains(Lower(""), "ltm") && !Contains(Lower(""), "ttm");
  }

  /** A step on a plain cell that still holds its snapshot value changes nothing. */
  lemma StepIdle(f: Frame, run: Run, i: nat, col: string)
    requires Fits(f, run) && i < f.height && col in f.cols
    requires View(f, col, i) == View(run.snap, col, i) && Plain(View(run.snap, col, i), run.render)
    ensures Step(f, run, i, col) == f
  {
    var raw := View(run.snap, col, i);
    if !raw.Missing? {
      PlainIdle(col, raw, run.rate, run.render);
      WithCellSame(f, col, i);
    }
  }

  lemma {:induction false} RunRowIdle(f: Frame, run: Run, i: nat, cs: seq<string>)
    requires Fits(f, run) && i < f.height
    requires forall c :: c in cs ==> c in run.check
    requires forall c :: c in cs ==> View(f, c, i) == View(run.snap, c, i) && Plain(View(run.snap, c, i), run.render)
    ensures RunRow(f, run, i, cs) == f
    decreases |cs|
  {
    if cs != [] {
      var init := cs[..|cs| - 1];
      RunRowIdle(f, run, i, init);
      StepIdle(f, run, i, cs[|cs| - 1]);
    }
  }

  lemma {:induction false} RunRowsIdle(run: Run, k: nat)
    requires Fits(run.snap, run) && k <= run.snap.height
    requires Settled(run.snap, run.check, run.render)
    ensures RunRows(run.snap, run, k) == run.snap
  {
    if k > 0 {
      RunRowsIdle(run, k - 1);
      RunRowIdle(run.snap, run, k - 1, run.check);
    }
  }

  /** On a settled table the pass only adds the notes column, and every audit record keeps
      the old value, adds no note and copies nowhere. */
  lemma ProcessedIdle(f: Frame, check: seq<string>, rate: real, render: real -> string)
    requires Callable(f, check) && Settled(f, check, render)
    ensures Processed(f, check, rate, render) == Start(f)
    ensures forall rec :: rec in AuditLog(f, check, rate, render) ==>
      rec.newValue == rec.oldValue && rec.notesAdded.None? && rec.migratedTo.None?
  {
    var run := RunOf(f, check, rate, render);
    assert Settled(run.snap, check, render);
    RunRowsIdle(run, f.height);
    AuditLogExact(f, check, rate, render);
    forall rec | rec in AuditLog(f, check, rate, render)
      ensures rec.newValue == rec.oldValue && rec.notesAdded.None? && rec.migratedTo.None?
    {
      var raw := View(run.snap, rec.columnName, rec.rowIndex);
      PlainIdle(rec.columnName, raw, rate, render);
    }
  }

  /** When numbers are written without letters and the notes column is not listed, a
      second pass over the result changes nothing. */
  lemma ProcessedTwice(f: Frame, check: seq<string>, rate: real, render: real -> string)
    requires Callable(f, check)
    requires NotesColumn !in check
    requires forall x: real :: Keep(render(x), IsLetter) == []
    ensures var g := Processed(f, check, rate, render);
      Callable(g, check) && Processed(g, check, rate, render) == g
  {
    var g := Processed(f, check, rate, render);
    forall c, r | c in check && 0 <= r < g.height ensures Plain(View(g, c, r), render) {
      ProcessedNoText(f, check, rate, render, c, r);
    }
    ProcessedIdle(g, check, rate, render);
  }

  // ---------------------------------------------------------------- created columns

  /** The column cell `c` of row `i` names as its copy target, as a set. */
  function NamedBy(run: Run, i: nat, c: string): set<string>
  {
    var raw := View(run.snap, c, i);
    if !raw.Missing? && Target(raw, run.render).Some? then {Target(raw, run.render).value} else {}
  }

  lemma NamedByIff(run: Run, i: nat, c: string, t: string)
    ensures t in NamedBy(run, i, c) <==> Names(run, i, c, t)
  {
  }

  /** The columns the cells `cs` of row `i` name. */
  function RowTargets(run: Run, i: nat, cs: seq<string>): set<string>
    decreases |cs|
  {
    if cs == [] then {} else RowTargets(run, i, cs[..|cs| - 1]) + NamedBy(run, i, cs[|cs| - 1])
  }

  lemma {:induction false} RowTargetsIff(run: Run, i: nat, cs: seq<string>, t: string)
    ensures t in RowTargets(run, i, cs) <==> exists c :: c in cs && Names(run, i, c, t)
    decreases |cs|
  {
    if cs != [] {
      var init, last := cs[..|cs| - 1], cs[|cs| - 1];
      RowTargetsIff(run, i, init, t);
      NamedByIff(run, i, last, t);
      InInitOrLast(cs);
    }
  }

  /** An element of a non-empty sequence is in all but its last element, or is the last. */
  lemma InInitOrLast<T>(cs: seq<T>)
    requires cs != []
    ensures forall c :: c in cs <==> c in cs[..|cs| - 1] || c == cs[|cs| - 1]
  {
    assert cs == cs[..|cs| - 1] + [cs[|cs| - 1]];
  }

  /** The union of the sets of rows `0` to `k - 1`. */
  function Union(k: nat, row: nat -> set<string>): set<string>
  {
    if k == 0 then {} else Union(k - 1, row) + row(k - 1)
  }

  lemma {:induction false} UnionIff(k: nat, row: nat -> set<string>, t: string)
    ensures t in Union(k, row) <==> exists r: nat :: r < k && t in row(r)
  {
    if k > 0 {
      UnionIff(k - 1, row, t);
    }
  }

  /** The columns the listed cells of each row name. */
  function TargetsOf(run: Run): nat -> set<string>
  {
    (i: nat) => RowTargets(run, i, run.check)
  }

  /** The columns the listed cells of the first `k` rows name. */
  function Created(run: Run, k: nat): set<string>
  {
    Union(k, TargetsOf(run))
  }

  lemma CreatedIff(run: Run, k: nat, t: string)
    ensures t in Created(run, k) <==> exists r: nat, c :: r < k && c in run.check && Names(run, r, c, t)
  {
    UnionIff(k, TargetsOf(run), t);
    if t in Created(run, k) {
      var r: nat :| r < k && t in TargetsOf(run)(r);
      RowTargetsIff(run, r, run.check, t);
      var c :| c in run.check && Names(run, r, c, t);
    }
    if exists r: nat, c :: r < k && c in run.check && Names(run, r, c, t) {
      var r: nat, c :| r < k && c in run.check && Names(run, r, c, t);
      RowTargetsIff(run, r, run.check, t);
      assert t in TargetsOf(run)(r);
    }
  }

  /** A step adds exactly the column its cell names, if that column is new. */
  lemma StepKeys(f: Frame, run: Run, i: nat, col: string)
    requires Fits(f, run) && i < f.height && col in f.cols
    ensures Step(f, run, i, col).cols.Keys == f.cols.Keys + NamedBy(run, i, col)
  {
  }

  /** A row adds to the columns exactly those its cells `cs` name. */
  lemma {:induction false} RunRowKeys(f: Frame, run: Run, i: nat, cs: seq<string>)
    requires Fits(f, run) && i < f.height
    requires forall c :: c in cs ==> c in run.check
    ensures RunRow(f, run, i, cs).cols.Keys == f.cols.Keys + RowTargets(run, i, cs)
    decreases |cs|
  {
    if cs != [] {
      var init := cs[..|cs| - 1];
      RunRowKeys(f, run, i, init);
      StepKeys(RunRow(f, run, i, init), run, i, cs[|cs| - 1]);
    }
  }

  /** Sets that grow row by row by `row(i)` end as the first plus the union of the rows. */
  lemma {:induction false} ChainUnion(keys: nat -> set<string>, row: nat -> set<string>, k: nat)
    requires forall i: nat :: i < k ==> keys(i + 1) == keys(i) + row(i)
    ensures keys(k) == keys(0) + Union(k, row)
  {
    if k > 0 {
      ChainUnion(keys, row, k - 1);
      assert keys(k) == keys(0) + Union(k - 1, row) + row(k - 1);
    }
  }

  /** Row `i` adds to the columns exactly those its listed cells name. */
  lemma RunRowsNextKeys(f: Frame, run: Run, i: nat)
    requires Fits(f, run) && i < f.height
    ensures RunRows(f, run, i + 1).cols.Keys == RunRows(f, run, i).cols.Keys + TargetsOf(run)(i)
  {
    RunRowKeys(RunRows(f, run, i), run, i, run.check);
  }

  /** After the first `k` rows, the columns are the input's and those the rows' listed cells name. */
  lemma RunRowsKeys(f: Frame, run: Run, k: nat)
    requires Fits(f, run) && k <= f.height
    ensures RunRows(f, run, k).cols.Keys == f.cols.Keys + Created(run, k)
  {
    var keys := (i: nat) => if i <= f.height then RunRows(f, run, i).cols.Keys else {};
    forall i: nat | i < k
      ensures keys(i + 1) == keys(i) + TargetsOf(run)(i)
    {
      RunRowsNextKeys(f, run, i);
    }
    ChainUnion(keys, TargetsOf(run), k);
  }

  /** The result's columns are the input's, the notes column, and exactly the target columns
      that some present listed cell names (even when the value copied there is missing). */
  lemma ProcessedKeys(f: Frame, check: seq<string>, rate: real, render: real -> string)
    requires Callable(f, check)
    ensures Processed(f, check, rate, render).cols.Keys ==
      f.cols.Keys + {NotesColumn} + Created(RunOf(f, check, rate, render), f.height)
    ensures forall t :: t in Created(RunOf(f, check, rate, render), f.height) <==>
      exists r: nat, c :: r < f.height && c in check && Names(RunOf(f, check, rate, render), r, c, t)
  {
    var run := RunOf(f, check, rate, render);
    RunRowsKeys(Start(f), run, f.height);
    forall t ensures t in Created(run, f.height) <==>
      exists r: nat, c :: r < f.height && c in check && Names(run, r, c, t)
    {
      CreatedIff(run, f.height, t);
    }
  }

  // ---------------------------------------------------------------- column order

  /** A step only ever appends column names. */
  lemma StepNames(f: Frame, run: Run, i: nat, col: string)
    requires Fits(f, run) && i < f.height && col in f.cols
    ensures f.names <= Step(f, run, i, col).names
  {
  }

  /** A step keeps every column listed once. */
  lemma StepListed(f: Frame, run: Run, i: nat, col: string)
    requires Fits(f, run) && i < f.height && col in f.cols && Listed(f)
    ensures Listed(Step(f, run, i, col))
  {
    var raw := View(run.snap, col, i);
    if !raw.Missing? {
      var target := Target(raw, run.render);
      if target.Some? && target.value !in f.cols {
        ListedAppend(f.names, f.cols.Keys, target.value);
      }
    }
  }

  lemma PrefixTrans(a: seq<string>, b: seq<string>, c: seq<string>)
    requires a <= b && b <= c
    ensures a <= c
  {
  }

  lemma {:induction false} RunRowNames(f: Frame, run: Run, i: nat, cs: seq<string>)
    requires Fits(f, run) && i < f.height
    requires forall c :: c in cs ==> c in run.check
    ensures f.names <= RunRow(f, run, i, cs).names
    decreases |cs|
  {
    if cs != [] {
      var init := cs[..|cs| - 1];
      var g := RunRow(f, run, i, init);
      RunRowNames(f, run, i, init);
      StepNames(g, run, i, cs[|cs| - 1]);
      PrefixTrans(f.names, g.names, Step(g, run, i, cs[|cs| - 1]).names);
    }
  }

  lemma {:induction false} RunRowListed(f: Frame, run: Run, i: nat, cs: seq<string>)
    requires Fits(f, run) && i < f.height && Listed(f)
    requires forall c :: c in cs ==> c in run.check
    ensures Listed(RunRow(f, run, i, cs))
    decreases |cs|
  {
    if cs != [] {
      var init := cs[..|cs| - 1];
      RunRowListed(f, run, i, init);
      StepListed(RunRow(f, run, i, init), run, i, cs[|cs| - 1]);
    }
  }

  lemma {:induction false} RunRowsNames(f: Frame, run: Run, k: nat)
    requires Fits(f, run) && k <= f.height
    ensures f.names <= RunRows(f, run, k).names
  {
    if k > 0 {
      var prev := RunRows(f, run, k - 1);
      RunRowsNames(f, run, k - 1);
      RunRowNames(prev, run, k - 1, run.check);
      PrefixTrans(f.names, prev.names, RunRow(prev, run, k - 1, run.check).names);
    }
  }

  lemma {:induction false} RunRowsListed(f: Frame, run: Run, k: nat)
    requires Fits(f, run) && k <= f.height && Listed(f)
    ensures Listed(RunRows(f, run, k))
  {
    if k > 0 {
      RunRowsListed(f, run, k - 1);
      RunRowListed(RunRows(f, run, k - 1), run, k - 1, run.check);
    }
  }

  /** The pass keeps the input's columns in their order and lists every column it adds
      once, after them. */
  lemma ProcessedListed(f: Frame, check: seq<string>, rate: real, render: real -> string)
    requires Callable(f, check) && Listed(f)
    ensures var g := Processed(f, check, rate, render);
      Listed(g) && f.names <= g.names
  {
    WithColumnListed(f, NotesColumn);
    RunRowsListed(Start(f), RunOf(f, check, rate, render), f.height);
    RunRowsNames(Start(f), RunOf(f, check, rate, render), f.height);
    PrefixTrans(f.names, Start(f).names, Processed(f, check, rate, render).names);
  }
}
