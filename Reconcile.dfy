/** The financial-cell reconciliation pass `process_financial_dataframe`: every listed cell
    is replaced by its cleaned (and, for CAD, converted) number, the text found in it is
    appended to the row's notes, a value that mentions a trailing-twelve-month figure is
    copied into that column, and an audit record is kept for every cell handled. */
module Reconcile {
  import opened Cells
  import opened Strings
  import opened FinancialFields
  import opened Frames

  const NotesColumn := "Notes"
  const CadNote := "originally stored as CAD"
  const Separator := "; "
  /** The default of `cad_to_usd_rate`. */
  const DefaultCadToUsdRate: real := 0.73

  /** One row of the audit log. */
  datatype AuditRecord = AuditRecord(
    rowIndex: nat,
    columnName: string,
    oldValue: Cell,
    newValue: Cell,
    notesAdded: Option<string>,
    migratedTo: Option<string>)

  /** The inputs of one call: the table as it was when row iteration started (the rows are
      read from it), the columns to check, the conversion rate, and the text of numbers. */
  datatype Run = Run(snap: Frame, check: seq<string>, rate: real, render: real -> string)

  // ---------------------------------------------------------------- one cell

  /** A CAD amount in USD at the given rate. */
  function InUsd(amount: real, rate: real): real { amount * rate }

  /** The number a present cell is replaced by: the cleaned number, times the rate when the
      cell's text is tagged CAD and the number is present. */
  function Converted(raw: Cell, rate: real, render: real -> string): (v: Cell)
    requires !raw.Missing?
    ensures !v.Str?
    ensures v.Missing? <==> CleanNumeric(raw).Missing?
    ensures !IsCadText(TextOf(raw, render)) ==> v == CleanNumeric(raw)
    ensures IsCadText(TextOf(raw, render)) && CleanNumeric(raw).Num? ==> v == Num(InUsd(CleanNumeric(raw).r, rate))
  {
    var n := CleanNumeric(raw);
    if IsCadText(TextOf(raw, render)) && !n.Missing? then Num(InUsd(n.r, rate)) else n
  }

  /** The note fragments a present cell produces: its text, labelled with the column, and
      the CAD remark. */
  function Fragments(col: string, raw: Cell, render: real -> string): (frags: seq<string>)
    requires !raw.Missing?
    ensures var e := ExtractText(TextOf(raw, render));
      |frags| == (if e != "" then 1 else 0) + (if IsCadText(TextOf(raw, render)) then 1 else 0)
    ensures var e := ExtractText(TextOf(raw, render));
      e != "" ==> frags[0] == col + ": " + e
    ensures IsCadText(TextOf(raw, render)) ==> frags[|frags| - 1] == CadNote
  {
    var text := TextOf(raw, render);
    var extracted := ExtractText(text);
    (if extracted != "" then [col + ": " + extracted] else []) + (if IsCadText(text) then [CadNote] else [])
  }

  /** A cell produces note fragments exactly when its text has a letter. */
  lemma FragmentsEmptyIff(col: string, raw: Cell, render: real -> string)
    requires !raw.Missing?
    ensures Fragments(col, raw, render) == [] <==> Keep(TextOf(raw, render), IsLetter) == []
  {
    var text := TextOf(raw, render);
    ExtractTextEmptyIff(text);
    if Keep(text, IsLetter) == [] {
      NoLettersNotCad(text);
    }
  }

  /** The column a present cell's value is copied to, if its text names one. */
  function Target(raw: Cell, render: real -> string): (t: Option<string>)
    requires !raw.Missing?
    ensures t.Some? ==> t.value == LtmEbitda || t.value == LtmRevenue
  {
    FindTarget(ExtractText(TextOf(raw, render)))
  }

  /** The notes cell after `add` is appended: the old text is kept in front, followed by the
      separator, and `add` ends the new text. */
  function AppendNote(cur: Cell, add: string, render: real -> string): (r: Cell)
    ensures r.Str?
    ensures cur.Missing? ==> r.s == add
    ensures !cur.Missing? ==> TextOf(cur, render) + Separator <= r.s
    ensures |add| <= |r.s| && r.s[|r.s| - |add|..] == add
    ensures !cur.Missing? ==> |r.s| == |TextOf(cur, render)| + |Separator| + |add|
  {
    if cur.Missing? then Str(add) else Str(TextOf(cur, render) + Separator + add)
  }

  /** The audit record of a present cell. */
  function Record(run: Run, i: nat, col: string): (rec: AuditRecord)
    requires !View(run.snap, col, i).Missing?
    ensures rec.rowIndex == i && rec.columnName == col && rec.oldValue == View(run.snap, col, i)
  {
    var raw := View(run.snap, col, i);
    var frags := Fragments(col, raw, run.render);
    AuditRecord(i, col, raw, Converted(raw, run.rate, run.render),
      if frags == [] then None else Some(Join(frags, Separator)), Target(raw, run.render))
  }

  /** A record holds the value written, says whether notes were added (exactly when the
      old value's text has a letter), and if so which: this cell's fragments joined with the
      separator; and it names the column the value was copied to. */
  lemma RecordFacts(run: Run, i: nat, col: string)
    requires !View(run.snap, col, i).Missing?
    ensures var rec := Record(run, i, col);
      && rec.newValue == Converted(rec.oldValue, run.rate, run.render)
      && (rec.notesAdded.None? <==> Keep(TextOf(rec.oldValue, run.render), IsLetter) == [])
      && (rec.notesAdded.Some? ==> rec.notesAdded.value == Join(Fragments(col, rec.oldValue, run.render), Separator))
      && rec.migratedTo == Target(rec.oldValue, run.render)
  {
    FragmentsEmptyIff(col, View(run.snap, col, i), run.render);
  }

  // ---------------------------------------------------------------- the pass, as functions

  /** The table can take the pass: it is well formed, as tall as the snapshot, and has
      the notes column and every checked column. */
  ghost predicate Fits(f: Frame, run: Run)
  {
    && WellFormed(f)
    && f.height == run.snap.height
    && NotesColumn in f.cols
    && (forall c :: c in run.check ==> c in f.cols)
  }

  /** Appends the fragments, if any, to the notes of row `i`; nothing else changes. */
  function AddNotes(f: Frame, i: nat, frags: seq<string>, render: real -> string): (g: Frame)
    requires WellFormed(f) && NotesColumn in f.cols && i < f.height
    ensures WellFormed(g) && g.height == f.height && g.cols.Keys == f.cols.Keys && g.names == f.names
    ensures forall n, r :: (n != NotesColumn || r != i) ==> View(g, n, r) == View(f, n, r)
    ensures frags == [] ==> g == f
    ensures frags != [] ==>
      View(g, NotesColumn, i) == AppendNote(View(f, NotesColumn, i), Join(frags, Separator), render)
  {
    if frags == [] then f
    else WithCell(f, NotesColumn, i, AppendNote(View(f, NotesColumn, i), Join(frags, Separator), render))
  }

  /** Copies `v` into row `i` of the target column, creating the column if needed. */
  function CopyTo(f: Frame, i: nat, target: Option<string>, v: Cell): (g: Frame)
    requires WellFormed(f) && i < f.height
    ensures WellFormed(g) && g.height == f.height
    ensures g.cols.Keys == f.cols.Keys + (if target.Some? then {target.value} else {})
    ensures g.names == if target.Some? && target.value !in f.cols then f.names + [target.value] else f.names
    ensures forall n, r :: (target != Some(n) || r != i) ==> View(g, n, r) == View(f, n, r)
    ensures target.Some? ==> View(g, target.value, i) == v
  {
    match target
    case None => f
    case Some(t) => WithCell(WithColumn(f, t), t, i, v)
  }

  /** The writes for one present cell: the number into the cell, the fragments onto the
      notes, the number into the target column. */
  function Settle(f: Frame, i: nat, col: string, v: Cell, frags: seq<string>, target: Option<string>,
                  render: real -> string): (g: Frame)
    requires WellFormed(f) && NotesColumn in f.cols && i < f.height && col in f.cols
    ensures WellFormed(g) && g.height == f.height && NotesColumn in g.cols
    ensures g.cols.Keys == f.cols.Keys + (if target.Some? then {target.value} else {})
    ensures g.names == if target.Some? && target.value !in f.cols then f.names + [target.value] else f.names
    ensures forall n, r :: r != i ==> View(g, n, r) == View(f, n, r)
  {
    CopyTo(AddNotes(WithCell(f, col, i, v), i, frags, render), i, target, v)
  }

  /** What the loop body does to the table for row `i`, column `col`. Only row `i` changes,
      and columns are only ever added. */
  function Step(f: Frame, run: Run, i: nat, col: string): (g: Frame)
    requires Fits(f, run) && i < f.height && col in f.cols
    ensures Fits(g, run) && g.height == f.height
    ensures f.cols.Keys <= g.cols.Keys
    ensures forall n, r :: r != i ==> View(g, n, r) == View(f, n, r)
  {
    var raw := View(run.snap, col, i);
    if raw.Missing? then f
    else Settle(f, i, col, Converted(raw, run.rate, run.render), Fragments(col, raw, run.render),
                Target(raw, run.render), run.render)
  }

  /** Row `i` after the columns `cs` have been handled, in list order. */
  function RunRow(f: Frame, run: Run, i: nat, cs: seq<string>): (g: Frame)
    requires Fits(f, run) && i < f.height
    requires forall c :: c in cs ==> c in run.check
    ensures Fits(g, run) && g.height == f.height
    ensures f.cols.Keys <= g.cols.Keys
    ensures forall n, r :: r != i ==> View(g, n, r) == View(f, n, r)
    decreases |cs|
  {
    if cs == [] then f
    else Step(RunRow(f, run, i, cs[..|cs| - 1]), run, i, cs[|cs| - 1])
  }

  /** The table after the first `k` rows have been handled. */
  function RunRows(f: Frame, run: Run, k: nat): (g: Frame)
    requires Fits(f, run) && k <= f.height
    ensures Fits(g, run) && g.height == f.height
    ensures f.cols.Keys <= g.cols.Keys
    ensures forall n, r :: k <= r ==> View(g, n, r) == View(f, n, r)
  {
    if k == 0 then f else RunRow(RunRows(f, run, k - 1), run, k - 1, run.check)
  }

  /** What `process_financial_dataframe` may be called with: every listed column exists
      (or is the notes column, which the pass creates first). */
  ghost predicate Callable(f: Frame, check: seq<string>)
  {
    WellFormed(f) && forall c :: c in check ==> c in f.cols || c == NotesColumn
  }

  /** The table as the rows are read: the input with the notes column added. */
  function Start(f: Frame): (f0: Frame)
    requires WellFormed(f)
    ensures WellFormed(f0) && NotesColumn in f0.cols && f0.height == f.height
  {
    WithColumn(f, NotesColumn)
  }

  function RunOf(f: Frame, check: seq<string>, rate: real, render: real -> string): Run
    requires WellFormed(f)
  {
    Run(Start(f), check, rate, render)
  }

  /** The table `process_financial_dataframe` returns. The notes column always exists
      afterwards, the row count is unchanged, and no column is dropped. */
  function Processed(f: Frame, check: seq<string>, rate: real, render: real -> string): (g: Frame)
    requires Callable(f, check)
    ensures WellFormed(g) && NotesColumn in g.cols && g.height == f.height
    ensures f.cols.Keys <= g.cols.Keys
  {
    var f0 := Start(f);
    RunRows(f0, RunOf(f, check, rate, render), f0.height)
  }

  /** The record a cell contributes to the audit log: none when it is missing. */
  function Entry(run: Run, i: nat, c: string): (entry: seq<AuditRecord>)
    ensures |entry| <= 1
    ensures entry != [] ==> entry[0].rowIndex == i && entry[0].columnName == c
    ensures entry == [] <==> View(run.snap, c, i).Missing?
  {
    if View(run.snap, c, i).Missing? then [] else [Record(run, i, c)]
  }

  /** The audit records of row `i` for the columns `cs`. */
  function AuditRow(run: Run, i: nat, cs: seq<string>): (log: seq<AuditRecord>)
    ensures |log| <= |cs|
    decreases |cs|
  {
    if cs == [] then []
    else
      var c := cs[|cs| - 1];
      AuditRow(run, i, cs[..|cs| - 1]) + Entry(run, i, c)
  }

  /** Handling one more column of the list applies that column's step. */
  lemma RunRowNext(f: Frame, run: Run, i: nat, j: nat)
    requires Fits(f, run) && i < f.height && j < |run.check|
    ensures RunRow(f, run, i, run.check[..j + 1]) == Step(RunRow(f, run, i, run.check[..j]), run, i, run.check[j])
  {
    assert run.check[..j + 1][..j] == run.check[..j];
  }

  /** Handling one more column of the list appends that column's entry to the records. */
  lemma AuditRowNext(run: Run, i: nat, j: nat)
    requires j < |run.check|
    ensures AuditRow(run, i, run.check[..j + 1]) == AuditRow(run, i, run.check[..j]) + Entry(run, i, run.check[j])
  {
    assert run.check[..j + 1][..j] == run.check[..j];
  }

  /** The records of rows `0` to `k - 1`, one row after the other, given each row's records. */
  function Rows(k: nat, row: nat -> seq<AuditRecord>): seq<AuditRecord>
  {
    if k == 0 then [] else Rows(k - 1, row) + row(k - 1)
  }

  /** The audit records of each row, as a function of the row index. */
  function RowRecords(run: Run): nat -> seq<AuditRecord>
  {
    (i: nat) => AuditRow(run, i, run.check)
  }

  /** The audit records of the first `k` rows. */
  function AuditRows(run: Run, k: nat): seq<AuditRecord>
  {
    Rows(k, RowRecords(run))
  }

  /** Handling one more row appends that row's records. */
  lemma AuditRowsNext(run: Run, k: nat)
    ensures AuditRows(run, k + 1) == AuditRows(run, k) + AuditRow(run, k, run.check)
  {
  }

  /** The audit log `process_financial_dataframe` returns. */
  function AuditLog(f: Frame, check: seq<string>, rate: real, render: real -> string): seq<AuditRecord>
    requires WellFormed(f)
  {
    AuditRows(RunOf(f, check, rate, render), f.height)
  }

  // ---------------------------------------------------------------- the pass, as code

  /** Appends the note fragments of one cell to the row's notes, reading the notes cell as
      it is now. */
  method AppendNotes(t: Table, idx: nat, notes: seq<string>, render: real -> string)
    requires t.Valid() && NotesColumn in t.cols && idx < t.height
    modifies t
    ensures t.Valid()
    ensures t.Value() == AddNotes(old(t.Value()), idx, notes, render)
  {
    if notes != [] {
      var newNotes := Join(notes, Separator);
      var current := t.At(NotesColumn, idx);
      if current.Missing? {
        t.Put(NotesColumn, idx, Str(newNotes));
      } else {
        t.Put(NotesColumn, idx, Str(TextOf(current, render) + Separator + newNotes));
      }
    }
  }

  /** Copies the value into its target column, creating the column first if needed. */
  method CopyValue(t: Table, idx: nat, target: Option<string>, numeric: Cell)
    requires t.Valid() && idx < t.height
    modifies t
    ensures t.Valid()
    ensures t.Value() == CopyTo(old(t.Value()), idx, target, numeric)
  {
    if target.Some? {
      if target.value !in t.cols {
        t.AddColumn(target.value);
      }
      t.Put(target.value, idx, numeric);
    }
  }

  /** What the loop body computes from a present value before it writes anything: the
      cleaned (and converted) number, the note fragments, and the target column. */
  method Examine(col: string, value: Cell, rate: real, render: real -> string)
    returns (numeric: Cell, notes: seq<string>, target: Option<string>)
    requires !value.Missing?
    ensures numeric == Converted(value, rate, render)
    ensures notes == Fragments(col, value, render)
    ensures target == Target(value, render)
  {
    var strVal := TextOf(value, render);
    var extracted := ExtractText(strVal);
    var isCad := IsCadText(strVal);
    numeric := CleanNumeric(value);
    if isCad && !numeric.Missing? {
      numeric := Num(InUsd(numeric.r, rate));
    }
    notes := [];
    if extracted != "" {
      notes := notes + [col + ": " + extracted];
    }
    if isCad {
      notes := notes + [CadNote];
    }
    target := FindTarget(extracted);
  }

  /** The loop body for one cell: read the snapshot, skip a missing value, otherwise write
      the number, append the notes, copy the value to its target column, and return the
      audit record. */
  method ProcessCell(t: Table, snapshot: Frame, idx: nat, col: string, check: seq<string>,
                     rate: real, render: real -> string)
    returns (rec: Option<AuditRecord>)
    requires t.Valid() && Fits(t.Value(), Run(snapshot, check, rate, render))
    requires idx < t.height && col in check
    modifies t
    ensures t.Valid()
    ensures t.Value() == Step(old(t.Value()), Run(snapshot, check, rate, render), idx, col)
    ensures (if rec.Some? then [rec.value] else []) == Entry(Run(snapshot, check, rate, render), idx, col)
  {
    var value := View(snapshot, col, idx);
    if value.Missing? {
      return None;
    }
    var numeric, notes, target := Examine(col, value, rate, render);
    t.Put(col, idx, numeric);
    AppendNotes(t, idx, notes, render);
    CopyValue(t, idx, target, numeric);
    rec := Some(AuditRecord(idx, col, value, numeric, if notes != [] then Some(Join(notes, Separator)) else None, target));
  }

  /** Creates the notes column, filled with missing values, unless it exists. */
  method AddNotesColumn(t: Table)
    requires t.Valid()
    modifies t
    ensures t.Valid()
    ensures t.Value() == Start(old(t.Value()))
  {
    if NotesColumn !in t.cols {
      t.AddColumn(NotesColumn);
    }
  }

  /** The inner loop: every listed column of row `idx`, in list order. */
  method ProcessRow(t: Table, snapshot: Frame, idx: nat, check: seq<string>, rate: real,
                    render: real -> string)
    returns (records: seq<AuditRecord>)
    requires t.Valid() && Fits(t.Value(), Run(snapshot, check, rate, render)) && idx < t.height
    modifies t
    ensures t.Valid()
    ensures t.Value() == RunRow(old(t.Value()), Run(snapshot, check, rate, render), idx, check)
    ensures records == AuditRow(Run(snapshot, check, rate, render), idx, check)
  {
    ghost var run := Run(snapshot, check, rate, render);
    ghost var f := t.Value();
    records := [];
    var j := 0;
    while j < |check|
      invariant 0 <= j <= |check|
      invariant t.Valid() && Fits(t.Value(), run) && t.height == f.height
      invariant t.Value() == RunRow(f, run, idx, check[..j])
      invariant records == AuditRow(run, idx, check[..j])
    {
      RunRowNext(f, run, idx, j);
      AuditRowNext(run, idx, j);
      ghost var before := t.Value();
      var rec := ProcessCell(t, snapshot, idx, check[j], check, rate, render);
      assert t.Value() == Step(before, run, idx, check[j]);
      if rec.Some? {
        records := records + [rec.value];
      }
      j := j + 1;
    }
    assert check[..|check|] == check;
  }

  /** `process_financial_dataframe`: the table is updated in place to `Processed` and the
      audit log is returned. */
  method ProcessFinancialDataframe(t: Table, check: seq<string>, render: real -> string, rate: real := DefaultCadToUsdRate)
    returns (audit: seq<AuditRecord>)
    requires t.Valid() && Callable(t.Value(), check)
    modifies t
    ensures t.Valid()
    ensures t.Value() == Processed(old(t.Value()), check, rate, render)
    ensures audit == AuditLog(old(t.Value()), check, rate, render)
  {
    AddNotesColumn(t);
    var snapshot := t.Value();
    ghost var run := Run(snapshot, check, rate, render);
    audit := [];
    var idx := 0;
    while idx < snapshot.height
      invariant 0 <= idx <= snapshot.height
      invariant t.Valid() && Fits(t.Value(), run)
      invariant t.Value() == RunRows(snapshot, run, idx)
      invariant audit == AuditRows(run, idx)
    {
      var records := ProcessRow(t, snapshot, idx, check, rate, render);
      AuditRowsNext(run, idx);
      audit := audit + records;
      idx := idx + 1;
    }
  }
}
