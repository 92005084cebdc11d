/**
 * The normalizer (`clean_data` in src/utils.py): it takes a raw table whose
 * header names may carry irregular whitespace and whose cells are
 * loosely typed, and cleans it in place, column by column: headers, the
 * three date columns, the seven numeric columns, the two status columns,
 * and finally a derived `Job_Status` column.
 *
 * The table is held column-wise, as a data frame is: a sequence of
 * header names, one sequence of cells per column, and a row count.
 */
module Normalizer {
  import opened Wrappers
  import opened Text

  /** A calendar day (what `.dt.date` keeps of a parsed timestamp). */
  type Date = int

  /** One cell of the table. `Null` is pandas' missing value (NaN, NaT or None). */
  datatype Cell = Str(s: string) | Num(x: real) | Stamp(day: Date) | Null

  /**
   * The library routines the normalizer relies on but does not define:
   * how numbers and dates are rendered as text (`astype(str)`), and the
   * parsers `pd.to_numeric` and `pd.to_datetime`, each answering `None`
   * where pandas would coerce to NaN / NaT.
   */
  datatype Library = Library(
    showNumber: real -> string,
    showDate: Date -> string,
    parseNumber: string -> Option<real>,
    parseDate: string -> Option<Date>)

  const DateColumns: seq<string> := ["Create Date", "Tgl_loading", "Tgl_Packing"]
  const NumericColumns: seq<string> :=
    ["Qty_Packing", "Qty_Loading", "DP Qty", "volume", "Total M3", "Weight", "Total Weight"]
  const StatusColumns: seq<string> := ["Status_Packing", "Status_Loading"]
  const PackingStatus := "Status_Packing"
  const LoadingStatus := "Status_Loading"
  const JobStatusColumn := "Job_Status"

  /** Status texts that are replaced by an absent value. */
  const Sentinels: set<string> := {"NAN", "NAT", "NULL", "0", "nan"}
  const PackingFinished: set<string> := {"COMPLETE", "PACKING DONE"}
  const LoadingFinished: set<string> := {"COMPLETE", "LOADING DONE"}
  /** What Python's `str()` makes of a missing value. */
  const NoneText := "None"

  // ---------------------------------------------------------------------
  // Cells

  /** `astype(str)` of one cell; a missing value renders as `nan`. */
  function AsText(lib: Library, c: Cell): string {
    match c
    case Str(s) => s
    case Num(x) => lib.showNumber(x)
    case Stamp(d) => lib.showDate(d)
    case Null => "nan"
  }

  /**
   * The text pre-processing of a numeric cell: `,` becomes `.`, the text
   * is lower-cased, then every `kg` and then every `m3` is removed.
   */
  function NumericText(t: string): (r: string)
    ensures |r| <= |t|
    ensures ',' !in r
    ensures forall c :: c in r ==> !('A' <= c <= 'Z')
  {
    var dotted := ReplaceChar(t, ',', '.');
    var lowered := Lower(dotted);
    assert forall c :: c in lowered ==> c != ',' && !('A' <= c <= 'Z');
    RemoveAll(RemoveAll(lowered, "kg"), "m3")
  }

  /** A cleaned numeric cell: the parsed value, or 0 where parsing fails. */
  function NumericCell(lib: Library, c: Cell): (r: Cell)
    ensures r.Num?
  {
    Num(lib.parseNumber(NumericText(AsText(lib, c))).GetOr(0.0))
  }

  /** A cleaned date cell: the parsed day, or missing where parsing fails. */
  function DateCell(lib: Library, c: Cell): (r: Cell)
    ensures r.Stamp? || r.Null?
  {
    match lib.parseDate(AsText(lib, c))
    case Some(d) => Stamp(d)
    case None => Null
  }

  /** Status canonicalisation: upper-case, strip, and collapse the sentinels to absent. */
  function CanonStatus(text: string): (r: Option<string>)
    ensures r.Some? ==> r.value !in Sentinels && NoEdgeSpace(r.value)
    ensures r.Some? ==> forall i :: 0 <= i < |r.value| ==> !('a' <= r.value[i] <= 'z')
  {
    var w := Upper(text);
    StripNoLower(w);
    var u := Strip(w);
    if u in Sentinels then None else Some(u)
  }

  /** A cleaned status cell: `Str` of the canonical text, or missing. */
  function StatusCell(lib: Library, c: Cell): (r: Cell)
    ensures r.Str? || r.Null?
  {
    match CanonStatus(AsText(lib, c))
    case Some(u) => Str(u)
    case None => Null
  }

  // ---------------------------------------------------------------------
  // Tables

  datatype Table = Table(names: seq<string>, columns: seq<seq<Cell>>, height: nat) {
    /** One cell sequence per name, each `height` long. */
    predicate Valid() {
      |names| == |columns| && forall j :: 0 <= j < |columns| ==> |columns[j]| == height
    }
  }

  /** Position of the first column called `n`, or `|names|` when there is none. */
  function IndexOf(names: seq<string>, n: string): (k: nat)
    ensures k <= |names|
    ensures k < |names| ==> names[k] == n
    ensures forall i :: 0 <= i < k ==> names[i] != n
  {
    if names == [] then 0
    else if names[0] == n then 0
    else 1 + IndexOf(names[1..], n)
  }

  /** The (first) column called `n`, as `df[n]` reads it. */
  function Column(t: Table, n: string): (r: seq<Cell>)
    requires t.Valid() && n in t.names
    ensures |r| == t.height
  {
    t.columns[IndexOf(t.names, n)]
  }

  /** `df[n] = f(df[n])` on an existing column; nothing happens if there is none. */
  function MapColumn(t: Table, n: string, f: Cell -> Cell): (r: Table)
    requires t.Valid()
    ensures r.Valid() && r.names == t.names && r.height == t.height
    ensures n in t.names ==> forall i :: 0 <= i < t.height ==> Column(r, n)[i] == f(Column(t, n)[i])
    ensures forall m :: m in t.names && m != n ==> Column(r, m) == Column(t, m)
  {
    var k := IndexOf(t.names, n);
    if k < |t.names| then
      var col := t.columns[k];
      t.(columns := t.columns[k := seq(t.height, i requires 0 <= i < t.height => f(col[i]))])
    else t
  }

  /** `df[n] = vals`: overwrites the column called `n`, or appends it. */
  function SetColumn(t: Table, n: string, vals: seq<Cell>): (r: Table)
    requires t.Valid() && |vals| == t.height
    ensures r.Valid() && r.height == t.height
    ensures r.names == if n in t.names then t.names else t.names + [n]
    ensures Column(r, n) == vals
    ensures forall m :: m in t.names && m != n ==> Column(r, m) == Column(t, m)
  {
    var k := IndexOf(t.names, n);
    if k < |t.names| then
      t.(columns := t.columns[k := vals])
    else
      var r := Table(t.names + [n], t.columns + [vals], t.height);
      IndexOfAppend(t.names, n, n);
      forall m | m in t.names
        ensures IndexOf(r.names, m) == IndexOf(t.names, m)
      {
        IndexOfAppend(t.names, n, m);
      }
      r
  }

  /** Appending a name does not move the names already present. */
  lemma {:induction false} IndexOfAppend(names: seq<string>, n: string, m: string)
    requires m in names || m == n
    ensures IndexOf(names + [n], m) == IndexOf(names, m)
  {
    if names != [] && names[0] != m {
      assert (names + [n])[1..] == names[1..] + [n];
      IndexOfAppend(names[1..], n, m);
    }
  }

  // ---------------------------------------------------------------------
  // The cleaning steps

  /** Step 1: every header name cleaned. */
  function WithCleanHeaders(t: Table): (r: Table)
    ensures t.Valid() ==> r.Valid()
    ensures |r.names| == |t.names| && r.columns == t.columns && r.height == t.height
    ensures forall j :: 0 <= j < |r.names| ==> r.names[j] == CleanHeader(t.names[j])
  {
    t.(names := seq(|t.names|, j requires 0 <= j < |t.names| => CleanHeader(t.names[j])))
  }

  /** The three per-column passes of `clean_data` (steps 2 to 4). */
  datatype Pass = Dates | Numbers | Statuses

  /** How one pass converts one cell. */
  function Convert(lib: Library, pass: Pass, c: Cell): Cell {
    match pass
    case Dates => DateCell(lib, c)
    case Numbers => NumericCell(lib, c)
    case Statuses => StatusCell(lib, c)
  }

  /** A column of zeros, as synthesised for a missing numeric column. */
  function Zeros(height: nat): (r: seq<Cell>)
    ensures |r| == height && forall i :: 0 <= i < height ==> r[i] == Num(0.0)
  {
    seq(height, _ => Num(0.0))
  }

  /** One pass applied to the column called `n`. */
  function Step(lib: Library, pass: Pass, t: Table, n: string): (r: Table)
    requires t.Valid()
    ensures r.Valid() && r.height == t.height
  {
    if n in t.names then MapColumn(t, n, c => Convert(lib, pass, c))
    else if pass == Numbers then SetColumn(t, n, Zeros(t.height))
    else t
  }

  /** One pass applied to each of `cols` in order: the `for col in ...` loop. */
  function Fold(lib: Library, pass: Pass, t: Table, cols: seq<string>): (r: Table)
    requires t.Valid()
    ensures r.Valid() && r.height == t.height
    decreases |cols|
  {
    if cols == [] then t
    else Step(lib, pass, Fold(lib, pass, t, cols[..|cols| - 1]), cols[|cols| - 1])
  }

  /** The fold over one more column is one more step. */
  lemma FoldNext(lib: Library, pass: Pass, t: Table, cols: seq<string>, k: nat)
    requires t.Valid() && k < |cols|
    ensures Fold(lib, pass, t, cols[..k + 1]) == Step(lib, pass, Fold(lib, pass, t, cols[..k]), cols[k])
  {
    assert cols[..k + 1][..k] == cols[..k];
  }

  /** The step on a present column converts that column, cell by cell, where it stands. */
  lemma StepAt(lib: Library, pass: Pass, t: Table, n: string, vals: seq<Cell>)
    requires t.Valid() && n in t.names && |vals| == t.height
    requires forall i :: 0 <= i < t.height ==> vals[i] == Convert(lib, pass, Column(t, n)[i])
    ensures Step(lib, pass, t, n) == t.(columns := t.columns[IndexOf(t.names, n) := vals])
  {
    var j := IndexOf(t.names, n);
    var f := c => Convert(lib, pass, c);
    var m := MapColumn(t, n, f);
    assert m.columns[j] == vals by {
      forall i | 0 <= i < t.height
        ensures m.columns[j][i] == vals[i]
      {
        assert m.columns[j][i] == Column(m, n)[i] == f(Column(t, n)[i]);
      }
    }
    assert m.columns == t.columns[j := vals];
  }

  /** The numeric step on a missing column appends a column of zeros. */
  lemma StepAppend(lib: Library, t: Table, n: string)
    requires t.Valid() && n !in t.names
    ensures Step(lib, Numbers, t, n) == Table(t.names + [n], t.columns + [Zeros(t.height)], t.height)
  {
    assert IndexOf(t.names, n) == |t.names|;
  }

  /** What `str(v)` gives for a cell value: a missing value prints as `None`. */
  function CellText(lib: Library, c: Cell): string {
    match c
    case Str(s) => s
    case Null => NoneText
    case Num(x) => lib.showNumber(x)
    case Stamp(d) => lib.showDate(d)
  }

  /** What `str(row.get(n, ''))` gives for row `i`: absent column `''`, missing value `None`. */
  function StatusText(lib: Library, t: Table, n: string, i: nat): string
    requires t.Valid() && i < t.height
  {
    if n !in t.names then "" else CellText(lib, Column(t, n)[i])
  }

  /** Step 5: the derived `Job_Status` column, one label per row. */
  function WithJobStatus(lib: Library, t: Table): (r: Table)
    requires t.Valid()
    ensures r.Valid() && r.height == t.height && JobStatusColumn in r.names
    ensures forall i :: 0 <= i < t.height ==>
      Column(r, JobStatusColumn)[i]
        == Str(Label(DetermineStatus(StatusText(lib, t, PackingStatus, i), StatusText(lib, t, LoadingStatus, i))))
    ensures forall m :: m in r.names <==> m in t.names || m == JobStatusColumn
    ensures forall m :: m in t.names && m != JobStatusColumn ==> Column(r, m) == Column(t, m)
  {
    SetColumn(t, JobStatusColumn, JobStatuses(lib, t))
  }

  /** The labels of every row, in row order. */
  function JobStatuses(lib: Library, t: Table): (r: seq<Cell>)
    requires t.Valid()
    ensures |r| == t.height
  {
    seq(t.height, i requires 0 <= i < t.height =>
      Str(Label(DetermineStatus(StatusText(lib, t, PackingStatus, i), StatusText(lib, t, LoadingStatus, i)))))
  }

  /** The table after the three column passes, before `Job_Status` is added. */
  function Passes(lib: Library, t: Table): (r: Table)
    requires t.Valid()
    ensures r.Valid() && r.height == t.height
  {
    var h := WithCleanHeaders(t);
    Fold(lib, Statuses, Fold(lib, Numbers, Fold(lib, Dates, h, DateColumns), NumericColumns), StatusColumns)
  }

  /** The whole of `clean_data`. */
  function Cleaned(lib: Library, t: Table): (r: Table)
    requires t.Valid()
    ensures r.Valid() && r.height == t.height
  {
    WithJobStatus(lib, Passes(lib, t))
  }

  // ---------------------------------------------------------------------
  // The data frame that `clean_data` updates in place

  class Frame {
    var names: seq<string>
    var columns: seq<seq<Cell>>
    var height: nat

    /** The frame's current contents as a value. */
    function Snapshot(): Table
      reads this
    {
      Table(names, columns, height)
    }

    constructor (t: Table)
      ensures Snapshot() == t
    {
      names, columns, height := t.names, t.columns, t.height;
    }

    /** `df.columns = df.columns.str.replace(r'\s+', ' ').str.strip()` */
    method CleanHeaders()
      modifies this
      ensures Snapshot() == WithCleanHeaders(old(Snapshot()))
    {
      var current := names;
      names := seq(|current|, j requires 0 <= j < |current| => CleanHeader(current[j]));
    }

    /** One `for col in cols:` loop of `clean_data`, rewriting (or adding) one column per turn. */
    method RunPass(lib: Library, pass: Pass, cols: seq<string>)
      requires Snapshot().Valid()
      modifies this
      ensures Snapshot().Valid()
      ensures Snapshot() == Fold(lib, pass, old(Snapshot()), cols)
    {
      ghost var start := Snapshot();
      for k := 0 to |cols|
        invariant Snapshot().Valid()
        invariant Snapshot() == Fold(lib, pass, start, cols[..k])
      {
        ghost var before := Snapshot();
        FoldNext(lib, pass, start, cols, k);
        var n := cols[k];
        var j := IndexOf(names, n);
        var h := height;
        if j < |names| {
          var col := columns[j];
          var converted := seq(h, i requires 0 <= i < h => Convert(lib, pass, col[i]));
          StepAt(lib, pass, before, n, converted);
          columns := columns[j := converted];
        } else if pass == Numbers {
          StepAppend(lib, before, n);
          names := names + [n];
          columns := columns + [Zeros(h)];
        }
      }
      assert cols[..|cols|] == cols;
    }

    /** `df['Job_Status'] = df.apply(determine_status, axis=1)` */
    method AddJobStatus(lib: Library)
      requires Snapshot().Valid()
      modifies this
      ensures Snapshot().Valid()
      ensures Snapshot() == WithJobStatus(lib, old(Snapshot()))
    {
      var labels := JobStatuses(lib, Snapshot());
      var j := IndexOf(names, JobStatusColumn);
      if j < |names| {
        columns := columns[j := labels];
      } else {
        names := names + [JobStatusColumn];
        columns := columns + [labels];
      }
    }

    /** `clean_data(df)`: the five steps in order, all on this frame. */
    method CleanData(lib: Library)
      requires Snapshot().Valid()
      modifies this
      ensures Snapshot().Valid() && height == old(height)
      ensures Snapshot() == Cleaned(lib, old(Snapshot()))
    {
      CleanHeaders();
      RunPass(lib, Dates, DateColumns);
      RunPass(lib, Numbers, NumericColumns);
      RunPass(lib, Statuses, StatusColumns);
      AddJobStatus(lib);
    }
  }

  // ---------------------------------------------------------------------
  // Row status (`determine_status`)

  datatype JobStatus = Overload | Complete | InProgress

  /** The text written into the `Job_Status` column. */
  function Label(s: JobStatus): string {
    match s
    case Overload => "Overload"
    case Complete => "Complete"
    case InProgress => "In Progress"
  }

  /**
   * The row-level status rule, from the row's own packing and loading text:
   * `Overload` exactly when the loading text contains `OVERLOAD` (whatever
   * the packing text), `Complete` exactly when both texts are finished,
   * `In Progress` otherwise.
   */
  function DetermineStatus(pack: string, load: string): (r: JobStatus)
    ensures r == Overload <==> Contains(load, "OVERLOAD")
    ensures r == Complete <==> pack in PackingFinished && load in LoadingFinished
    ensures r == InProgress <==> !Contains(load, "OVERLOAD") && !(pack in PackingFinished && load in LoadingFinished)
  {
    FinishedIsNotOverload(load);
    if Contains(load, "OVERLOAD") then Overload
    else if pack in PackingFinished && load in LoadingFinished then Complete
    else InProgress
  }

  // ---------------------------------------------------------------------
  // Properties of the cell conversions

  /** A comma-decimal with a thousands dot no longer parses: the swap leaves two dots. */
  lemma ThousandsSeparatorExample()
    ensures NumericText("1.234,50kg") == "1.234.50"
  {
    var d := ReplaceChar("1.234,50kg", ',', '.');
    assert d == "1.234.50" + "kg";
    assert Lower(d) == d;
    RemoveAllPrefix("1.234.50", "kg", "kg");
    assert RemoveAll("kg", "kg") == RemoveAll("", "kg");
    RemoveAllPrefix("1.234.50", "", "m3");
    assert "1.234.50" + "" == "1.234.50";
  }

  /**
   * Text with no letter loses nothing but its commas, which become dots:
   * the case mapping and the unit removal only ever touch letters.
   */
  lemma NumericTextPlain(t: string)
    requires forall i :: 0 <= i < |t| ==> !IsLetter(t[i])
    ensures NumericText(t) == ReplaceChar(t, ',', '.')
  {
    var d := ReplaceChar(t, ',', '.');
    assert forall i :: 0 <= i < |d| ==> !IsLetter(d[i]);
    LowerFixed(d);
    assert 'k' !in d && 'm' !in d;
    AbsentHead(d, "kg");
    RemoveAllAbsent(d, "kg");
    AbsentHead(d, "m3");
    RemoveAllAbsent(d, "m3");
  }

  /** A unit written after a plain number is removed, whichever of the two units it is. */
  lemma NumericTextUnit(t: string, u: string)
    requires forall i :: 0 <= i < |t| ==> !IsLetter(t[i])
    requires u == "kg" || u == "m3"
    ensures NumericText(t + u) == ReplaceChar(t, ',', '.')
  {
    var d := ReplaceChar(t, ',', '.');
    assert forall i :: 0 <= i < |d| ==> !IsLetter(d[i]);
    assert 'k' !in d && 'm' !in d;
    var du := ReplaceChar(t + u, ',', '.');
    assert du == d + u by {
      forall i | 0 <= i < |du|
        ensures du[i] == (d + u)[i]
      {
        if i < |t| {
          assert (t + u)[i] == t[i];
        } else {
          assert (t + u)[i] == u[i - |t|];
        }
      }
    }
    LowerFixed(d + u);
    if u == "kg" {
      RemoveAllPrefix(d, "kg", "kg");
      assert RemoveAll("kg", "kg") == RemoveAll("", "kg");
      assert d + "" == d;
      AbsentHead(d, "m3");
      RemoveAllAbsent(d, "m3");
    } else {
      assert 'k' !in d + u;
      AbsentHead(d + u, "kg");
      RemoveAllAbsent(d + u, "kg");
      RemoveAllPrefix(d, "m3", "m3");
      assert RemoveAll("m3", "m3") == RemoveAll("", "m3");
      assert d + "" == d;
    }
  }

  /** A negative number keeps its sign through the text pre-processing. */
  lemma NegativeTextKept()
    ensures NumericText("-5") == "-5"
  {
    NumericTextPlain("-5");
    var d := ReplaceChar("-5", ',', '.');
    assert d[0] == '-' && d[1] == '5';
    assert d == "-5";
  }

  /** Canonicalising an already canonical status changes nothing. */
  lemma CanonStatusIdempotent(text: string)
    ensures CanonStatus(text).Some? ==> CanonStatus(CanonStatus(text).value) == CanonStatus(text)
  {
    if CanonStatus(text).Some? {
      CanonStatusKeeps(CanonStatus(text).value);
    }
  }

  /** Leading whitespace makes no difference to the canonical status. */
  lemma CanonStatusIgnoresPadding(c: char, text: string)
    requires IsSpace(c)
    ensures CanonStatus([c] + text) == CanonStatus(text)
  {
    var s := [c] + text;
    var w := Upper(text);
    forall i | 0 <= i < |s|
      ensures Upper(s)[i] == ([c] + w)[i]
    {
      if i > 0 {
        assert s[i] == text[i - 1];
      }
    }
    assert Upper(s) == [c] + w;
    StripLeadingSpace(c, w);
  }

  /** Trailing whitespace makes no difference to the canonical status. */
  lemma CanonStatusIgnoresTrailing(text: string, c: char)
    requires IsSpace(c)
    ensures CanonStatus(text + [c]) == CanonStatus(text)
  {
    var s := text + [c];
    var w := Upper(text);
    forall i | 0 <= i < |s|
      ensures Upper(s)[i] == (w + [c])[i]
    {
      if i < |text| {
        assert s[i] == text[i];
      }
    }
    assert Upper(s) == w + [c];
    StripTrailingSpace(w, c);
  }

  /** The canonical status does not depend on the case the text was written in. */
  lemma CanonStatusAnyCase(text: string)
    ensures CanonStatus(Lower(text)) == CanonStatus(text)
  {
    UpperOfLower(text);
  }

  /** A text already in canonical form, and not a sentinel, is its own canonical status. */
  lemma CanonStatusKeeps(u: string)
    requires NoEdgeSpace(u) && u !in Sentinels
    requires forall i :: 0 <= i < |u| ==> !('a' <= u[i] <= 'z')
    ensures CanonStatus(u) == Some(u)
  {
    UpperFixed(u);
    StripFixed(u);
  }

  /** Every listed sentinel canonicalises to absent. */
  lemma SentinelsAbsent(u: string)
    requires u in Sentinels
    ensures CanonStatus(u) == None
  {
    if u == "nan" {
      var w := Upper(u);
      assert w[0] == 'N' && w[1] == 'A' && w[2] == 'N';
      assert w == "NAN";
      StripFixed(w);
    } else {
      assert forall i :: 0 <= i < |u| ==> !('a' <= u[i] <= 'z');
      UpperFixed(u);
      StripFixed(u);
    }
  }

  /** The sentinel test is on the whole canonical text, in any case and with any padding. */
  lemma SentinelExample()
    ensures CanonStatus(" Null") == None
  {
    assert " Null" == [' '] + "Null";
    CanonStatusIgnoresPadding(' ', "Null");
    NullIsSentinel();
  }

  /** `"Null"` upper-cases to the sentinel `NULL`. */
  lemma NullIsSentinel()
    ensures CanonStatus("Null") == None
  {
    var u := Upper("Null");
    assert u[0] == 'N' && u[1] == 'U' && u[2] == 'L' && u[3] == 'L';
    assert u == "NULL";
    StripFixed(u);
  }

  // ---------------------------------------------------------------------
  // Properties of the row status rule

  /** No finished loading text contains `OVERLOAD`. */
  lemma FinishedIsNotOverload(load: string)
    ensures load in LoadingFinished ==> !Contains(load, "OVERLOAD")
  {
    if load in LoadingFinished && Contains(load, "OVERLOAD") {
      var i := ContainsWitness(load, "OVERLOAD");
      NoOverloadAt(load, i);
      assert false;
    }
  }

  lemma NoOverloadAt(load: string, i: nat)
    requires load in LoadingFinished && i + 8 <= |load|
    ensures load[i..i + 8] != "OVERLOAD"
  {
    assert 'V' !in load;
    assert load[i..i + 8][1] == load[i + 1];
    assert load[i + 1] in load;
  }

  /** An absent status (`None`) or a missing status column (``) never counts as finished. */
  lemma AbsentNeverComplete(other: string)
    ensures DetermineStatus(NoneText, other) != Complete && DetermineStatus(other, NoneText) != Complete
    ensures DetermineStatus("", other) != Complete && DetermineStatus(other, "") != Complete
  {
  }

  /** The three labels are distinct, so a row's label names its status. */
  lemma LabelInjective(a: JobStatus, b: JobStatus)
    ensures Label(a) == Label(b) ==> a == b
  {
  }

  // ---------------------------------------------------------------------
  // What each pass does to the columns

  /** No name occurs twice. */
  predicate Distinct(cols: seq<string>) {
    forall i, j :: 0 <= i < j < |cols| ==> cols[i] != cols[j]
  }

  /** A pass over column `n` leaves every other column, and its presence, as it was. */
  lemma StepOther(lib: Library, pass: Pass, t: Table, n: string, m: string)
    requires t.Valid() && m != n
    ensures m in Step(lib, pass, t, n).names <==> m in t.names
    ensures m in t.names ==> Column(Step(lib, pass, t, n), m) == Column(t, m)
  {
  }

  /** A pass over a list of columns that does not name `m` leaves `m` as it was. */
  lemma {:induction false} FoldOther(lib: Library, pass: Pass, t: Table, cols: seq<string>, m: string)
    requires t.Valid() && m !in cols
    ensures m in Fold(lib, pass, t, cols).names <==> m in t.names
    ensures m in t.names ==> Column(Fold(lib, pass, t, cols), m) == Column(t, m)
    decreases |cols|
  {
    if cols != [] {
      var prefix := cols[..|cols| - 1];
      FoldOther(lib, pass, t, prefix, m);
      StepOther(lib, pass, Fold(lib, pass, t, prefix), cols[|cols| - 1], m);
    }
  }

  /**
   * A pass over a list of distinct columns naming `m` converts every cell of
   * `m` once; the numeric pass creates `m` as zeros when it was missing, the
   * others leave it missing.
   */
  lemma {:induction false} FoldHit(lib: Library, pass: Pass, t: Table, cols: seq<string>, m: string)
    requires t.Valid() && Distinct(cols) && m in cols
    ensures m in Fold(lib, pass, t, cols).names <==> (m in t.names || pass == Numbers)
    ensures m in t.names ==> forall i :: 0 <= i < t.height ==>
      Column(Fold(lib, pass, t, cols), m)[i] == Convert(lib, pass, Column(t, m)[i])
    ensures m !in t.names && pass == Numbers ==> Column(Fold(lib, pass, t, cols), m) == Zeros(t.height)
    decreases |cols|
  {
    var prefix := cols[..|cols| - 1];
    var last := cols[|cols| - 1];
    var u := Fold(lib, pass, t, prefix);
    if last == m {
      assert m !in prefix;
      FoldOther(lib, pass, t, prefix, m);
    } else {
      assert m in prefix;
      FoldHit(lib, pass, t, prefix, m);
      StepOther(lib, pass, u, last, m);
    }
  }

  lemma ColumnListsDistinct()
    ensures Distinct(DateColumns) && Distinct(NumericColumns) && Distinct(StatusColumns)
  {
  }

  /** The column lists of the three passes and `Job_Status` name different columns. */
  lemma ColumnListsApart(n: string)
    ensures n in DateColumns ==> n !in NumericColumns && n !in StatusColumns && n != JobStatusColumn
    ensures n in NumericColumns ==> n !in DateColumns && n !in StatusColumns && n != JobStatusColumn
    ensures n in StatusColumns ==> n !in DateColumns && n !in NumericColumns && n != JobStatusColumn
  {
  }

  // ---------------------------------------------------------------------
  // What `clean_data` guarantees about its result

  /**
   * Every one of the seven numeric columns exists afterwards and holds only
   * numbers: the cleaned cell where the column was present, 0 on every row
   * where it was missing.
   */
  lemma NumericColumnsAfterCleaning(lib: Library, t: Table, n: string)
    requires t.Valid() && n in NumericColumns
    ensures n in Cleaned(lib, t).names
    ensures forall i :: 0 <= i < t.height ==> Column(Cleaned(lib, t), n)[i].Num?
    ensures n in WithCleanHeaders(t).names ==> forall i :: 0 <= i < t.height ==>
      Column(Cleaned(lib, t), n)[i] == NumericCell(lib, Column(WithCleanHeaders(t), n)[i])
    ensures n !in WithCleanHeaders(t).names ==> forall i :: 0 <= i < t.height ==>
      Column(Cleaned(lib, t), n)[i] == Num(0.0)
  {
    var p := Passes(lib, t);
    NumericColumnsAfterPasses(lib, t, n);
    ColumnListsApart(n);
    assert Column(Cleaned(lib, t), n) == Column(p, n);
  }

  /** After the column passes, each numeric column exists and holds its cleaned cells, or zeros. */
  lemma NumericColumnsAfterPasses(lib: Library, t: Table, n: string)
    requires t.Valid() && n in NumericColumns
    ensures n in Passes(lib, t).names
    ensures n in WithCleanHeaders(t).names ==> forall i :: 0 <= i < t.height ==>
      Column(Passes(lib, t), n)[i] == NumericCell(lib, Column(WithCleanHeaders(t), n)[i])
    ensures n !in WithCleanHeaders(t).names ==> Column(Passes(lib, t), n) == Zeros(t.height)
  {
    var h := WithCleanHeaders(t);
    var d := Fold(lib, Dates, h, DateColumns);
    var u := Fold(lib, Numbers, d, NumericColumns);
    ColumnListsDistinct();
    ColumnListsApart(n);
    FoldOther(lib, Dates, h, DateColumns, n);
    FoldHit(lib, Numbers, d, NumericColumns, n);
    FoldOther(lib, Statuses, u, StatusColumns, n);
  }

  /** The three date columns, where present, hold a parsed day or a missing value. */
  lemma DateColumnsAfterCleaning(lib: Library, t: Table, n: string)
    requires t.Valid() && n in DateColumns
    ensures n in Cleaned(lib, t).names <==> n in WithCleanHeaders(t).names
    ensures n in WithCleanHeaders(t).names ==> forall i :: 0 <= i < t.height ==>
      Column(Cleaned(lib, t), n)[i] == DateCell(lib, Column(WithCleanHeaders(t), n)[i])
  {
    var h := WithCleanHeaders(t);
    var d := Fold(lib, Dates, h, DateColumns);
    var u := Fold(lib, Numbers, d, NumericColumns);
    var s := Fold(lib, Statuses, u, StatusColumns);
    var r := WithJobStatus(lib, s);
    assert Cleaned(lib, t) == r;
    ColumnListsDistinct();
    ColumnListsApart(n);
    FoldHit(lib, Dates, h, DateColumns, n);
    FoldOther(lib, Numbers, d, NumericColumns, n);
    FoldOther(lib, Statuses, u, StatusColumns, n);
    if n in h.names {
      assert Column(r, n) == Column(s, n) == Column(u, n) == Column(d, n);
      forall i | 0 <= i < t.height
        ensures Column(r, n)[i] == DateCell(lib, Column(h, n)[i])
      {
        assert Column(d, n)[i] == Convert(lib, Dates, Column(h, n)[i]);
      }
    }
  }

  /** After the column passes, a present status column holds its canonical status cells. */
  lemma StatusColumnsAfterPasses(lib: Library, t: Table, n: string)
    requires t.Valid() && n in StatusColumns
    ensures n in Passes(lib, t).names <==> n in WithCleanHeaders(t).names
    ensures n in WithCleanHeaders(t).names ==> forall i :: 0 <= i < t.height ==>
      Column(Passes(lib, t), n)[i] == StatusCell(lib, Column(WithCleanHeaders(t), n)[i])
  {
    var h := WithCleanHeaders(t);
    var u := Fold(lib, Numbers, Fold(lib, Dates, h, DateColumns), NumericColumns);
    var p := Fold(lib, Statuses, u, StatusColumns);
    assert Passes(lib, t) == p;
    StatusColumnUntouched(lib, h, n);
    ColumnListsDistinct();
    FoldHit(lib, Statuses, u, StatusColumns, n);
  }

  /** The date and numeric passes leave a status column, and whether it exists, as they were. */
  lemma StatusColumnUntouched(lib: Library, h: Table, n: string)
    requires h.Valid() && n in StatusColumns
    ensures var u := Fold(lib, Numbers, Fold(lib, Dates, h, DateColumns), NumericColumns);
      (n in u.names <==> n in h.names) && (n in h.names ==> Column(u, n) == Column(h, n))
  {
    var d := Fold(lib, Dates, h, DateColumns);
    ColumnListsApart(n);
    FoldOther(lib, Dates, h, DateColumns, n);
    FoldOther(lib, Numbers, d, NumericColumns, n);
  }

  /** The two status columns, where present, hold canonical upper-case text or a missing value. */
  lemma StatusColumnsAfterCleaning(lib: Library, t: Table, n: string)
    requires t.Valid() && n in StatusColumns
    ensures n in Cleaned(lib, t).names <==> n in WithCleanHeaders(t).names
    ensures n in WithCleanHeaders(t).names ==> forall i :: 0 <= i < t.height ==>
      Column(Cleaned(lib, t), n)[i] == StatusCell(lib, Column(WithCleanHeaders(t), n)[i])
  {
    StatusColumnsAfterPasses(lib, t, n);
  }

  /**
   * The status text `determine_status` reads for row `i`, computed from that
   * row's raw cell alone: `''` when the column is missing, `None` when the
   * cleaned status is absent.
   */
  function RowStatusText(lib: Library, h: Table, n: string, i: nat): string
    requires h.Valid() && i < h.height
  {
    if n !in h.names then "" else CellText(lib, StatusCell(lib, Column(h, n)[i]))
  }

  /**
   * `Job_Status` exists afterwards, and the label of row `i` is determined
   * by that row's own two raw status cells, whatever the other rows hold.
   */
  lemma JobStatusAfterCleaning(lib: Library, t: Table, i: nat)
    requires t.Valid() && i < t.height
    ensures JobStatusColumn in Cleaned(lib, t).names
    ensures Column(Cleaned(lib, t), JobStatusColumn)[i] ==
      Str(Label(DetermineStatus(
        RowStatusText(lib, WithCleanHeaders(t), PackingStatus, i),
        RowStatusText(lib, WithCleanHeaders(t), LoadingStatus, i))))
  {
    var h := WithCleanHeaders(t);
    var p := Passes(lib, t);
    assert Cleaned(lib, t) == WithJobStatus(lib, p);
    PassesStatusText(lib, t, PackingStatus, i);
    PassesStatusText(lib, t, LoadingStatus, i);
  }

  /** `StatusText` of row `i` after the passes, read back from the raw cell. */
  lemma PassesStatusText(lib: Library, t: Table, n: string, i: nat)
    requires t.Valid() && n in StatusColumns && i < t.height
    ensures StatusText(lib, Passes(lib, t), n, i) == RowStatusText(lib, WithCleanHeaders(t), n, i)
  {
    StatusColumnsAfterPasses(lib, t, n);
    StatusTextFrom(lib, Passes(lib, t), WithCleanHeaders(t), n, i);
  }

  /** A table whose column `n` holds the status cells of another table's column `n` reads the same status texts. */
  lemma StatusTextFrom(lib: Library, p: Table, h: Table, n: string, i: nat)
    requires p.Valid() && h.Valid() && i < p.height && i < h.height
    requires n in p.names <==> n in h.names
    requires n in h.names ==> Column(p, n)[i] == StatusCell(lib, Column(h, n)[i])
    ensures StatusText(lib, p, n, i) == RowStatusText(lib, h, n, i)
  {
  }
}
