/** `all_merge`: unify the headers of all input files, then write every
    row of every file, renamed, under that one header. */
module Merge {
  import opened Outcomes
  import opened ColumnNames
  import opened HeaderUnifier
  import opened RowReconciler
  import opened CsvOutput

  /** An input CSV file as the csv module reads it: its header row, and
      its data rows as `DictReader` dicts keyed by that header. */
  datatype CsvFile = CsvFile(header: seq<string>, rows: seq<Row>)

  /** The header row of every input file, in input order. */
  function Headers(inputs: seq<CsvFile>): seq<seq<string>>
  {
    seq(|inputs|, f requires 0 <= f < |inputs| => inputs[f].header)
  }

  /** The data rows of every input file, in input order. */
  function RowLists(inputs: seq<CsvFile>): seq<seq<Row>>
  {
    seq(|inputs|, f requires 0 <= f < |inputs| => inputs[f].rows)
  }

  /** Every data row of every input file: file order, then row order. */
  function AllRows(inputs: seq<CsvFile>): seq<Row> {
    Flatten(RowLists(inputs))
  }

  /** The output columns `all_merge` computes for `inputs`. */
  function FieldNames(inputs: seq<CsvFile>): seq<string> {
    Unified(Flatten(Headers(inputs)))
  }

  /** One row through the loop body: renamed, checked (KeyError), then
      handed to `writerow` (ValueError or the written line). */
  function ProcessRow(fieldnames: seq<string>, row: Row): Result<seq<string>, MergeError> {
    match Normalise(Renamed(row))
    case Failure(e) => Failure(e)
    case Success(line) => WriteOutcome(fieldnames, line)
  }

  /** The data lines written and the exception raised, if any. */
  datatype Written = Written(records: seq<seq<string>>, error: Option<MergeError>)

  /** What happens to each row, in order, were it reached. */
  function RowOutcomes(fieldnames: seq<string>, rows: seq<Row>): seq<Result<seq<string>, MergeError>>
  {
    seq(|rows|, i requires 0 <= i < |rows| => ProcessRow(fieldnames, rows[i]))
  }

  /** Row outcomes taken in order until the first exception: the lines of
      the rows before it are in the file, nothing after it is. */
  function Stop(os: seq<Result<seq<string>, MergeError>>): Written {
    if os == [] then Written([], None)
    else
      match os[0]
      case Failure(e) => Written([], Some(e))
      case Success(rec) =>
        var rest := Stop(os[1..]);
        Written([rec] + rest.records, rest.error)
  }

  /** The rows of a run processed in order until one raises. */
  function Emitted(fieldnames: seq<string>, rows: seq<Row>): Written {
    Stop(RowOutcomes(fieldnames, rows))
  }

  /** A row goes through the loop body without an exception exactly when
      the checks pass and its renamed keys are all output columns; it is
      then written as its record. */
  lemma ProcessRowSpec(fieldnames: seq<string>, row: Row)
    ensures ProcessRow(fieldnames, row).Success? <==>
      Normalise(Renamed(row)).Success? && forall c :: c in Renamed(row) ==> c in fieldnames
    ensures ProcessRow(fieldnames, row).Success? ==>
      ProcessRow(fieldnames, row).value == Record(fieldnames, Renamed(row))
  {
  }

  /** The lines are the successful outcomes in order, up to the first
      exception; there is none exactly when every outcome was a line, and
      otherwise the error is the first failing outcome's. */
  lemma {:induction false} StopSpec(os: seq<Result<seq<string>, MergeError>>)
    ensures |Stop(os).records| <= |os|
    ensures forall i :: 0 <= i < |Stop(os).records| ==> os[i] == Success(Stop(os).records[i])
    ensures Stop(os).error.None? <==> |Stop(os).records| == |os|
    ensures Stop(os).error.Some? ==> os[|Stop(os).records|] == Failure(Stop(os).error.value)
  {
    if os != [] {
      var rest := os[1..];
      StopSpec(rest);
      var w, w' := Stop(os), Stop(rest);
      match os[0]
      case Failure(e) =>
        assert w == Written([], Some(e));
      case Success(rec) =>
        assert w == Written([rec] + w'.records, w'.error);
        forall i | 0 <= i < |w.records|
          ensures os[i] == Success(w.records[i])
        {
          if i > 0 { assert os[i] == rest[i - 1] && w.records[i] == w'.records[i - 1]; }
        }
        if w.error.Some? {
          assert os[|w.records|] == rest[|w'.records|];
        }
    }
  }

  /** Taking outcomes `a` then `b` is taking `a`, and, if `a` raised nothing,
      continuing with `b`. */
  lemma {:induction false} StopAppend(a: seq<Result<seq<string>, MergeError>>, b: seq<Result<seq<string>, MergeError>>)
    ensures Stop(a + b) ==
      if Stop(a).error.Some? then Stop(a) else Written(Stop(a).records + Stop(b).records, Stop(b).error)
  {
    if a == [] {
      assert a + b == b;
    } else {
      assert (a + b)[0] == a[0];
      assert (a + b)[1..] == a[1..] + b;
      StopAppend(a[1..], b);
      match a[0]
      case Failure(e) =>
      case Success(rec) =>
        AppendAssoc([rec], Stop(a[1..]).records, Stop(b).records);
    }
  }

  /** The data lines are the rows' lines in input order, one per row, up to
      the first row that raises; the run ends without an exception exactly
      when every row was written, and otherwise with that row's exception. */
  lemma EmittedSpec(fieldnames: seq<string>, rows: seq<Row>)
    ensures |Emitted(fieldnames, rows).records| <= |rows|
    ensures forall i :: 0 <= i < |Emitted(fieldnames, rows).records| ==>
      ProcessRow(fieldnames, rows[i]) == Success(Emitted(fieldnames, rows).records[i])
    ensures Emitted(fieldnames, rows).error.None? <==> |Emitted(fieldnames, rows).records| == |rows|
    ensures Emitted(fieldnames, rows).error.Some? ==>
      ProcessRow(fieldnames, rows[|Emitted(fieldnames, rows).records|]) ==
      Failure(Emitted(fieldnames, rows).error.value)
  {
    StopSpec(RowOutcomes(fieldnames, rows));
  }

  lemma RowOutcomesAppend(fieldnames: seq<string>, a: seq<Row>, b: seq<Row>)
    ensures RowOutcomes(fieldnames, a + b) == RowOutcomes(fieldnames, a) + RowOutcomes(fieldnames, b)
  {
    var l, r := RowOutcomes(fieldnames, a + b), RowOutcomes(fieldnames, a) + RowOutcomes(fieldnames, b);
    forall i | 0 <= i < |l| ensures l[i] == r[i] {
      if i < |a| { assert (a + b)[i] == a[i]; } else { assert (a + b)[i] == b[i - |a|]; }
    }
  }

  /** Processing rows `a` then `b` is processing `a`, and, if `a` raised
      nothing, continuing with `b`. */
  lemma EmittedAppend(fieldnames: seq<string>, a: seq<Row>, b: seq<Row>)
    ensures Emitted(fieldnames, a + b) ==
      if Emitted(fieldnames, a).error.Some? then Emitted(fieldnames, a)
      else Written(Emitted(fieldnames, a).records + Emitted(fieldnames, b).records, Emitted(fieldnames, b).error)
  {
    RowOutcomesAppend(fieldnames, a, b);
    StopAppend(RowOutcomes(fieldnames, a), RowOutcomes(fieldnames, b));
  }

  /** One more row after a run of rows that raised nothing: the run raises
      what the row raises, and otherwise writes the row's line last. */
  lemma EmittedStep(fieldnames: seq<string>, a: seq<Row>, row: Row, failure: Option<MergeError>,
                    linesBefore: seq<seq<string>>, linesAfter: seq<seq<string>>)
    requires Emitted(fieldnames, a).error.None?
    requires linesBefore == [fieldnames] + Emitted(fieldnames, a).records
    requires failure.None? <==> ProcessRow(fieldnames, row).Success?
    requires failure.Some? ==> ProcessRow(fieldnames, row) == Failure(failure.value) && linesAfter == linesBefore
    requires failure.None? ==> linesAfter == linesBefore + [ProcessRow(fieldnames, row).value]
    ensures Emitted(fieldnames, a + [row]).error == failure
    ensures linesAfter == [fieldnames] + Emitted(fieldnames, a + [row]).records
  {
    var o := ProcessRow(fieldnames, row);
    RowOutcomesAppend(fieldnames, a, [row]);
    assert RowOutcomes(fieldnames, [row]) == [o];
    StopStep(RowOutcomes(fieldnames, a), o, fieldnames, failure, linesBefore, linesAfter);
  }

  /** One more outcome after outcomes that raised nothing. */
  lemma StopStep(os: seq<Result<seq<string>, MergeError>>, o: Result<seq<string>, MergeError>, header: seq<string>,
                 failure: Option<MergeError>, linesBefore: seq<seq<string>>, linesAfter: seq<seq<string>>)
    requires Stop(os).error.None?
    requires linesBefore == [header] + Stop(os).records
    requires failure.None? <==> o.Success?
    requires failure.Some? ==> o == Failure(failure.value) && linesAfter == linesBefore
    requires failure.None? ==> linesAfter == linesBefore + [o.value]
    ensures Stop(os + [o]).error == failure
    ensures linesAfter == [header] + Stop(os + [o]).records
  {
    StopAppend(os, [o]);
    assert [o][1..] == [];
    match o
    case Failure(e) =>
      assert Stop([o]) == Written([], Some(e));
    case Success(rec) =>
      assert Stop([o]) == Written([rec], None);
      AppendAssoc([header], Stop(os).records, [rec]);
  }

  lemma AppendAssoc<T>(a: seq<T>, b: seq<T>, c: seq<T>)
    ensures (a + b) + c == a + (b + c)
  {
  }

  /** Once the rows of the first files raise, the later files change nothing. */
  lemma StopsAtFile(fieldnames: seq<string>, lists: seq<seq<Row>>, f: nat)
    requires f < |lists|
    requires Emitted(fieldnames, Flatten(lists[..f + 1])).error.Some?
    ensures Emitted(fieldnames, Flatten(lists)) == Emitted(fieldnames, Flatten(lists[..f + 1]))
  {
    TakeDrop(lists, f + 1);
    FlattenAppend(lists[..f + 1], lists[f + 1..]);
    EmittedAppend(fieldnames, Flatten(lists[..f + 1]), Flatten(lists[f + 1..]));
  }

  /** The body of the row loop: rename the row's keys, run the Birth Year /
      station checks, write the row. */
  method ReconcileRow(writer: DictWriter, row: Row) returns (failure: Option<MergeError>)
    modifies writer
    ensures failure.None? <==> ProcessRow(writer.fieldnames, row).Success?
    ensures failure.Some? ==>
      ProcessRow(writer.fieldnames, row) == Failure(failure.value) && writer.lines == old(writer.lines)
    ensures failure.None? ==>
      writer.lines == old(writer.lines) + [ProcessRow(writer.fieldnames, row).value]
  {
    var line := RenameColumns(row);
    match Normalise(line)
    case Failure(e) =>
      failure := Some(e);
    case Success(_) =>
      failure := writer.WriteRow(line);
  }

  /** The body of `all_merge`: compute `fieldnames`, write the header, then
      for each file and each of its rows rename, check and write the row.
      The first exception ends the run; what was written stays written. */
  method AllMerge(inputs: seq<CsvFile>) returns (written: seq<seq<string>>, err: Option<MergeError>)
    ensures written == [FieldNames(inputs)] + Emitted(FieldNames(inputs), AllRows(inputs)).records
    ensures err == Emitted(FieldNames(inputs), AllRows(inputs)).error
  {
    var fieldnames := UnifyHeaders(Headers(inputs));
    var writer := new DictWriter(fieldnames);
    writer.WriteHeader();
    ghost var lists := RowLists(inputs);
    var f := 0;
    while f < |inputs|
      invariant 0 <= f <= |inputs|
      invariant Emitted(fieldnames, Flatten(lists[..f])).error == None
      invariant writer.lines == [fieldnames] + Emitted(fieldnames, Flatten(lists[..f])).records
    {
      assert Flatten(lists[..f + 1]) == Flatten(lists[..f]) + inputs[f].rows by {
        assert lists[..f + 1][..f] == lists[..f];
      }
      var rows := inputs[f].rows;
      ghost var done := Flatten(lists[..f]);
      var i := 0;
      assert done + rows[..0] == done;
      while i < |rows|
        invariant 0 <= i <= |rows|
        invariant Emitted(fieldnames, done + rows[..i]).error.None?
        invariant writer.lines == [fieldnames] + Emitted(fieldnames, done + rows[..i]).records
      {
        ghost var before := done + rows[..i];
        ghost var linesBefore := writer.lines;
        var failure := ReconcileRow(writer, rows[i]);
        EmittedStep(fieldnames, before, rows[i], failure, linesBefore, writer.lines);
        SliceStep(done, rows, i);
        if failure.Some? {
          EmittedAppend(fieldnames, done + rows[..i + 1], rows[i + 1..]);
          StopsAtFile(fieldnames, lists, f);
          return writer.lines, failure;
        }
        i := i + 1;
      }
      assert rows[..i] == rows;
      f := f + 1;
    }
    assert lists[..f] == lists;
    written, err := writer.lines, None;
  }

  /** `csv.DictReader` keys each row by its file's header. */
  predicate RowsMatchHeaders(inputs: seq<CsvFile>) {
    forall f, r, k :: 0 <= f < |inputs| && r in inputs[f].rows && k in r.fields ==> k in inputs[f].header
  }

  /** Header coverage pays off: a renamed row never has a column outside
      `fieldnames`, so `writerow` never raises ValueError. */
  lemma RenamedRowsFitFieldNames(inputs: seq<CsvFile>)
    requires RowsMatchHeaders(inputs)
    ensures forall r, c :: r in AllRows(inputs) && c in Renamed(r) ==> c in FieldNames(inputs)
  {
    var headers := Headers(inputs);
    HeaderCoverage(headers);
    FlattenMembers(RowLists(inputs));
    forall r, c | r in AllRows(inputs) && c in Renamed(r)
      ensures c in FieldNames(inputs)
    {
      var f, i :| 0 <= f < |RowLists(inputs)| && 0 <= i < |RowLists(inputs)[f]| && RowLists(inputs)[f][i] == r;
      assert r in inputs[f].rows;
      RenamedSpec(r);
      var k :| k in r.fields && Translate(k) == c;
      assert k in headers[f];
      var j :| 0 <= j < |headers[f]| && headers[f][j] == k;
      assert Translate(headers[f][j]) in FieldNames(inputs);
    }
  }

  /** On input read by `DictReader` the merge can only stop with
      KeyError('Birth Year'), and it writes every row exactly when no row
      has a station-ID column without a Birth Year column. */
  lemma MergeOutcome(inputs: seq<CsvFile>)
    requires RowsMatchHeaders(inputs)
    ensures Emitted(FieldNames(inputs), AllRows(inputs)).error.Some? ==>
      Emitted(FieldNames(inputs), AllRows(inputs)).error.value == KeyError(BirthYear)
    ensures Emitted(FieldNames(inputs), AllRows(inputs)).error.None? <==>
      forall r :: r in AllRows(inputs) ==> Normalise(Renamed(r)).Success?
  {
    var fields, rows := FieldNames(inputs), AllRows(inputs);
    var w := Emitted(fields, rows);
    RenamedRowsFitFieldNames(inputs);
    EmittedSpec(fields, rows);
    forall r | r in rows && Normalise(Renamed(r)).Success?
      ensures ProcessRow(fields, r).Success?
    {
    }
    if w.error.None? {
      forall r | r in rows
        ensures Normalise(Renamed(r)).Success?
      {
        var i :| 0 <= i < |rows| && rows[i] == r;
        assert ProcessRow(fields, rows[i]).Success?;
      }
    } else {
      var bad := rows[|w.records|];
      assert bad in rows;
      assert ProcessRow(fields, bad).Failure?;
      assert Normalise(Renamed(bad)).Failure?;
    }
  }
}
