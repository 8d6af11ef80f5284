/** What `csv.DictWriter` does with the rows `all_merge` hands it: one
    output line per call, values in `fieldnames` order. */
module CsvOutput {
  import opened Outcomes

  /** The row keys that are not output columns. */
  function WrongFields(fieldnames: seq<string>, line: map<string, string>): set<string>
  {
    set k | k in line && k !in fieldnames
  }

  /** The line written for `line`: one value per output column, the row's
      value for that column or the empty string where the row lacks it. */
  function Record(fieldnames: seq<string>, line: map<string, string>): (rec: seq<string>)
    ensures |rec| == |fieldnames|
    ensures forall i :: 0 <= i < |fieldnames| ==>
      rec[i] == (if fieldnames[i] in line then line[fieldnames[i]] else "")
  {
    if fieldnames == [] then []
    else
      var f := fieldnames[0];
      [if f in line then line[f] else ""] + Record(fieldnames[1..], line)
  }

  /** `writerow` as a value: ValueError naming the keys outside
      `fieldnames` when there are any, otherwise the written line. */
  function WriteOutcome(fieldnames: seq<string>, line: map<string, string>): (r: Result<seq<string>, MergeError>)
    ensures r.Failure? <==> exists k :: k in line && k !in fieldnames
    ensures r.Failure? ==> r.error == ValueError(WrongFields(fieldnames, line))
    ensures r.Success? ==> r.value == Record(fieldnames, line)
  {
    var wrong := WrongFields(fieldnames, line);
    assert forall k :: k in wrong <==> k in line && k !in fieldnames;
    if wrong != {} then
      assert exists k :: k in wrong;
      Failure(ValueError(wrong))
    else Success(Record(fieldnames, line))
  }

  /** A `csv.DictWriter` over an output file; `lines` is everything written
      to the file so far. */
  class DictWriter {
    const fieldnames: seq<string>
    var lines: seq<seq<string>>

    constructor (fieldnames: seq<string>)
      ensures this.fieldnames == fieldnames && lines == []
    {
      this.fieldnames := fieldnames;
      lines := [];
    }

    /** `writeheader`: writes the column names as one line. */
    method WriteHeader()
      modifies this
      ensures lines == old(lines) + [fieldnames]
    {
      lines := lines + [fieldnames];
    }

    /** `writerow` with the default `extrasaction='raise'` and `restval=''`:
        a row with a key outside `fieldnames` raises ValueError and writes
        nothing; any other row is written as one line in column order. */
    method WriteRow(line: map<string, string>) returns (err: Option<MergeError>)
      modifies this
      ensures err.None? <==> forall k :: k in line ==> k in fieldnames
      ensures err.Some? ==> err.value == ValueError(WrongFields(fieldnames, line)) && lines == old(lines)
      ensures err.None? ==> lines == old(lines) + [Record(fieldnames, line)]
    {
      match WriteOutcome(fieldnames, line)
      case Failure(e) =>
        err := Some(e);
      case Success(rec) =>
        err := None;
        lines := lines + [rec];
    }
  }
}
