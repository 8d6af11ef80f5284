/** Second pass of `all_merge`, one row at a time: rename the row's keys
    through `col_trans`, then the Birth Year / station checks. */
module RowReconciler {
  import opened Outcomes
  import opened ColumnNames

  /** A Python dict as `csv.DictReader` yields it: the keys in iteration
      order, and the key-to-value map. */
  datatype RawRow = RawRow(keys: seq<string>, fields: map<string, string>) {
    /** Each key is listed once, and the listed keys are those of the map. */
    predicate IsDict() {
      && (forall i, j :: 0 <= i < j < |keys| ==> keys[i] != keys[j])
      && (forall k :: k in keys ==> k in fields)
      && (forall k :: k in fields ==> k in keys)
    }
  }

  type Row = r: RawRow | r.IsDict() witness RawRow([], map[])

  /** `h` is a raw name that the rename table `t` sends to `c`. */
  predicate Renames(t: map<string, string>, h: string, c: string) {
    h in t && t[h] == c
  }

  /** No key of `order` is renamed to `c`. */
  predicate NoRenamer(t: map<string, string>, order: seq<string>, c: string) {
    forall j :: 0 <= j < |order| ==> !Renames(t, order[j], c)
  }

  /** `order[i]` is renamed to `c` and no later key of `order` is. */
  predicate LastRenamer(t: map<string, string>, order: seq<string>, i: int, c: string) {
    0 <= i < |order| && Renames(t, order[i], c) && NoRenamer(t, order[i + 1..], c)
  }

  /** The dict `m` after the rename loop has visited the keys `order`, in
      that order: each key with an entry in `t` is popped and its value
      stored under the canonical name, overwriting any value already there. */
  function RenameFrom(t: map<string, string>, order: seq<string>, m: map<string, string>): map<string, string>
    requires forall i, j :: 0 <= i < j < |order| ==> order[i] != order[j]
    requires forall k :: k in order ==> k in m
  {
    if order == [] then m
    else
      var h := order[0];
      var m' := if h in t then (m - {h})[t[h] := m[h]] else m;
      RenameFrom(t, order[1..], m')
  }

  /** The row after the rename loop, which visits a copy of the row's keys. */
  function Renamed(row: Row): map<string, string> {
    RenameFrom(ColTrans, row.keys, row.fields)
  }

  /** The keys left after the rename loop, for any table whose values are
      not keys: those of `m` that are not renamed away, and the names some
      key of `order` is renamed to. */
  lemma {:induction false} RenameFromKeys(t: map<string, string>, order: seq<string>, m: map<string, string>)
    requires ValuesNotKeys(t)
    requires forall i, j :: 0 <= i < j < |order| ==> order[i] != order[j]
    requires forall k :: k in order ==> k in m
    ensures forall c :: c in RenameFrom(t, order, m) <==>
      (c in m && !(c in t && c in order)) || !NoRenamer(t, order, c)
  {
    if order != [] {
      var h, rest := order[0], order[1..];
      var m' := if h in t then (m - {h})[t[h] := m[h]] else m;
      RenameFromKeys(t, rest, m');
      forall c ensures NoRenamer(t, order, c) <==> !Renames(t, h, c) && NoRenamer(t, rest, c) {
        NoRenamerCons(t, order, c);
      }
    }
  }

  lemma NoRenamerCons(t: map<string, string>, order: seq<string>, c: string)
    requires order != []
    ensures NoRenamer(t, order, c) <==> !Renames(t, order[0], c) && NoRenamer(t, order[1..], c)
  {
    if !Renames(t, order[0], c) && NoRenamer(t, order[1..], c) {
      forall j | 0 <= j < |order| ensures !Renames(t, order[j], c) {
        if j > 0 { assert order[j] == order[1..][j - 1]; }
      }
    }
  }

  /** A renamed column ends up with the value of the last raw key of `order`
      renamed to it. */
  lemma {:induction false} RenameFromLast(t: map<string, string>, order: seq<string>, m: map<string, string>)
    requires ValuesNotKeys(t)
    requires forall i, j :: 0 <= i < j < |order| ==> order[i] != order[j]
    requires forall k :: k in order ==> k in m
    ensures forall i, c :: LastRenamer(t, order, i, c) ==>
      c in RenameFrom(t, order, m) && RenameFrom(t, order, m)[c] == m[order[i]]
  {
    if order != [] {
      var h, rest := order[0], order[1..];
      var m' := if h in t then (m - {h})[t[h] := m[h]] else m;
      RenameFromLast(t, rest, m');
      RenameFromKept(t, rest, m');
      forall i, c | LastRenamer(t, order, i, c)
        ensures c in RenameFrom(t, order, m) && RenameFrom(t, order, m)[c] == m[order[i]]
      {
        if i > 0 {
          assert order[i + 1..] == rest[i..];
          assert LastRenamer(t, rest, i - 1, c);
        } else {
          assert order[1..] == rest;
        }
      }
    }
  }

  /** A key that the table leaves alone and that nothing in `order` is
      renamed to keeps its value. */
  lemma {:induction false} RenameFromKept(t: map<string, string>, order: seq<string>, m: map<string, string>)
    requires ValuesNotKeys(t)
    requires forall i, j :: 0 <= i < j < |order| ==> order[i] != order[j]
    requires forall k :: k in order ==> k in m
    ensures forall c :: c in m && c !in t && NoRenamer(t, order, c) ==>
      c in RenameFrom(t, order, m) && RenameFrom(t, order, m)[c] == m[c]
  {
    if order != [] {
      var h, rest := order[0], order[1..];
      var m' := if h in t then (m - {h})[t[h] := m[h]] else m;
      RenameFromKept(t, rest, m');
      forall c | c in m && c !in t && NoRenamer(t, order, c)
        ensures c in RenameFrom(t, order, m) && RenameFrom(t, order, m)[c] == m[c]
      {
        assert !Renames(t, order[0], c);
        assert NoRenamer(t, rest, c) by {
          forall j | 0 <= j < |rest| ensures !Renames(t, rest[j], c) {
            assert rest[j] == order[j + 1];
          }
        }
      }
    }
  }

  /** The rename loop over a whole dict, for any table whose values are not
      keys: the columns afterwards are exactly the translations of the dict's
      keys, none of them a key of the table; a renamed column carries the
      value of the last raw key renamed to it; a key that nothing renames to
      keeps its value. */
  lemma RenameRowSpec(t: map<string, string>, row: Row)
    requires ValuesNotKeys(t)
    ensures forall k :: k in row.fields ==> TranslateWith(t, k) in RenameFrom(t, row.keys, row.fields)
    ensures forall c :: c in RenameFrom(t, row.keys, row.fields) ==>
      c !in t && exists k :: k in row.fields && TranslateWith(t, k) == c
    ensures forall i, c :: LastRenamer(t, row.keys, i, c) ==>
      c in RenameFrom(t, row.keys, row.fields) && RenameFrom(t, row.keys, row.fields)[c] == row.fields[row.keys[i]]
    ensures forall c :: c in row.fields && c !in t && NoRenamer(t, row.keys, c) ==>
      c in RenameFrom(t, row.keys, row.fields) && RenameFrom(t, row.keys, row.fields)[c] == row.fields[c]
  {
    var out := RenameFrom(t, row.keys, row.fields);
    RenameFromKeys(t, row.keys, row.fields);
    RenameFromLast(t, row.keys, row.fields);
    RenameFromKept(t, row.keys, row.fields);
    forall k | k in row.fields
      ensures TranslateWith(t, k) in out
    {
      if k in t {
        var i :| 0 <= i < |row.keys| && row.keys[i] == k;
        assert Renames(t, row.keys[i], TranslateWith(t, k));
      }
    }
    forall c | c in out
      ensures c !in t && exists k :: k in row.fields && TranslateWith(t, k) == c
    {
      if !NoRenamer(t, row.keys, c) {
        var i :| 0 <= i < |row.keys| && Renames(t, row.keys[i], c);
        assert TranslateWith(t, row.keys[i]) == c;
      } else {
        assert TranslateWith(t, c) == c;
      }
    }
  }

  /** The same for `col_trans`: after renaming, a row holds exactly the
      translations of its keys and no raw name of `col_trans`; each renamed
      column carries the original value of the last raw key renamed to it;
      keys nothing is renamed to keep their values. */
  lemma RenamedSpec(row: Row)
    ensures forall k :: k in row.fields ==> Translate(k) in Renamed(row)
    ensures forall c :: c in Renamed(row) ==> c !in ColTrans && exists k :: k in row.fields && Translate(k) == c
    ensures forall i, c :: LastRenamer(ColTrans, row.keys, i, c) ==>
      c in Renamed(row) && Renamed(row)[c] == row.fields[row.keys[i]]
    ensures forall c :: c in row.fields && c !in ColTrans && NoRenamer(ColTrans, row.keys, c) ==>
      c in Renamed(row) && Renamed(row)[c] == row.fields[c]
  {
    ValuesAreNotKeys();
    RenameRowSpec(ColTrans, row);
  }

  /** The rename loop of `all_merge`, iterating over a copy of the row's
      keys and popping each raw `col_trans` key into its canonical name. */
  method RenameColumns(row: Row) returns (line: map<string, string>)
    ensures line == Renamed(row)
  {
    line := row.fields;
    var copy := row.keys;
    var n := 0;
    while n < |copy|
      invariant 0 <= n <= |copy|
      invariant forall k :: k in copy[n..] ==> k in line
      invariant RenameFrom(ColTrans, copy[n..], line) == Renamed(row)
    {
      var h := copy[n];
      if h in ColTrans {
        var v := line[h];
        line := line - {h};
        line := line[ColTrans[h] := v];
      }
      assert copy[n..][1..] == copy[n + 1..];
      n := n + 1;
    }
  }

  /** The Birth Year / Start Station ID / End Station ID block. Its inner
      statements compare with `==` and discard the result, so the row is
      never changed; but the two station branches look up `Birth Year`, which
      raises KeyError when the row has a station column and no Birth Year. */
  function Normalise(line: map<string, string>): (r: Result<map<string, string>, MergeError>)
    ensures r.Success? ==> r.value == line
    ensures r.Failure? <==> (StartStationId in line || EndStationId in line) && BirthYear !in line
    ensures r.Failure? ==> r.error == KeyError(BirthYear)
  {
    if StartStationId in line && BirthYear !in line then Failure(KeyError(BirthYear))
    else if EndStationId in line && BirthYear !in line then Failure(KeyError(BirthYear))
    else Success(line)
  }

  /** The checks fail on a renamed row exactly when one of its raw keys is a
      station-ID column and none of its raw keys becomes `Birth Year`. */
  lemma NormaliseFailsOnRaw(row: Row)
    ensures Normalise(Renamed(row)).Failure? <==>
      (exists k :: k in row.fields && (Translate(k) == StartStationId || Translate(k) == EndStationId)) &&
      (forall k :: k in row.fields ==> Translate(k) != BirthYear)
  {
    RenamedSpec(row);
  }

  /** A row with a snake_case station-ID column and no column that becomes
      `Birth Year` stops the merge with KeyError('Birth Year'), whatever its
      other columns and values. */
  lemma StationRowWithoutBirthYearFails(row: Row)
    requires "start_station_id" in row.fields || "end_station_id" in row.fields
    requires "birth year" !in row.fields && BirthYear !in row.fields
    ensures Normalise(Renamed(row)) == Failure(KeyError(BirthYear))
  {
    NormaliseFailsOnRaw(row);
    SnakeCaseStationIds();
    forall k | k in row.fields
      ensures Translate(k) != BirthYear
    {
      BirthYearSources(k);
    }
  }
}
