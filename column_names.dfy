/** The fixed rename table `col_trans` and the translation of one raw
    column name through it. */
module ColumnNames {

  /** Canonical column names the reconciliation step looks at. */
  const BirthYear: string := "Birth Year"
  const StartStationId: string := "Start Station ID"
  const EndStationId: string := "End Station ID"

  /** `col_trans`: raw header names of the 2013-2016 and 2017+ exports mapped
      to one canonical vocabulary. Several raw names share a canonical name
      (`starttime` and `started_at` both become `Start Time`). */
  const ColTrans: map<string, string> := map[
    "tripduration" := "Trip Duration",
    "starttime" := "Start Time",
    "stoptime" := "Stop Time",
    "start station id" := "Start Station ID",
    "start station name" := "Start Station Name",
    "start station latitude" := "Start Station Latitude",
    "start station longitude" := "Start Station Longitude",
    "end station id" := "End Station ID",
    "end station name" := "End Station Name",
    "end station latitude" := "End Station Latitude",
    "end station longitude" := "End Station Longitude",
    "bikeid" := "Bike ID",
    "usertype" := "User Type",
    "birth year" := "Birth Year",
    "gender" := "Gender",
    "started_at" := "Start Time",
    "ended_at" := "Stop Time",
    "start_station_name" := "Start Station Name",
    "start_station_id" := "Start Station ID",
    "end_station_name" := "End Station Name",
    "end_station_id" := "End Station ID",
    "start_lat" := "Start Station Latitude",
    "start_lng" := "Start Station Longitude",
    "end_lat" := "End Station Latitude",
    "end_lng" := "End Station Longitude"
  ]

  /** Every raw name of the table starts with a lower-case letter ... */
  predicate IsRawName(s: string) {
    |s| > 0 && 'a' <= s[0] <= 'z'
  }

  /** ... and every canonical name with an upper-case one. */
  predicate IsCanonicalName(s: string) {
    |s| > 0 && 'A' <= s[0] <= 'Z'
  }

  /** No value of the rename table `t` is also one of its keys. */
  predicate ValuesNotKeys(t: map<string, string>) {
    forall k :: k in t ==> t[k] !in t
  }

  /** No canonical name of `col_trans` is itself a raw name of `col_trans`. */
  lemma ValuesAreNotKeys()
    ensures ValuesNotKeys(ColTrans)
  {
    assert forall k :: k in ColTrans ==> IsRawName(k) && IsCanonicalName(ColTrans[k]);
  }

  /** The name `h` is written under when renamed through table `t`: its
      entry when it has one, the name itself otherwise. */
  function TranslateWith(t: map<string, string>, h: string): (c: string)
    requires ValuesNotKeys(t)
    ensures c !in t
  {
    if h in t then t[h] else h
  }

  /** The name a raw header or row key is written under after `col_trans`. */
  function Translate(h: string): (c: string)
    ensures c !in ColTrans
  {
    ValuesAreNotKeys();
    TranslateWith(ColTrans, h)
  }

  /** Translating twice is translating once. */
  lemma TranslateIdempotent(h: string)
    ensures Translate(Translate(h)) == Translate(h)
  {
  }

  /** The snake_case station-ID columns of `col_trans` are recognised as
      the station IDs the reconciliation step looks at. */
  lemma SnakeCaseStationIds()
    ensures Translate("start_station_id") == StartStationId
    ensures Translate("end_station_id") == EndStationId
  {
  }

  /** Only `birth year` and `Birth Year` itself are written as `Birth Year`. */
  lemma {:induction false} BirthYearSources(k: string)
    ensures Translate(k) == BirthYear <==> k == "birth year" || k == BirthYear
  {
    assert forall r :: r in ColTrans && ColTrans[r] == BirthYear ==> r == "birth year";
  }
}
