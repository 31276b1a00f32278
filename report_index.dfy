/**
 * read_sectioned_file: the MIMIC-CXR sectioned report file, one row per
 * study, indexed by its `study` column. The file name's suffix picks the
 * opener (gzip or plain text) before anything is read.
 */
module ReportIndex {
  import opened Records
  import opened Text

  /** The opener the suffix test chooses. */
  datatype Format = Gzip | Plain

  /** The suffix dispatch: ".csv.gz" is tested first, then ".csv"; anything else is rejected. */
  function SectionedFormat(filename: string): (r: Result<Format>)
    ensures r.Success? <==> EndsWith(filename, ".csv.gz") || EndsWith(filename, ".csv")
    ensures r.Failure? ==> r.error == BadSectionedFormat
  {
    if EndsWith(filename, ".csv.gz") then Success(Gzip)
    else if EndsWith(filename, ".csv") then Success(Plain)
    else Failure(BadSectionedFormat)
  }

  /** Each suffix picks exactly one outcome. */
  lemma SectionedFormatChoice(filename: string)
    ensures SectionedFormat(filename) == Success(Gzip) <==> EndsWith(filename, ".csv.gz")
    ensures SectionedFormat(filename) == Success(Plain) <==> EndsWith(filename, ".csv")
    ensures SectionedFormat(filename).Failure?
        <==> !EndsWith(filename, ".csv.gz") && !EndsWith(filename, ".csv")
  {
    GzipIsNotPlain(filename);
  }

  /** Every row has a `study` column. */
  predicate Keyed(rows: seq<Row>) {
    forall i :: 0 <= i < |rows| ==> "study" in rows[i]
  }

  /** id2data after the rows are read in order: each row stored under its study, later rows overwriting. */
  function Index(rows: seq<Row>): (r: Result<map<string, Row>>)
    ensures r.Success? ==> forall k :: k in r.value ==> "study" in r.value[k] && r.value[k]["study"] == k
    ensures r.Failure? ==> r.error == KeyError("study")
    decreases |rows|
  {
    if rows == [] then Success(map[])
    else
      match Index(rows[..|rows| - 1])
      case Failure(e) => Failure(e)
      case Success(id2data) =>
        var row := rows[|rows| - 1];
        if "study" in row then Success(id2data[row["study"] := row])
        else Failure(KeyError("study"))
  }

  /** What read_sectioned_file returns for a file name and its parsed rows. */
  function SectionedFile(filename: string, rows: seq<Row>): (r: Result<map<string, Row>>)
    ensures r.Success? <==> SectionedFormat(filename).Success? && Keyed(rows)
    ensures SectionedFormat(filename).Failure? ==> r == Failure(BadSectionedFormat)
    ensures SectionedFormat(filename).Success? && !Keyed(rows) ==> r == Failure(KeyError("study"))
    ensures r.Success? ==> r.value.Keys == set i | 0 <= i < |rows| :: rows[i]["study"]
  {
    match SectionedFormat(filename)
    case Failure(e) => Failure(e)
    case Success(_) =>
      IndexSucceedsIff(rows);
      if Keyed(rows) then IndexKeys(rows); Index(rows) else Index(rows)
  }

  /** Indexing succeeds exactly when every row has a `study` column. */
  lemma {:induction false} IndexSucceedsIff(rows: seq<Row>)
    ensures Index(rows).Success? <==> Keyed(rows)
    decreases |rows|
  {
    if rows != [] {
      var init := rows[..|rows| - 1];
      IndexSucceedsIff(init);
      assert forall i :: 0 <= i < |init| ==> init[i] == rows[i];
    }
  }

  /** The index's keys are exactly the studies of the rows. */
  lemma {:induction false} IndexKeys(rows: seq<Row>)
    requires Keyed(rows)
    ensures Index(rows).Success?
    ensures Index(rows).value.Keys == set i | 0 <= i < |rows| :: rows[i]["study"]
    decreases |rows|
  {
    IndexSucceedsIff(rows);
    if rows != [] {
      var init := rows[..|rows| - 1];
      assert Keyed(init);
      IndexKeys(init);
      var last := |rows| - 1;
      assert (set i | 0 <= i < |rows| :: rows[i]["study"])
          == (set i | 0 <= i < |init| :: init[i]["study"]) + {rows[last]["study"]};
    }
  }

  /** The last row of a study is the one the index keeps. */
  lemma {:induction false} IndexLastWins(rows: seq<Row>, j: nat)
    requires Keyed(rows) && j < |rows|
    requires forall later :: j < later < |rows| ==> rows[later]["study"] != rows[j]["study"]
    ensures Index(rows).Success?
    ensures rows[j]["study"] in Index(rows).value
    ensures Index(rows).value[rows[j]["study"]] == rows[j]
    decreases |rows|
  {
    IndexSucceedsIff(rows);
    var last := |rows| - 1;
    if j < last {
      var init := rows[..last];
      assert Keyed(init);
      IndexLastWins(init, j);
    }
  }

  /** Once a prefix fails, the whole read fails with the same error. */
  lemma {:induction false} IndexFailureSticks(rows: seq<Row>, n: nat)
    requires n <= |rows| && Index(rows[..n]).Failure?
    ensures Index(rows) == Index(rows[..n])
    decreases |rows| - n
  {
    if n < |rows| {
      assert rows[..n + 1][..n] == rows[..n];
      IndexFailureSticks(rows, n + 1);
    } else {
      assert rows[..n] == rows;
    }
  }

  /** The first row without a `study` column fails the whole read with KeyError("study"). */
  lemma {:induction false} IndexFirstUnkeyed(rows: seq<Row>, i: nat)
    requires i < |rows| && Keyed(rows[..i]) && "study" !in rows[i]
    ensures Index(rows) == Failure(KeyError("study"))
  {
    IndexSucceedsIff(rows[..i]);
    assert rows[..i + 1][..i] == rows[..i];
    IndexFailureSticks(rows, i + 1);
  }

  /** read_sectioned_file over already-parsed rows; a bad suffix fails whatever the rows are. */
  method ReadSectionedFile(filename: string, rows: seq<Row>) returns (r: Result<map<string, Row>>)
    ensures SectionedFormat(filename).Failure? ==> r == Failure(BadSectionedFormat)
    ensures SectionedFormat(filename).Success? ==> r == Index(rows)
    ensures r == SectionedFile(filename, rows)
  {
    var format := SectionedFormat(filename);  // the opener chosen; opening and decompressing are not modelled
    if format.Failure? {
      return Failure(format.error);
    }
    var id2data: map<string, Row> := map[];
    var i := 0;
    while i < |rows|
      invariant 0 <= i <= |rows|
      invariant Index(rows[..i]) == Success(id2data)
    {
      var row := rows[i];
      assert rows[..i + 1][..i] == rows[..i] && rows[..i + 1][i] == row;
      if "study" !in row {
        IndexFailureSticks(rows, i + 1);
        return Failure(KeyError("study"));
      }
      id2data := id2data[row["study"] := row];
      i := i + 1;
    }
    assert rows[..i] == rows;
    return Success(id2data);
  }
}
