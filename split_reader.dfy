/**
 * read_split_file: the official split file, one row per report, grouped into
 * a map from split name ("train", "dev", "test", or whatever the file says)
 * to the (study_id, subject_id) pairs of that split, with a row count.
 */
module SplitReader {
  import opened Records
  import opened Text

  /** split2ids, a defaultdict(list): a split that is not a key has the empty list. */
  type Groups = map<string, seq<IdPair>>

  function Ids(groups: Groups, split: string): seq<IdPair> {
    if split in groups then groups[split] else []
  }

  /** `split2ids[split].append(pair)` */
  function Append(groups: Groups, split: string, pair: IdPair): Groups {
    groups[split := Ids(groups, split) + [pair]]
  }

  /** A row carries every column the reader looks up. */
  predicate Complete(row: Row) {
    "split" in row && "study_id" in row && "subject_id" in row
  }

  predicate AllComplete(rows: seq<Row>) {
    forall i :: 0 <= i < |rows| ==> Complete(rows[i])
  }

  /** The split name and id pair of one row, looked up in the order the source reads them. */
  function SplitAndPair(row: Row): (r: Result<(string, IdPair)>)
    ensures r.Success? <==> Complete(row)
    ensures r.Success? ==>
      r.value.0 == row["split"] && r.value.1.studyId == row["study_id"] && r.value.1.subjectId == row["subject_id"]
    ensures r.Failure? ==> r.error.KeyError? && r.error.key !in row
  {
    if "split" !in row then Failure(KeyError("split"))
    else if "study_id" !in row then Failure(KeyError("study_id"))
    else if "subject_id" !in row then Failure(KeyError("subject_id"))
    else Success((row["split"], IdPair(row["study_id"], row["subject_id"])))
  }

  /** The groups after the rows are read in order; the first incomplete row fails the read. */
  function Group(rows: seq<Row>): (r: Result<Groups>)
    ensures r.Success? ==> forall split :: split in r.value ==> |r.value[split]| > 0
    ensures r.Failure? ==> r.error.KeyError? && r.error.key in ["split", "study_id", "subject_id"]
    decreases |rows|
  {
    if rows == [] then Success(map[])
    else
      match Group(rows[..|rows| - 1])
      case Failure(e) => Failure(e)
      case Success(groups) =>
        match SplitAndPair(rows[|rows| - 1])
        case Failure(e) => Failure(e)
        case Success(sp) => Success(Append(groups, sp.0, sp.1))
  }

  /** What read_split_file returns for a file name and its parsed rows, without the count. */
  function SplitFile(filename: string, rows: seq<Row>): (r: Result<Groups>)
    ensures r.Success? <==> EndsWith(filename, ".csv") && AllComplete(rows)
    ensures !EndsWith(filename, ".csv") ==> r == Failure(BadSplitFormat(filename))
    ensures r.Success? ==> TotalLength(r.value) == |rows|
  {
    if !EndsWith(filename, ".csv") then Failure(BadSplitFormat(filename))
    else
      GroupSucceedsIff(rows);
      if AllComplete(rows) then GroupCountsEveryRow(rows); Group(rows) else Group(rows)
  }

  /** Reference definition: the pairs of the rows of `split`, in file order, duplicates included. */
  function PairsIn(rows: seq<Row>, split: string): seq<IdPair>
    requires AllComplete(rows)
  {
    if rows == [] then []
    else
      (if rows[0]["split"] == split then [IdPair(rows[0]["study_id"], rows[0]["subject_id"])] else [])
      + PairsIn(rows[1..], split)
  }

  /** Sum of the lengths of all the lists in the groups. */
  ghost function TotalLength(groups: Groups): nat
    decreases |groups|
  {
    if |groups| == 0 then 0
    else
      var k :| k in groups;
      |groups[k]| + TotalLength(groups - {k})
  }

  /** The key TotalLength takes apart first. */
  lemma FirstKey(groups: Groups) returns (k: string)
    requires |groups| != 0
    ensures k in groups && TotalLength(groups) == |groups[k]| + TotalLength(groups - {k})
  {
    k :| k in groups && TotalLength(groups) == |groups[k]| + TotalLength(groups - {k});
  }

  /** The total does not depend on the order the keys are taken in. */
  lemma {:induction false} TotalLengthRemove(groups: Groups, k: string)
    requires k in groups
    ensures TotalLength(groups) == |groups[k]| + TotalLength(groups - {k})
    decreases |groups|
  {
    var j := FirstKey(groups);
    if j != k {
      var withoutJ, withoutK := groups - {j}, groups - {k};
      assert |withoutJ.Keys| == |groups.Keys| - 1 && |withoutK.Keys| == |groups.Keys| - 1;
      assert k in withoutJ && withoutJ[k] == groups[k];
      assert j in withoutK && withoutK[j] == groups[j];
      TotalLengthRemove(withoutJ, k);
      TotalLengthRemove(withoutK, j);
      assert withoutJ - {k} == withoutK - {j};
    }
  }

  /** One append adds exactly one to the total. */
  lemma TotalLengthAppend(groups: Groups, split: string, pair: IdPair)
    ensures TotalLength(Append(groups, split, pair)) == TotalLength(groups) + 1
  {
    var after := Append(groups, split, pair);
    TotalLengthRemove(after, split);
    assert after - {split} == groups - {split};
    if split in groups {
      TotalLengthRemove(groups, split);
    } else {
      assert groups - {split} == groups;
    }
  }

  /** Reading succeeds exactly when every row has the split, study_id and subject_id columns. */
  lemma {:induction false} GroupSucceedsIff(rows: seq<Row>)
    ensures Group(rows).Success? <==> AllComplete(rows)
    decreases |rows|
  {
    if rows != [] {
      var init := rows[..|rows| - 1];
      GroupSucceedsIff(init);
      assert forall i :: 0 <= i < |init| ==> init[i] == rows[i];
    }
  }

  /** Grouping is complete: the lists together hold one pair per row. */
  lemma {:induction false} GroupCountsEveryRow(rows: seq<Row>)
    requires Group(rows).Success?
    ensures TotalLength(Group(rows).value) == |rows|
    decreases |rows|
  {
    if rows != [] {
      GroupCountsEveryRow(rows[..|rows| - 1]);
      var sp := SplitAndPair(rows[|rows| - 1]).value;
      TotalLengthAppend(Group(rows[..|rows| - 1]).value, sp.0, sp.1);
    }
  }

  lemma {:induction false} PairsInSnoc(rows: seq<Row>, row: Row, split: string)
    requires AllComplete(rows) && Complete(row)
    ensures AllComplete(rows + [row])
    ensures PairsIn(rows + [row], split)
         == PairsIn(rows, split)
            + (if row["split"] == split then [IdPair(row["study_id"], row["subject_id"])] else [])
  {
    var all := rows + [row];
    assert forall i :: 0 <= i < |rows| ==> all[i] == rows[i];
    assert all[|rows|] == row;
    if rows != [] {
      assert all[1..] == rows[1..] + [row];
      PairsInSnoc(rows[1..], row, split);
    }
  }

  /** Each split's list is exactly its rows' pairs, in file order, repeated rows repeated. */
  lemma {:induction false} GroupKeepsOrder(rows: seq<Row>, split: string)
    requires Group(rows).Success?
    ensures AllComplete(rows)
    ensures Ids(Group(rows).value, split) == PairsIn(rows, split)
    decreases |rows|
  {
    GroupSucceedsIff(rows);
    if rows != [] {
      var init := rows[..|rows| - 1];
      GroupKeepsOrder(init, split);
      assert rows == init + [rows[|rows| - 1]];
      PairsInSnoc(init, rows[|rows| - 1], split);
    }
  }

  /** Once a prefix fails, the whole read fails with the same error. */
  lemma {:induction false} GroupFailureSticks(rows: seq<Row>, n: nat)
    requires n <= |rows| && Group(rows[..n]).Failure?
    ensures Group(rows) == Group(rows[..n])
    decreases |rows| - n
  {
    if n < |rows| {
      assert rows[..n + 1][..n] == rows[..n];
      GroupFailureSticks(rows, n + 1);
    } else {
      assert rows[..n] == rows;
    }
  }

  /** The first incomplete row fails the whole read with the KeyError of its first missing column. */
  lemma {:induction false} GroupFirstIncomplete(rows: seq<Row>, i: nat)
    requires i < |rows| && AllComplete(rows[..i]) && !Complete(rows[i])
    ensures Group(rows) == Failure(SplitAndPair(rows[i]).error)
  {
    GroupSucceedsIff(rows[..i]);
    assert rows[..i + 1][..i] == rows[..i];
    GroupFailureSticks(rows, i + 1);
  }

  /** read_split_file over already-parsed rows: the groups and the number of rows read. */
  method ReadSplitFile(filename: string, rows: seq<Row>) returns (r: Result<(Groups, nat)>)
    ensures !EndsWith(filename, ".csv") ==> r == Failure(BadSplitFormat(filename))
    ensures r.Failure? <==> SplitFile(filename, rows).Failure?
    ensures r.Failure? ==> r.error == SplitFile(filename, rows).error
    ensures r.Success? ==> r.value.0 == SplitFile(filename, rows).value && r.value.1 == |rows|
    ensures r.Success? ==> TotalLength(r.value.0) == r.value.1
  {
    if !EndsWith(filename, ".csv") {
      return Failure(BadSplitFormat(filename));
    }
    var split2ids: Groups := map[];
    var total := 0;
    var i := 0;
    while i < |rows|
      invariant 0 <= i <= |rows|
      invariant total == i
      invariant Group(rows[..i]) == Success(split2ids)
    {
      var row := rows[i];
      assert rows[..i + 1][..i] == rows[..i] && rows[..i + 1][i] == row;
      if "split" !in row {
        GroupFailureSticks(rows, i + 1);
        return Failure(KeyError("split"));
      }
      var split := row["split"];
      if "study_id" !in row {
        GroupFailureSticks(rows, i + 1);
        return Failure(KeyError("study_id"));
      }
      if "subject_id" !in row {
        GroupFailureSticks(rows, i + 1);
        return Failure(KeyError("subject_id"));
      }
      split2ids := split2ids[split := Ids(split2ids, split) + [IdPair(row["study_id"], row["subject_id"])]];
      total := total + 1;
      i := i + 1;
    }
    assert rows[..i] == rows;
    GroupCountsEveryRow(rows);
    return Success((split2ids, total));
  }
}
