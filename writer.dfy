/**
 * write_to_json: the records of one split, joined against the report index.
 * The JSON file itself is not modelled: the result is the list that would be
 * dumped, or None when the split is skipped.
 */
module Writer {
  import opened Records
  import opened Text
  import opened SplitReader

  /** The report of a pair has a row in the index, with the three text columns read. */
  predicate Resolvable(id2data: map<string, Row>, pair: IdPair) {
    pair.studyId in id2data
    && "findings" in id2data[pair.studyId]
    && "impression" in id2data[pair.studyId]
    && "comparison" in id2data[pair.studyId]
  }

  /** The output entry of one pair, or the KeyError of its first failed lookup. */
  function MakeEntry(id2data: map<string, Row>, pair: IdPair): (r: Result<Entry>)
    ensures r.Success? <==> Resolvable(id2data, pair)
    ensures r.Success? ==> r.value.studyId == pair.studyId && r.value.subjectId == pair.subjectId
    ensures r.Success? ==> '\n' !in r.value.findings && '\n' !in r.value.impression && '\n' !in r.value.background
    ensures pair.studyId !in id2data ==> r == Failure(KeyError(pair.studyId))
    ensures r.Failure? ==> r.error.KeyError?
  {
    if pair.studyId !in id2data then Failure(KeyError(pair.studyId))
    else
      var report := id2data[pair.studyId];
      if "findings" !in report then Failure(KeyError("findings"))
      else if "impression" !in report then Failure(KeyError("impression"))
      else if "comparison" !in report then Failure(KeyError("comparison"))
      else Success(Entry(pair.studyId, pair.subjectId,
                         StripNewlines(report["findings"]),
                         StripNewlines(report["impression"]),
                         StripNewlines(report["comparison"])))
  }

  /** The data list after the pairs are processed in order; the first failed lookup fails the whole list. */
  function Join(ids: seq<IdPair>, id2data: map<string, Row>): (r: Result<seq<Entry>>)
    ensures r.Success? ==> |r.value| == |ids|
    ensures r.Failure? ==> r.error.KeyError?
    decreases |ids|
  {
    if ids == [] then Success([])
    else
      match Join(ids[..|ids| - 1], id2data)
      case Failure(e) => Failure(e)
      case Success(data) =>
        match MakeEntry(id2data, ids[|ids| - 1])
        case Failure(e) => Failure(e)
        case Success(entry) => Success(data + [entry])
  }

  /** What write_to_json would dump for `split`: None for a split with no ids. */
  function SplitRecords(split: string, split2ids: Groups, id2data: map<string, Row>): (r: Result<Option<seq<Entry>>>)
    ensures r == Success(None) <==> |Ids(split2ids, split)| == 0
    ensures r.Success? && r.value.Some? ==> |r.value.value| == |Ids(split2ids, split)| > 0
    ensures r.Failure? ==> r.error.KeyError?
  {
    var ids := Ids(split2ids, split);
    if |ids| == 0 then Success(None)
    else
      match Join(ids, id2data)
      case Failure(e) => Failure(e)
      case Success(data) => Success(Some(data))
  }

  /** The join succeeds exactly when every pair resolves. */
  lemma {:induction false} JoinSucceedsIff(ids: seq<IdPair>, id2data: map<string, Row>)
    ensures Join(ids, id2data).Success? <==> forall i :: 0 <= i < |ids| ==> Resolvable(id2data, ids[i])
    decreases |ids|
  {
    if ids != [] {
      var init := ids[..|ids| - 1];
      JoinSucceedsIff(init, id2data);
      assert forall i :: 0 <= i < |init| ==> init[i] == ids[i];
    }
  }

  /**
   * One entry per pair, in order: ids copied from the pair, the three text
   * fields taken from the pair's report with their newlines stripped.
   */
  lemma {:induction false} JoinEntry(ids: seq<IdPair>, id2data: map<string, Row>, i: nat)
    requires Join(ids, id2data).Success? && i < |ids|
    ensures Resolvable(id2data, ids[i])
    ensures var e := Join(ids, id2data).value[i];
      && e.studyId == ids[i].studyId
      && e.subjectId == ids[i].subjectId
      && e.findings == StripNewlines(id2data[ids[i].studyId]["findings"])
      && e.impression == StripNewlines(id2data[ids[i].studyId]["impression"])
      && e.background == StripNewlines(id2data[ids[i].studyId]["comparison"])
    decreases |ids|
  {
    var last := |ids| - 1;
    if i < last {
      JoinEntry(ids[..last], id2data, i);
    }
  }

  /** The first pair whose study is not in the index fails the join with that study id. */
  lemma {:induction false} JoinMissingStudy(ids: seq<IdPair>, id2data: map<string, Row>, i: nat)
    requires i < |ids|
    requires forall j :: 0 <= j < i ==> Resolvable(id2data, ids[j])
    requires ids[i].studyId !in id2data
    ensures Join(ids, id2data) == Failure(KeyError(ids[i].studyId))
  {
    var upTo := ids[..i + 1];
    assert upTo[..i] == ids[..i];
    JoinSucceedsIff(ids[..i], id2data);
    JoinFailureSticks(ids, id2data, i + 1);
  }

  /** Once a prefix fails, the whole join fails with the same error. */
  lemma {:induction false} JoinFailureSticks(ids: seq<IdPair>, id2data: map<string, Row>, n: nat)
    requires n <= |ids| && Join(ids[..n], id2data).Failure?
    ensures Join(ids, id2data) == Join(ids[..n], id2data)
    decreases |ids| - n
  {
    if n < |ids| {
      assert ids[..n + 1][..n] == ids[..n];
      JoinFailureSticks(ids, id2data, n + 1);
    } else {
      assert ids[..n] == ids;
    }
  }

  /** write_to_json without the file write: the records to dump, None when skipped. */
  method WriteToJson(split: string, split2ids: Groups, id2data: map<string, Row>)
    returns (r: Result<Option<seq<Entry>>>)
    ensures |Ids(split2ids, split)| == 0 ==> r == Success(None)
    ensures |Ids(split2ids, split)| > 0 ==> r.Success? ==> r.value.Some? && |r.value.value| == |Ids(split2ids, split)|
    ensures r == SplitRecords(split, split2ids, id2data)
  {
    var ids := Ids(split2ids, split);
    if |ids| == 0 {
      return Success(None);
    }
    var data: seq<Entry> := [];
    var i := 0;
    while i < |ids|
      invariant 0 <= i <= |ids|
      invariant Join(ids[..i], id2data) == Success(data)
    {
      var pair := ids[i];
      assert ids[..i + 1][..i] == ids[..i] && ids[..i + 1][i] == pair;
      if pair.studyId !in id2data {
        JoinFailureSticks(ids, id2data, i + 1);
        return Failure(KeyError(pair.studyId));
      }
      var report := id2data[pair.studyId];
      if "findings" !in report {
        JoinFailureSticks(ids, id2data, i + 1);
        return Failure(KeyError("findings"));
      }
      if "impression" !in report {
        JoinFailureSticks(ids, id2data, i + 1);
        return Failure(KeyError("impression"));
      }
      if "comparison" !in report {
        JoinFailureSticks(ids, id2data, i + 1);
        return Failure(KeyError("comparison"));
      }
      var entry := Entry(pair.studyId, pair.subjectId,
                         StripNewlines(report["findings"]),
                         StripNewlines(report["impression"]),
                         StripNewlines(report["comparison"]));
      data := data + [entry];
      i := i + 1;
    }
    assert ids[..i] == ids;
    return Success(Some(data));
  }
}
