/**
 * main: reject a run with no output path, read the report file, then the
 * split file, then write train, dev and test, each only when its path is
 * present and non-empty. Command-line parsing is left out: the three output
 * paths arrive as options.
 */
module Driver {
  import opened Records
  import opened SplitReader
  import opened ReportIndex
  import opened Writer

  /** One JSON file written: which split, to which path, with which records. */
  datatype Written = Written(split: string, path: string, records: seq<Entry>)

  /** The files written, in order, and the exception that ended the run, if any. */
  datatype Outcome = Outcome(writes: seq<Written>, error: Option<Error>)

  /** One output request: a split name and the path to write it to. */
  type Request = (string, string)

  /** The request for a split when its path is present and non-empty. */
  function RequestFor(split: string, path: Option<string>): (r: seq<Request>)
    ensures |r| <= 1
    ensures r != [] <==> path.Some? && |path.value| > 0
    ensures forall q :: q in r ==> q.0 == split && path == Some(q.1)
  {
    if path.Some? && |path.value| > 0 then [(split, path.value)] else []
  }

  /** The writes main attempts, in the order train, dev, test. */
  function Requested(train: Option<string>, dev: Option<string>, test: Option<string>): (r: seq<Request>)
    ensures |r| <= 3
    ensures train.Some? && |train.value| > 0 ==> 0 < |r| && r[0] == ("train", train.value)
    ensures test.Some? && |test.value| > 0 ==> 0 < |r| && r[|r| - 1] == ("test", test.value)
  {
    RequestFor("train", train) + RequestFor("dev", dev) + RequestFor("test", test)
  }

  /** The requests whose split has at least one id: those that produce a file. */
  function NonEmpty(requests: seq<Request>, split2ids: Groups): seq<Request> {
    if requests == [] then []
    else
      (if |Ids(split2ids, requests[0].0)| > 0 then [requests[0]] else [])
      + NonEmpty(requests[1..], split2ids)
  }

  /** The (split, path) of each write. */
  function Targets(writes: seq<Written>): seq<Request> {
    if writes == [] then [] else [(writes[0].split, writes[0].path)] + Targets(writes[1..])
  }

  /** The requests carried out one after another; a failed write ends the run, keeping earlier files. */
  function Emit(requests: seq<Request>, split2ids: Groups, id2data: map<string, Row>): (r: Outcome)
    ensures |r.writes| <= |requests|
    ensures forall i :: 0 <= i < |r.writes| ==> |r.writes[i].records| > 0
    ensures r.error.Some? ==> r.error.value.KeyError?
    decreases |requests|
  {
    if requests == [] then Outcome([], None)
    else
      match SplitRecords(requests[0].0, split2ids, id2data)
      case Failure(e) => Outcome([], Some(e))
      case Success(None) => Emit(requests[1..], split2ids, id2data)
      case Success(Some(data)) =>
        var rest := Emit(requests[1..], split2ids, id2data);
        Outcome([Written(requests[0].0, requests[0].1, data)] + rest.writes, rest.error)
  }

  /** Earlier writes followed by the outcome of the rest of the run. */
  function Then(done: seq<Written>, rest: Outcome): Outcome {
    Outcome(done + rest.writes, rest.error)
  }

  /** A write attempt followed by the rest of the run: a failure ends it there. */
  function Chain(attempt: Result<seq<Written>>, rest: Outcome): Outcome {
    match attempt
    case Failure(e) => Outcome([], Some(e))
    case Success(writes) => Then(writes, rest)
  }

  /** Three chained attempts: the files of those before the first failure, and that failure. */
  lemma ChainOfThree(a: Result<seq<Written>>, b: Result<seq<Written>>, c: Result<seq<Written>>)
    ensures var o := Chain(a, Chain(b, Chain(c, Outcome([], None))));
      if a.Failure? then o == Outcome([], Some(a.error))
      else if b.Failure? then o == Outcome(a.value, Some(b.error))
      else if c.Failure? then o == Outcome(a.value + b.value, Some(c.error))
      else o == Outcome(a.value + b.value + c.value, None)
  {
  }

  /** The three guarded writes of main, each only if the ones before did not fail. */
  lemma OutputsInOrder(split2ids: Groups, id2data: map<string, Row>, train: Option<string>, dev: Option<string>, test: Option<string>)
    ensures Emit(Requested(train, dev, test), split2ids, id2data)
         == Chain(Attempt("train", train, split2ids, id2data),
              Chain(Attempt("dev", dev, split2ids, id2data),
                Chain(Attempt("test", test, split2ids, id2data), Outcome([], None))))
  {
    var afterTrain := RequestFor("dev", dev) + RequestFor("test", test);
    assert Requested(train, dev, test) == RequestFor("train", train) + afterTrain;
    EmitRequestFor("train", train, afterTrain, split2ids, id2data);
    EmitRequestFor("dev", dev, RequestFor("test", test), split2ids, id2data);
    assert RequestFor("test", test) + [] == RequestFor("test", test);
    EmitRequestFor("test", test, [], split2ids, id2data);
  }

  /** One guarded write_to_json call of main: the file it writes, if any, or the error it raises. */
  function Attempt(split: string, path: Option<string>, split2ids: Groups, id2data: map<string, Row>): (r: Result<seq<Written>>)
    ensures RequestFor(split, path) == [] ==> r == Success([])
    ensures r.Success? ==> |r.value| <= 1
    ensures r.Success? ==> forall w :: w in r.value ==>
      w.split == split && path == Some(w.path) && |w.path| > 0 && |w.records| > 0
    ensures r.Failure? ==> r.error.KeyError?
  {
    if RequestFor(split, path) == [] then Success([])
    else
      match SplitRecords(split, split2ids, id2data)
      case Failure(e) => Failure(e)
      case Success(None) => Success([])
      case Success(Some(data)) => Success([Written(split, path.value, data)])
  }

  /** Emit takes one request at a time: a failure ends the run, otherwise its write comes first. */
  lemma EmitRequestFor(split: string, path: Option<string>, rest: seq<Request>, split2ids: Groups, id2data: map<string, Row>)
    ensures Emit(RequestFor(split, path) + rest, split2ids, id2data)
         == Chain(Attempt(split, path, split2ids, id2data), Emit(rest, split2ids, id2data))
  {
    var all := RequestFor(split, path) + rest;
    if RequestFor(split, path) != [] {
      assert all[0] == (split, path.value) && all[1..] == rest;
    } else {
      assert all == rest;
    }
  }

  /** The whole run, as main performs it. */
  function RunSpec(
    sectionedFile: string, reportRows: seq<Row>,
    splitFile: string, splitRows: seq<Row>,
    train: Option<string>, dev: Option<string>, test: Option<string>): (r: Outcome)
    ensures r.error == Some(NoOutputPath) <==> train.None? && dev.None? && test.None?
    ensures |r.writes| <= |Requested(train, dev, test)|
  {
    if train.None? && dev.None? && test.None? then Outcome([], Some(NoOutputPath))
    else
      match SectionedFile(sectionedFile, reportRows)
      case Failure(e) => Outcome([], Some(e))
      case Success(id2data) =>
        match SplitFile(splitFile, splitRows)
        case Failure(e) => Outcome([], Some(e))
        case Success(split2ids) => Emit(Requested(train, dev, test), split2ids, id2data)
  }

  /** Each write is for one of the requests: its split, at its path. */
  predicate ForRequests(writes: seq<Written>, requests: seq<Request>) {
    forall i :: 0 <= i < |writes| ==> (writes[i].split, writes[i].path) in requests
  }

  /** Every file written is for one of the requests, so nothing is written that was not asked for. */
  lemma {:induction false} EmitWritesRequested(requests: seq<Request>, split2ids: Groups, id2data: map<string, Row>)
    ensures ForRequests(Emit(requests, split2ids, id2data).writes, requests)
    decreases |requests|
  {
    if requests != [] {
      var o, rest := Emit(requests, split2ids, id2data), Emit(requests[1..], split2ids, id2data);
      EmitWritesRequested(requests[1..], split2ids, id2data);
      assert forall q :: q in requests[1..] ==> q in requests;
      if o.writes != [] && o.writes != rest.writes {
        assert o.writes[1..] == rest.writes;
        assert o.writes[0].split == requests[0].0 && o.writes[0].path == requests[0].1;
      }
    }
  }

  /**
   * The files written are the requests with a non-empty split, in request
   * order: all of them when the run ends without error, a prefix otherwise.
   */
  lemma {:induction false} EmitWritesNonEmptyInOrder(requests: seq<Request>, split2ids: Groups, id2data: map<string, Row>)
    ensures Targets(Emit(requests, split2ids, id2data).writes) <= NonEmpty(requests, split2ids)
    ensures Emit(requests, split2ids, id2data).error.None?
        ==> Targets(Emit(requests, split2ids, id2data).writes) == NonEmpty(requests, split2ids)
    decreases |requests|
  {
    if requests != [] {
      EmitWritesNonEmptyInOrder(requests[1..], split2ids, id2data);
      var o := Emit(requests, split2ids, id2data);
      if o.writes != [] {
        assert o.writes[1..] == Emit(requests[1..], split2ids, id2data).writes
            || o.writes == Emit(requests[1..], split2ids, id2data).writes;
      }
    }
  }

  /** Every file written holds the join of its split's ids, and that split has at least one id. */
  lemma {:induction false} EmitWritesJoin(requests: seq<Request>, split2ids: Groups, id2data: map<string, Row>, i: nat)
    requires i < |Emit(requests, split2ids, id2data).writes|
    ensures var w := Emit(requests, split2ids, id2data).writes[i];
      |Ids(split2ids, w.split)| > 0 && Join(Ids(split2ids, w.split), id2data) == Success(w.records)
    decreases |requests|
  {
    assert requests != [];
    var rest := Emit(requests[1..], split2ids, id2data);
    match SplitRecords(requests[0].0, split2ids, id2data)
    case Failure(e) =>
    case Success(None) =>
      EmitWritesJoin(requests[1..], split2ids, id2data, i);
    case Success(Some(data)) =>
      if i > 0 {
        EmitWritesJoin(requests[1..], split2ids, id2data, i - 1);
      }
  }

  /**
   * A run writes nothing unless both files were read; what it writes is the
   * requested splits that have ids, in the order train, dev, test, cut short
   * at the first failed write.
   */
  lemma RunWritesRequestedInOrder(
    sectionedFile: string, reportRows: seq<Row>,
    splitFile: string, splitRows: seq<Row>,
    train: Option<string>, dev: Option<string>, test: Option<string>)
    ensures var o := RunSpec(sectionedFile, reportRows, splitFile, splitRows, train, dev, test);
      o.writes != [] ==>
        && SectionedFile(sectionedFile, reportRows).Success?
        && SplitFile(splitFile, splitRows).Success?
        && Targets(o.writes) <= NonEmpty(Requested(train, dev, test), SplitFile(splitFile, splitRows).value)
  {
    if !(train.None? && dev.None? && test.None?)
       && SectionedFile(sectionedFile, reportRows).Success?
       && SplitFile(splitFile, splitRows).Success?
    {
      EmitWritesNonEmptyInOrder(Requested(train, dev, test),
        SplitFile(splitFile, splitRows).value, SectionedFile(sectionedFile, reportRows).value);
    }
  }

  /** Each requested path is present and non-empty, and each present, non-empty path is requested. */
  lemma RequestedPaths(train: Option<string>, dev: Option<string>, test: Option<string>)
    ensures forall r :: r in Requested(train, dev, test) ==>
      |r.1| > 0
      && ((r.0 == "train" && train == Some(r.1))
       || (r.0 == "dev" && dev == Some(r.1))
       || (r.0 == "test" && test == Some(r.1)))
    ensures train.Some? && |train.value| > 0 ==> ("train", train.value) in Requested(train, dev, test)
    ensures dev.Some? && |dev.value| > 0 ==> ("dev", dev.value) in Requested(train, dev, test)
    ensures test.Some? && |test.value| > 0 ==> ("test", test.value) in Requested(train, dev, test)
    ensures forall i, j :: 0 <= i < j < |Requested(train, dev, test)| ==>
      Requested(train, dev, test)[i].0 != Requested(train, dev, test)[j].0
  {
  }

  /** main over already-parsed inputs: the files it writes and the error that stops it. */
  method Run(
    sectionedFile: string, reportRows: seq<Row>,
    splitFile: string, splitRows: seq<Row>,
    train: Option<string>, dev: Option<string>, test: Option<string>)
    returns (outcome: Outcome)
    ensures train.None? && dev.None? && test.None? ==> outcome == Outcome([], Some(NoOutputPath))
    ensures outcome == RunSpec(sectionedFile, reportRows, splitFile, splitRows, train, dev, test)
  {
    if train.None? && dev.None? && test.None? {
      return Outcome([], Some(NoOutputPath));
    }
    var index := ReadSectionedFile(sectionedFile, reportRows);
    if index.Failure? {
      return Outcome([], Some(index.error));
    }
    var split := ReadSplitFile(splitFile, splitRows);
    if split.Failure? {
      return Outcome([], Some(split.error));
    }
    outcome := WriteOutputs(split.value.0, index.value, train, dev, test);
  }

  /** One `if path is not None and len(path) > 0: write_to_json(...)` block of main. */
  method WriteIfRequested(split: string, path: Option<string>, split2ids: Groups, id2data: map<string, Row>)
    returns (r: Result<seq<Written>>)
    ensures path.None? || path == Some([]) ==> r == Success([])
    ensures r == Attempt(split, path, split2ids, id2data)
  {
    if path.Some? && |path.value| > 0 {
      var records := WriteToJson(split, split2ids, id2data);
      if records.Failure? {
        return Failure(records.error);
      }
      if records.value.Some? {
        return Success([Written(split, path.value, records.value.value)]);
      }
    }
    return Success([]);
  }

  /** The three guarded write_to_json calls at the end of main, in the order train, dev, test. */
  method WriteOutputs(
    split2ids: Groups, id2data: map<string, Row>,
    train: Option<string>, dev: Option<string>, test: Option<string>)
    returns (outcome: Outcome)
    ensures outcome == Emit(Requested(train, dev, test), split2ids, id2data)
  {
    OutputsInOrder(split2ids, id2data, train, dev, test);
    ChainOfThree(Attempt("train", train, split2ids, id2data),
                 Attempt("dev", dev, split2ids, id2data),
                 Attempt("test", test, split2ids, id2data));
    var first := WriteIfRequested("train", train, split2ids, id2data);
    if first.Failure? {
      return Outcome([], Some(first.error));
    }
    var second := WriteIfRequested("dev", dev, split2ids, id2data);
    if second.Failure? {
      return Outcome(first.value, Some(second.error));
    }
    var third := WriteIfRequested("test", test, split2ids, id2data);
    if third.Failure? {
      return Outcome(first.value + second.value, Some(third.error));
    }
    return Outcome(first.value + second.value + third.value, None);
  }
}
