/** main: one resumable run of the batch. It loads the menu names, skips
    those the result file already records as success, generates the rest in
    order, saving one record per name, and finally recounts the completed
    names from the file. */
module BatchRun {
  import opened Wrappers
  import opened MenuList
  import opened Recipe
  import opened ResultStore

  /** main passes test_limit = None, so every name is read. */
  const TestLimit: Option<int> := None

  /** The backend seen by one run: the call made for `name` as the run's
      `i`-th call (from 0). */
  type Backend = (string, nat) -> Call

  /** Everything a run depends on besides the result file. */
  datatype Environment = Environment(
    apiKey: string,                // ARK_API_KEY, "" when unset
    menuFile: Option<seq<string>>, // the lines of the name file; None when it cannot be opened
    backend: Backend,
    resumeFault: Option<nat>,      // read error of the scan before the loop
    finalFault: Option<nat>,       // read error of the scan in the finally block
    stopAfter: Option<nat>)        // KeyboardInterrupt or another exception after this many saved items

  /** How main ends. */
  datatype Report =
    | MissingApiKey       // ValueError before any work
    | MenuFileMissing     // open() of the name file raises
    | NothingPending      // early return: no record written, the finally block not reached
    | Summary(successCount: nat, failedCount: nat, totalCompleted: nat)

  datatype RunResult = RunResult(final: FileState, report: Report)

  /** How many pending items the loop gets through before the run stops. */
  function Processed(pendingCount: nat, stopAfter: Option<nat>): (k: nat)
    ensures k <= pendingCount
    ensures k < pendingCount <==> stopAfter.Some? && stopAfter.value < pendingCount
  {
    if stopAfter.Some? && stopAfter.value < pendingCount then stopAfter.value else pendingCount
  }

  /** The records generated for the first `k` pending names, in processing order. */
  function Outcomes(pending: seq<string>, backend: Backend, k: nat): (r: seq<Row>)
    requires k <= |pending|
    ensures |r| == k
  {
    if k == 0 then [] else Outcomes(pending, backend, k - 1) + [GenerateRecipe(pending[k - 1], backend(pending[k - 1], k - 1))]
  }

  /** The file after the loop saved `outs`: the first save truncates and
      writes the header when `isNewFile`, every later one appends. */
  function AfterWrites(s: FileState, isNewFile: bool, outs: seq<Row>): (r: FileState)
    ensures outs == [] ==> r == s
    ensures outs != [] ==> r.present && |r.records| == (if isNewFile then 1 else |s.records|) + |outs|
    ensures outs != [] && isNewFile ==> r.records[0] == Header
    ensures !isNewFile ==> s.records <= r.records
    ensures Consistent(s) ==> Consistent(r)
  {
    if outs == [] then s else FileState(true, (if isNewFile then [Header] else s.records) + outs)
  }

  /** success_count after the first `k` items: the calls that answered. */
  function AnsweredCalls(pending: seq<string>, backend: Backend, k: nat): (n: nat)
    requires k <= |pending|
    ensures n <= k
  {
    if k == 0 then 0
    else AnsweredCalls(pending, backend, k - 1) + (if backend(pending[k - 1], k - 1).answer.Answered? then 1 else 0)
  }

  /** failed_count after the first `k` items: the calls that raised. */
  function RaisedCalls(pending: seq<string>, backend: Backend, k: nat): (n: nat)
    requires k <= |pending|
    ensures n <= k
  {
    if k == 0 then 0
    else RaisedCalls(pending, backend, k - 1) + (if backend(pending[k - 1], k - 1).answer.Answered? then 0 else 1)
  }

  /** success_count reaches the number of processed items exactly when every call answered. */
  lemma {:induction false} AllCallsAnswered(pending: seq<string>, backend: Backend, k: nat)
    requires k <= |pending|
    ensures AnsweredCalls(pending, backend, k) == k <==> forall i :: 0 <= i < k ==> backend(pending[i], i).answer.Answered?
  {
    if k > 0 {
      AllCallsAnswered(pending, backend, k - 1);
    }
  }

  /** The number of `rows` with this status. */
  function CountStatus(rows: seq<Row>, status: string): nat
    decreases |rows|
  {
    if rows == [] then 0
    else CountStatus(rows[..|rows| - 1], status) + (if rows[|rows| - 1].status == status then 1 else 0)
  }

  function Loaded(env: Environment): seq<string>
    requires env.menuFile.Some?
  {
    ReadMenuNames(env.menuFile.value, TestLimit)
  }

  function ResumeCompleted(s: FileState, env: Environment): set<string> {
    ScanCompleted(s, env.resumeFault)
  }

  function Pending(s: FileState, env: Environment): seq<string>
    requires env.menuFile.Some?
  {
    PendingMenus(Loaded(env), ResumeCompleted(s, env))
  }

  /** is_new_file: no file yet, or no completed name found in it. */
  function IsNewFile(s: FileState, env: Environment): (b: bool)
    ensures b <==> ResumeCompleted(s, env) == {}
  {
    !s.present || |ResumeCompleted(s, env)| == 0
  }

  function RunOutcomes(s: FileState, env: Environment): seq<Row>
    requires env.menuFile.Some?
  {
    var pending := Pending(s, env);
    Outcomes(pending, env.backend, Processed(|pending|, env.stopAfter))
  }

  /** Whether this run's first save truncates the file. */
  predicate Truncates(s: FileState, env: Environment)
    requires env.menuFile.Some?
  {
    IsNewFile(s, env) && RunOutcomes(s, env) != []
  }

  /** The whole of main, from the result file before the run. */
  function Run(s: FileState, env: Environment): (r: RunResult)
    ensures r.report.MissingApiKey? <==> env.apiKey == ""
    ensures r.report.MenuFileMissing? <==> env.apiKey != "" && env.menuFile.None?
    ensures r.report.Summary? || r.final == s
    ensures Consistent(s) ==> Consistent(r.final)
  {
    if env.apiKey == "" then RunResult(s, MissingApiKey)
    else if env.menuFile.None? then RunResult(s, MenuFileMissing)
    else if Pending(s, env) == [] then RunResult(s, NothingPending)
    else
      var pending := Pending(s, env);
      var k := Processed(|pending|, env.stopAfter);
      var final := AfterWrites(s, IsNewFile(s, env), RunOutcomes(s, env));
      RunResult(final, Summary(AnsweredCalls(pending, env.backend, k), RaisedCalls(pending, env.backend, k),
                               |ScanCompleted(final, env.finalFault)|))
  }

  /** main, step by step, on the result file object. */
  method RunBatch(file: ResultFile, env: Environment) returns (report: Report)
    requires file.Valid()
    modifies file
    ensures file.Valid()
    ensures Run(old(file.State()), env) == RunResult(file.State(), report)
  {
    if env.apiKey == "" {
      return MissingApiKey;
    }
    if env.menuFile.None? {
      return MenuFileMissing;
    }
    ghost var s0 := file.State();
    var names := ReadMenuNames(env.menuFile.value, TestLimit);
    var completed := file.CompletedMenus(env.resumeFault);
    var pending := PendingMenus(names, completed);
    assert pending == Pending(s0, env);
    if pending == [] {
      return NothingPending;
    }
    var isNewFile := !file.present || |completed| == 0;
    var successCount, failedCount := ProcessPending(file, pending, env.backend, env.stopAfter, isNewFile);
    assert Outcomes(pending, env.backend, Processed(|pending|, env.stopAfter)) == RunOutcomes(s0, env);
    var total := file.CompletedMenus(env.finalFault);
    report := Summary(successCount, failedCount, |total|);
  }

  /** The for loop of main: generate and save one record per pending name,
      in order, counting successes and failures, until the run stops. */
  method ProcessPending(file: ResultFile, pending: seq<string>, backend: Backend,
                        stopAfter: Option<nat>, isNewFile: bool)
    returns (successCount: nat, failedCount: nat)
    requires file.Valid()
    modifies file
    ensures file.Valid()
    ensures var k := Processed(|pending|, stopAfter);
            && file.State() == AfterWrites(old(file.State()), isNewFile, Outcomes(pending, backend, k))
            && successCount == AnsweredCalls(pending, backend, k)
            && failedCount == RaisedCalls(pending, backend, k)
  {
    ghost var s0 := file.State();
    ghost var done: seq<Row> := [];
    successCount, failedCount := 0, 0;
    var i := 0;
    while i < |pending| && stopAfter != Some(i)
      invariant i <= |pending|
      invariant stopAfter.Some? ==> i <= stopAfter.value
      invariant done == Outcomes(pending, backend, i)
      invariant file.Valid()
      invariant file.State() == AfterWrites(s0, isNewFile, done)
      invariant successCount == AnsweredCalls(pending, backend, i)
      invariant failedCount == RaisedCalls(pending, backend, i)
    {
      var row := GenerateRecipe(pending[i], backend(pending[i], i));
      assert Outcomes(pending, backend, i + 1) == done + [row];
      file.Save(row, isNewFile && i == 0);
      SaveExtendsWrites(s0, isNewFile, done, row);
      TallyStep(pending, backend, i);
      if row.status == Success {
        successCount := successCount + 1;
      } else {
        failedCount := failedCount + 1;
      }
      done := done + [row];
      i := i + 1;
    }
    assert i == Processed(|pending|, stopAfter);
  }

  /** One more item adds one to exactly one of the two counters. */
  lemma TallyStep(pending: seq<string>, backend: Backend, i: nat)
    requires i < |pending|
    ensures var answered := backend(pending[i], i).answer.Answered?;
            && AnsweredCalls(pending, backend, i + 1) == AnsweredCalls(pending, backend, i) + (if answered then 1 else 0)
            && RaisedCalls(pending, backend, i + 1) == RaisedCalls(pending, backend, i) + (if answered then 0 else 1)
  {
  }

  lemma StatusesDiffer()
    ensures Success != Failed
  {
    assert Success[0] != Failed[0];
  }

  lemma CountStatusAppend(rows: seq<Row>, row: Row, status: string)
    ensures CountStatus(rows + [row], status) == CountStatus(rows, status) + (if row.status == status then 1 else 0)
  {
    assert (rows + [row])[..|rows|] == rows;
  }

  /** One more save_to_csv call extends the writes of the loop by one record. */
  lemma SaveExtendsWrites(s0: FileState, isNewFile: bool, done: seq<Row>, row: Row)
    requires Consistent(s0)
    ensures var s := AfterWrites(s0, isNewFile, done);
            AfterWrites(s0, isNewFile, done + [row])
            == FileState(true, if isNewFile && done == [] then [Header, row] else s.records + [row])
  {
    if done == [] {
      assert done + [row] == [row];
    }
  }

  /** The loop's two counters are the numbers of success and failed records
      it wrote, and together they count every processed item once. */
  lemma {:induction false} TalliesMatchRecords(pending: seq<string>, backend: Backend, k: nat)
    requires k <= |pending|
    ensures var outs := Outcomes(pending, backend, k);
            && AnsweredCalls(pending, backend, k) == CountStatus(outs, Success)
            && RaisedCalls(pending, backend, k) == CountStatus(outs, Failed)
            && AnsweredCalls(pending, backend, k) + RaisedCalls(pending, backend, k) == k
  {
    if k > 0 {
      TalliesMatchRecords(pending, backend, k - 1);
      var last := GenerateRecipe(pending[k - 1], backend(pending[k - 1], k - 1));
      assert Outcomes(pending, backend, k) == Outcomes(pending, backend, k - 1) + [last];
      CountStatusAppend(Outcomes(pending, backend, k - 1), last, Success);
      CountStatusAppend(Outcomes(pending, backend, k - 1), last, Failed);
      StatusesDiffer();
    }
  }

  /** A generated record makes its name completed exactly when the backend answered. */
  lemma OnlyAnsweredCallsComplete(name: string, call: Call)
    ensures name in HeaderSuccessNames([GenerateRecipe(name, call)]) <==> call.answer.Answered?
  {
    HeaderSuccessNamesSpec([GenerateRecipe(name, call)], name);
  }

  /** A run that gets past loading writes exactly one record per processed
      item, in the order of the pending list, after the old records (or after
      a fresh header when the first save truncates), and its tallies add up
      to the number of processed items. */
  lemma RunWritesOneRecordPerItem(s: FileState, env: Environment)
    requires Run(s, env).report.Summary?
    ensures env.menuFile.Some?
    ensures var outs := RunOutcomes(s, env);
            var report := Run(s, env).report;
            && |outs| == Processed(|Pending(s, env)|, env.stopAfter)
            && (forall i :: 0 <= i < |outs| ==> outs[i].name == Pending(s, env)[i])
            && Run(s, env).final.records == (if Truncates(s, env) then [Header] else s.records) + outs
            && report.successCount + report.failedCount == |outs|
  {
    var pending := Pending(s, env);
    TalliesMatchRecords(pending, env.backend, Processed(|pending|, env.stopAfter));
    OutcomesInOrder(pending, env.backend, Processed(|pending|, env.stopAfter));
  }

  /** The header is written at most once per run: only the first save of a
      run that truncates writes one, and no generated record looks like it. */
  lemma HeaderWrittenAtMostOnce(s: FileState, env: Environment)
    requires Run(s, env).report.Summary?
    ensures env.menuFile.Some?
    ensures multiset(Run(s, env).final.records)[Header]
            == if Truncates(s, env) then 1 else multiset(s.records)[Header]
  {
    RunSummaryShape(s, env);
    var pending := Pending(s, env);
    var outs := RunOutcomes(s, env);
    NoHeaderAmongOutcomes(pending, env.backend, Processed(|pending|, env.stopAfter));
    assert multiset(outs)[Header] == 0;
  }

  /** No generated record can be taken for the header line. */
  lemma {:induction false} NoHeaderAmongOutcomes(pending: seq<string>, backend: Backend, k: nat)
    requires k <= |pending|
    ensures Header !in Outcomes(pending, backend, k)
  {
    if k > 0 {
      NoHeaderAmongOutcomes(pending, backend, k - 1);
    }
  }

  /** is_new_file also holds for an existing file in which no success was
      found (only failed records, or a read error before the first success):
      the run's first save then truncates it and every earlier record that
      the run does not write again is lost. */
  lemma TruncationDiscardsEarlierRecords(s: FileState, env: Environment)
    requires Run(s, env).report.Summary?
    requires s.present && ResumeCompleted(s, env) == {}
    requires RunOutcomes(s, env) != []
    ensures Run(s, env).final.records == [Header] + RunOutcomes(s, env)
    ensures forall r :: r in s.records && r != Header && r !in RunOutcomes(s, env) ==> r !in Run(s, env).final.records
  {
    RunSummaryShape(s, env);
  }

  /** A run keeps the file as this program writes it: a file that is missing
      or starts with the header still is or does. */
  lemma RunKeepsHeaderFirst(s: FileState, env: Environment)
    requires Consistent(s) && HeaderFirst(s)
    ensures Consistent(Run(s, env).final) && HeaderFirst(Run(s, env).final)
  {
    if Run(s, env).report.Summary? && !Truncates(s, env) && RunOutcomes(s, env) != [] {
      assert s.records != [];
    }
  }

  /** With clean reads, the names completed after a run are those completed
      before it plus those that succeeded in it; the final count re-derived
      from the file is at most the earlier count plus this run's successes. */
  lemma CompletedAfterRun(s: FileState, env: Environment)
    requires Consistent(s) && HeaderFirst(s) && env.resumeFault == None
    requires Run(s, env).report.Summary?
    ensures env.menuFile.Some?
    ensures ScanCompleted(Run(s, env).final, None) == ResumeCompleted(s, env) + HeaderSuccessNames(RunOutcomes(s, env))
    ensures Run(s, env).report.totalCompleted <= |ResumeCompleted(s, env)| + Run(s, env).report.successCount
  {
    RunSummaryShape(s, env);
    var outs := RunOutcomes(s, env);
    var final := Run(s, env).final;
    var before := ResumeCompleted(s, env);
    CompletedAfterWrites(s, IsNewFile(s, env), outs);
    var pending := Pending(s, env);
    TalliesMatchRecords(pending, env.backend, Processed(|pending|, env.stopAfter));
    CountAfterWrites(final, before, outs, env.finalFault);
  }

  /** The saves of a run add the names of their success records to the
      names a clean scan finds; only a first save that truncates drops the
      earlier ones. */
  lemma CompletedAfterWrites(s: FileState, isNewFile: bool, outs: seq<Row>)
    requires Consistent(s) && HeaderFirst(s)
    requires !isNewFile ==> s.present && s.records != []
    ensures ScanCompleted(AfterWrites(s, isNewFile, outs), None)
            == (if isNewFile && outs != [] then {} else ScanCompleted(s, None)) + HeaderSuccessNames(outs)
  {
    var final := AfterWrites(s, isNewFile, outs);
    if outs == [] {
    } else if isNewFile {
      assert final.records[1..] == outs;
    } else {
      assert final.records[1..] == s.records[1..] + outs;
      SuccessNamesAppend(Header, s.records[1..], outs);
    }
  }

  /** The count re-derived from the file, read with or without a fault. */
  lemma CountAfterWrites(final: FileState, before: set<string>, outs: seq<Row>, fault: Option<nat>)
    requires ScanCompleted(final, None) == before + HeaderSuccessNames(outs)
    ensures |ScanCompleted(final, fault)| <= |before| + CountStatus(outs, Success)
  {
    ScanWithFaultIsSubset(final, fault);
    SetSizeOfSubset(ScanCompleted(final, fault), ScanCompleted(final, None));
    SetSizeOfUnion(before, HeaderSuccessNames(outs));
    HeaderSuccessNamesBound(outs);
  }

  /** The next run, reading cleanly, retries exactly the pending names that
      did not succeed in this one (interrupted or not), in the same order. */
  lemma ResumeSkipsWhatSucceeded(s: FileState, env: Environment, next: Environment)
    requires Consistent(s) && HeaderFirst(s) && env.resumeFault == None
    requires Run(s, env).report.Summary?
    requires next.menuFile == env.menuFile && next.resumeFault == None
    ensures env.menuFile.Some?
    ensures Pending(Run(s, env).final, next) == Without(Pending(s, env), HeaderSuccessNames(RunOutcomes(s, env)))
  {
    CompletedAfterRun(s, env);
    WithoutTwice(Loaded(env), ResumeCompleted(s, env), HeaderSuccessNames(RunOutcomes(s, env)));
  }

  /** Idempotence: after a run in which every pending item was processed and
      succeeded, the next run finds nothing pending and leaves the file alone,
      even when this run's own scan of the file hit a read error. */
  lemma SecondRunAppendsNothing(s: FileState, env: Environment, next: Environment)
    requires Consistent(s) && HeaderFirst(s)
    requires Run(s, env).report.Summary?
    requires |RunOutcomes(s, env)| == |Pending(s, env)|
    requires forall i :: 0 <= i < |Pending(s, env)| ==> env.backend(Pending(s, env)[i], i).answer.Answered?
    requires next.apiKey != "" && next.menuFile == env.menuFile && next.resumeFault == None
    ensures Run(Run(s, env).final, next) == RunResult(Run(s, env).final, NothingPending)
  {
    RunSummaryShape(s, env);
    var pending := Pending(s, env);
    AnsweredItemsSucceed(pending, env.backend, |pending|);
    assert pending[..|pending|] == pending;
    NothingLeftAfterWrites(s, env, next, RunOutcomes(s, env));
  }

  /** Once every pending name has a success record among the saved ones, a
      clean scan of the file finds every loaded name completed. */
  lemma NothingLeftAfterWrites(s: FileState, env: Environment, next: Environment, outs: seq<Row>)
    requires Consistent(s) && HeaderFirst(s) && env.menuFile.Some?
    requires next.menuFile == env.menuFile && next.resumeFault == None
    requires outs != []
    requires forall x :: x in Pending(s, env) ==> x in HeaderSuccessNames(outs)
    ensures Pending(AfterWrites(s, IsNewFile(s, env), outs), next) == []
  {
    var final := AfterWrites(s, IsNewFile(s, env), outs);
    ScanWithFaultIsSubset(s, env.resumeFault);
    CompletedAfterWrites(s, IsNewFile(s, env), outs);
    if IsNewFile(s, env) {
      WithoutNothing(Loaded(env));
    }
    assert forall x :: x in Loaded(env) ==> x in ScanCompleted(final, None);
    WithoutEverything(Loaded(env), ScanCompleted(final, None));
  }

  /** When every call answered, every processed name is among the succeeded ones. */
  lemma AnsweredItemsSucceed(pending: seq<string>, backend: Backend, k: nat)
    requires k <= |pending|
    requires forall i :: 0 <= i < k ==> backend(pending[i], i).answer.Answered?
    ensures forall x :: x in pending[..k] ==> x in HeaderSuccessNames(Outcomes(pending, backend, k))
  {
    var outs := Outcomes(pending, backend, k);
    OutcomesInOrder(pending, backend, k);
    forall x | x in pending[..k]
      ensures x in HeaderSuccessNames(outs)
    {
      var i :| 0 <= i < k && pending[..k][i] == x;
      HeaderSuccessNamesSpec(outs, x);
      assert outs[i].name == x && outs[i].status == Success;
    }
  }

  /** A name that the file records only as failed is pending again, whether
      or not the scan of the file hit a read error. */
  lemma FailedOnlyNameIsPendingAgain(s: FileState, env: Environment, x: string)
    requires HeaderFirst(s) && env.menuFile.Some?
    requires x in Loaded(env)
    requires forall i :: 1 <= i < |s.records| && s.records[i].name == x ==> s.records[i].status != Success
    ensures x in Pending(s, env)
  {
    FailedOnlyNameNotCompleted(s, x);
    ScanWithFaultIsSubset(s, env.resumeFault);
  }

  /** Interruption keeps what was saved: the file after a run stopped after
      at least one item is a prefix of the file after the same run left to
      finish. */
  lemma InterruptedRunIsPrefixOfFullRun(s: FileState, env: Environment)
    requires env.stopAfter.Some? && env.stopAfter.value >= 1
    requires Run(s, env).report.Summary?
    ensures Run(s, env).final.records <= Run(s, env.(stopAfter := None)).final.records
  {
    var full := env.(stopAfter := None);
    RunSummaryShape(s, env);
    RunSummaryShape(s, full);
    var pending := Pending(s, env);
    assert Pending(s, full) == pending;
    assert IsNewFile(s, full) == IsNewFile(s, env);
    OutcomesPrefix(pending, env.backend, Processed(|pending|, env.stopAfter), |pending|);
    WritesPrefix(s, IsNewFile(s, env), RunOutcomes(s, env), RunOutcomes(s, full));
  }

  /** Saving fewer records, at least one, leaves a prefix of the file saving more leaves. */
  lemma WritesPrefix(s: FileState, isNewFile: bool, part: seq<Row>, all: seq<Row>)
    requires part != [] && part <= all
    ensures AfterWrites(s, isNewFile, part).records <= AfterWrites(s, isNewFile, all).records
  {
    var base := if isNewFile then [Header] else s.records;
    assert all == part + all[|part|..];
    assert base + all == (base + part) + all[|part|..];
  }

  lemma {:induction false} OutcomesPrefix(pending: seq<string>, backend: Backend, j: nat, n: nat)
    requires j <= n <= |pending|
    ensures Outcomes(pending, backend, j) <= Outcomes(pending, backend, n)
    decreases n
  {
    if j < n {
      OutcomesPrefix(pending, backend, j, n - 1);
    }
  }

  /** The `i`-th record of a run is the outcome of the `i`-th pending name. */
  lemma {:induction false} OutcomesInOrder(pending: seq<string>, backend: Backend, k: nat)
    requires k <= |pending|
    ensures forall i :: 0 <= i < k ==>
              Outcomes(pending, backend, k)[i] == GenerateRecipe(pending[i], backend(pending[i], i))
  {
    if k > 0 {
      OutcomesInOrder(pending, backend, k - 1);
      assert Outcomes(pending, backend, k)[..k - 1] == Outcomes(pending, backend, k - 1);
    }
  }

  /** What a run that gets past loading does to the file. */
  lemma RunSummaryShape(s: FileState, env: Environment)
    requires Run(s, env).report.Summary?
    ensures env.menuFile.Some? && Pending(s, env) != []
    ensures Run(s, env).final == AfterWrites(s, IsNewFile(s, env), RunOutcomes(s, env))
  {
  }

  /** Distinct names of success records never outnumber the success records. */
  lemma {:induction false} HeaderSuccessNamesBound(rows: seq<Row>)
    ensures |HeaderSuccessNames(rows)| <= CountStatus(rows, Success)
    decreases |rows|
  {
    if rows != [] {
      var init := rows[..|rows| - 1];
      HeaderSuccessNamesBound(init);
      HeaderLookup(rows[|rows| - 1]);
      SetSizeOfUnion(HeaderSuccessNames(init), if IsSuccessRecord(Header, rows[|rows| - 1]) then {rows[|rows| - 1].name} else {});
    }
  }

  lemma SetSizeOfUnion<T>(a: set<T>, b: set<T>)
    ensures |a + b| <= |a| + |b|
  {
    assert a + b == a + (b - a);
    SetSizeOfSubset(b - a, b);
  }

  lemma SetSizeOfSubset<T>(a: set<T>, b: set<T>)
    requires a <= b
    ensures |a| <= |b|
  {
    assert b == a + (b - a);
  }
}
