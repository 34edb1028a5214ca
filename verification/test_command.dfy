/**
 * The `test` command (command/test.go:51-179): options fold into a configuration,
 * the files under a task's directory are paired into samples by id, the selected
 * samples run, and each verdict is AC or WA by comparing lines.
 * The directory walk is a given sequence of visits, the file system a map from
 * path to content, and running the solution on an input an oracle.
 */
module TestCommand {
  import opened Outcomes
  import opened Text

  /** The test case value that selects every sample. */
  const All: string := "all"

  /** `TestWithTestcase` and `TestWithVerbose`. */
  datatype TestOption = WithTestcase(testcase: string) | WithVerbose

  datatype TestConfig = TestConfig(testcase: string, verbose: bool)

  /** What one option closure does to the configuration it is handed. */
  function Apply(cfg: TestConfig, opt: TestOption): TestConfig
  {
    match opt
    case WithTestcase(t) => cfg.(testcase := t)
    case WithVerbose => cfg.(verbose := true)
  }

  /** The test case of the last `WithTestcase` option, if any. */
  function LastTestcase(opts: seq<TestOption>): Option<string>
    decreases |opts|
  {
    if opts == [] then None
    else if opts[|opts| - 1].WithTestcase? then Some(opts[|opts| - 1].testcase)
    else LastTestcase(opts[..|opts| - 1])
  }

  /** The configuration the options describe: the last test case given, else "all"; verbose once asked for. */
  function ConfigOf(opts: seq<TestOption>): TestConfig
  {
    TestConfig(if LastTestcase(opts).Some? then LastTestcase(opts).value else All,
               exists i :: 0 <= i < |opts| && opts[i] == WithVerbose)
  }

  /** The last `WithTestcase` option decides, and with none the default stays. */
  lemma LastTestcaseSpec(opts: seq<TestOption>)
    ensures LastTestcase(opts).None? <==> forall i :: 0 <= i < |opts| ==> !opts[i].WithTestcase?
    ensures LastTestcase(opts).Some? ==>
      exists i :: 0 <= i < |opts| && opts[i] == WithTestcase(LastTestcase(opts).value) &&
                  forall j :: i < j < |opts| ==> !opts[j].WithTestcase?
  {
    LastTestcaseNone(opts);
    if LastTestcase(opts).Some? {
      var i := LastTestcaseAt(opts);
    }
  }

  lemma {:induction false} LastTestcaseNone(opts: seq<TestOption>)
    ensures LastTestcase(opts).None? <==> forall i :: 0 <= i < |opts| ==> !opts[i].WithTestcase?
    decreases |opts|
  {
    if opts != [] && !opts[|opts| - 1].WithTestcase? {
      var init := opts[..|opts| - 1];
      LastTestcaseNone(init);
      assert forall i :: 0 <= i < |init| ==> opts[i] == init[i];
    }
  }

  /** The position of the option that LastTestcase reports. */
  lemma {:induction false} LastTestcaseAt(opts: seq<TestOption>) returns (i: nat)
    requires LastTestcase(opts).Some?
    ensures i < |opts| && opts[i] == WithTestcase(LastTestcase(opts).value)
    ensures forall j :: i < j < |opts| ==> !opts[j].WithTestcase?
    decreases |opts|
  {
    var n := |opts| - 1;
    if opts[n].WithTestcase? {
      i := n;
    } else {
      var init := opts[..n];
      i := LastTestcaseAt(init);
      assert opts[i] == init[i];
    }
  }

  /** The start of `RunTest`: the default configuration, then each option in order. */
  method Configure(opts: seq<TestOption>) returns (cfg: TestConfig)
    ensures cfg == ConfigOf(opts)
  {
    cfg := TestConfig(All, false);
    for i := 0 to |opts|
      invariant cfg == ConfigOf(opts[..i])
    {
      assert opts[..i + 1][..i] == opts[..i];
      assert forall j :: 0 <= j < i ==> opts[..i + 1][j] == opts[..i][j];
      cfg := Apply(cfg, opts[i]);
    }
    assert opts[..|opts|] == opts;
  }

  /** A later `WithTestcase` overrides an earlier one, and verbosity is never switched off. */
  lemma ConfigOfSnoc(opts: seq<TestOption>, t: string)
    ensures ConfigOf(opts + [WithTestcase(t)]).testcase == t
    ensures ConfigOf(opts + [WithTestcase(t)]).verbose == ConfigOf(opts).verbose
    ensures ConfigOf(opts + [WithVerbose]).testcase == ConfigOf(opts).testcase
    ensures ConfigOf(opts + [WithVerbose]).verbose
  {
    var a, b := opts + [WithTestcase(t)], opts + [WithVerbose];
    assert a[..|opts|] == opts && b[..|opts|] == opts;
    assert forall i :: 0 <= i < |opts| ==> a[i] == opts[i] && b[i] == opts[i];
    assert b[|opts|] == WithVerbose;
  }

  // ---------------------------------------------------------------------------
  // Sample discovery

  datatype Side = InputSide | OutputSide

  /**
   * The callback's test on a base name: "input-" first, then "output-", each
   * followed by the id with one trailing ".txt" removed; other names are ignored.
   */
  function Classify(name: string): Option<(Side, string)>
  {
    var (afterIn, isIn) := CutPrefix(name, "input-");
    if isIn then Some((InputSide, TrimSuffix(afterIn, ".txt")))
    else
      var (afterOut, isOut) := CutPrefix(name, "output-");
      if isOut then Some((OutputSide, TrimSuffix(afterOut, ".txt")))
      else None
  }

  /** The names the sample writer gives are read back as the id they were written for. */
  lemma ClassifyNames(id: string)
    ensures Classify("input-" + id + ".txt") == Some((InputSide, id))
    ensures Classify("output-" + id + ".txt") == Some((OutputSide, id))
  {
    var a, b := "input-" + id + ".txt", "output-" + id + ".txt";
    assert a[6..] == id + ".txt";
    assert (id + ".txt")[|id|..] == ".txt" && (id + ".txt")[..|id|] == id;
    assert b[0] != 'i';
    assert b[7..] == id + ".txt";
  }

  /** A name is ignored exactly when it starts with neither prefix. */
  lemma ClassifyIgnored(name: string)
    ensures Classify(name) == None <==> !("input-" <= name) && !("output-" <= name)
  {
  }

  /** Only ".txt" is stripped: any other ending stays part of the id (`input-01.py` gives "01.py"). */
  lemma ClassifyKeepsOtherEndings(rest: string)
    requires !(|rest| >= 4 && rest[|rest| - 4..] == ".txt")
    ensures Classify("input-" + rest) == Some((InputSide, rest))
    ensures Classify("output-" + rest) == Some((OutputSide, rest))
  {
    var a, b := "input-" + rest, "output-" + rest;
    assert a[6..] == rest;
    assert b[0] != 'i';
    assert b[7..] == rest;
  }

  /** A sample as the callback builds it; an unset path is "". */
  datatype Sample = Sample(input: string, output: string)

  /** One call of the walk callback: a visited path, or an error for it. */
  datatype WalkEntry = Visit(path: string) | WalkFailed(path: string, err: string)

  /** The paths the callback sees: the walk stops at the first error the callback returns. */
  function Visited(walk: seq<WalkEntry>): (ps: seq<string>)
    ensures |ps| <= |walk|
    ensures forall i :: 0 <= i < |ps| ==> walk[i] == Visit(ps[i])
    ensures |ps| < |walk| ==> walk[|ps|].WalkFailed?
    decreases |walk|
  {
    if walk == [] || walk[0].WalkFailed? then [] else [walk[0].path] + Visited(walk[1..])
  }

  /** How the callback classifies each visited path. */
  function Tags(ps: seq<string>): (ts: seq<Option<(Side, string)>>)
    ensures |ts| == |ps|
  {
    seq(|ps|, i requires 0 <= i < |ps| => Classify(Base(ps[i])))
  }

  /** The last position of `t` in `ts`. */
  function LastIndexOf<T(==)>(ts: seq<T>, t: T): (r: Option<nat>)
    ensures r.None? <==> t !in ts
    ensures r.Some? ==> r.value < |ts| && ts[r.value] == t && forall j :: r.value < j < |ts| ==> ts[j] != t
    decreases |ts|
  {
    if ts == [] then None
    else if ts[|ts| - 1] == t then Some(|ts| - 1)
    else
      var r := LastIndexOf(ts[..|ts| - 1], t);
      assert forall j :: 0 <= j < |ts| - 1 ==> ts[..|ts| - 1][j] == ts[j];
      r
  }

  /** The last path of `ps` registered for `id` on `side`. */
  function Registered(ps: seq<string>, id: string, side: Side): Option<string>
  {
    var k := LastIndexOf(Tags(ps), Some((side, id)));
    if k.Some? then Some(ps[k.value]) else None
  }

  /**
   * A registration is the last visited path carrying that id and side, so a later
   * file overrides an earlier one; there is none when no path carries them.
   */
  lemma RegisteredSpec(ps: seq<string>, id: string, side: Side)
    ensures Registered(ps, id, side).None? <==> forall i :: 0 <= i < |ps| ==> Classify(Base(ps[i])) != Some((side, id))
    ensures Registered(ps, id, side).Some? ==>
      exists i :: 0 <= i < |ps| && ps[i] == Registered(ps, id, side).value &&
                  Classify(Base(ps[i])) == Some((side, id)) &&
                  forall j :: i < j < |ps| ==> Classify(Base(ps[j])) != Some((side, id))
  {
    var ts := Tags(ps);
    var k := LastIndexOf(ts, Some((side, id)));
    if k.None? {
      forall i | 0 <= i < |ps| ensures Classify(Base(ps[i])) != Some((side, id)) {
        assert ts[i] == Classify(Base(ps[i]));
      }
    } else {
      assert ts[k.value] == Classify(Base(ps[k.value]));
      forall j | k.value < j < |ps| ensures Classify(Base(ps[j])) != Some((side, id)) {
        assert ts[j] == Classify(Base(ps[j]));
      }
    }
  }

  function PathOr(p: Option<string>): string
  {
    if p.Some? then p.value else ""
  }

  /** The ids some visited path registers. */
  function Ids(ps: seq<string>): set<string>
  {
    set i | 0 <= i < |ps| && Classify(Base(ps[i])).Some? :: Classify(Base(ps[i])).value.1
  }

  /**
   * The sample map the walk leaves, defined id by id: an id is present once some
   * visited file registers it, with the last input and the last output path
   * registered for it ("" where none was).
   */
  function SamplesOf(walk: seq<WalkEntry>): map<string, Sample>
  {
    var ps := Visited(walk);
    map id | id in Ids(ps) :: Sample(PathOr(Registered(ps, id, InputSide)), PathOr(Registered(ps, id, OutputSide)))
  }

  /** An id is registered exactly when one of its two sides is. */
  lemma IdsSpec(ps: seq<string>, id: string)
    ensures id in Ids(ps) <==> Registered(ps, id, InputSide).Some? || Registered(ps, id, OutputSide).Some?
  {
    RegisteredSpec(ps, id, InputSide);
    RegisteredSpec(ps, id, OutputSide);
    if id in Ids(ps) {
      var i :| 0 <= i < |ps| && Classify(Base(ps[i])).Some? && Classify(Base(ps[i])).value.1 == id;
      assert Classify(Base(ps[i])) == Some((Classify(Base(ps[i])).value.0, id));
    }
  }

  /** One more visited path updates its own id and side and nothing else. */
  lemma RegisteredSnoc(ps: seq<string>, p: string, id: string, side: Side)
    ensures Registered(ps + [p], id, side) ==
      if Classify(Base(p)) == Some((side, id)) then Some(p) else Registered(ps, id, side)
  {
    var ts := Tags(ps + [p]);
    assert ts[..|ps|] == Tags(ps);
    assert ts[|ps|] == Classify(Base(p));
    if ts[|ps|] != Some((side, id)) {
      assert forall j :: 0 <= j < |ps| ==> (ps + [p])[j] == ps[j];
    }
  }

  /** The map update of the callback for one visited path. */
  function Register(samples: map<string, Sample>, path: string): map<string, Sample>
  {
    match Classify(Base(path))
    case None => samples
    case Some((side, id)) =>
      var prev := if id in samples then samples[id] else Sample("", "");
      if side == InputSide then samples[id := Sample(path, prev.output)]
      else samples[id := Sample(prev.input, path)]
  }

  /** The entry for `id` of a sample map built from the visited paths `ps`, as the reference definition gives it. */
  ghost predicate MapsId(samples: map<string, Sample>, ps: seq<string>, id: string)
  {
    && (id in samples <==> Registered(ps, id, InputSide).Some? || Registered(ps, id, OutputSide).Some?)
    && (id in samples ==> samples[id] == Sample(PathOr(Registered(ps, id, InputSide)), PathOr(Registered(ps, id, OutputSide))))
  }

  ghost predicate MapsPrefix(samples: map<string, Sample>, ps: seq<string>)
  {
    forall id :: MapsId(samples, ps, id)
  }

  lemma RegisterStep(samples: map<string, Sample>, ps: seq<string>, p: string)
    requires MapsPrefix(samples, ps)
    ensures MapsPrefix(Register(samples, p), ps + [p])
  {
    forall id ensures MapsId(Register(samples, p), ps + [p], id) {
      assert MapsId(samples, ps, id);
      RegisteredSnoc(ps, p, id, InputSide);
      RegisteredSnoc(ps, p, id, OutputSide);
    }
  }

  /**
   * The `WalkDir` callback applied to every visited path: the result pairs each
   * id with its last input and output paths.
   */
  method Discover(walk: seq<WalkEntry>) returns (samples: map<string, Sample>)
    ensures samples == SamplesOf(walk)
  {
    ghost var ps := Visited(walk);
    samples := map[];
    var i := 0;
    while i < |walk|
      invariant 0 <= i <= |ps|
      invariant MapsPrefix(samples, ps[..i])
    {
      if walk[i].WalkFailed? {
        break;
      }
      // walk[i] is a visit, and the entry just past the visited paths is an error
      assert i < |ps|;
      RegisterStep(samples, ps[..i], walk[i].path);
      assert ps[..i] + [walk[i].path] == ps[..i + 1];
      samples := Register(samples, walk[i].path);
      i := i + 1;
    }
    assert ps[..i] == ps;
    MapsAll(samples, walk);
  }

  /** A map that agrees with the reference definition on every id is the sample map of the walk. */
  lemma MapsAll(samples: map<string, Sample>, walk: seq<WalkEntry>)
    requires MapsPrefix(samples, Visited(walk))
    ensures samples == SamplesOf(walk)
  {
    var ps := Visited(walk);
    forall id ensures id in samples <==> id in SamplesOf(walk) {
      assert MapsId(samples, ps, id);
      IdsSpec(ps, id);
    }
    forall id | id in samples ensures samples[id] == SamplesOf(walk)[id] {
      assert MapsId(samples, ps, id);
    }
  }

  // ---------------------------------------------------------------------------
  // Running the samples

  /** A sample id runs when every sample is selected or it is the one selected. */
  predicate Selected(cfg: TestConfig, id: string)
  {
    !(cfg.testcase != All && id != cfg.testcase)
  }

  /** "all" selects every discovered id; any other value at most the one id equal to it. */
  lemma SelectionSpec(cfg: TestConfig, samples: map<string, Sample>)
    ensures cfg.testcase == All ==> (set id | id in samples && Selected(cfg, id)) == samples.Keys
    ensures cfg.testcase != All ==> (set id | id in samples && Selected(cfg, id)) == samples.Keys * {cfg.testcase}
  {
  }

  /** What running the solution on an input gives: whether it exited cleanly, its stdout and stderr. */
  datatype RunResult = RunResult(ok: bool, stdout: string, stderr: string)

  /** The error `RunTest` returns: opening the input, the run itself, or reading the expected output. */
  datatype RunError = OpenFailed(path: string) | RunFailed(stderr: string) | ReadFailed(path: string)

  datatype Verdict = AC | WA

  /** A path that can be opened; the empty path names no file. */
  predicate Readable(files: map<string, string>, p: string)
  {
    p != "" && p in files
  }

  /** The outcome of one selected sample, step by step as the loop body takes them. */
  function Outcome(files: map<string, string>, run: string -> RunResult, s: Sample): Result<Verdict, RunError>
  {
    if !Readable(files, s.input) then Failure(OpenFailed(s.input))
    else
      var res := run(files[s.input]);
      if !res.ok then Failure(RunFailed(res.stderr))
      else if !Readable(files, s.output) then Failure(ReadFailed(s.output))
      else Success(if SplitLines(files[s.output]) == SplitLines(res.stdout) then AC else WA)
  }

  /**
   * AC exactly when the input opens, the run exits cleanly, the expected file reads
   * and its text equals stdout; so a trailing line break on one side only is WA.
   * A sample missing a side fails on the empty path.
   */
  lemma OutcomeSpec(files: map<string, string>, run: string -> RunResult, s: Sample)
    ensures Outcome(files, run, s) == Success(AC) <==>
      Readable(files, s.input) && run(files[s.input]).ok && Readable(files, s.output) &&
      files[s.output] == run(files[s.input]).stdout
    ensures s.input == "" ==> Outcome(files, run, s) == Failure(OpenFailed(""))
    ensures Readable(files, s.input) && run(files[s.input]).ok && s.output == "" ==>
      Outcome(files, run, s) == Failure(ReadFailed(""))
  {
    if Readable(files, s.input) && Readable(files, s.output) {
      SplitLinesInjective(files[s.output], run(files[s.input]).stdout);
    }
  }

  /** Output differing from the expected text only by a final line break, on either side, is WA. */
  lemma TrailingNewlineIsWA(files: map<string, string>, run: string -> RunResult, s: Sample)
    requires Readable(files, s.input) && run(files[s.input]).ok && Readable(files, s.output)
    requires files[s.output] == run(files[s.input]).stdout + "\n" ||
             run(files[s.input]).stdout == files[s.output] + "\n"
    ensures Outcome(files, run, s) == Success(WA)
  {
    var expected, actual := files[s.output], run(files[s.input]).stdout;
    SplitLinesInjective(expected, actual);
    assert |expected| != |actual|;
  }

  /**
   * The promise of the sample loop: every reported verdict belongs to a distinct
   * selected sample and is its outcome; no error means every selected sample was
   * reported, and an error is the failure of some selected sample.
   */
  predicate Completed(cfg: TestConfig, samples: map<string, Sample>, files: map<string, string>,
                      run: string -> RunResult, err: Option<RunError>, report: seq<(string, Verdict)>)
  {
    && (forall j :: 0 <= j < |report| ==>
          report[j].0 in samples && Selected(cfg, report[j].0) &&
          Outcome(files, run, samples[report[j].0]) == Success(report[j].1))
    && (forall i, j :: 0 <= i < j < |report| ==> report[i].0 != report[j].0)
    && (err.None? ==> forall id :: id in samples && Selected(cfg, id) ==> exists j :: 0 <= j < |report| && report[j].0 == id)
    && (err.Some? ==> exists id :: id in samples && Selected(cfg, id) && Outcome(files, run, samples[id]) == Failure(err.value))
  }

  /** The result is nil exactly when every selected sample runs to a verdict, WA included. */
  lemma CompletedNoError(cfg: TestConfig, samples: map<string, Sample>, files: map<string, string>,
                         run: string -> RunResult, err: Option<RunError>, report: seq<(string, Verdict)>)
    requires Completed(cfg, samples, files, run, err, report)
    ensures err.None? <==> forall id :: id in samples && Selected(cfg, id) ==> Outcome(files, run, samples[id]).Success?
  {
    if err.None? {
      forall id | id in samples && Selected(cfg, id) ensures Outcome(files, run, samples[id]).Success? {
        var j :| 0 <= j < |report| && report[j].0 == id;
      }
    }
  }

  /**
   * The loop over the sample map, in whatever order the map is ranged over: skip
   * what is not selected, stop at the first error, and report each verdict.
   */
  method RunSamples(cfg: TestConfig, samples: map<string, Sample>, files: map<string, string>,
                    run: string -> RunResult) returns (err: Option<RunError>, report: seq<(string, Verdict)>)
    ensures Completed(cfg, samples, files, run, err, report)
  {
    var remaining := samples.Keys;
    report := [];
    while remaining != {}
      invariant remaining <= samples.Keys
      invariant Reported(cfg, samples, files, run, samples.Keys - remaining, report)
      decreases remaining
    {
      var number :| number in remaining;
      ghost var done := samples.Keys - remaining;
      remaining := remaining - {number};
      assert samples.Keys - remaining == done + {number};
      var sample := samples[number];
      if cfg.testcase != All && number != cfg.testcase {
        continue;
      }
      if !Readable(files, sample.input) {
        err := Some(OpenFailed(sample.input));
        ReportedStops(cfg, samples, files, run, done, report, number, err.value);
        return;
      }
      var res := run(files[sample.input]);
      if !res.ok {
        err := Some(RunFailed(res.stderr));
        ReportedStops(cfg, samples, files, run, done, report, number, err.value);
        return;
      }
      if !Readable(files, sample.output) {
        err := Some(ReadFailed(sample.output));
        ReportedStops(cfg, samples, files, run, done, report, number, err.value);
        return;
      }
      var verdict := if SplitLines(files[sample.output]) == SplitLines(res.stdout) then AC else WA;
      ReportedStep(cfg, samples, files, run, done, report, number, verdict);
      report := report + [(number, verdict)];
    }
    err := None;
    ReportedAll(cfg, samples, files, run, report);
  }

  /** The loop's progress: the report holds exactly the selected samples among `done`, each once. */
  ghost predicate Reported(cfg: TestConfig, samples: map<string, Sample>, files: map<string, string>,
                           run: string -> RunResult, done: set<string>, report: seq<(string, Verdict)>)
  {
    && (forall j :: 0 <= j < |report| ==>
          report[j].0 in samples && report[j].0 in done && Selected(cfg, report[j].0) &&
          Outcome(files, run, samples[report[j].0]) == Success(report[j].1))
    && (forall i, j :: 0 <= i < j < |report| ==> report[i].0 != report[j].0)
    && (forall id :: id in samples && id in done && Selected(cfg, id) ==>
          exists j :: 0 <= j < |report| && report[j].0 == id)
  }

  /** A selected sample that fails ends the loop with its error and the report so far. */
  lemma ReportedStops(cfg: TestConfig, samples: map<string, Sample>, files: map<string, string>,
                      run: string -> RunResult, done: set<string>, report: seq<(string, Verdict)>,
                      number: string, e: RunError)
    requires Reported(cfg, samples, files, run, done, report)
    requires number in samples && Selected(cfg, number)
    requires Outcome(files, run, samples[number]) == Failure(e)
    ensures Completed(cfg, samples, files, run, Some(e), report)
  {
  }

  /** Once every sample is done, the report covers every selected one. */
  lemma ReportedAll(cfg: TestConfig, samples: map<string, Sample>, files: map<string, string>,
                    run: string -> RunResult, report: seq<(string, Verdict)>)
    requires Reported(cfg, samples, files, run, samples.Keys, report)
    ensures Completed(cfg, samples, files, run, None, report)
  {
  }

  /** Reporting the verdict of a selected sample not yet done keeps the progress. */
  lemma ReportedStep(cfg: TestConfig, samples: map<string, Sample>, files: map<string, string>,
                     run: string -> RunResult, done: set<string>, report: seq<(string, Verdict)>,
                     number: string, verdict: Verdict)
    requires Reported(cfg, samples, files, run, done, report)
    requires number in samples && number !in done && Selected(cfg, number)
    requires Outcome(files, run, samples[number]) == Success(verdict)
    ensures Reported(cfg, samples, files, run, done + {number}, report + [(number, verdict)])
  {
    var more := report + [(number, verdict)];
    forall id | id in samples && id in done + {number} && Selected(cfg, id)
      ensures exists j :: 0 <= j < |more| && more[j].0 == id
    {
      if id == number {
        assert more[|report|].0 == id;
      } else {
        var j :| 0 <= j < |report| && report[j].0 == id;
        assert more[j] == report[j];
      }
    }
  }

  /**
   * `RunTest`: configure, pair up the files the walk visits, then run the
   * selected samples. `report` lists the verdicts in the order they were printed.
   */
  method RunTest(opts: seq<TestOption>, walk: seq<WalkEntry>, files: map<string, string>,
                 run: string -> RunResult) returns (err: Option<RunError>, report: seq<(string, Verdict)>)
    ensures Completed(ConfigOf(opts), SamplesOf(walk), files, run, err, report)
  {
    var cfg := Configure(opts);
    var samples := Discover(walk);
    err, report := RunSamples(cfg, samples, files, run);
  }
}
