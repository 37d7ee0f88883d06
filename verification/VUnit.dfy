/** Judging a VUnit run by the markers in its simulation output. */
module VUnit {
  import opened Common

  /** One output line: a runner marker, a reported HDL error, or anything else. */
  datatype Line =
    | Start(name: string)
    | Fail
    | Finished(failures: Option<nat>)
    | HdlError
    | Other

  const SUITE := "<default>"

  datatype Row = Row(test: string, pass: bool)

  // ----- what a transcript says, over its first n lines -----

  predicate Marker(line: Line)
  {
    line.Start? || line.Fail? || line.Finished?
  }

  /** The test running in front of line n. */
  function Current(lines: seq<Line>, n: nat): (name: string)
    requires n <= |lines|
  {
    if n == 0 then SUITE
    else if lines[n - 1].Start? then lines[n - 1].name
    else Current(lines, n - 1)
  }

  function Starts(lines: seq<Line>, name: string, n: nat): (count: nat)
    requires n <= |lines|
  {
    if n == 0 then 0 else Starts(lines, name, n - 1) + if lines[n - 1] == Start(name) then 1 else 0
  }

  function Fails(lines: seq<Line>, n: nat): (count: nat)
    requires n <= |lines|
  {
    if n == 0 then 0 else Fails(lines, n - 1) + if lines[n - 1].Fail? then 1 else 0
  }

  function Finishes(lines: seq<Line>, n: nat): (count: nat)
    requires n <= |lines|
  {
    if n == 0 then 0 else Finishes(lines, n - 1) + if lines[n - 1].Finished? then 1 else 0
  }

  /** The failure count last reported. */
  function Reported(lines: seq<Line>, n: nat): (count: Option<nat>)
    requires n <= |lines|
  {
    if n == 0 then None
    else if lines[n - 1].Finished? && lines[n - 1].failures.Some? then lines[n - 1].failures
    else Reported(lines, n - 1)
  }

  predicate Complains(line: Line)
  {
    line.Fail? || line.HdlError?
  }

  /** A failure or error is reported while the test runs. */
  ghost predicate Blamed(lines: seq<Line>, name: string, n: nat)
    requires n <= |lines|
  {
    exists i :: 0 <= i < n && Complains(lines[i]) && Current(lines, i) == name
  }

  /** Line i breaks the protocol of the suite. */
  ghost predicate Offends(lines: seq<Line>, names: set<string>, i: nat)
    requires i < |lines|
  {
    || ((Marker(lines[i]) || lines[i].HdlError?) && Finishes(lines, i) > 0)
    || (lines[i].Start? && lines[i].name !in names)
    || lines[i] == Finished(None)
    || (Complains(lines[i]) && Current(lines, i) == SUITE)
  }

  ghost predicate Offended(lines: seq<Line>, names: set<string>, n: nat)
    requires n <= |lines|
  {
    exists i :: 0 <= i < n && Offends(lines, names, i)
  }

  function Names(tests: seq<string>): (names: set<string>)
  {
    set t | t in tests && t != SUITE
  }

  /** The suite as a whole ran as it should. */
  ghost predicate SuiteOk(tests: seq<string>, lines: seq<Line>)
  {
    && !Offended(lines, Names(tests), |lines|)
    && Finishes(lines, |lines|) == 1
    && Reported(lines, |lines|) == Some(Fails(lines, |lines|))
  }

  /** A named test ran once, without complaint, in a suite that finished once. */
  ghost predicate TestOk(test: string, lines: seq<Line>)
  {
    Starts(lines, test, |lines|) == 1 && !Blamed(lines, test, |lines|) && Finishes(lines, |lines|) == 1
  }

  // ----- the monitor -----

  function Plus(counts: map<string, nat>, key: string): (more: map<string, nat>)
  {
    counts[key := (if key in counts then counts[key] else 0) + 1]
  }

  function Count(counts: map<string, nat>, key: string): nat
  {
    if key in counts then counts[key] else 0
  }

  /** The monitor's counters and failure lists, as numbers of entries. */
  datatype Monitor = Monitor(
    starts: map<string, nat>, failures: map<string, nat>, done: nat, reported: Option<nat>,
    emitted: nat, afterDone: bool, current: string)
  {
    /** The counters say what the first n lines say. */
    ghost predicate Follows(lines: seq<Line>, names: set<string>, n: nat)
      requires n <= |lines|
    {
      && (forall k :: Count(starts, k) == Starts(lines, k, n))
      && (forall k :: Charges(failures, lines, names, k, n))
      && done == Finishes(lines, n) && (afterDone <==> done > 0)
      && reported == Reported(lines, n)
      && emitted == Fails(lines, n)
      && current == Current(lines, n)
    }
  }

  function Observe(m: Monitor, names: set<string>, line: Line): (next: Monitor)
  {
    var late := if m.afterDone && (line.Start? || line.Fail? || line.Finished?) then Plus(m.failures, SUITE) else m.failures;
    match line
    case Start(name) =>
      var unexpected := if name !in names then Plus(late, SUITE) else late;
      var starts := Plus(m.starts, name);
      m.(starts := starts, current := name,
         failures := if Count(starts, name) > 1 then Plus(unexpected, name) else unexpected)
    case Fail =>
      m.(emitted := m.emitted + 1, failures := Plus(late, m.current))
    case Finished(count) =>
      var again := if m.done + 1 > 1 then Plus(late, SUITE) else late;
      m.(done := m.done + 1, afterDone := true,
         reported := if count.Some? then count else m.reported,
         failures := if count.None? then Plus(again, SUITE) else again)
    case HdlError =>
      var blamed := Plus(m.failures, m.current);
      m.(failures := if m.afterDone then Plus(blamed, SUITE) else blamed)
    case Other => m
  }

  lemma BlamedStep(lines: seq<Line>, name: string, n: nat)
    requires n < |lines|
    ensures Blamed(lines, name, n + 1)
       <==> Blamed(lines, name, n) || (Complains(lines[n]) && Current(lines, n) == name)
  {
  }

  lemma OffendedStep(lines: seq<Line>, names: set<string>, n: nat)
    requires n < |lines|
    ensures Offended(lines, names, n + 1) <==> Offended(lines, names, n) || Offends(lines, names, n)
  {
  }

  lemma CountPlus(counts: map<string, nat>, key: string, k: string)
    ensures Count(Plus(counts, key), k) == Count(counts, k) + if k == key then 1 else 0
  {
  }

  /** Both failure lists of the invariant, for one key. */
  ghost predicate Charges(failures: map<string, nat>, lines: seq<Line>, names: set<string>, k: string, n: nat)
    requires n <= |lines|
  {
    Count(failures, k) > 0 <==>
      if k == SUITE then Offended(lines, names, n) else Starts(lines, k, n) > 1 || Blamed(lines, k, n)
  }

  lemma ObserveMarker(m: Monitor, lines: seq<Line>, names: set<string>, n: nat, k: string)
    requires n < |lines| && SUITE !in names && m.Follows(lines, names, n) && Marker(lines[n])
    ensures Charges(Observe(m, names, lines[n]).failures, lines, names, k, n + 1)
  {
    OffendedStep(lines, names, n);
    BlamedStep(lines, k, n);
    var late := if m.afterDone then Plus(m.failures, SUITE) else m.failures;
    assert Charges(m.failures, lines, names, k, n);
    CountPlus(m.failures, SUITE, k);
    match lines[n]
    case Start(name) =>
      var unexpected := if name !in names then Plus(late, SUITE) else late;
      CountPlus(late, SUITE, k);
      CountPlus(unexpected, name, k);
      CountPlus(m.starts, name, name);
      assert Count(m.starts, name) == Starts(lines, name, n);
    case Fail =>
      CountPlus(late, m.current, k);
    case Finished(count) =>
      var again := if m.done + 1 > 1 then Plus(late, SUITE) else late;
      CountPlus(late, SUITE, k);
      CountPlus(again, SUITE, k);
  }

  lemma ObserveError(m: Monitor, lines: seq<Line>, names: set<string>, n: nat, k: string)
    requires n < |lines| && m.Follows(lines, names, n) && !Marker(lines[n])
    ensures Charges(Observe(m, names, lines[n]).failures, lines, names, k, n + 1)
  {
    OffendedStep(lines, names, n);
    BlamedStep(lines, k, n);
    assert Charges(m.failures, lines, names, k, n);
    CountPlus(m.failures, m.current, k);
    CountPlus(Plus(m.failures, m.current), SUITE, k);
  }

  lemma ObserveFollows(m: Monitor, lines: seq<Line>, names: set<string>, n: nat)
    requires n < |lines| && SUITE !in names && m.Follows(lines, names, n)
    ensures Observe(m, names, lines[n]).Follows(lines, names, n + 1)
  {
    var next := Observe(m, names, lines[n]);
    forall k
      ensures Charges(next.failures, lines, names, k, n + 1)
      ensures Count(next.starts, k) == Starts(lines, k, n + 1)
    {
      if Marker(lines[n]) {
        ObserveMarker(m, lines, names, n, k);
      } else {
        ObserveError(m, lines, names, n, k);
      }
      if lines[n].Start? {
        CountPlus(m.starts, lines[n].name, k);
      }
    }
  }

  /** What the rows of a run say. */
  ghost predicate Judges(rows: seq<Row>, tests: seq<string>, simulated: bool, lines: seq<Line>)
  {
    if !simulated || tests == [] then
      rows != [] && forall i :: 0 <= i < |rows| ==> !rows[i].pass
    else
      && |rows| == |tests| + (if SUITE !in tests && !SuiteOk(tests, lines) then 1 else 0)
      && (forall i :: 0 <= i < |tests| ==> rows[i].test == tests[i])
      && (forall i :: 0 <= i < |tests| ==>
            (rows[i].pass <==> if tests[i] == SUITE then SuiteOk(tests, lines) else TestOk(tests[i], lines)))
      && (|rows| > |tests| ==> rows[|tests|] == Row(SUITE, false))
  }

  /** One row per expected test, and a suite row when the suite fails unasked. */
  method Subresults(tests: seq<string>, simulated: bool, lines: seq<Line>) returns (rows: seq<Row>)
    ensures Judges(rows, tests, simulated, lines)
  {
    if !simulated || tests == [] {
      rows := if tests == [] then [Row(SUITE, false)]
              else seq(|tests|, i requires 0 <= i < |tests| => Row(tests[i], false));
      return;
    }
    var names := set t | t in tests && t != SUITE;
    var m := Monitor(map[], map[], 0, None, 0, false, SUITE);
    for n := 0 to |lines|
      invariant m.Follows(lines, names, n)
    {
      ObserveFollows(m, lines, names, n);
      m := Observe(m, names, lines[n]);
    }
    var suiteFailures := Count(m.failures, SUITE);
    if m.done != 1 { suiteFailures := suiteFailures + 1; }
    if m.reported.Some? && m.reported.value != m.emitted { suiteFailures := suiteFailures + 1; }
    ReportedIfFinished(lines, names, |lines|);
    assert Charges(m.failures, lines, names, SUITE, |lines|);
    assert suiteFailures == 0 <==> SuiteOk(tests, lines);
    rows := [];
    for i := 0 to |tests|
      invariant |rows| == i
      invariant forall j :: 0 <= j < i ==> rows[j].test == tests[j]
      invariant forall j :: 0 <= j < i ==>
        (rows[j].pass <==> if tests[j] == SUITE then SuiteOk(tests, lines) else TestOk(tests[j], lines))
    {
      var test := tests[i];
      var pass;
      if test == SUITE {
        pass := suiteFailures == 0 && m.done == 1;
      } else {
        assert Charges(m.failures, lines, names, test, |lines|);
        pass := Count(m.starts, test) != 0 && Count(m.failures, test) == 0 && m.done == 1;
      }
      rows := rows + [Row(test, pass)];
    }
    if suiteFailures > 0 && SUITE !in tests {
      rows := rows + [Row(SUITE, false)];
    }
  }

  /** A suite that did not offend and finished has a reported count. */
  lemma {:induction false} ReportedIfFinished(lines: seq<Line>, names: set<string>, n: nat)
    requires n <= |lines|
    ensures !Offended(lines, names, n) && Finishes(lines, n) > 0 ==> Reported(lines, n).Some?
  {
    if n > 0 {
      ReportedIfFinished(lines, names, n - 1);
      OffendedStep(lines, names, n - 1);
    }
  }

  // ----- when every row passes -----

  /** The last marker is a single finish that reports no failures, at line d. */
  ghost predicate EndsClean(lines: seq<Line>, d: nat)
  {
    && d < |lines| && lines[d] == Finished(Some(0))
    && forall i :: 0 <= i < |lines| && i != d ==> !lines[i].Finished? && (lines[i].Start? || lines[i].Fail? ==> i < d)
  }

  /** The run the runner is meant to produce. */
  ghost predicate Clean(tests: seq<string>, lines: seq<Line>)
  {
    && (forall t :: t in tests && t != SUITE ==> Starts(lines, t, |lines|) == 1)
    && (forall i :: 0 <= i < |lines| && lines[i].Start? ==> lines[i].name in tests && lines[i].name != SUITE)
    && (forall i :: 0 <= i < |lines| ==> !lines[i].Fail? && !lines[i].HdlError?)
    && (exists d: nat :: EndsClean(lines, d))
  }

  ghost predicate AllOk(tests: seq<string>, lines: seq<Line>)
  {
    SuiteOk(tests, lines) && forall t :: t in Names(tests) ==> TestOk(t, lines)
  }

  /** The running test is the suite or one that was started. */
  lemma {:induction false} CurrentWasStarted(lines: seq<Line>, n: nat) returns (j: int)
    requires n <= |lines| && Current(lines, n) != SUITE
    ensures 0 <= j < n && lines[j] == Start(Current(lines, n))
  {
    if lines[n - 1].Start? {
      j := n - 1;
    } else {
      j := CurrentWasStarted(lines, n - 1);
    }
  }

  lemma ComplaintBreaks(tests: seq<string>, lines: seq<Line>, i: nat)
    requires i < |lines| && Complains(lines[i])
    ensures !AllOk(tests, lines)
  {
    var c := Current(lines, i);
    if c == SUITE {
      assert Offends(lines, Names(tests), i);
    } else {
      var j := CurrentWasStarted(lines, i);
      if c !in Names(tests) {
        assert Offends(lines, Names(tests), j);
      } else {
        assert Blamed(lines, c, |lines|);
      }
    }
  }

  lemma {:induction false} FailsCount(lines: seq<Line>, n: nat)
    requires n <= |lines| && forall i :: 0 <= i < n ==> !lines[i].Fail?
    ensures Fails(lines, n) == 0
  {
    if n > 0 { FailsCount(lines, n - 1); }
  }

  lemma {:induction false} FinishesMonotone(lines: seq<Line>, i: nat, n: nat)
    requires i <= n <= |lines|
    ensures Finishes(lines, i) <= Finishes(lines, n)
    ensures i < n && lines[i].Finished? ==> Finishes(lines, i) < Finishes(lines, n)
    decreases n
  {
    if i < n { FinishesMonotone(lines, i, n - 1); }
  }

  /** A report that was made was made on some line, and no later line reported. */
  lemma {:induction false} ReportedWhere(lines: seq<Line>, n: nat) returns (d: nat)
    requires n <= |lines| && Reported(lines, n).Some?
    ensures d < n && lines[d] == Finished(Reported(lines, n))
  {
    if lines[n - 1].Finished? && lines[n - 1].failures.Some? {
      d := n - 1;
    } else {
      d := ReportedWhere(lines, n - 1);
    }
  }

  lemma AllOkIsClean(tests: seq<string>, lines: seq<Line>)
    requires AllOk(tests, lines)
    ensures Clean(tests, lines)
  {
    forall i | 0 <= i < |lines|
      ensures !lines[i].Fail? && !lines[i].HdlError?
      ensures lines[i].Start? ==> lines[i].name in tests && lines[i].name != SUITE
    {
      if Complains(lines[i]) { ComplaintBreaks(tests, lines, i); }
      assert !Offends(lines, Names(tests), i);
    }
    forall t | t in tests && t != SUITE
      ensures Starts(lines, t, |lines|) == 1
    {
      assert TestOk(t, lines);
    }
    FailsCount(lines, |lines|);
    var d := ReportedWhere(lines, |lines|);
    forall i | 0 <= i < |lines| && i != d
      ensures !lines[i].Finished?
      ensures Marker(lines[i]) ==> i < d
    {
      FinishesMonotone(lines, d, |lines|);
      FinishesMonotone(lines, i, |lines|);
      assert !Offends(lines, Names(tests), i);
      if i < d {
        FinishesMonotone(lines, i, d);
        assert !Offends(lines, Names(tests), d);
      } else {
        FinishesMonotone(lines, d, i);
      }
    }
    assert EndsClean(lines, d);
  }

  lemma {:induction false} FinishesOnce(lines: seq<Line>, d: nat, n: nat)
    requires EndsClean(lines, d) && n <= |lines|
    ensures Finishes(lines, n) == if d < n then 1 else 0
    ensures Reported(lines, n) == if d < n then Some(0) else None
  {
    if n > 0 { FinishesOnce(lines, d, n - 1); }
  }

  lemma CleanIsAllOk(tests: seq<string>, lines: seq<Line>)
    requires Clean(tests, lines)
    ensures AllOk(tests, lines)
  {
    var d: nat :| EndsClean(lines, d);
    FinishesOnce(lines, d, |lines|);
    FailsCount(lines, |lines|);
    forall i | 0 <= i < |lines|
      ensures !Offends(lines, Names(tests), i)
    {
      FinishesOnce(lines, d, i);
    }
  }

  /** Every row passes exactly when tests are configured, the simulation ran, and it ran clean. */
  lemma PassesExactlyIfClean(tests: seq<string>, simulated: bool, lines: seq<Line>, rows: seq<Row>)
    requires Judges(rows, tests, simulated, lines)
    ensures (forall i :: 0 <= i < |rows| ==> rows[i].pass) <==> simulated && tests != [] && Clean(tests, lines)
  {
    if !simulated || tests == [] {
      assert !rows[0].pass;
    } else if Clean(tests, lines) {
      CleanIsAllOk(tests, lines);
      forall i | 0 <= i < |rows|
        ensures rows[i].pass
      {
        assert tests[i] != SUITE ==> tests[i] in Names(tests);
      }
    } else {
      if AllOk(tests, lines) { AllOkIsClean(tests, lines); }
      if SuiteOk(tests, lines) {
        var t :| t in Names(tests) && !TestOk(t, lines);
        var i :| 0 <= i < |tests| && tests[i] == t;
        assert !rows[i].pass;
      } else if SUITE in tests {
        var i :| 0 <= i < |tests| && tests[i] == SUITE;
        assert !rows[i].pass;
      } else {
        assert !rows[|tests|].pass;
      }
    }
  }
}
