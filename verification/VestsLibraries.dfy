/** Library bookkeeping of the VESTs scripts: deletes deferred to the next case. */
module VestsLibraries {
  import opened Common

  /**
   * A script command of a chained group. A test's compilation may fail, as a
   * test for errors should; and its case may not run in the group's chain,
   * because it is skipped or belongs to a chain of its own.
   */
  datatype Command =
    | CreateLib(lib: string)
    | DeleteLib(lib: string)
    | Test(lib: string, source: string, compiles: bool, runs: bool)

  /** What each library holds, in compile order. */
  type Store = map<string, seq<string>>

  /** Compiling opens the library first, so even a failed compilation leaves it behind. */
  function Compile(store: Store, lib: string, source: string, compiles: bool): (s: Store)
  {
    store[lib := (if lib in store then store[lib] else []) + if compiles then [source] else []]
  }

  // ----- the script as written -----

  /** The libraries after the first n commands, each delete done at once and each running test compiled. */
  function Immediate(script: seq<Command>, n: nat): (s: Store)
    requires n <= |script|
  {
    if n == 0 then map[]
    else
      var store := Immediate(script, n - 1);
      match script[n - 1]
      case CreateLib(_) => store
      case DeleteLib(lib) => store - {lib}
      case Test(lib, source, compiles, runs) => if runs then Compile(store, lib, source, compiles) else store
  }

  /** The libraries created by the first n commands, in order. */
  function Created(script: seq<Command>, n: nat): (libs: seq<string>)
    requires n <= |script|
  {
    if n == 0 then []
    else Created(script, n - 1) + if script[n - 1].CreateLib? then [script[n - 1].lib] else []
  }

  function Without(libs: seq<string>, lib: string): (rest: seq<string>)
  {
    if |libs| == 0 then []
    else
      var last := |libs| - 1;
      Without(libs[..last], lib) + if libs[last] != lib then [libs[last]] else []
  }

  /** The sources a library holds: those of the tests that ran and compiled into it since it was last deleted. */
  function Sources(script: seq<Command>, lib: string, n: nat): (s: seq<string>)
    requires n <= |script|
  {
    if n == 0 || script[n - 1] == DeleteLib(lib) then []
    else
      Sources(script, lib, n - 1)
      + if script[n - 1].Test? && script[n - 1].lib == lib && script[n - 1].runs && script[n - 1].compiles
        then [script[n - 1].source] else []
  }

  /** A library is there exactly when a test has run for it since it was last deleted. */
  ghost predicate Present(script: seq<Command>, lib: string, n: nat)
    requires n <= |script|
  {
    exists m :: 0 <= m < n && script[m].Test? && script[m].lib == lib && script[m].runs
      && forall k :: m < k < n ==> script[k] != DeleteLib(lib)
  }

  lemma {:induction false} ImmediateIs(script: seq<Command>, lib: string, n: nat)
    requires n <= |script|
    ensures lib in Immediate(script, n) <==> Present(script, lib, n)
    ensures lib in Immediate(script, n) ==> Immediate(script, n)[lib] == Sources(script, lib, n)
    ensures lib !in Immediate(script, n) ==> Sources(script, lib, n) == []
  {
    if n > 0 {
      ImmediateIs(script, lib, n - 1);
      PresentNext(script, lib, n - 1);
    }
  }

  lemma PresentNext(script: seq<Command>, lib: string, n: nat)
    requires n < |script|
    ensures Present(script, lib, n + 1)
       <==> script[n] != DeleteLib(lib)
            && (Present(script, lib, n) || (script[n].Test? && script[n].lib == lib && script[n].runs))
  {
    if m :| 0 <= m < n && script[m].Test? && script[m].lib == lib && script[m].runs
            && forall k :: m < k < n ==> script[k] != DeleteLib(lib) {
      assert script[n] != DeleteLib(lib) ==> forall k :: m < k < n + 1 ==> script[k] != DeleteLib(lib);
    }
  }

  // ----- the generated cases -----

  /** One case: libraries to delete first, then one compilation. */
  datatype Case = Case(
    deletes: seq<string>, search: seq<string>, lib: string, source: string, compiles: bool, runs: bool)

  /** The libraries that a test before command n names and no delete since. */
  function Touched(script: seq<Command>, n: nat): (libs: set<string>)
    requires n <= |script|
  {
    if n == 0 then {}
    else
      match script[n - 1]
      case CreateLib(_) => Touched(script, n - 1)
      case DeleteLib(lib) => Touched(script, n - 1) - {lib}
      case Test(lib, _, _, _) => Touched(script, n - 1) + {lib}
  }

  /** The deletes of touched libraries since the last test. */
  function Waiting(script: seq<Command>, n: nat): (libs: seq<string>)
    requires n <= |script|
  {
    if n == 0 then []
    else
      match script[n - 1]
      case CreateLib(_) => Waiting(script, n - 1)
      case DeleteLib(lib) => Waiting(script, n - 1) + if lib in Touched(script, n - 1) then [lib] else []
      case Test(_, _, _, _) => []
  }

  function CaseOf(script: seq<Command>, n: nat): (c: Case)
    requires n < |script| && script[n].Test?
  {
    var Test(lib, source, compiles, runs) := script[n];
    Case(Waiting(script, n), Without(Created(script, n), lib), lib, source, compiles, runs)
  }

  /** The cases of the first n commands: one for every test, in order. */
  function CasesOf(script: seq<Command>, n: nat): (cases: seq<Case>)
    requires n <= |script|
  {
    if n == 0 then []
    else CasesOf(script, n - 1) + if script[n - 1].Test? then [CaseOf(script, n - 1)] else []
  }

  lemma {:induction false} CasesGrow(script: seq<Command>, m: nat, n: nat)
    requires m <= n <= |script|
    ensures CasesOf(script, m) <= CasesOf(script, n)
  {
    if m < n { CasesGrow(script, m, n - 1); }
  }

  /** The libraries created are those the create commands name, in order. */
  lemma {:induction false} CreatedIs(script: seq<Command>, n: nat)
    requires n <= |script|
    ensures var at := PlacesOf((i: nat) => i < |script| && script[i].CreateLib?, n);
      |Created(script, n)| == |at|
      && forall j :: 0 <= j < |at| ==> at[j] < n && script[at[j]] == CreateLib(Created(script, n)[j])
  {
    if n > 0 { CreatedIs(script, n - 1); }
  }

  /** A case searches the libraries created before it, all but its own, in order. */
  lemma {:induction false} WithoutIs(libs: seq<string>, lib: string, n: nat)
    requires n <= |libs|
    ensures var at := PlacesOf((i: nat) => i < |libs| && libs[i] != lib, n);
      |Without(libs[..n], lib)| == |at|
      && forall j :: 0 <= j < |at| ==> at[j] < n && Without(libs[..n], lib)[j] == libs[at[j]]
  {
    if n > 0 {
      WithoutIs(libs, lib, n - 1);
      assert libs[..n][..n - 1] == libs[..n - 1];
    }
  }

  // ----- running the chain -----

  /** Deleting a library that is not there is an error. */
  function DeleteAll(store: Store, libs: seq<string>): (s: Option<Store>)
  {
    if |libs| == 0 then Some(store)
    else if libs[0] !in store then None
    else DeleteAll(store - {libs[0]}, libs[1..])
  }

  /** The libraries after the cases that run, or None when a delete failed. */
  function Run(cases: seq<Case>): (s: Option<Store>)
    decreases |cases|, 0
  {
    if |cases| == 0 then Some(map[])
    else
      var last := |cases| - 1;
      var c := cases[last];
      if !c.runs then Run(cases[..last])
      else
        var seen := Seen(cases, last);
        if seen.None? then None else Some(Compile(seen.value, c.lib, c.source, c.compiles))
  }

  /** The libraries the compilation of case i sees. */
  function Seen(cases: seq<Case>, i: nat): (s: Option<Store>)
    requires i < |cases|
    decreases i, 1
  {
    var before := Run(cases[..i]);
    if before.None? then None else DeleteAll(before.value, cases[i].deletes)
  }

  predicate Distinct(libs: seq<string>)
  {
    forall i, j :: 0 <= i < j < |libs| ==> libs[i] != libs[j]
  }

  function Elements(libs: seq<string>): (s: set<string>)
  {
    set l | l in libs
  }

  /** Deleting succeeds exactly for distinct libraries that are all there, and removes just them. */
  lemma {:induction false} DeleteAllSucceeds(store: Store, libs: seq<string>)
    ensures DeleteAll(store, libs).Some? <==> Distinct(libs) && Elements(libs) <= store.Keys
    ensures DeleteAll(store, libs).Some? ==> DeleteAll(store, libs).value == store - Elements(libs)
  {
    if |libs| > 0 {
      var rest := libs[1..];
      assert Elements(libs) == {libs[0]} + Elements(rest);
      DeleteAllSucceeds(store - {libs[0]}, rest);
      assert store - {libs[0]} - Elements(rest) == store - Elements(libs);
      if Distinct(libs) { assert libs[0] !in rest; }
      if libs[0] !in rest && Distinct(rest) { assert Distinct(libs); }
    } else {
      assert store - Elements(libs) == store;
    }
  }

  // ----- when the chain has the libraries of the script -----

  predicate RunsAt(script: seq<Command>, n: nat)
    requires n < |script|
  {
    script[n].Test? && script[n].runs
  }

  /** The number of commands up to and including the last test before n that runs; 0 if there is none. */
  function LastRun(script: seq<Command>, n: nat): (m: nat)
    requires n <= |script|
    ensures m <= n
  {
    if n == 0 then 0 else if RunsAt(script, n - 1) then n else LastRun(script, n - 1)
  }

  /**
   * The deletes that wait at command n are those of the libraries that are
   * gone from the script since the last test that ran.
   */
  predicate Settled(script: seq<Command>, n: nat)
    requires n <= |script|
  {
    Elements(Waiting(script, n)) == Immediate(script, LastRun(script, n)).Keys - Immediate(script, n).Keys
  }

  /** The case of command n is the next one, and its compilation sees the script's libraries. */
  ghost predicate SeesScript(script: seq<Command>, cases: seq<Case>, n: nat)
    requires n < |script| && script[n].Test?
  {
    var i := |CasesOf(script, n)|;
    i < |cases| && cases[i] == CaseOf(script, n) && Seen(cases, i) == Some(Immediate(script, n))
  }

  lemma {:induction false} WaitingIsDistinct(script: seq<Command>, n: nat)
    requires n <= |script|
    ensures Distinct(Waiting(script, n)) && Elements(Waiting(script, n)) !! Touched(script, n)
  {
    if n > 0 { WaitingIsDistinct(script, n - 1); }
  }

  /** Since the last test that ran, the script only lost libraries. */
  lemma {:induction false} OnlyDeletesSince(script: seq<Command>, n: nat)
    requires n <= |script|
    ensures var was, now := Immediate(script, LastRun(script, n)), Immediate(script, n);
      now.Keys <= was.Keys && forall l :: l in now ==> now[l] == was[l]
  {
    if n > 0 && !RunsAt(script, n - 1) { OnlyDeletesSince(script, n - 1); }
  }

  /** Cases that do not run leave everything as it is. */
  lemma {:induction false} QuietSince(script: seq<Command>, n: nat)
    requires n <= |script|
    ensures Run(CasesOf(script, n)) == Run(CasesOf(script, LastRun(script, n)))
  {
    if n > 0 && !RunsAt(script, n - 1) {
      QuietSince(script, n - 1);
      var cases := CasesOf(script, n);
      if script[n - 1].Test? {
        assert cases[..|cases| - 1] == CasesOf(script, n - 1);
      } else {
        assert cases == CasesOf(script, n - 1);
      }
    }
  }

  /** Seeing a case depends only on the cases up to it. */
  lemma SeenInFull(script: seq<Command>, n: nat)
    requires n < |script| && script[n].Test?
    ensures var i, cases := |CasesOf(script, n)|, CasesOf(script, |script|);
      && i < |cases| && cases[i] == CaseOf(script, n) && cases[..i] == CasesOf(script, n)
      && CasesOf(script, n + 1)[..i] == CasesOf(script, n)
      && Seen(cases, i) == Seen(CasesOf(script, n + 1), i)
  {
    CasesGrow(script, n, |script|);
    CasesGrow(script, n + 1, |script|);
    assert CasesOf(script, n + 1) == CasesOf(script, n) + [CaseOf(script, n)];
  }

  /** If the last test that ran saw the script's libraries, they are now on disk. */
  lemma OnDisk(script: seq<Command>, n: nat)
    requires n <= |script|
    requires var m := LastRun(script, n);
      m > 0 ==> RunsAt(script, m - 1) && SeesScript(script, CasesOf(script, |script|), m - 1)
    ensures Run(CasesOf(script, n)) == Some(Immediate(script, LastRun(script, n)))
  {
    QuietSince(script, n);
    var m := LastRun(script, n);
    if m > 0 { SeenInFull(script, m - 1); }
  }

  lemma {:induction false} LastRunRuns(script: seq<Command>, n: nat)
    requires n <= |script|
    ensures LastRun(script, n) > 0 ==> RunsAt(script, LastRun(script, n) - 1)
  {
    if n > 0 && !RunsAt(script, n - 1) { LastRunRuns(script, n - 1); }
  }

  /** With the script's libraries on disk, a test sees them exactly when its waiting deletes are the right ones. */
  lemma SeesExactlyIfSettled(script: seq<Command>, n: nat)
    requires n < |script| && RunsAt(script, n)
    requires Run(CasesOf(script, n)) == Some(Immediate(script, LastRun(script, n)))
    ensures SeesScript(script, CasesOf(script, |script|), n) <==> Settled(script, n)
  {
    var was, now, libs := Immediate(script, LastRun(script, n)), Immediate(script, n), Waiting(script, n);
    SeenInFull(script, n);
    WaitingIsDistinct(script, n);
    OnlyDeletesSince(script, n);
    DeleteAllSucceeds(was, libs);
    assert (was - Elements(libs)).Keys == was.Keys - Elements(libs);
    if Settled(script, n) {
      assert was - Elements(libs) == now;
    }
  }

  ghost predicate AllSettled(script: seq<Command>, n: nat)
    requires n <= |script|
  {
    forall m :: 0 <= m < n && RunsAt(script, m) ==> Settled(script, m)
  }

  ghost predicate AllSee(script: seq<Command>, cases: seq<Case>, n: nat)
    requires n <= |script|
  {
    forall m :: 0 <= m < n && RunsAt(script, m) ==> SeesScript(script, cases, m)
  }

  lemma AllSettledNext(script: seq<Command>, n: nat)
    requires n < |script|
    ensures AllSettled(script, n + 1) <==> AllSettled(script, n) && (RunsAt(script, n) ==> Settled(script, n))
  {
  }

  lemma AllSeeNext(script: seq<Command>, cases: seq<Case>, n: nat)
    requires n < |script|
    ensures AllSee(script, cases, n + 1) <==> AllSee(script, cases, n) && (RunsAt(script, n) ==> SeesScript(script, cases, n))
  {
  }

  /** If every test before it saw the script's libraries, a test sees them exactly when it is settled. */
  lemma NextSeesExactly(script: seq<Command>, n: nat)
    requires n < |script| && RunsAt(script, n) && AllSee(script, CasesOf(script, |script|), n)
    ensures SeesScript(script, CasesOf(script, |script|), n) <==> Settled(script, n)
  {
    LastRunRuns(script, n);
    OnDisk(script, n);
    SeesExactlyIfSettled(script, n);
  }

  /** Every test that runs sees the script's libraries exactly when all waiting deletes are the right ones. */
  lemma SeesExactly(script: seq<Command>, n: nat)
    requires n <= |script|
    ensures AllSee(script, CasesOf(script, |script|), n) <==> AllSettled(script, n)
  {
    CasesSeeExactly(script, CasesOf(script, |script|), n);
  }

  lemma {:induction false} CasesSeeExactly(script: seq<Command>, cases: seq<Case>, n: nat)
    requires n <= |script| && cases == CasesOf(script, |script|)
    ensures AllSee(script, cases, n) <==> AllSettled(script, n)
  {
    if n > 0 {
      CasesSeeExactly(script, cases, n - 1);
      AllSettledNext(script, n - 1);
      AllSeeNext(script, cases, n - 1);
      if AllSee(script, cases, n - 1) && RunsAt(script, n - 1) { NextSeesExactly(script, n - 1); }
    }
  }

  ghost predicate AllRun(script: seq<Command>, n: nat)
    requires n <= |script|
  {
    forall m :: 0 <= m < n && script[m].Test? ==> script[m].runs
  }

  /** While every test runs, the waiting deletes are always the right ones. */
  lemma {:induction false} RunningIsSettled(script: seq<Command>, n: nat)
    requires n <= |script| && AllRun(script, n)
    ensures Settled(script, n) && Immediate(script, n).Keys == Touched(script, n)
  {
    if n > 0 {
      RunningIsSettled(script, n - 1);
      OnlyDeletesSince(script, n - 1);
      if script[n - 1].DeleteLib? {
        var lib, libs := script[n - 1].lib, Waiting(script, n - 1);
        assert Elements(libs + [lib]) == Elements(libs) + {lib};
        assert libs + [] == libs;
      }
    }
  }

  /**
   * Turns a script into cases. If every test runs in the chain, each sees just
   * the libraries the script would have left at that point, whether or not
   * compilations fail. In general they all do exactly when, at every test that
   * runs, the deletes that wait are the right ones.
   */
  method Cases(script: seq<Command>) returns (cases: seq<Case>)
    ensures cases == CasesOf(script, |script|)
    ensures AllRun(script, |script|) ==> AllSee(script, cases, |script|)
    ensures AllSee(script, cases, |script|) <==> AllSettled(script, |script|)
  {
    cases := [];
    var libraries: seq<string> := [];
    var compiled: set<string> := {};
    var pending: seq<string> := [];
    for n := 0 to |script|
      invariant libraries == Created(script, n) && compiled == Touched(script, n)
      invariant pending == Waiting(script, n) && cases == CasesOf(script, n)
    {
      match script[n] {
        case CreateLib(lib) =>
          libraries := libraries + [lib];
        case DeleteLib(lib) =>
          if lib in compiled {
            compiled := compiled - {lib};
            pending := pending + [lib];
          }
        case Test(lib, source, compiles, runs) =>
          var search := Others(libraries, lib);
          cases := cases + [Case(pending, search, lib, source, compiles, runs)];
          pending := [];
          compiled := compiled + {lib};
      }
    }
    SeesExactly(script, |script|);
    if AllRun(script, |script|) { RunningIsAllSettled(script); }
  }

  /** The search libraries of one case. */
  method Others(libraries: seq<string>, library: string) returns (search: seq<string>)
    ensures search == Without(libraries, library)
  {
    search := [];
    for i := 0 to |libraries|
      invariant search == Without(libraries[..i], library)
    {
      assert libraries[..i + 1][..i] == libraries[..i];
      if libraries[i] != library { search := search + [libraries[i]]; }
    }
    assert libraries[..|libraries|] == libraries;
  }

  lemma RunningIsAllSettled(script: seq<Command>)
    requires AllRun(script, |script|)
    ensures AllSettled(script, |script|)
  {
    forall m | 0 <= m < |script| && RunsAt(script, m)
      ensures Settled(script, m)
    {
      RunningIsSettled(script, m);
    }
  }

  // ----- scripts with a test that does not run -----

  /** A delete that waits for a test which does not run is never done: the next test still sees the library. */
  lemma DeleteIsLost(lib: string, a: string, other: string, b: string, c: string)
    requires lib != other
    ensures var script := [Test(lib, a, true, true), DeleteLib(lib), Test(other, b, true, false), Test(other, c, true, true)];
      !Settled(script, 3) && !AllSee(script, CasesOf(script, 4), 4)
  {
    var script := [Test(lib, a, true, true), DeleteLib(lib), Test(other, b, true, false), Test(other, c, true, true)];
    assert Immediate(script, 0) == map[] && [] + [a] == [a];
    assert Immediate(script, 1) == Compile(map[], lib, a, true) == map[lib := [a]];
    assert Immediate(script, 2) == map[];
    assert Immediate(script, 3) == map[];
    assert LastRun(script, 1) == 1;
    assert LastRun(script, 2) == 1;
    assert LastRun(script, 3) == 1;
    assert lib in Immediate(script, 1).Keys - Immediate(script, 3).Keys;
    assert Waiting(script, 3) == [];
    assert RunsAt(script, 3);
    SeesExactly(script, 4);
  }

  /** A library that only a test which does not run was to fill is deleted all the same, which fails. */
  lemma DeleteFails(lib: string, a: string, other: string, b: string)
    ensures var script := [Test(lib, a, true, false), DeleteLib(lib), Test(other, b, true, true)];
      !Settled(script, 2) && !AllSee(script, CasesOf(script, 3), 3)
  {
    var script := [Test(lib, a, true, false), DeleteLib(lib), Test(other, b, true, true)];
    assert Immediate(script, 1) == map[];
    assert Immediate(script, 2) == map[];
    assert LastRun(script, 1) == 0;
    assert LastRun(script, 2) == 0;
    assert Touched(script, 1) == {lib};
    assert Waiting(script, 1) == [];
    assert Waiting(script, 2) == [lib];
    assert lib in Elements(Waiting(script, 2));
    assert RunsAt(script, 2);
    SeesExactly(script, 3);
  }
}
