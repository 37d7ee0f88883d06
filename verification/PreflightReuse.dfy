/**
 * Reusing the evidence of an earlier preflight: proofs published after a
 * campaign, and the check that decides whether saved evidence may stand in for
 * a fresh run.
 */
module PreflightReuse {
  import opened Common

  datatype Digest = Digest(text: string)

  /** Everything a preflight depends on, after path normalisation. */
  datatype Identity = Identity(text: string)

  /** What the stimulus of a run comes to: its raw records and their canonical form. */
  datatype Transcript = Transcript(raw: seq<string>, canonical: string)

  datatype Phase = Phase(returncode: int, stdout: Path, stderr: Path)

  datatype Result = Result(
    engine: string, case_: string, configuration: string, preflight: bool, validationError: bool,
    compile: seq<Phase>, elaborate: Phase, simulate: Phase, raw: Path, canonical: Path)
  {
    function Phases(): (ps: seq<Phase>)
    {
      compile + [elaborate, simulate]
    }
  }

  datatype FileProof = FileProof(path: Path, digest: Digest)

  datatype Receipt = Receipt(supported: bool, identity: Identity, report: Digest, files: seq<FileProof>)

  /** What a file holds, as its reader decodes it. */
  datatype Content =
    | Log(text: string)
    | RawRecords(records: seq<string>)
    | CanonicalForm(form: string)
    | Saved(result: Result)
    | Report(passedPreflight: bool, identitiesUnchanged: bool, details: string)
    | Proof(receipt: Receipt)

  /** Files by resolved path. */
  type Disk = map<Path, Content>

  /** Where a campaign keeps the files of one case and engine. */
  datatype Place = Place(proof: Path, report: Path, result: Path)

  /**
   * The hash, path resolution, the scan for reported errors, and the
   * correctness check that turns a run's output into its transcript.
   */
  datatype World = World(
    hash: Content -> Digest, resolve: Path -> Path, order: set<Path> -> seq<Path>,
    reportsError: seq<string> -> bool, verify: seq<string> -> Option<Transcript>)
  {
    /** No two contents share a hash; resolving is stable; sorting lists every path. */
    ghost predicate Ideal()
    {
      && (forall a, b :: hash(a) == hash(b) ==> a == b)
      && (forall p :: resolve(resolve(p)) == resolve(p))
      && (forall ps, p :: p in order(ps) <==> p in ps)
    }

    function Read(disk: Disk, p: Path): (c: Option<Content>)
    {
      if resolve(p) in disk then Some(disk[resolve(p)]) else None
    }

    // ----- the evidence of a result -----

    function LogPaths(r: Result): (ps: set<Path>)
    {
      (set i | 0 <= i < |r.Phases()| :: r.Phases()[i].stdout) + (set i | 0 <= i < |r.Phases()| :: r.Phases()[i].stderr)
    }

    /** The result file, both transcripts and every phase log. */
    function Evidence(place: Place, r: Result): (ps: set<Path>)
    {
      {place.result, r.raw, r.canonical} + LogPaths(r)
    }

    function Resolved(ps: set<Path>): (rs: set<Path>)
    {
      set p | p in ps :: resolve(p)
    }

    predicate AllLogs(disk: Disk, ps: seq<Path>)
    {
      forall i :: 0 <= i < |ps| ==> Read(disk, ps[i]).Some? && Read(disk, ps[i]).value.Log?
    }

    /** The run's output: every phase's standard output, then every error output. */
    function Outputs(r: Result): (ps: seq<Path>)
    {
      seq(|r.Phases()|, i requires 0 <= i < |r.Phases()| => r.Phases()[i].stdout)
      + seq(|r.Phases()|, i requires 0 <= i < |r.Phases()| => r.Phases()[i].stderr)
    }

    function Texts(disk: Disk, ps: seq<Path>): (ts: seq<string>)
      requires AllLogs(disk, ps)
    {
      seq(|ps|, i requires 0 <= i < |ps| => Read(disk, ps[i]).value.text)
    }

    /** The evidence, file by file: every phase of a run left two logs. */
    lemma EvidenceIs(place: Place, r: Result, p: Path)
      ensures p in Evidence(place, r)
         <==> p == place.result || p == r.raw || p == r.canonical
              || p == r.elaborate.stdout || p == r.elaborate.stderr || p == r.simulate.stdout || p == r.simulate.stderr
              || exists i :: 0 <= i < |r.compile| && (p == r.compile[i].stdout || p == r.compile[i].stderr)
    {
      var n := |r.compile|;
      assert forall i :: 0 <= i < n ==> r.Phases()[i] == r.compile[i];
      assert r.Phases()[n] == r.elaborate && r.Phases()[n + 1] == r.simulate && |r.Phases()| == n + 2;
    }

    /** The output that is checked again: all standard outputs in phase order, then all error outputs. */
    lemma OutputsAre(r: Result)
      ensures var n := |r.compile|;
        && |Outputs(r)| == 2 * n + 4
        && (forall i :: 0 <= i < n ==> Outputs(r)[i] == r.compile[i].stdout && Outputs(r)[n + 2 + i] == r.compile[i].stderr)
        && Outputs(r)[n] == r.elaborate.stdout && Outputs(r)[n + 1] == r.simulate.stdout
        && Outputs(r)[2 * n + 2] == r.elaborate.stderr && Outputs(r)[2 * n + 3] == r.simulate.stderr
    {
    }

    // ----- recording and publishing -----

    predicate AllPresent(disk: Disk, ps: set<Path>)
    {
      forall p :: p in ps ==> Read(disk, p).Some?
    }

    /** The proof of a result: its identity, the report's hash, and a hash for every evidence file. */
    function ReceiptFor(disk: Disk, place: Place, r: Result, identity: Identity): (receipt: Receipt)
      requires Ideal() && AllPresent(disk, Evidence(place, r)) && Read(disk, place.report).Some?
    {
      var ps := order(Evidence(place, r));
      Receipt(true, identity, hash(Read(disk, place.report).value),
        seq(|ps|, i requires 0 <= i < |ps| && ps[i] in Evidence(place, r) =>
          FileProof(resolve(ps[i]), hash(Read(disk, ps[i]).value))))
    }

    lemma ReceiptCovers(disk: Disk, place: Place, r: Result, identity: Identity, f: FileProof)
      requires Ideal() && AllPresent(disk, Evidence(place, r)) && Read(disk, place.report).Some?
      ensures f in ReceiptFor(disk, place, r, identity).files
         <==> exists p :: p in Evidence(place, r) && f == FileProof(resolve(p), hash(Read(disk, p).value))
    {
      var files := ReceiptFor(disk, place, r, identity).files;
      var ps := order(Evidence(place, r));
      assert |files| == |ps|;
      if f in files {
        var i :| 0 <= i < |files| && files[i] == f;
        assert ps[i] in ps && ps[i] in Evidence(place, r);
      }
      if p :| p in Evidence(place, r) && f == FileProof(resolve(p), hash(Read(disk, p).value)) {
        assert p in ps;
        var i :| 0 <= i < |ps| && ps[i] == p;
        assert files[i] == f;
      }
    }

    /** A report of a campaign that passed, whatever else it says. */
    predicate Passing(c: Content)
    {
      c.Report? && c.passedPreflight && c.identitiesUnchanged
    }

    /** A passed campaign's disk: the result checked out and its transcript was saved. */
    ghost predicate Recorded(disk: Disk, place: Place, r: Result)
    {
      && AllPresent(disk, Evidence(place, r))
      && Read(disk, place.report).Some? && Passing(Read(disk, place.report).value)
      && Read(disk, place.result) == Some(Saved(r))
      && r.preflight && !r.validationError && |r.compile| > 0
      && (forall i :: 0 <= i < |r.Phases()| ==> r.Phases()[i].returncode == 0)
      && AllLogs(disk, Outputs(r)) && !reportsError(Texts(disk, Outputs(r)))
      && verify(Texts(disk, Outputs(r))).Some?
      && Read(disk, r.raw) == Some(RawRecords(verify(Texts(disk, Outputs(r))).value.raw))
      && Read(disk, r.canonical) == Some(CanonicalForm(verify(Texts(disk, Outputs(r))).value.canonical))
    }

    lemma OutputsAreEvidence(place: Place, r: Result)
      ensures forall i :: 0 <= i < |Outputs(r)| ==> Outputs(r)[i] in Evidence(place, r)
    {
    }

    // ----- reuse -----

    predicate FilesMatch(disk: Disk, files: seq<FileProof>)
    {
      forall i :: 0 <= i < |files| ==>
        Read(disk, files[i].path).Some? && hash(Read(disk, files[i].path).value) == files[i].digest
    }

    function ProofPaths(files: seq<FileProof>): (ps: set<Path>)
    {
      set i | 0 <= i < |files| :: resolve(files[i].path)
    }

    /** The saved result, or None when a fresh preflight is required. */
    function Reuse(disk: Disk, place: Place, engine: string, case_: string, configuration: string, identity: Identity)
      : (r: Option<Result>)
    {
      var proof, report, saved := Read(disk, place.proof), Read(disk, place.report), Read(disk, place.result);
      if proof.None? || !proof.value.Proof? then None
      else
        var receipt := proof.value.receipt;
        if !receipt.supported || receipt.identity != identity || !FilesMatch(disk, receipt.files) then None
        else if report.None? || hash(report.value) != receipt.report || !Passing(report.value) then None
        else if saved.None? || !saved.value.Saved? then None
        else if !Accepts(disk, place, saved.value.result, receipt, engine, case_, configuration) then None
        else Some(saved.value.result)
    }

    /** The checks on the saved result, its coverage, and its reparsed output. */
    predicate Accepts(disk: Disk, place: Place, r: Result, receipt: Receipt,
                      engine: string, case_: string, configuration: string)
    {
      && !r.validationError && r.preflight
      && r.engine == engine && r.case_ == case_ && r.configuration == configuration
      && |r.compile| > 0 && (forall i :: 0 <= i < |r.Phases()| ==> r.Phases()[i].returncode == 0)
      && Resolved(Evidence(place, r)) == ProofPaths(receipt.files)
      && AllLogs(disk, Outputs(r)) && !reportsError(Texts(disk, Outputs(r)))
      && var t := verify(Texts(disk, Outputs(r)));
      && t.Some?
      && Read(disk, r.canonical) == Some(CanonicalForm(t.value.canonical))
      && Read(disk, r.raw) == Some(RawRecords(t.value.raw))
    }

    /** Every phase of the run ended well. */
    ghost predicate Succeeded(r: Result)
    {
      && |r.compile| > 0 && r.elaborate.returncode == 0 && r.simulate.returncode == 0
      && forall i :: 0 <= i < |r.compile| ==> r.compile[i].returncode == 0
    }

    /**
     * The proof on disk is of this identity and this report, and names exactly
     * the evidence of the result, each file with the hash it still has.
     */
    ghost predicate Proves(disk: Disk, place: Place, r: Result, identity: Identity, receipt: Receipt)
    {
      && Read(disk, place.proof) == Some(Proof(receipt)) && receipt.supported && receipt.identity == identity
      && Read(disk, place.report).Some? && receipt.report == hash(Read(disk, place.report).value)
      && Resolved(Evidence(place, r)) == ProofPaths(receipt.files)
      && (forall i :: 0 <= i < |receipt.files| ==>
            Read(disk, receipt.files[i].path).Some? && hash(Read(disk, receipt.files[i].path).value) == receipt.files[i].digest)
    }

    /** So every piece of evidence has an entry with the hash it still has. */
    lemma ProvedIntact(disk: Disk, place: Place, r: Result, identity: Identity, receipt: Receipt, p: Path) returns (i: nat)
      requires Ideal() && Proves(disk, place, r, identity, receipt) && p in Evidence(place, r)
      ensures i < |receipt.files| && Read(disk, p).Some? && hash(Read(disk, p).value) == receipt.files[i].digest
    {
      assert resolve(p) in Resolved(Evidence(place, r));
      i :| 0 <= i < |receipt.files| && resolve(receipt.files[i].path) == resolve(p);
    }

    /** What reuse has made sure of, on any disk whatever: nothing is taken on trust but the hashes. */
    lemma ReuseChecks(disk: Disk, place: Place, engine: string, case_: string, configuration: string,
                      identity: Identity, r: Result)
      requires Reuse(disk, place, engine, case_, configuration, identity) == Some(r)
      ensures Read(disk, place.result) == Some(Saved(r)) && Succeeded(r) && r.preflight && !r.validationError
      ensures r.engine == engine && r.case_ == case_ && r.configuration == configuration
      ensures Read(disk, place.report).Some? && Read(disk, place.report).value.Report?
      ensures Read(disk, place.report).value.passedPreflight && Read(disk, place.report).value.identitiesUnchanged
      ensures Read(disk, place.proof).Some? && Read(disk, place.proof).value.Proof?
      ensures Proves(disk, place, r, identity, Read(disk, place.proof).value.receipt)
      ensures AllLogs(disk, Outputs(r)) && !reportsError(Texts(disk, Outputs(r)))
      ensures var t := verify(Texts(disk, Outputs(r)));
        && t.Some? && Read(disk, r.raw) == Some(RawRecords(t.value.raw))
        && Read(disk, r.canonical) == Some(CanonicalForm(t.value.canonical))
    {
      var n := |r.compile|;
      assert forall i :: 0 <= i < n ==> r.Phases()[i] == r.compile[i];
      assert r.Phases()[n] == r.elaborate && r.Phases()[n + 1] == r.simulate;
    }

    // ----- soundness and completeness -----

    /** Two disks hold the same evidence and report. */
    ghost predicate SameEvidence(was: Disk, now: Disk, place: Place, r: Result)
    {
      && (forall p :: p in Evidence(place, r) ==> Read(now, p) == Read(was, p))
      && Read(now, place.report) == Read(was, place.report)
    }

    lemma MatchIsSame(was: Disk, now: Disk, place: Place, r: Result, identity: Identity, p: Path)
      requires Ideal() && AllPresent(was, Evidence(place, r)) && Read(was, place.report).Some?
      requires FilesMatch(now, ReceiptFor(was, place, r, identity).files) && p in Evidence(place, r)
      ensures Read(now, p) == Read(was, p)
    {
      var f := FileProof(resolve(p), hash(Read(was, p).value));
      ReceiptCovers(was, place, r, identity, f);
      var files := ReceiptFor(was, place, r, identity).files;
      var i :| 0 <= i < |files| && files[i] == f;
      assert resolve(resolve(p)) == resolve(p);
    }

    /**
     * Reuse succeeds after publishing exactly when the identity and the run
     * asked for are the published ones and no evidence changed; and it then
     * returns the recorded result.
     */
    lemma ReuseExactly(was: Disk, now: Disk, place: Place, r: Result, published: Identity,
                       engine: string, case_: string, configuration: string, identity: Identity)
      requires Ideal() && Recorded(was, place, r)
      requires Read(now, place.proof) == Some(Proof(ReceiptFor(was, place, r, published)))
      ensures Reuse(now, place, engine, case_, configuration, identity)
           == if identity == published && engine == r.engine && case_ == r.case_
                 && configuration == r.configuration && SameEvidence(was, now, place, r)
              then Some(r) else None
    {
      if Reuse(now, place, engine, case_, configuration, identity).Some? {
        ReuseIsSound(was, now, place, r, published, engine, case_, configuration, identity);
      } else if identity == published && engine == r.engine && case_ == r.case_
                && configuration == r.configuration && SameEvidence(was, now, place, r) {
        ReuseSucceeds(was, now, place, r, published);
      }
    }

    lemma ReuseIsSound(was: Disk, now: Disk, place: Place, r: Result, published: Identity,
                       engine: string, case_: string, configuration: string, identity: Identity)
      requires Ideal() && Recorded(was, place, r)
      requires Read(now, place.proof) == Some(Proof(ReceiptFor(was, place, r, published)))
      requires Reuse(now, place, engine, case_, configuration, identity).Some?
      ensures Reuse(now, place, engine, case_, configuration, identity) == Some(r)
      ensures identity == published && engine == r.engine && case_ == r.case_ && configuration == r.configuration
      ensures SameEvidence(was, now, place, r)
    {
      forall p | p in Evidence(place, r)
        ensures Read(now, p) == Read(was, p)
      {
        MatchIsSame(was, now, place, r, published, p);
      }
    }

    lemma ReuseSucceeds(was: Disk, now: Disk, place: Place, r: Result, identity: Identity)
      requires Ideal() && Recorded(was, place, r)
      requires Read(now, place.proof) == Some(Proof(ReceiptFor(was, place, r, identity)))
      requires SameEvidence(was, now, place, r)
      ensures Reuse(now, place, r.engine, r.case_, r.configuration, identity) == Some(r)
    {
      var receipt := ReceiptFor(was, place, r, identity);
      OutputsAreEvidence(place, r);
      forall i | 0 <= i < |receipt.files|
        ensures Read(now, receipt.files[i].path).Some?
        ensures hash(Read(now, receipt.files[i].path).value) == receipt.files[i].digest
      {
        var f := receipt.files[i];
        ReceiptCovers(was, place, r, identity, f);
        var p :| p in Evidence(place, r) && f == FileProof(resolve(p), hash(Read(was, p).value));
        assert resolve(resolve(p)) == resolve(p);
      }
      CoverageHolds(was, place, r, identity);
      assert Texts(now, Outputs(r)) == Texts(was, Outputs(r));
    }

    /** The receipt's paths are exactly the resolved evidence. */
    lemma CoverageHolds(disk: Disk, place: Place, r: Result, identity: Identity)
      requires Ideal() && AllPresent(disk, Evidence(place, r)) && Read(disk, place.report).Some?
      ensures Resolved(Evidence(place, r)) == ProofPaths(ReceiptFor(disk, place, r, identity).files)
    {
      var files := ReceiptFor(disk, place, r, identity).files;
      forall q
        ensures q in Resolved(Evidence(place, r)) <==> q in ProofPaths(files)
      {
        if q in Resolved(Evidence(place, r)) {
          var p :| p in Evidence(place, r) && q == resolve(p);
          var f := FileProof(resolve(p), hash(Read(disk, p).value));
          ReceiptCovers(disk, place, r, identity, f);
          var i :| 0 <= i < |files| && files[i] == f;
          assert resolve(files[i].path) == q;
        }
        if q in ProofPaths(files) {
          var i :| 0 <= i < |files| && q == resolve(files[i].path);
          ReceiptCovers(disk, place, r, identity, files[i]);
          var p :| p in Evidence(place, r) && files[i] == FileProof(resolve(p), hash(Read(disk, p).value));
          assert resolve(resolve(p)) == resolve(p);
        }
      }
    }

    // ----- a campaign end to end -----

    /** Saving a run's transcripts and result. */
    function SaveRun(disk: Disk, e: Entry, t: Transcript): (now: Disk)
    {
      disk[resolve(e.result.raw) := RawRecords(t.raw)]
          [resolve(e.result.canonical) := CanonicalForm(t.canonical)]
          [resolve(e.place.result) := Saved(e.result)]
    }

    /** Where that writes. */
    function Written(e: Entry): (ps: set<Path>)
    {
      {resolve(e.result.raw), resolve(e.result.canonical), resolve(e.place.result)}
    }

    /** The files a campaign writes are all different, and none is a log or the report. */
    ghost predicate Apart(entries: seq<Entry>, report: Path)
    {
      && (forall i :: 0 <= i < |entries| ==>
            && |Written(entries[i])| == 3 && resolve(entries[i].place.report) == resolve(report)
            && resolve(report) !in Written(entries[i]) && resolve(report) !in Resolved(LogPaths(entries[i].result)))
      && (forall i, j :: 0 <= i < |entries| && 0 <= j < |entries| ==>
            Written(entries[i]) !! Resolved(LogPaths(entries[j].result)))
      && (forall i, j :: 0 <= i < j < |entries| ==> Written(entries[i]) !! Written(entries[j]))
    }

    /** A preflight run that ended well and whose output gave this transcript. */
    ghost predicate CheckedOut(disk: Disk, r: Result, t: Transcript)
    {
      && r.preflight && !r.validationError && |r.compile| > 0
      && (forall i :: 0 <= i < |r.Phases()| ==> r.Phases()[i].returncode == 0)
      && AllLogs(disk, Outputs(r)) && !reportsError(Texts(disk, Outputs(r)))
      && verify(Texts(disk, Outputs(r))) == Some(t)
    }

    ghost predicate LogsKept(was: Disk, now: Disk, r: Result)
    {
      forall p :: p in LogPaths(r) ==> Read(now, p) == Read(was, p)
    }

    ghost predicate RunSaved(now: Disk, e: Entry, t: Transcript)
    {
      && Read(now, e.result.raw) == Some(RawRecords(t.raw))
      && Read(now, e.result.canonical) == Some(CanonicalForm(t.canonical))
      && Read(now, e.place.result) == Some(Saved(e.result))
    }

    /** A checked run, once saved under a passing report, is recorded. */
    lemma PersistRecords(disk: Disk, now: Disk, e: Entry, t: Transcript)
      requires CheckedOut(disk, e.result, t) && LogsKept(disk, now, e.result) && RunSaved(now, e, t)
      requires Read(now, e.place.report).Some? && Passing(Read(now, e.place.report).value)
      ensures Recorded(now, e.place, e.result)
    {
      var r := e.result;
      var n := |r.Phases()|;
      forall i | 0 <= i < |Outputs(r)|
        ensures Read(now, Outputs(r)[i]) == Read(disk, Outputs(r)[i])
      {
        assert Outputs(r)[i] in LogPaths(r);
      }
      forall p | p in LogPaths(r)
        ensures Read(now, p).Some?
      {
        if i :| 0 <= i < n && p == r.Phases()[i].stdout {
          assert Outputs(r)[i] == p;
        } else {
          var i :| 0 <= i < n && p == r.Phases()[i].stderr;
          assert Outputs(r)[n + i] == p;
        }
      }
      assert Texts(now, Outputs(r)) == Texts(disk, Outputs(r));
    }

    /** Writing anywhere but to an entry's files and logs leaves the entry as it is. */
    lemma WritingElsewhere(was: Disk, now: Disk, next: Disk, e: Entry, t: Transcript, places: set<Path>)
      requires forall q :: q !in places ==> (q in next <==> q in now) && (q in now ==> next[q] == now[q])
      ensures places !! Resolved(LogPaths(e.result)) && LogsKept(was, now, e.result) ==> LogsKept(was, next, e.result)
      ensures places !! Written(e) && RunSaved(now, e, t) ==> RunSaved(next, e, t)
    {
      if places !! Resolved(LogPaths(e.result)) && LogsKept(was, now, e.result) {
        forall p | p in LogPaths(e.result)
          ensures Read(next, p) == Read(was, p)
        {
          assert resolve(p) in Resolved(LogPaths(e.result));
        }
      }
      if places !! Written(e) && RunSaved(now, e, t) {
        assert resolve(e.result.raw) in Written(e) && resolve(e.result.canonical) in Written(e)
            && resolve(e.place.result) in Written(e);
      }
    }

    /** A run's three files are different, so each holds what was written to it. */
    lemma SavedHere(disk: Disk, e: Entry, t: Transcript)
      requires |Written(e)| == 3
      ensures RunSaved(SaveRun(disk, e, t), e, t)
    {
      var a, b, c := resolve(e.result.raw), resolve(e.result.canonical), resolve(e.place.result);
      assert a == b ==> Written(e) == {b, c};
      assert b == c ==> Written(e) == {a, c};
      assert a == c ==> Written(e) == {b, c};
    }

    /** All logs are as they were, and the first n runs are saved. */
    ghost predicate Saving(was: Disk, now: Disk, entries: seq<Entry>, ts: seq<Transcript>, n: nat)
      requires |ts| == |entries|
    {
      forall i :: 0 <= i < |entries| ==>
        LogsKept(was, now, entries[i].result) && (i < n ==> RunSaved(now, entries[i], ts[i]))
    }

    lemma SaveOne(was: Disk, now: Disk, entries: seq<Entry>, ts: seq<Transcript>, n: nat, report: Path)
      requires |ts| == |entries| && n < |entries| && Apart(entries, report) && Saving(was, now, entries, ts, n)
      ensures Saving(was, SaveRun(now, entries[n], ts[n]), entries, ts, n + 1)
    {
      var next := SaveRun(now, entries[n], ts[n]);
      SavedHere(now, entries[n], ts[n]);
      forall i | 0 <= i < |entries|
        ensures LogsKept(was, next, entries[i].result)
        ensures i < n + 1 ==> RunSaved(next, entries[i], ts[i])
      {
        WritingElsewhere(was, now, next, entries[i], ts[i], Written(entries[n]));
      }
    }

    /**
     * Saves every run of a campaign and then its report. Afterwards each run
     * is recorded: the reuse check would find its saved result and evidence.
     */
    method SaveCampaign(disk: Disk, entries: seq<Entry>, ts: seq<Transcript>, path: Path, report: Content)
      returns (now: Disk)
      requires |ts| == |entries| && Apart(entries, path) && Passing(report)
      requires forall i :: 0 <= i < |entries| ==> CheckedOut(disk, entries[i].result, ts[i])
      ensures forall i :: 0 <= i < |entries| ==> Recorded(now, entries[i].place, entries[i].result)
      ensures forall i :: 0 <= i < |entries| ==> Read(now, entries[i].place.report) == Some(report)
    {
      now := disk;
      for n := 0 to |entries|
        invariant Saving(disk, now, entries, ts, n)
      {
        SaveOne(disk, now, entries, ts, n, path);
        now := SaveRun(now, entries[n], ts[n]);
      }
      ghost var saved := now;
      now := now[resolve(path) := report];
      forall i | 0 <= i < |entries|
        ensures Recorded(now, entries[i].place, entries[i].result)
      {
        WritingElsewhere(disk, saved, now, entries[i], ts[i], {resolve(path)});
        PersistRecords(disk, now, entries[i], ts[i]);
      }
    }

    /**
     * A campaign end to end. Once its runs are saved and its proofs published,
     * a later campaign reuses a run exactly when it asks for that very run
     * under that very identity and finds the evidence and the report as they
     * were published.
     */
    lemma CampaignReuse(saved: Disk, published: Disk, later: Disk, e: Entry,
                        engine: string, case_: string, configuration: string, identity: Identity)
      requires Ideal() && Recorded(saved, e.place, e.result) && Published(saved, published, e)
      requires Read(later, e.place.proof) == Read(published, e.place.proof)
      ensures Reuse(later, e.place, engine, case_, configuration, identity)
           == if identity == e.identity && engine == e.result.engine && case_ == e.result.case_
                 && configuration == e.result.configuration && SameEvidence(published, later, e.place, e.result)
              then Some(e.result) else None
    {
      ReuseExactly(saved, later, e.place, e.result, e.identity, engine, case_, configuration, identity);
      assert SameEvidence(saved, later, e.place, e.result) <==> SameEvidence(published, later, e.place, e.result);
    }

    /** Proof files are apart from all evidence, and from each other. */
    ghost predicate Separate(entries: seq<Entry>)
    {
      && (forall i, j :: 0 <= i < j < |entries| ==> resolve(entries[i].place.proof) != resolve(entries[j].place.proof))
      && (forall i, j, p :: 0 <= i < |entries| && 0 <= j < |entries|
            && (p in Evidence(entries[j].place, entries[j].result) || p == entries[j].place.report)
            ==> resolve(p) != resolve(entries[i].place.proof))
    }

    ghost predicate Ready(disk: Disk, e: Entry)
    {
      AllPresent(disk, Evidence(e.place, e.result)) && Read(disk, e.place.report).Some?
    }

    /** The proof on disk is the one of what the disk held before. */
    ghost predicate Published(was: Disk, now: Disk, e: Entry)
      requires Ideal()
    {
      && Ready(was, e) && SameEvidence(was, now, e.place, e.result)
      && Read(now, e.place.proof) == Some(Proof(ReceiptFor(was, e.place, e.result, e.identity)))
    }

    lemma SameReceipt(was: Disk, now: Disk, e: Entry)
      requires Ideal() && Ready(was, e) && SameEvidence(was, now, e.place, e.result)
      ensures Ready(now, e)
      ensures ReceiptFor(now, e.place, e.result, e.identity) == ReceiptFor(was, e.place, e.result, e.identity)
    {
    }

    /** Writing one proof leaves the evidence of every result, and every other proof, alone. */
    lemma ProofIsApart(was: Disk, now: Disk, entries: seq<Entry>, n: nat, c: Content, i: nat)
      requires Ideal() && Separate(entries) && n < |entries| && i < |entries|
      requires SameEvidence(was, now, entries[i].place, entries[i].result)
      ensures var next := now[resolve(entries[n].place.proof) := c];
        && SameEvidence(was, next, entries[i].place, entries[i].result)
        && (i != n ==> Read(next, entries[i].place.proof) == Read(now, entries[i].place.proof))
    {
      var next := now[resolve(entries[n].place.proof) := c];
      forall p | p in Evidence(entries[i].place, entries[i].result) || p == entries[i].place.report
        ensures Read(next, p) == Read(was, p)
      {
        assert resolve(p) != resolve(entries[n].place.proof);
      }
    }

    /** The first n proofs are out and nothing else changed. */
    ghost predicate Progressed(was: Disk, now: Disk, entries: seq<Entry>, n: nat)
      requires Ideal()
    {
      forall i :: 0 <= i < |entries| ==>
        && SameEvidence(was, now, entries[i].place, entries[i].result)
        && (i < n ==> Published(was, now, entries[i]))
    }

    lemma PublishOne(was: Disk, now: Disk, entries: seq<Entry>, n: nat)
      requires Ideal() && Separate(entries) && n < |entries|
      requires Ready(was, entries[n]) && Progressed(was, now, entries, n)
      ensures Ready(now, entries[n])
      ensures var e := entries[n];
        Progressed(was, now[resolve(e.place.proof) := Proof(ReceiptFor(now, e.place, e.result, e.identity))],
                   entries, n + 1)
    {
      var e := entries[n];
      SameReceipt(was, now, e);
      var proof := Proof(ReceiptFor(now, e.place, e.result, e.identity));
      var next := now[resolve(e.place.proof) := proof];
      forall i | 0 <= i < |entries|
        ensures SameEvidence(was, next, entries[i].place, entries[i].result)
        ensures i < n + 1 ==> Published(was, next, entries[i])
      {
        ProofIsApart(was, now, entries, n, proof, i);
      }
    }

    /** Publishes the proof of every preflight result of a campaign. */
    method WriteProofs(disk: Disk, entries: seq<Entry>) returns (now: Disk)
      requires Ideal() && Separate(entries)
      requires forall i :: 0 <= i < |entries| ==> Ready(disk, entries[i])
      ensures forall i :: 0 <= i < |entries| ==> Published(disk, now, entries[i])
    {
      now := disk;
      for n := 0 to |entries|
        invariant Progressed(disk, now, entries, n)
      {
        PublishOne(disk, now, entries, n);
        var e := entries[n];
        now := now[resolve(e.place.proof) := Proof(ReceiptFor(now, e.place, e.result, e.identity))];
      }
    }
  }

  /** One preflight result of a campaign, with the identity it ran under. */
  datatype Entry = Entry(place: Place, result: Result, identity: Identity)
}
