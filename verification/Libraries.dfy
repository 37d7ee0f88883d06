/** Loading the library files a Verilog test uses without declaring them. */
module Libraries {
  import opened Common

  /** A scanned file: the design units it declares and the identifiers it mentions. */
  datatype Source = Source(units: set<string>, identifiers: seq<string>)

  /** The directory searched, and the candidate file for a name and an extension. */
  datatype Library = Library(
    files: map<Path, Source>, candidate: (string, string) -> Path, extensions: seq<string>, top: Path)
  {
    /** A file that cannot be read scans as empty text. */
    function Scan(p: Path): (s: Source)
    {
      if p in files then files[p] else Source({}, [])
    }

    function Candidate(name: string, j: nat): (p: Path)
      requires j < |extensions|
    {
      candidate(name, extensions[j])
    }

    /** A candidate the search passes over. */
    predicate Skipped(p: Path, loaded: seq<Path>)
    {
      p == top || p in loaded || p !in files
    }

    /** A candidate that may be loaded for a name: it declares it, and no module t. */
    predicate Usable(p: Path, name: string)
    {
      name in Scan(p).units && "t" !in Scan(p).units
    }

    /** Candidate j is the first that the search does not pass over. */
    ghost predicate Decides(name: string, j: nat, loaded: seq<Path>)
    {
      && j < |extensions| && !Skipped(Candidate(name, j), loaded)
      && forall i :: 0 <= i < j ==> Skipped(Candidate(name, i), loaded)
    }

    /** The first candidate not passed over, if any, is not usable. */
    ghost predicate Unavailable(name: string, loaded: seq<Path>)
    {
      exists j :: 0 <= j <= |extensions| && StopsAt(name, loaded, j)
    }

    ghost predicate StopsAt(name: string, loaded: seq<Path>, j: nat)
    {
      && j <= |extensions|
      && (forall i :: 0 <= i < j ==> Skipped(Candidate(name, i), loaded))
      && (j < |extensions| ==>
            var p := Candidate(name, j); p in files && p != top && !Usable(p, name))
    }

    /** An identifier needs no further file. */
    ghost predicate Settled(name: string, declared: set<string>, loaded: seq<Path>)
    {
      name in declared || |name| > 100 || Unavailable(name, loaded)
    }

    ghost predicate AllSettled(p: Path, declared: set<string>, loaded: seq<Path>)
    {
      forall i :: 0 <= i < |Scan(p).identifiers| ==> Settled(Scan(p).identifiers[i], declared, loaded)
    }

    /** A file was loaded for an identifier of the top file or of a file loaded before it. */
    ghost predicate Wanted(loaded: seq<Path>, i: nat)
      requires i < |loaded|
    {
      exists user, name, j: nat ::
        && (user == top || user in loaded[..i])
        && name in Scan(user).identifiers && |name| <= 100
        && Decides(name, j, loaded[..i]) && loaded[i] == Candidate(name, j) && Usable(loaded[i], name)
    }

    /** Only real library files are loaded, once each, and each for a reason. */
    ghost predicate WellLoaded(loaded: seq<Path>)
    {
      && (forall i, j :: 0 <= i < j < |loaded| ==> loaded[i] != loaded[j])
      && (forall i :: 0 <= i < |loaded| ==> loaded[i] in files && loaded[i] != top)
      && (forall i :: 0 <= i < |loaded| ==> "t" !in Scan(loaded[i]).units)
      && (forall i :: 0 <= i < |loaded| ==> Wanted(loaded, i))
    }

    /** The units of the top file, once scanned, and of every loaded file. */
    ghost function Declared(scannedTop: bool, loaded: seq<Path>): (d: set<string>)
    {
      (if scannedTop then Scan(top).units else {}) + (set i, u | 0 <= i < |loaded| && u in Scan(loaded[i]).units :: u)
    }

    lemma DeclaredExtends(scannedTop: bool, loaded: seq<Path>, p: Path)
      ensures Declared(scannedTop, loaded + [p]) == Declared(scannedTop, loaded) + Scan(p).units
    {
      var more := loaded + [p];
      assert more[|loaded|] == p;
      assert forall i :: 0 <= i < |loaded| ==> more[i] == loaded[i];
    }

    lemma SettledMonotone(name: string, d: set<string>, e: set<string>, a: seq<Path>, b: seq<Path>)
      requires Settled(name, d, a) && d <= e && a <= b
      ensures Settled(name, e, b)
    {
      if Unavailable(name, a) {
        var j :| 0 <= j <= |extensions| && StopsAt(name, a, j);
        assert StopsAt(name, b, j);
      }
    }

    lemma WantedExtends(loaded: seq<Path>, p: Path)
      requires forall i :: 0 <= i < |loaded| ==> Wanted(loaded, i)
      requires Wanted(loaded + [p], |loaded|)
      ensures forall i :: 0 <= i < |loaded| + 1 ==> Wanted(loaded + [p], i)
    {
      forall i | 0 <= i < |loaded|
        ensures Wanted(loaded + [p], i)
      {
        assert Wanted(loaded, i);
        assert (loaded + [p])[..i] == loaded[..i];
      }
    }

    /** Looks one undeclared name up, by extension. */
    method Lookup(name: string, loaded: seq<Path>) returns (found: bool, p: Path, ghost j: nat)
      ensures found ==> Decides(name, j, loaded) && p == Candidate(name, j) && Usable(p, name)
      ensures !found ==> Unavailable(name, loaded)
    {
      found, p, j := false, top, 0;
      for n := 0 to |extensions|
        invariant forall i :: 0 <= i < n ==> Skipped(Candidate(name, i), loaded)
      {
        p, j := candidate(name, extensions[n]), n;
        if p != top && p !in loaded && p in files {
          found := name in files[p].units && "t" !in files[p].units;
          assert !found ==> StopsAt(name, loaded, n);
          return;
        }
      }
      assert StopsAt(name, loaded, |extensions|);
    }

    /** Everything scanned but not pending is settled. */
    ghost predicate Progress(loaded: seq<Path>, pending: seq<Path>, declared: set<string>, current: set<Path>)
    {
      && WellLoaded(loaded)
      && (forall p :: p in pending ==> p == top || p in loaded)
      && (forall p :: (p == top || p in loaded) && p !in pending && p !in current
            ==> AllSettled(p, declared, loaded))
    }

    lemma LoadOne(loaded: seq<Path>, pending: seq<Path>, declared: set<string>, current: Path, p: Path,
                  name: string, j: nat)
      requires Progress(loaded, pending, declared, {current}) && (current == top || current in loaded)
      requires name in Scan(current).identifiers && |name| <= 100
      requires Decides(name, j, loaded) && p == Candidate(name, j) && Usable(p, name)
      ensures Progress(loaded + [p], pending + [p], declared + Scan(p).units, {current})
    {
      var more := loaded + [p];
      assert more[..|loaded|] == loaded;
      assert Wanted(more, |loaded|);
      WantedExtends(loaded, p);
      forall q | (q == top || q in more) && q !in pending + [p] && q !in {current}
        ensures AllSettled(q, declared + Scan(p).units, more)
      {
        SettledLater(q, declared, declared + Scan(p).units, loaded, more);
      }
    }

    lemma SettledLater(q: Path, d: set<string>, e: set<string>, a: seq<Path>, b: seq<Path>)
      requires AllSettled(q, d, a) && d <= e && a <= b
      ensures AllSettled(q, e, b)
    {
      forall i | 0 <= i < |Scan(q).identifiers|
        ensures Settled(Scan(q).identifiers[i], e, b)
      {
        SettledMonotone(Scan(q).identifiers[i], d, e, a, b);
      }
    }

    /** Settles every identifier of one file, loading what it needs. */
    method ScanFile(current: Path, loaded0: seq<Path>, pending0: seq<Path>, declared0: set<string>)
      returns (loaded: seq<Path>, pending: seq<Path>, declared: set<string>)
      requires current == top || current in loaded0
      requires Progress(loaded0, pending0, declared0, {current}) && declared0 == Declared(true, loaded0)
      ensures Progress(loaded, pending, declared, {}) && declared == Declared(true, loaded)
      ensures loaded0 <= loaded && (loaded == loaded0 ==> pending == pending0)
    {
      loaded, pending, declared := loaded0, pending0, declared0;
      var names := Scan(current).identifiers;
      for n := 0 to |names|
        invariant Progress(loaded, pending, declared, {current}) && declared == Declared(true, loaded)
        invariant loaded0 <= loaded && (loaded == loaded0 ==> pending == pending0)
        invariant forall i :: 0 <= i < n ==> Settled(names[i], declared, loaded)
      {
        var name := names[n];
        if name !in declared && |name| <= 100 {
          var found, p, j := Lookup(name, loaded);
          if found {
            LoadOne(loaded, pending, declared, current, p, name, j);
            DeclaredExtends(true, loaded, p);
            ghost var d, l := declared, loaded;
            loaded := loaded + [p];
            pending := pending + [p];
            declared := declared + Scan(p).units;
            forall i | 0 <= i < n
              ensures Settled(names[i], declared, loaded)
            {
              SettledMonotone(names[i], d, declared, l, loaded);
            }
          }
        }
      }
      assert AllSettled(current, declared, loaded);
    }

    lemma {:induction false} LoadedFits(loaded: seq<Path>, available: set<Path>)
      requires forall i, j :: 0 <= i < j < |loaded| ==> loaded[i] != loaded[j]
      requires forall i :: 0 <= i < |loaded| ==> loaded[i] in available
      ensures |loaded| <= |available|
    {
      if |loaded| > 0 {
        var last := |loaded| - 1;
        LoadedFits(loaded[..last], available - {loaded[last]});
      }
    }

    lemma Popped(loaded: seq<Path>, pending: seq<Path>, declared: set<string>, more: set<string>)
      requires |pending| > 0 && Progress(loaded, pending, declared, {}) && declared <= more
      ensures var last := |pending| - 1;
        && (pending[last] == top || pending[last] in loaded)
        && Progress(loaded, pending[..last], more, {pending[last]})
    {
      var last := |pending| - 1;
      assert forall p :: p in pending && p !in pending[..last] ==> p == pending[last];
      forall q | (q == top || q in loaded) && q !in pending[..last] && q !in {pending[last]}
        ensures AllSettled(q, more, loaded)
      {
        SettledLater(q, declared, more, loaded, loaded);
      }
    }

    /**
     * The library files to compile with the top file: real files, none twice,
     * never the top file or a file with a module t, each wanted by a file
     * before it; and nothing mentioned in them is left that a further file
     * could declare.
     */
    method LibraryFiles() returns (loaded: seq<Path>)
      ensures WellLoaded(loaded)
      ensures forall p :: p == top || p in loaded ==> AllSettled(p, Declared(true, loaded), loaded)
    {
      loaded := [];
      var pending := [top];
      var declared: set<string> := {};
      ghost var scannedTop := false;
      while |pending| > 0
        invariant Progress(loaded, pending, declared, {}) && declared == Declared(scannedTop, loaded)
        invariant !scannedTop ==> pending == [top] && loaded == []
        invariant |loaded| <= |files.Keys|
        decreases |files.Keys| - |loaded|, |pending|
      {
        var last := |pending| - 1;
        var path := pending[last];
        Popped(loaded, pending, declared, declared + Scan(path).units);
        declared := declared + Scan(path).units;
        UnitsDeclared(scannedTop, loaded, path);
        scannedTop := true;
        loaded, pending, declared := ScanFile(path, loaded, pending[..last], declared);
        LoadedFits(loaded, files.Keys);
      }
      assert pending == [];
    }

    /** Scanning a file adds nothing to the declarations but the top file's own units. */
    lemma UnitsDeclared(scannedTop: bool, loaded: seq<Path>, path: Path)
      requires path == top || path in loaded
      requires !scannedTop ==> path == top
      ensures Declared(scannedTop, loaded) + Scan(path).units == Declared(true, loaded)
    {
      if path in loaded {
        var i :| 0 <= i < |loaded| && loaded[i] == path;
        assert forall u :: u in Scan(loaded[i]).units ==> u in Declared(scannedTop, loaded);
      }
    }
  }
}
