/** The files a source pulls in through `include, found with a worklist. */
module Includes {
  import opened Common

  datatype File = Readable(includes: seq<string>) | Unreadable

  /**
   * A file system and a search path. `resolved` takes the path of an existing
   * file to its real form; a resolved path with no entry cannot be read.
   */
  datatype Tree = Tree(
    files: map<Path, File>, resolved: map<Path, Path>,
    parent: Path -> Path, join: (Path, string) -> Path, includeDirs: seq<Path>)
  {
    function Read(p: Path): (f: File)
    {
      if p in files then files[p] else Unreadable
    }

    /** Where an include directive of `current` may point, in search order. */
    function Candidates(current: Path, name: string): (cs: seq<Path>)
    {
      [join(parent(current), name)]
      + seq(|includeDirs|, i requires 0 <= i < |includeDirs| => join(includeDirs[i], name))
    }

    function FirstExisting(cs: seq<Path>): (p: Option<Path>)
    {
      if |cs| == 0 then None
      else if cs[0] in resolved then Some(resolved[cs[0]])
      else FirstExisting(cs[1..])
    }

    function Resolve(current: Path, name: string): (p: Option<Path>)
    {
      FirstExisting(Candidates(current, name))
    }

    /** The first of the include directories that has the file. */
    ghost predicate FoundIn(name: string, i: nat)
    {
      && i < |includeDirs| && join(includeDirs[i], name) in resolved
      && forall j :: 0 <= j < i ==> join(includeDirs[j], name) !in resolved
    }

    // An include points to the file next to the including one if there is one,

    lemma ResolvesHere(current: Path, name: string)
      requires join(parent(current), name) in resolved
      ensures Resolve(current, name) == Some(resolved[join(parent(current), name)])
    {
    }

    /** else to the one in the first include directory that has it, */
    lemma ResolvesThere(current: Path, name: string, i: nat)
      requires join(parent(current), name) !in resolved && FoundIn(name, i)
      ensures Resolve(current, name) == Some(resolved[join(includeDirs[i], name)])
    {
      FirstExistingAt(Candidates(current, name), i + 1);
    }

    /** else nowhere. */
    lemma ResolvesNowhere(current: Path, name: string)
      requires join(parent(current), name) !in resolved
      requires forall i :: 0 <= i < |includeDirs| ==> join(includeDirs[i], name) !in resolved
      ensures Resolve(current, name) == None
    {
      NoneExisting(Candidates(current, name));
    }

    lemma {:induction false} FirstExistingAt(cs: seq<Path>, k: nat)
      requires k < |cs| && cs[k] in resolved && forall j :: 0 <= j < k ==> cs[j] !in resolved
      ensures FirstExisting(cs) == Some(resolved[cs[k]])
    {
      if k > 0 { FirstExistingAt(cs[1..], k - 1); }
    }

    lemma {:induction false} NoneExisting(cs: seq<Path>)
      requires forall j :: 0 <= j < |cs| ==> cs[j] !in resolved
      ensures FirstExisting(cs) == None
    {
      if |cs| > 0 { NoneExisting(cs[1..]); }
    }

    // ----- reachability -----

    /** p includes q. */
    ghost predicate Includes(p: Path, q: Path)
    {
      Read(p).Readable? && exists i :: 0 <= i < |Read(p).includes| && Resolve(p, Read(p).includes[i]) == Some(q)
    }

    ghost predicate Chain(path: seq<Path>)
    {
      |path| > 0 && forall i :: 0 < i < |path| ==> Includes(path[i - 1], path[i])
    }

    ghost predicate Reachable(source: Path, p: Path)
    {
      exists path :: Chain(path) && path[0] == source && path[|path| - 1] == p
    }

    /** p cannot be read, or has an include that resolves nowhere. */
    ghost predicate Broken(p: Path)
    {
      Read(p).Unreadable?
      || exists i :: 0 <= i < |Read(p).includes| && Resolve(p, Read(p).includes[i]).None?
    }

    /** The files reachable from the source, as a set. */
    ghost function Reach(source: Path): (r: iset<Path>)
    {
      iset p | Reachable(source, p)
    }

    /** A set with everything its members include. */
    ghost predicate Closed(s: iset<Path>)
    {
      forall p, q :: p in s && Includes(p, q) ==> q in s
    }

    lemma ReachClosed(source: Path)
      ensures source in Reach(source) && Closed(Reach(source))
    {
      assert Chain([source]);
      forall p, q | p in Reach(source) && Includes(p, q)
        ensures q in Reach(source)
      {
        var path :| Chain(path) && path[0] == source && path[|path| - 1] == p;
        assert Chain(path + [q]);
      }
    }

    lemma {:induction false} ChainStays(path: seq<Path>, s: iset<Path>)
      requires Chain(path) && path[0] in s && Closed(s)
      ensures path[|path| - 1] in s
    {
      if |path| > 1 {
        ChainStays(path[..|path| - 1], s);
        assert Includes(path[|path| - 2], path[|path| - 1]);
      }
    }

    lemma FirstExistingIsReal(cs: seq<Path>)
      ensures FirstExisting(cs).Some? ==> FirstExisting(cs).value in resolved.Values
    {
    }

    // ----- the worklist -----

    /** A file whose includes all resolve into s. */
    ghost predicate Settled(p: Path, s: set<Path>)
    {
      && Read(p).Readable?
      && forall i :: 0 <= i < |Read(p).includes| ==>
           Resolve(p, Read(p).includes[i]).Some? && Resolve(p, Read(p).includes[i]).value in s
    }

    ghost predicate Listed(result: seq<Path>, source: Path, visited: set<Path>)
    {
      && visited == {source} + (set p | p in result)
      && source !in result
      && forall i, j :: 0 <= i < j < |result| ==> result[i] != result[j]
    }

    /** Everything visited is in `reach`, and settled but for the files pending and `except`. */
    ghost predicate Progress(reach: iset<Path>, visited: set<Path>, pending: seq<Path>, except: set<Path>)
    {
      && (forall p :: p in visited ==> p in reach)
      && (forall p :: p in pending ==> p in visited)
      && (forall p :: p in visited && p !in pending && p !in except ==> Settled(p, visited))
    }

    lemma Discovered(reach: iset<Path>, visited: set<Path>, pending: seq<Path>, except: set<Path>, p: Path)
      requires Progress(reach, visited, pending, except) && p in reach
      ensures Progress(reach, visited + {p}, pending + [p], except)
    {
    }

    lemma Popped(reach: iset<Path>, visited: set<Path>, pending: seq<Path>)
      requires |pending| > 0 && Progress(reach, visited, pending, {})
      ensures var last := |pending| - 1;
              pending[last] in visited && Progress(reach, visited, pending[..last], {pending[last]})
    {
      var last := |pending| - 1;
      assert forall p :: p in pending && p !in pending[..last] ==> p == pending[last];
    }

    /** With nothing pending, the visited files are the reachable ones and none is broken. */
    lemma Finished(source: Path, visited: set<Path>, p: Path)
      requires source in visited && Progress(Reach(source), visited, [], {})
      ensures p in visited <==> Reachable(source, p)
      ensures Reachable(source, p) ==> !Broken(p)
    {
      if Reachable(source, p) {
        var path :| Chain(path) && path[0] == source && path[|path| - 1] == p;
        var s := iset x | x in visited;
        forall x, y | x in s && Includes(x, y)
          ensures y in s
        {
          assert Settled(x, visited);
        }
        ChainStays(path, s);
        assert Settled(p, visited);
      }
    }

    /** Follows the includes of one file. */
    method Scan(ghost reach: iset<Path>, source: Path, current: Path, includes: seq<string>,
                result0: seq<Path>, visited0: set<Path>, pending0: seq<Path>)
      returns (ok: bool, result: seq<Path>, visited: set<Path>, pending: seq<Path>)
      requires Read(current) == Readable(includes) && current in visited0 && Closed(reach)
      requires Progress(reach, visited0, pending0, {current}) && Listed(result0, source, visited0)
      ensures !ok ==> Broken(current)
      ensures ok ==> Progress(reach, visited, pending, {}) && Listed(result, source, visited)
      ensures ok ==> visited0 <= visited <= visited0 + resolved.Values
      ensures ok ==> visited == visited0 ==> pending == pending0
    {
      ok, result, visited, pending := true, result0, visited0, pending0;
      for n := 0 to |includes|
        invariant Progress(reach, visited, pending, {current}) && Listed(result, source, visited)
        invariant visited0 <= visited <= visited0 + resolved.Values
        invariant visited == visited0 ==> pending == pending0
        invariant forall i :: 0 <= i < n ==>
          Resolve(current, includes[i]).Some? && Resolve(current, includes[i]).value in visited
      {
        var target := Resolve(current, includes[n]);
        if target.None? {
          ok := false;
          return;
        }
        var p := target.value;
        if p !in visited {
          FirstExistingIsReal(Candidates(current, includes[n]));
          assert Includes(current, p);
          Discovered(reach, visited, pending, {current}, p);
          visited := visited + {p};
          result := result + [p];
          pending := pending + [p];
        }
      }
      assert Settled(current, visited);
    }

    /** Works the pending files off. */
    method Explore(ghost reach: iset<Path>, source: Path)
      returns (ok: bool, result: seq<Path>, ghost visited: set<Path>, ghost culprit: Path)
      requires source in reach && Closed(reach)
      ensures ok ==> Progress(reach, visited, [], {}) && Listed(result, source, visited)
      ensures !ok ==> culprit in reach && Broken(culprit)
    {
      ghost var universe := {source} + resolved.Values;
      var seen, pending := {source}, [source];
      result, visited, culprit := [], seen, source;
      while |pending| > 0
        invariant Progress(reach, seen, pending, {}) && Listed(result, source, seen)
        invariant seen <= universe
        decreases |universe - seen|, |pending|
      {
        var last := |pending| - 1;
        var current := pending[last];
        Popped(reach, seen, pending);
        culprit := current;
        match Read(current) {
          case Unreadable =>
            ok := false;
            return;
          case Readable(includes) =>
            ghost var before := seen;
            ok, result, seen, pending := Scan(reach, source, current, includes, result, seen, pending[..last]);
            if !ok { return; }
            Shrinks(universe, before, seen);
        }
      }
      ok, visited := true, seen;
      assert pending == [];
    }

    /**
     * Exactly the files reachable from the source, other than itself, once
     * each; or a failure, exactly when some reachable file is broken.
     */
    method ResolveIncludes(source: Path) returns (ok: bool, result: seq<Path>)
      ensures ok <==> forall p :: Reachable(source, p) ==> !Broken(p)
      ensures ok ==> forall p :: p in result <==> Reachable(source, p) && p != source
      ensures ok ==> forall i, j :: 0 <= i < j < |result| ==> result[i] != result[j]
    {
      ReachClosed(source);
      ghost var visited, culprit;
      ok, result, visited, culprit := Explore(Reach(source), source);
      if ok {
        forall p: Path
          ensures p in visited <==> Reachable(source, p)
          ensures Reachable(source, p) ==> !Broken(p)
        {
          Finished(source, visited, p);
        }
      } else {
        assert Reachable(source, culprit);
      }
    }
  }

  lemma Shrinks(universe: set<Path>, small: set<Path>, large: set<Path>)
    requires small <= large <= universe
    ensures small != large ==> |universe - large| < |universe - small|
  {
    if small != large {
      var p :| p in large && p !in small;
      SubsetSize(universe - large, universe - small - {p});
    }
  }
}
