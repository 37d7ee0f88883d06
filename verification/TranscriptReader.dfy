/** Reading a simulator's output into its canonical transcript. */
module TranscriptReader {
  import opened Common
  import opened Transcript

  type Fields = map<string, string>

  datatype Kind = StimEvent | StimSummary | StimKat

  // ----- reading one record -----

  /**
   * What the regular expressions and the library make of a line: its record
   * kind, the line without surrounding blanks, its fields, its first bare
   * token (None when the shell-style split fails), normalised kind names,
   * numbers, the known-answer check, the failure markers, and the library's
   * sort.
   */
  datatype Grammar = Grammar(
    kind: string -> Option<Kind>,
    strip: string -> string,
    fields: string -> Fields,
    bareToken: string -> Option<string>,
    normalised: string -> string,
    number: string -> Option<int>,
    knownAnswerOk: string -> bool,
    poisoned: string -> bool,
    sorted: set<Key> -> seq<Key>)

  function FirstField(fields: Fields, names: seq<string>): (v: Option<string>)
  {
    if |names| == 0 then None
    else if names[0] in fields then Some(fields[names[0]])
    else FirstField(fields, names[1..])
  }

  function Or(v: Option<string>, default: string): string
  {
    if v.Some? then v.value else default
  }

  const VALUE_KEYS := {"data", "source", "mask", "value", "valid", "ready", "last", "user",
                       "magnitude", "position", "payload", "corruption", "fields"}

  predicate HasUnknownLogic(fields: Fields)
  {
    exists key :: key in fields && key in VALUE_KEYS
      && exists i :: 0 <= i < |fields[key]| && fields[key][i] in {'x', 'X', 'z', 'Z'}
  }

  datatype Event = Event(stream: Key, sequence: int)

  /** The stream and sequence number of an event line, or None when it is rejected. */
  function ReadEvent(g: Grammar, line: string): (e: Option<Event>)
  {
    var fields := g.fields(line);
    var rawKind := Or(FirstField(fields, ["kind", "purpose", "stream", "event"]), Or(g.bareToken(line), ""));
    var purpose := g.normalised(rawKind);
    var instance := Or(FirstField(fields, ["instance", "logical_instance", "inst", "instance_id"]), "0");
    var scenario := Or(FirstField(fields, ["scenario", "tag", "case"]),
                       Or(FirstField(fields, ["frame", "frame_index"]), "default"));
    var sequence := FirstField(fields, ["sequence", "seq", "index", "cycle", "symbol",
                                        "symbol_index", "ordinal", "position"]);
    if g.bareToken(line).None? || rawKind == "" || sequence.None? || HasUnknownLogic(fields)
       || purpose == "invalid" || ("invalid" in fields && fields["invalid"] == "1")
       || g.number(sequence.value).None?
    then None
    else Some(Event(Key(instance, scenario, purpose), g.number(sequence.value).value))
  }

  /** The identity of a summary line, or None when it is rejected. */
  function ReadSummary(g: Grammar, line: string): (k: Option<Key>)
  {
    var fields := g.fields(line);
    var instance := FirstField(fields, ["instance", "logical_instance", "inst"]);
    var scenario := FirstField(fields, ["scenario", "tag"]);
    if instance.None? || scenario.None? then None
    else Some(Key(instance.value, scenario.value, Or(FirstField(fields, ["case"]), "")))
  }

  function TrackOf(g: Grammar, line: string): (t: Track)
  {
    match g.kind(line)
    case None => Unreadable
    case Some(StimEvent) =>
      var e := ReadEvent(g, line);
      if e.None? then Unreadable else OfStream(e.value.stream)
    case Some(StimSummary) =>
      var k := ReadSummary(g, line);
      if k.None? then Unreadable else OfSummary(k.value)
    case Some(StimKat) => OfKat
  }

  function SequenceOf(g: Grammar, line: string): int
  {
    var e := ReadEvent(g, line);
    if e.None? then 0 else e.value.sequence
  }

  function Reader(g: Grammar): (rd: Reading)
  {
    Reading(line => TrackOf(g, line), line => SequenceOf(g, line), g.knownAnswerOk, g.sorted)
  }

  // ----- what the fields of a line say -----

  /** The value of the first of these fields that the line has. */
  ghost predicate FirstOf(fields: Fields, names: seq<string>, v: string)
  {
    exists i :: 0 <= i < |names| && names[i] in fields && v == fields[names[i]]
      && forall j :: 0 <= j < i ==> names[j] !in fields
  }

  ghost predicate HasNone(fields: Fields, names: seq<string>)
  {
    forall i :: 0 <= i < |names| ==> names[i] !in fields
  }

  ghost predicate FirstOrDefault(fields: Fields, names: seq<string>, default: string, v: string)
  {
    FirstOf(fields, names, v) || (HasNone(fields, names) && v == default)
  }

  /** Some value field has an unknown or floating bit. */
  ghost predicate HasUnknownBit(fields: Fields)
  {
    exists name, i :: name in fields && 0 <= i < |fields[name]|
      && (name == "data" || name == "source" || name == "mask" || name == "value" || name == "valid" || name == "ready"
          || name == "last" || name == "user" || name == "magnitude" || name == "position" || name == "payload"
          || name == "corruption" || name == "fields")
      && (fields[name][i] == 'x' || fields[name][i] == 'X' || fields[name][i] == 'z' || fields[name][i] == 'Z')
  }

  /** By its fields, the line is event number n of stream k. */
  ghost predicate SaysEvent(g: Grammar, line: string, k: Key, n: int)
  {
    var fields := g.fields(line);
    && g.kind(line) == Some(StimEvent) && g.bareToken(line).Some?
    && FirstOrDefault(fields, ["instance", "logical_instance", "inst", "instance_id"], "0", k.instance)
    && FirstOrDefault(fields, ["scenario", "tag", "case", "frame", "frame_index"], "default", k.scenario)
    && (exists kind :: kind != "" && k.purpose == g.normalised(kind)
          && FirstOrDefault(fields, ["kind", "purpose", "stream", "event"], g.bareToken(line).value, kind))
    && (exists number :: g.number(number) == Some(n)
          && FirstOf(fields, ["sequence", "seq", "index", "cycle", "symbol", "symbol_index", "ordinal", "position"], number))
    && k.purpose != "invalid" && !("invalid" in fields && fields["invalid"] == "1") && !HasUnknownBit(fields)
  }

  /** By its fields, the line is the summary with key k. */
  ghost predicate SaysSummary(g: Grammar, line: string, k: Key)
  {
    var fields := g.fields(line);
    && g.kind(line) == Some(StimSummary)
    && FirstOf(fields, ["instance", "logical_instance", "inst"], k.instance)
    && FirstOf(fields, ["scenario", "tag"], k.scenario)
    && FirstOrDefault(fields, ["case"], "", k.purpose)
  }

  lemma {:induction false} FirstFieldIs(fields: Fields, names: seq<string>, v: string)
    ensures FirstField(fields, names) == Some(v) <==> FirstOf(fields, names, v)
    ensures FirstField(fields, names) == None <==> HasNone(fields, names)
  {
    if |names| > 0 {
      var rest := names[1..];
      FirstFieldIs(fields, rest, v);
      if FirstOf(fields, rest, v) && names[0] !in fields {
        var i :| 0 <= i < |rest| && rest[i] in fields && v == fields[rest[i]] && forall j :: 0 <= j < i ==> rest[j] !in fields;
        assert names[i + 1] in fields && forall j :: 0 <= j < i + 1 ==> names[j] !in fields;
      }
      if FirstOf(fields, names, v) && names[0] !in fields {
        var i :| 0 <= i < |names| && names[i] in fields && v == fields[names[i]] && forall j :: 0 <= j < i ==> names[j] !in fields;
        assert rest[i - 1] in fields && forall j :: 0 <= j < i - 1 ==> rest[j] !in fields;
      }
      assert HasNone(fields, names) <==> names[0] !in fields && HasNone(fields, rest) by {
        assert names == [names[0]] + rest;
      }
    }
  }

  lemma FirstOrDefaultIs(fields: Fields, names: seq<string>, default: string, v: string)
    ensures Or(FirstField(fields, names), default) == v <==> FirstOrDefault(fields, names, default, v)
  {
    FirstFieldIs(fields, names, v);
    var first := FirstField(fields, names);
    if first.Some? { FirstFieldIs(fields, names, first.value); }
  }

  /** Looking in one list of names and then in another is looking in both. */
  lemma {:induction false} TwoLists(fields: Fields, a: seq<string>, b: seq<string>)
    ensures FirstField(fields, a + b) == if FirstField(fields, a).Some? then FirstField(fields, a) else FirstField(fields, b)
  {
    if |a| == 0 {
      assert a + b == b;
    } else {
      assert (a + b)[1..] == a[1..] + b;
      TwoLists(fields, a[1..], b);
    }
  }

  lemma UnknownLogicIs(fields: Fields)
    ensures HasUnknownLogic(fields) <==> HasUnknownBit(fields)
  {
    if key, i :| key in fields && key in VALUE_KEYS && 0 <= i < |fields[key]| && fields[key][i] in {'x', 'X', 'z', 'Z'} {
      assert HasUnknownBit(fields);
    }
  }

  lemma ScenarioIs(fields: Fields, v: string)
    ensures Or(FirstField(fields, ["scenario", "tag", "case"]), Or(FirstField(fields, ["frame", "frame_index"]), "default")) == v
       <==> FirstOrDefault(fields, ["scenario", "tag", "case", "frame", "frame_index"], "default", v)
  {
    assert ["scenario", "tag", "case"] + ["frame", "frame_index"] == ["scenario", "tag", "case", "frame", "frame_index"];
    TwoLists(fields, ["scenario", "tag", "case"], ["frame", "frame_index"]);
    FirstOrDefaultIs(fields, ["scenario", "tag", "case", "frame", "frame_index"], "default", v);
  }

  /** An event line is read as what its fields say, and rejected when they say nothing. */
  lemma EventIs(g: Grammar, line: string, k: Key, n: int)
    requires g.kind(line) == Some(StimEvent)
    ensures ReadEvent(g, line) == Some(Event(k, n)) <==> SaysEvent(g, line, k, n)
  {
    var fields := g.fields(line);
    var bare := Or(g.bareToken(line), "");
    var kinds := ["kind", "purpose", "stream", "event"];
    var numbers := ["sequence", "seq", "index", "cycle", "symbol", "symbol_index", "ordinal", "position"];
    var kind := Or(FirstField(fields, kinds), bare);
    FirstOrDefaultIs(fields, ["instance", "logical_instance", "inst", "instance_id"], "0", k.instance);
    ScenarioIs(fields, k.scenario);
    UnknownLogicIs(fields);
    forall v: string
      ensures Or(FirstField(fields, kinds), bare) == v <==> FirstOrDefault(fields, kinds, bare, v)
      ensures FirstField(fields, numbers) == Some(v) <==> FirstOf(fields, numbers, v)
    {
      FirstOrDefaultIs(fields, kinds, bare, v);
      FirstFieldIs(fields, numbers, v);
    }
  }

  lemma SummaryIs(g: Grammar, line: string, k: Key)
    requires g.kind(line) == Some(StimSummary)
    ensures ReadSummary(g, line) == Some(k) <==> SaysSummary(g, line, k)
  {
    var fields := g.fields(line);
    FirstFieldIs(fields, ["instance", "logical_instance", "inst"], k.instance);
    FirstFieldIs(fields, ["scenario", "tag"], k.scenario);
    FirstOrDefaultIs(fields, ["case"], "", k.purpose);
  }

  /**
   * Where a line belongs, by its fields: an event to the stream they name,
   * under the number they give, and a summary to its key.
   */
  lemma ReaderIs(g: Grammar, line: string, k: Key, n: int)
    ensures Reader(g).track(line) == OfStream(k) && Reader(g).sequence(line) == n <==> SaysEvent(g, line, k, n)
    ensures Reader(g).track(line) == OfSummary(k) <==> SaysSummary(g, line, k)
    ensures Reader(g).track(line) == OfKat <==> g.kind(line) == Some(StimKat)
  {
    if g.kind(line) == Some(StimEvent) { EventIs(g, line, k, n); }
    if g.kind(line) == Some(StimSummary) { SummaryIs(g, line, k); }
  }

  ghost predicate SaysNothing(g: Grammar, line: string)
  {
    && g.kind(line) != Some(StimKat)
    && (forall k, n :: !SaysEvent(g, line, k, n)) && (forall k :: !SaysSummary(g, line, k))
  }

  /** A line is unreadable exactly when its fields make it neither an event nor a summary, nor is it a known answer. */
  lemma UnreadableIs(g: Grammar, line: string)
    ensures Reader(g).track(line) == Unreadable <==> SaysNothing(g, line)
  {
    var t, n := Reader(g).track(line), Reader(g).sequence(line);
    match t
    case OfStream(k) => ReaderIs(g, line, k, n);
    case OfSummary(k) => ReaderIs(g, line, k, n);
    case OfKat => ReaderIs(g, line, Key("", "", ""), n);
    case Unreadable =>
      forall k: Key, m: int
        ensures !SaysEvent(g, line, k, m)
      {
        ReaderIs(g, line, k, m);
      }
      forall k: Key
        ensures !SaysSummary(g, line, k)
      {
        ReaderIs(g, line, k, n);
      }
      ReaderIs(g, line, Key("", "", ""), n);
  }

  /** An unknown bit in a value field, or no field with a number, makes an event line unreadable. */
  lemma BadEventIsUnreadable(g: Grammar, line: string)
    requires g.kind(line) == Some(StimEvent)
    requires HasUnknownBit(g.fields(line))
      || HasNone(g.fields(line), ["sequence", "seq", "index", "cycle", "symbol", "symbol_index", "ordinal", "position"])
    ensures Reader(g).track(line) == Unreadable
  {
    UnreadableIs(g, line);
  }

  /** Two readable events share a stream exactly when their fields name the same instance, scenario and purpose. */
  lemma SameStreamExactly(g: Grammar, a: string, b: string, k: Key, l: Key, m: int, n: int)
    requires SaysEvent(g, a, k, m) && SaysEvent(g, b, l, n)
    ensures Reader(g).track(a) == Reader(g).track(b)
       <==> k.instance == l.instance && k.scenario == l.scenario && k.purpose == l.purpose
  {
    ReaderIs(g, a, k, m);
    ReaderIs(g, b, l, n);
  }

  // ----- the canonicaliser -----

  /** The summary records with one key, in order. */
  function LinesFor(pairs: seq<(Key, string)>, k: Key): (ls: seq<string>)
  {
    if |pairs| == 0 then []
    else
      var last := |pairs| - 1;
      LinesFor(pairs[..last], k) + (if pairs[last].0 == k then [pairs[last].1] else [])
  }

  function KeysOf(pairs: seq<(Key, string)>): (ks: set<Key>)
  {
    set i | 0 <= i < |pairs| :: pairs[i].0
  }

  predicate DistinctKeys(pairs: seq<(Key, string)>)
  {
    forall i, j :: 0 <= i < j < |pairs| ==> pairs[i].0 != pairs[j].0
  }

  lemma {:induction false} LinesForMembers(pairs: seq<(Key, string)>, k: Key)
    ensures LinesFor(pairs, k) != [] <==> k in KeysOf(pairs)
    ensures DistinctKeys(pairs) ==> |LinesFor(pairs, k)| <= 1
  {
    if |pairs| > 0 {
      var n := |pairs| - 1;
      LinesForMembers(pairs[..n], k);
      assert KeysOf(pairs) == KeysOf(pairs[..n]) + {pairs[n].0};
    }
  }

  lemma {:induction false} LinesForTwice(pairs: seq<(Key, string)>, i: nat, j: nat)
    requires i < j < |pairs| && pairs[i].0 == pairs[j].0
    ensures |LinesFor(pairs, pairs[i].0)| >= 2
  {
    var n := |pairs| - 1;
    if j < n {
      LinesForTwice(pairs[..n], i, j);
    } else {
      LinesForMembers(pairs[..n], pairs[i].0);
      assert pairs[..n][i].0 in KeysOf(pairs[..n]);
    }
  }

  lemma OnePerKey(pairs: seq<(Key, string)>)
    ensures DistinctKeys(pairs) <==> forall k :: k in KeysOf(pairs) ==> |LinesFor(pairs, k)| == 1
  {
    forall k | k in KeysOf(pairs)
      ensures DistinctKeys(pairs) ==> |LinesFor(pairs, k)| == 1
    {
      LinesForMembers(pairs, k);
    }
    if !DistinctKeys(pairs) {
      var i, j :| 0 <= i < j < |pairs| && pairs[i].0 == pairs[j].0;
      LinesForTwice(pairs, i, j);
      assert pairs[i].0 in KeysOf(pairs);
    }
  }

  lemma OneMore(rd: Reading, raw: seq<string>, n: nat)
    requires n < |raw|
    ensures raw[..n + 1][..n] == raw[..n]
    ensures Tracks(rd, raw[..n + 1]) == Tracks(rd, raw[..n]) + {rd.track(raw[n])}
    ensures Streams(rd, raw[..n + 1]) == Streams(rd, raw[..n])
      + if rd.track(raw[n]).OfStream? then {rd.track(raw[n]).stream} else {}
    ensures SummaryKeys(rd, raw[..n + 1]) == SummaryKeys(rd, raw[..n])
      + if rd.track(raw[n]).OfSummary? then {rd.track(raw[n]).key} else {}
    ensures forall t ::
      Filter(rd, raw[..n + 1], t) == Filter(rd, raw[..n], t) + if rd.track(raw[n]) == t then [raw[n]] else []
  {
    assert raw[..n + 1][..n] == raw[..n];
    assert Tracks(rd, raw[..n + 1]) == Tracks(rd, raw[..n]) + {rd.track(raw[n])};
  }

  /** What the loop over the records has gathered from the first n. */
  ghost predicate Gathered(rd: Reading, raw: seq<string>, events: map<Key, seq<string>>,
                           summaries: seq<(Key, string)>, kats: seq<string>)
  {
    && Unreadable !in Tracks(rd, raw)
    && events.Keys == Streams(rd, raw)
    && (forall k :: k in events ==> events[k] == Filter(rd, raw, OfStream(k)))
    && KeysOf(summaries) == SummaryKeys(rd, raw)
    && (forall k :: LinesFor(summaries, k) == Filter(rd, raw, OfSummary(k)))
    && kats == Filter(rd, raw, OfKat)
  }

  lemma OneMoreNamed(rd: Reading, raw: seq<string>, n: nat)
    requires n < |raw|
    ensures var t := rd.track(raw[n]);
      && Categories(rd, raw[..n + 1])
         == Categories(rd, raw[..n]) + (if t.OfStream? then {Category(t.stream.purpose)} else {})
      && Scenarios(rd, raw[..n + 1])
         == Scenarios(rd, raw[..n]) + (if t.OfStream? then {t.stream.scenario} else {})
  {
    OneMore(rd, raw, n);
  }

  lemma GatherEvent(rd: Reading, raw: seq<string>, n: nat, events: map<Key, seq<string>>,
                    summaries: seq<(Key, string)>, kats: seq<string>, k: Key)
    requires n < |raw| && Gathered(rd, raw[..n], events, summaries, kats) && rd.track(raw[n]) == OfStream(k)
    ensures Gathered(rd, raw[..n + 1],
      events[k := (if k in events then events[k] else []) + [raw[n]]], summaries, kats)
  {
    OneMore(rd, raw, n);
    FilterMembers(rd, raw[..n], OfStream(k));
    if k !in events {
      assert Filter(rd, raw[..n], OfStream(k)) == [];
    }
  }

  lemma GatherSummary(rd: Reading, raw: seq<string>, n: nat, events: map<Key, seq<string>>,
                      summaries: seq<(Key, string)>, kats: seq<string>, k: Key)
    requires n < |raw| && Gathered(rd, raw[..n], events, summaries, kats) && rd.track(raw[n]) == OfSummary(k)
    ensures Gathered(rd, raw[..n + 1], events, summaries + [(k, raw[n])], kats)
  {
    OneMore(rd, raw, n);
    var more := summaries + [(k, raw[n])];
    assert more[..|summaries|] == summaries;
    assert KeysOf(more) == KeysOf(summaries) + {k} by {
      assert more[|summaries|].0 == k;
      assert forall i :: 0 <= i < |summaries| ==> more[i] == summaries[i];
    }
  }

  method Gather(rd: Reading, raw: seq<string>)
    returns (readable: bool, events: map<Key, seq<string>>, summaries: seq<(Key, string)>, kats: seq<string>,
             categories: set<string>, scenarios: set<string>)
    ensures readable <==> Unreadable !in Tracks(rd, raw)
    ensures readable ==> Gathered(rd, raw, events, summaries, kats)
    ensures readable ==> categories == Categories(rd, raw) && scenarios == Scenarios(rd, raw)
  {
    readable, events, summaries, kats, categories, scenarios := true, map[], [], [], {}, {};
    for n := 0 to |raw|
      invariant readable
      invariant Gathered(rd, raw[..n], events, summaries, kats)
      invariant categories == Categories(rd, raw[..n]) && scenarios == Scenarios(rd, raw[..n])
    {
      OneMoreNamed(rd, raw, n);
      var line := raw[n];
      match rd.track(line) {
        case OfStream(k) =>
          GatherEvent(rd, raw, n, events, summaries, kats, k);
          events := events[k := (if k in events then events[k] else []) + [line]];
          categories := categories + {Category(k.purpose)};
          scenarios := scenarios + {k.scenario};
        case OfSummary(k) =>
          GatherSummary(rd, raw, n, events, summaries, kats, k);
          summaries := summaries + [(k, line)];
        case OfKat =>
          OneMore(rd, raw, n);
          kats := kats + [line];
        case Unreadable =>
          readable := false;
          assert Unreadable in Tracks(rd, raw) by { assert rd.track(raw[n]) == Unreadable; }
          return;
      }
    }
    assert raw[..|raw|] == raw;
  }

  /** The preflight conditions, on what was gathered. */
  predicate PreflightOk(rd: Reading, events: map<Key, seq<string>>, summaries: seq<(Key, string)>, kats: seq<string>,
                        categories: set<string>, required: set<string>)
  {
    events.Keys != {} && |summaries| > 0 && |kats| == 1 && rd.knownAnswerOk(kats[0]) && required <= categories
  }

  lemma PreflightMeans(rd: Reading, raw: seq<string>, events: map<Key, seq<string>>, summaries: seq<(Key, string)>,
                       kats: seq<string>, required: set<string>)
    requires Gathered(rd, raw, events, summaries, kats)
    ensures PreflightOk(rd, events, summaries, kats, Categories(rd, raw), required)
       <==> Streams(rd, raw) != {} && SummaryKeys(rd, raw) != {}
            && |Filter(rd, raw, OfKat)| == 1 && rd.knownAnswerOk(Filter(rd, raw, OfKat)[0])
            && required <= Categories(rd, raw)
  {
    assert |summaries| == 0 ==> KeysOf(summaries) == {};
    assert |summaries| > 0 ==> summaries[0].0 in KeysOf(summaries);
  }

  lemma UniqueSummaries(rd: Reading, raw: seq<string>, events: map<Key, seq<string>>, summaries: seq<(Key, string)>,
                        kats: seq<string>)
    requires Gathered(rd, raw, events, summaries, kats)
    ensures DistinctKeys(summaries)
       <==> forall k :: k in SummaryKeys(rd, raw) ==> |Filter(rd, raw, OfSummary(k))| == 1
  {
    OnePerKey(summaries);
  }

  /** The canonical transcript of a run's records, or None when they are rejected. */
  method Canonicalise(rd: Reading, raw: seq<string>, preflight: bool, required: set<string>)
    returns (r: Option<Canonical>)
    requires rd.Sorts()
    ensures r.Some? <==> Accepted(rd, raw, preflight, required)
    ensures r.Some? ==> r.value == CanonicalOf(rd, raw)
  {
    var readable, events, summaries, kats, categories, scenarios := Gather(rd, raw);
    if !readable { return None; }
    PreflightMeans(rd, raw, events, summaries, kats, required);
    if preflight && !PreflightOk(rd, events, summaries, kats, categories, required) { return None; }
    var increasing, streams := ListStreams(rd, raw, events, summaries, kats);
    UniqueSummaries(rd, raw, events, summaries, kats);
    if !increasing || !DistinctKeys(summaries) { return None; }
    var lines := ListSummaries(rd, raw, events, summaries, kats);
    assert kats == Filter(rd, raw, OfKat);
    r := Some(Canonical(streams, lines, kats, categories, scenarios));
  }

  /** The streams by key order, unless some stream's sequence numbers do not increase. */
  method ListStreams(rd: Reading, raw: seq<string>, events: map<Key, seq<string>>,
                     ghost summaries: seq<(Key, string)>, ghost kats: seq<string>)
    returns (increasing: bool, streams: seq<Stream>)
    requires rd.Sorts() && Gathered(rd, raw, events, summaries, kats)
    ensures increasing <==> forall k :: k in Streams(rd, raw) ==> Increasing(rd, Filter(rd, raw, OfStream(k)))
    ensures increasing ==> streams == StreamsOf(rd, raw)
  {
    var keys := rd.sorted(events.Keys);
    assert Enumerates(keys, events.Keys);
    increasing, streams := true, [];
    for n := 0 to |keys|
      invariant forall i :: 0 <= i < n ==> Increasing(rd, Filter(rd, raw, OfStream(keys[i])))
      invariant |streams| == n
      invariant forall i :: 0 <= i < n ==> streams[i] == Stream(keys[i], Filter(rd, raw, OfStream(keys[i])))
    {
      assert keys[n] in keys;
      var records := events[keys[n]];
      if !Increasing(rd, records) {
        increasing := false;
        return;
      }
      streams := streams + [Stream(keys[n], records)];
    }
    assert streams == StreamsOf(rd, raw);
  }

  lemma SummariesListed(rd: Reading, raw: seq<string>, lines: seq<string>)
    requires rd.Sorts() && |lines| == |rd.sorted(SummaryKeys(rd, raw))|
    requires forall k :: k in SummaryKeys(rd, raw) ==> |Filter(rd, raw, OfSummary(k))| == 1
    requires forall i :: 0 <= i < |lines| ==> Filter(rd, raw, OfSummary(rd.sorted(SummaryKeys(rd, raw))[i])) == [lines[i]]
    ensures lines == SummariesOf(rd, raw)
  {
  }

  lemma OneSummary(rd: Reading, raw: seq<string>, events: map<Key, seq<string>>,
                   summaries: seq<(Key, string)>, kats: seq<string>, k: Key)
    requires Gathered(rd, raw, events, summaries, kats) && k in SummaryKeys(rd, raw)
    requires |Filter(rd, raw, OfSummary(k))| == 1
    ensures |LinesFor(summaries, k)| == 1 && Filter(rd, raw, OfSummary(k)) == [LinesFor(summaries, k)[0]]
  {
  }

  /** The one record of each summary key, by key order. */
  method ListSummaries(rd: Reading, raw: seq<string>, ghost events: map<Key, seq<string>>,
                       summaries: seq<(Key, string)>, ghost kats: seq<string>)
    returns (lines: seq<string>)
    requires rd.Sorts() && Gathered(rd, raw, events, summaries, kats)
    requires forall k :: k in SummaryKeys(rd, raw) ==> |Filter(rd, raw, OfSummary(k))| == 1
    ensures lines == SummariesOf(rd, raw)
  {
    var keys := rd.sorted(KeysOf(summaries));
    assert Enumerates(keys, SummaryKeys(rd, raw));
    forall i | 0 <= i < |keys|
      ensures |LinesFor(summaries, keys[i])| == 1
      ensures Filter(rd, raw, OfSummary(keys[i])) == [LinesFor(summaries, keys[i])[0]]
    {
      assert keys[i] in keys;
      OneSummary(rd, raw, events, summaries, kats, keys[i]);
    }
    lines := OneEach(summaries, keys);
    SummariesListed(rd, raw, lines);
  }

  /** The one line of each key. */
  method OneEach(pairs: seq<(Key, string)>, keys: seq<Key>) returns (lines: seq<string>)
    requires forall i :: 0 <= i < |keys| ==> |LinesFor(pairs, keys[i])| == 1
    ensures |lines| == |keys| && forall i :: 0 <= i < |keys| ==> lines[i] == LinesFor(pairs, keys[i])[0]
  {
    lines := [];
    for n := 0 to |keys|
      invariant |lines| == n && forall i :: 0 <= i < n ==> lines[i] == LinesFor(pairs, keys[i])[0]
    {
      lines := lines + [LinesFor(pairs, keys[n])[0]];
    }
  }

  // ----- from a simulator's output -----

  /** The record lines of an output, stripped, in order. */
  function Records(g: Grammar, output: seq<string>): (raw: seq<string>)
  {
    if |output| == 0 then []
    else
      var last := |output| - 1;
      Records(g, output[..last]) + (if g.kind(output[last]).Some? then [g.strip(output[last])] else [])
  }

  /** The records are the lines of a record kind, each without surrounding blanks, in order. */
  lemma {:induction false} RecordsAre(g: Grammar, output: seq<string>, n: nat)
    requires n <= |output|
    ensures var at := PlacesOf((i: nat) => i < |output| && g.kind(output[i]).Some?, n);
      |Records(g, output[..n])| == |at|
      && forall j :: 0 <= j < |at| ==> at[j] < n && Records(g, output[..n])[j] == g.strip(output[at[j]])
  {
    if n > 0 {
      RecordsAre(g, output, n - 1);
      assert output[..n][..n - 1] == output[..n - 1];
    }
  }

  method CanonicalTranscript(g: Grammar, output: seq<string>, preflight: bool, required: set<string>)
    returns (r: Option<Canonical>)
    requires Reader(g).Sorts()
    ensures r.Some? <==> (forall i :: 0 <= i < |output| ==> !g.poisoned(output[i]))
                         && Accepted(Reader(g), Records(g, output), preflight, required)
    ensures r.Some? ==> r.value == CanonicalOf(Reader(g), Records(g, output))
  {
    var raw := [];
    for n := 0 to |output|
      invariant raw == Records(g, output[..n])
      invariant forall i :: 0 <= i < n ==> !g.poisoned(output[i])
    {
      if g.poisoned(output[n]) { return None; }
      assert output[..n + 1][..n] == output[..n];
      if g.kind(output[n]).Some? {
        raw := raw + [g.strip(output[n])];
      }
    }
    assert output[..|output|] == output;
    r := Canonicalise(Reader(g), raw, preflight, required);
  }
}
