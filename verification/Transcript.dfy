/**
 * The stimulus transcript of one simulator run and its canonical form. Two
 * simulators saw the same stimulus when their canonical transcripts agree.
 */
module Transcript {

  /** The identity of an event stream, or of a summary. */
  datatype Key = Key(instance: string, scenario: string, purpose: string)

  /** Where a record belongs. */
  datatype Track = OfStream(stream: Key) | OfSummary(key: Key) | OfKat | Unreadable

  /**
   * How lines are read: the track and sequence number of each, the check of a
   * known-answer record, and the library's sort.
   */
  datatype Reading = Reading(
    track: string -> Track,
    sequence: string -> int,
    knownAnswerOk: string -> bool,
    sorted: set<Key> -> seq<Key>)
  {
    /** Sorting lists every key once. */
    ghost predicate Sorts()
    {
      forall keys :: Enumerates(sorted(keys), keys)
    }
  }

  ghost predicate Enumerates(list: seq<Key>, keys: set<Key>)
  {
    && (forall k :: k in list <==> k in keys)
    && (forall i, j :: 0 <= i < j < |list| ==> list[i] != list[j])
  }

  function Category(purpose: string): (c: string)
  {
    if purpose in {"backpressure", "ready_window"} then "ready"
    else if purpose in {"accepted", "accepted_encoder", "accepted_decoder",
                        "input_accept", "accepted_input", "input_accepted", "accept"} then "accepted"
    else purpose
  }

  /** Which purposes fall under each shared category; any other is its own. */
  lemma CategoryIs(purpose: string)
    ensures Category(purpose) == "ready" <==> purpose == "ready" || purpose == "backpressure" || purpose == "ready_window"
    ensures Category(purpose) == "accepted"
       <==> purpose == "accepted" || purpose == "accept" || purpose == "accepted_encoder" || purpose == "accepted_decoder"
            || purpose == "accepted_input" || purpose == "input_accept" || purpose == "input_accepted"
    ensures Category(purpose) != "ready" && Category(purpose) != "accepted" ==> Category(purpose) == purpose
  {
  }

  // ----- what a transcript holds -----

  /** The records of one track, in order. */
  function Filter(rd: Reading, raw: seq<string>, t: Track): (r: seq<string>)
  {
    if |raw| == 0 then []
    else
      var last := |raw| - 1;
      Filter(rd, raw[..last], t) + (if rd.track(raw[last]) == t then [raw[last]] else [])
  }

  ghost function Tracks(rd: Reading, raw: seq<string>): (ts: set<Track>)
  {
    set i | 0 <= i < |raw| :: rd.track(raw[i])
  }

  /** A track has records exactly when it occurs, and they are all its own. */
  lemma {:induction false} FilterMembers(rd: Reading, raw: seq<string>, t: Track)
    ensures Filter(rd, raw, t) != [] <==> t in Tracks(rd, raw)
    ensures forall x :: x in Filter(rd, raw, t) ==> rd.track(x) == t
  {
    if |raw| > 0 {
      var n := |raw| - 1;
      FilterMembers(rd, raw[..n], t);
      assert Tracks(rd, raw) == Tracks(rd, raw[..n]) + {rd.track(raw[n])};
    }
  }

  ghost function Streams(rd: Reading, raw: seq<string>): (ks: set<Key>)
  {
    set t | t in Tracks(rd, raw) && t.OfStream? :: t.stream
  }

  ghost function SummaryKeys(rd: Reading, raw: seq<string>): (ks: set<Key>)
  {
    set t | t in Tracks(rd, raw) && t.OfSummary? :: t.key
  }

  predicate Increasing(rd: Reading, records: seq<string>)
  {
    forall i :: 0 < i < |records| ==> rd.sequence(records[i - 1]) < rd.sequence(records[i])
  }

  /** No two records of a stream have the same number, and a later one has the larger. */
  lemma {:induction false} IncreasingIs(rd: Reading, records: seq<string>, i: nat, j: nat)
    requires Increasing(rd, records) && i < j < |records|
    ensures rd.sequence(records[i]) < rd.sequence(records[j])
    decreases j
  {
    if i < j - 1 { IncreasingIs(rd, records, i, j - 1); }
  }

  ghost function Categories(rd: Reading, raw: seq<string>): (cs: set<string>)
  {
    set k | k in Streams(rd, raw) :: Category(k.purpose)
  }

  ghost function Scenarios(rd: Reading, raw: seq<string>): (cs: set<string>)
  {
    set k | k in Streams(rd, raw) :: k.scenario
  }

  /** The transcripts the canonicaliser accepts. */
  ghost predicate Accepted(rd: Reading, raw: seq<string>, preflight: bool, required: set<string>)
  {
    && Unreadable !in Tracks(rd, raw)
    && (forall k :: k in Streams(rd, raw) ==> Increasing(rd, Filter(rd, raw, OfStream(k))))
    && (forall k :: k in SummaryKeys(rd, raw) ==> |Filter(rd, raw, OfSummary(k))| == 1)
    && (preflight ==>
          && Streams(rd, raw) != {} && SummaryKeys(rd, raw) != {}
          && |Filter(rd, raw, OfKat)| == 1 && rd.knownAnswerOk(Filter(rd, raw, OfKat)[0])
          && required <= Categories(rd, raw))
  }

  datatype Stream = Stream(key: Key, records: seq<string>)

  datatype Canonical = Canonical(
    events: seq<Stream>, summaries: seq<string>, knownAnswer: seq<string>,
    categories: set<string>, scenarios: set<string>)

  datatype Parity = Parity(events: seq<Stream>, summaries: seq<string>, knownAnswer: seq<string>)

  /** What two runs must agree on. */
  function ParityPayload(c: Canonical): (p: Parity)
  {
    Parity(c.events, c.summaries, c.knownAnswer)
  }

  /** Each stream's records, by key order. */
  ghost function StreamsOf(rd: Reading, raw: seq<string>): (ss: seq<Stream>)
  {
    var keys := rd.sorted(Streams(rd, raw));
    seq(|keys|, i requires 0 <= i < |keys| => Stream(keys[i], Filter(rd, raw, OfStream(keys[i]))))
  }

  /** The one record of each summary key, by key order. */
  ghost function SummariesOf(rd: Reading, raw: seq<string>): (ls: seq<string>)
    requires rd.Sorts()
    requires forall k :: k in SummaryKeys(rd, raw) ==> |Filter(rd, raw, OfSummary(k))| == 1
  {
    var keys := rd.sorted(SummaryKeys(rd, raw));
    assert Enumerates(keys, SummaryKeys(rd, raw));
    seq(|keys|, i requires 0 <= i < |keys| && keys[i] in SummaryKeys(rd, raw) =>
      Filter(rd, raw, OfSummary(keys[i]))[0])
  }

  ghost function CanonicalOf(rd: Reading, raw: seq<string>): (c: Canonical)
    requires rd.Sorts()
    requires forall k :: k in SummaryKeys(rd, raw) ==> |Filter(rd, raw, OfSummary(k))| == 1
  {
    Canonical(StreamsOf(rd, raw), SummariesOf(rd, raw), Filter(rd, raw, OfKat),
              Categories(rd, raw), Scenarios(rd, raw))
  }
}
