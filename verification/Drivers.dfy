/**
 * The valid/ready drivers of the generated testbenches. Signals are sampled on
 * rising clock edges and driven on falling ones; ready is a four-state input
 * that may do anything. A run is observed for `horizon` rising edges, any
 * number of them.
 */
module Drivers {
  import opened Common

  datatype Logic = Zero | One | X | Z

  /** What a driver shows with valid high. */
  datatype Beat<+S> = Beat(data: S, last: bool, user: bool)

  /** One rising edge with valid high. */
  datatype Sample<+S> = Sample(beat: Beat<S>, ready: Logic)

  // ----- the protocol -----

  /** The beats the receiver took, in order. */
  function Taken<S>(bus: seq<Sample<S>>): (beats: seq<Beat<S>>)
  {
    if |bus| == 0 then []
    else
      var last := |bus| - 1;
      Taken(bus[..last]) + (if bus[last].ready == One then [bus[last].beat] else [])
  }

  /** A beat not taken is shown again, unchanged, on the next edge. */
  ghost predicate Holds<S(!new)>(bus: seq<Sample<S>>)
  {
    forall i :: 0 < i < |bus| && bus[i - 1].ready != One ==> bus[i].beat == bus[i - 1].beat
  }

  function Ones(ready: nat -> Logic, n: nat): (count: nat)
  {
    if n == 0 then 0 else Ones(ready, n - 1) + if ready(n - 1) == One then 1 else 0
  }

  function Unknowns(ready: nat -> Logic, n: nat): (count: nat)
  {
    if n == 0 then 0 else Unknowns(ready, n - 1) + if ready(n - 1) == X || ready(n - 1) == Z then 1 else 0
  }

  lemma {:induction false} OnesGrow(ready: nat -> Logic, m: nat, n: nat)
    requires m <= n
    ensures Ones(ready, m) <= Ones(ready, n)
    decreases n
  {
    if m < n { OnesGrow(ready, m, n - 1); }
  }

  /** The bus so far carried the first `count` beats, and `next` is on show now. */
  ghost predicate Carries<S(!new)>(bus: seq<Sample<S>>, beats: seq<Beat<S>>, count: nat, next: Beat<S>)
  {
    && count <= |beats|
    && Holds(bus)
    && Taken(bus) == beats[..count]
    && (count < |beats| ==> next == beats[count])
    && (|bus| > 0 && bus[|bus| - 1].ready != One ==> next == bus[|bus| - 1].beat)
  }

  /** One more rising edge, and the beat shown after it. */
  lemma Edge<S(!new)>(bus: seq<Sample<S>>, beats: seq<Beat<S>>, count: nat, next: Beat<S>, v: Logic, after: Beat<S>)
    requires Carries(bus, beats, count, next) && count < |beats|
    requires v != One ==> after == next
    requires v == One && count + 1 < |beats| ==> after == beats[count + 1]
    ensures Carries(bus + [Sample(next, v)], beats, if v == One then count + 1 else count, after)
  {
    var more := bus + [Sample(next, v)];
    assert more[..|bus|] == bus;
    assert v == One ==> beats[..count + 1] == beats[..count] + [beats[count]];
  }

  // ----- the log of accepted beats -----

  datatype Entry<+S> = Entry(cycle: nat, index: nat, beat: Beat<S>)

  const CAPACITY := 2048

  /** The first CAPACITY accepted beats, and how many more there were. */
  datatype Log<S> = Log(entries: seq<Entry<S>>, overflow: nat)
  {
    function Record(cycle: nat, index: nat, beat: Beat<S>): (log: Log<S>)
    {
      if |entries| < CAPACITY then Log(entries + [Entry(cycle, index, beat)], overflow)
      else Log(entries, overflow + 1)
    }
  }

  /** Every accepted beat is logged, under its own index and in time order, or counted as overflow. */
  ghost predicate Logged<S(!new)>(log: Log<S>, beats: seq<Beat<S>>, now: nat)
  {
    && |log.entries| + log.overflow == |beats|
    && (log.overflow > 0 ==> |log.entries| == CAPACITY) && |log.entries| <= CAPACITY
    && (forall i :: 0 <= i < |log.entries| ==>
          log.entries[i].index == i && log.entries[i].beat == beats[i] && log.entries[i].cycle < now)
    && (forall i :: 0 < i < |log.entries| ==> log.entries[i - 1].cycle < log.entries[i].cycle)
  }

  lemma RecordLogged<S(!new)>(log: Log<S>, beats: seq<Beat<S>>, now: nat, beat: Beat<S>)
    requires Logged(log, beats, now)
    ensures Logged(log.Record(now, |beats|, beat), beats + [beat], now + 1)
    ensures Logged(log, beats, now + 1)
  {
  }

  // ----- a driver between two edges -----

  /** Before edge `cycle`: what the bus carried, what is on show, and what was logged. */
  ghost predicate Underway<S(!new)>(
    bus: seq<Sample<S>>, beats: seq<Beat<S>>, count: nat, show: Beat<S>, log: Log<S>,
    ready: nat -> Logic, cycle: nat)
  {
    && Carries(bus, beats, count, show)
    && count == Ones(ready, cycle)
    && Logged(log, beats[..count], cycle)
  }

  lemma EdgePasses<S(!new)>(
    bus: seq<Sample<S>>, beats: seq<Beat<S>>, count: nat, show: Beat<S>, log: Log<S>,
    ready: nat -> Logic, cycle: nat, after: Beat<S>)
    requires Underway(bus, beats, count, show, log, ready, cycle) && count < |beats|
    requires ready(cycle) != One ==> after == show
    requires ready(cycle) == One && count + 1 < |beats| ==> after == beats[count + 1]
    ensures var taken := ready(cycle) == One;
      Underway(bus + [Sample(show, ready(cycle))], beats, if taken then count + 1 else count, after,
               if taken then log.Record(cycle, count, show) else log, ready, cycle + 1)
  {
    Edge(bus, beats, count, show, ready(cycle), after);
    RecordLogged(log, beats[..count], cycle, show);
    assert beats[..count] + [beats[count]] == beats[..count + 1];
  }

  /** A last edge with valid high that the driver no longer watches. */
  lemma StrayEdge<S(!new)>(bus: seq<Sample<S>>, beats: seq<Beat<S>>, count: nat, show: Beat<S>, v: Logic)
    requires Carries(bus, beats, count, show) && count < |beats|
    ensures var more := bus + [Sample(show, v)];
      Holds(more) && Taken(more) <= beats && count <= |Taken(more)| <= count + 1
  {
    Edge(bus, beats, count, show, v,
         if v == One && count + 1 < |beats| then beats[count + 1] else show);
  }

  /**
   * One rising edge as the codec drivers see it: the beat on show goes over the
   * bus, an unknown ready is counted, and a beat taken is logged and counted.
   * `next` is the beat to be shown from here on.
   */
  method TakeEdge<S(!new)>(
    bus0: seq<Sample<S>>, log0: Log<S>, accepted0: nat, unknown0: nat, cycle: nat, show: Beat<S>,
    ready: nat -> Logic, ghost beats: seq<Beat<S>>)
    returns (bus: seq<Sample<S>>, log: Log<S>, accepted: nat, unknown: nat, ghost next: Beat<S>)
    requires Underway(bus0, beats, accepted0, show, log0, ready, cycle) && accepted0 < |beats|
    requires unknown0 == Unknowns(ready, cycle)
    ensures accepted == accepted0 + if ready(cycle) == One then 1 else 0
    ensures unknown == Unknowns(ready, cycle + 1)
    ensures next == if ready(cycle) == One && accepted < |beats| then beats[accepted] else show
    ensures Underway(bus, beats, accepted, next, log, ready, cycle + 1)
  {
    bus, log, accepted, unknown := bus0 + [Sample(show, ready(cycle))], log0, accepted0, unknown0;
    if ready(cycle) != Zero && ready(cycle) != One { unknown := unknown + 1; }
    if ready(cycle) == One {
      log := log0.Record(cycle, accepted0, show);
      accepted := accepted0 + 1;
    }
    next := if ready(cycle) == One && accepted < |beats| then beats[accepted] else show;
    EdgePasses(bus0, beats, accepted0, show, log0, ready, cycle, next);
  }

  // ----- the encoder's input driver -----

  /** The message as a frame: only its final symbol is marked last. */
  function Frame<S>(msg: seq<S>): (beats: seq<Beat<S>>)
    ensures |beats| == |msg|
  {
    seq(|msg|, i requires 0 <= i < |msg| => Beat(msg[i], i == |msg| - 1, false))
  }

  /** What every driver promises of the edges the receiver saw. */
  ghost predicate Delivers<S(!new)>(bus: seq<Sample<S>>, beats: seq<Beat<S>>, accepted: nat, log: Log<S>, now: nat)
  {
    && Holds(bus)
    && Taken(bus) <= beats
    && accepted <= |Taken(bus)| <= accepted + 1 && accepted <= |beats|
    && Logged(log, beats[..accepted], now)
  }

  /** What a driver leaves behind; `stray` is one more edge with valid high that it no longer watches. */
  lemma Delivered<S(!new)>(
    bus: seq<Sample<S>>, beats: seq<Beat<S>>, accepted: nat, show: Beat<S>, log: Log<S>,
    ready: nat -> Logic, cycle: nat, stray: bool)
    requires Underway(bus, beats, accepted, show, log, ready, cycle) && (stray ==> accepted < |beats|)
    ensures Delivers(if stray then bus + [Sample(show, ready(cycle))] else bus, beats, accepted, log, cycle)
    ensures Taken(bus) == beats[..accepted] && accepted == Ones(ready, cycle)
  {
    if stray { StrayEdge(bus, beats, accepted, show, ready(cycle)); }
  }

  /** Before the first edge. */
  lemma Started<S(!new)>(beats: seq<Beat<S>>, show: Beat<S>, log: Log<S>, ready: nat -> Logic)
    requires |beats| > 0 && show == beats[0] && log == Log([], 0)
    ensures Underway([], beats, 0, show, log, ready, 0)
  {
  }

  /**
   * Drives a message of kk symbols, kept in a buffer. `stop(c)` is the
   * timeout flag as seen when the loop is about to wait for edge c. The bus
   * holds every edge at which the receiver sees valid high.
   */
  method DriveEncoder<S(!new)>(buffer: seq<S>, kk: nat, ready: nat -> Logic, stop: nat -> bool, horizon: nat)
    returns (bus: seq<Sample<S>>, log: Log<S>, accepted: nat, unknown: nat, cycle: nat, done: bool)
    requires kk <= |buffer| && |buffer| > 0
    ensures kk > 0 ==> Delivers(bus, Frame(buffer[..kk]), accepted, log, cycle)
    ensures kk > 0 && done ==> Taken(bus) == Frame(buffer[..kk])
    ensures kk > 0 && (forall c :: 0 <= c <= horizon ==> !stop(c)) ==>
      accepted == |Taken(bus)| && (done <==> Ones(ready, horizon) >= kk)
    ensures unknown == Unknowns(ready, cycle) && cycle <= horizon
    ensures kk == 0 && horizon > 0 ==> bus == [Sample(Beat(buffer[0], false, false), ready(0))]
  {
    bus, log, accepted, unknown, cycle := [], Log([], 0), 0, 0, 0;
    var show := Beat(buffer[0], kk == 1, false);
    if kk == 0 {
      // Valid is up before the length is looked at, and stays so over one rising edge.
      if horizon > 0 { bus := [Sample(show, ready(0))]; }
      done := true;
      return;
    }
    bus, log, accepted, unknown, cycle := SendFrame(buffer, kk, ready, stop, horizon, Frame(buffer[..kk]));
    done := accepted == kk;
    OnesGrow(ready, cycle, horizon);
  }

  /** The process once valid is up, for a nonempty message; `beats` is what it has to send. */
  method SendFrame<S(!new)>(buffer: seq<S>, kk: nat, ready: nat -> Logic, stop: nat -> bool, horizon: nat,
                            ghost beats: seq<Beat<S>>)
    returns (bus: seq<Sample<S>>, log: Log<S>, accepted: nat, unknown: nat, cycle: nat)
    requires 0 < kk == |beats| <= |buffer|
    requires forall i :: 0 <= i < kk ==> beats[i] == Beat(buffer[i], i == kk - 1, false)
    ensures Delivers(bus, beats, accepted, log, cycle) && accepted == Ones(ready, cycle)
    ensures accepted == kk ==> Taken(bus) == beats
    ensures accepted == kk || cycle == horizon || stop(cycle)
    ensures !stop(cycle) ==> accepted == |Taken(bus)|
    ensures unknown == Unknowns(ready, cycle) && cycle <= horizon
  {
    bus, log, accepted, unknown, cycle := [], Log([], 0), 0, 0, 0;
    var show := Beat(buffer[0], kk == 1, false);
    Started(beats, show, log, ready);
    while accepted < kk && !stop(cycle) && cycle < horizon
      invariant accepted <= kk && cycle <= horizon
      invariant Underway(bus, beats, accepted, show, log, ready, cycle)
      invariant unknown == Unknowns(ready, cycle)
      decreases horizon - cycle
    {
      var before := accepted;
      ghost var next;
      bus, log, accepted, unknown, next := TakeEdge(bus, log, accepted, unknown, cycle, show, ready, beats);
      if before < accepted < kk {
        show := Beat(buffer[accepted], accepted == kk - 1, false);
      }
      cycle := cycle + 1;
    }
    // Left on a falling edge before the end, valid stays high over one more rising edge.
    var stray := accepted < kk && cycle < horizon;
    Delivered(bus, beats, accepted, show, log, ready, cycle, stray);
    if stray { bus := bus + [Sample(show, ready(cycle))]; }
  }

  // ----- the decoder's input driver -----

  /** The received word as a frame, with its erasure flags. */
  function Received<S>(rx: seq<S>, er: seq<bool>): (beats: seq<Beat<S>>)
    requires |rx| == |er|
    ensures |beats| == |rx|
  {
    seq(|rx|, i requires 0 <= i < |rx| => Beat(rx[i], i == |rx| - 1, er[i]))
  }

  /**
   * Drives a received word of len symbols. The timeout flag is looked at
   * twice a cycle: `stopAfter(c)` right after edge c and `stop(c)` when the
   * loop is about to wait for edge c; once set it stays set.
   */
  method DriveDecoder<S(!new)>(rx: seq<S>, er: seq<bool>, len: nat, ready: nat -> Logic,
                               stop: nat -> bool, stopAfter: nat -> bool, horizon: nat)
    returns (bus: seq<Sample<S>>, log: Log<S>, accepted: nat, unknown: nat, cycle: nat, done: bool)
    requires len <= |rx| == |er| && |rx| > 0
    requires forall c: nat :: stopAfter(c) ==> stop(c + 1)
    ensures len > 0 ==> Delivers(bus, Received(rx[..len], er[..len]), accepted, log, cycle)
    ensures len > 0 && done ==> Taken(bus) == Received(rx[..len], er[..len])
    ensures len > 0 && (forall c :: 0 <= c <= horizon ==> !stop(c)) ==>
      accepted == |Taken(bus)| && (done <==> Ones(ready, horizon) >= len)
    ensures unknown == Unknowns(ready, cycle) && cycle <= horizon
    ensures len == 0 && horizon > 0 ==> bus == [Sample(Beat(rx[0], false, er[0]), ready(0))]
  {
    bus, log, accepted, unknown, cycle := [], Log([], 0), 0, 0, 0;
    var show := Beat(rx[0], len == 1, er[0]);
    if len == 0 {
      if horizon > 0 { bus := [Sample(show, ready(0))]; }
      done := true;
      return;
    }
    bus, log, accepted, unknown, cycle := SendReceived(rx, er, len, ready, stop, stopAfter, horizon,
                                                       Received(rx[..len], er[..len]));
    done := accepted == len;
    OnesGrow(ready, cycle, horizon);
  }

  /** The process once valid is up, for a nonempty word; `beats` is what it has to send. */
  method SendReceived<S(!new)>(rx: seq<S>, er: seq<bool>, len: nat, ready: nat -> Logic, stop: nat -> bool,
                               stopAfter: nat -> bool, horizon: nat, ghost beats: seq<Beat<S>>)
    returns (bus: seq<Sample<S>>, log: Log<S>, accepted: nat, unknown: nat, cycle: nat)
    requires 0 < len == |beats| <= |rx| == |er|
    requires forall i :: 0 <= i < len ==> beats[i] == Beat(rx[i], i == len - 1, er[i])
    requires forall c: nat :: stopAfter(c) ==> stop(c + 1)
    ensures Delivers(bus, beats, accepted, log, cycle) && accepted == Ones(ready, cycle)
    ensures accepted == len ==> Taken(bus) == beats
    ensures accepted == len || cycle == horizon || stop(cycle)
    ensures !stop(cycle) ==> accepted == |Taken(bus)|
    ensures unknown == Unknowns(ready, cycle) && cycle <= horizon
  {
    bus, log, accepted, unknown, cycle := [], Log([], 0), 0, 0, 0;
    var show := Beat(rx[0], len == 1, er[0]);
    var waited := true;
    ghost var next := show;
    Started(beats, show, log, ready);
    while accepted < len && !stop(cycle) && cycle < horizon
      invariant accepted <= len && cycle <= horizon
      invariant Underway(bus, beats, accepted, next, log, ready, cycle)
      invariant waited && accepted < len ==> next == show
      invariant !waited ==> accepted == len || stop(cycle)
      invariant unknown == Unknowns(ready, cycle)
      decreases horizon - cycle
    {
      var before := accepted;
      bus, log, accepted, unknown, next := TakeEdge(bus, log, accepted, unknown, cycle, show, ready, beats);
      waited := accepted < len && !stopAfter(cycle);
      if waited && before < accepted {
        show := Beat(rx[accepted], accepted == len - 1, er[accepted]);
      }
      cycle := cycle + 1;
    }
    var stray := accepted < len && waited && cycle < horizon;
    Delivered(bus, beats, accepted, next, log, ready, cycle, stray);
    if stray { bus := bus + [Sample(show, ready(cycle))]; }
  }

  // ----- the throughput feed -----

  /** The places of the last symbols, in codewords of length n. */
  function CodewordEnds(n: nat): nat -> bool
    requires n > 0
  {
    (i: nat) => i % n == n - 1
  }

  /** Symbol i of codeword c is marked last exactly when it is the codeword's final one. */
  lemma CodewordEndsIs(n: nat, c: nat, i: nat)
    requires i < n
    ensures CodewordEnds(n)(c * n + i) <==> i == n - 1
  {
    RemainderIs(c * n + i, n, c, i);
  }

  /** A burst of symbols, those at the given places marked last. */
  function Burst<S>(tx: seq<S>, ends: nat -> bool): (beats: seq<Beat<S>>)
    ensures |beats| == |tx|
  {
    seq(|tx|, i requires 0 <= i < |tx| => Beat(tx[i], ends(i), false))
  }

  /** Drives a whole burst, showing the next symbol afresh on every falling edge. */
  method Feed<S(!new)>(tx: seq<S>, n: nat, ready: nat -> Logic, horizon: nat)
    returns (bus: seq<Sample<S>>, fi: nat, invalid: nat, cycle: nat, first: nat)
    requires |tx| > 0 && n > 0
    ensures Holds(bus) && fi <= |tx| && Taken(bus) == Burst(tx, CodewordEnds(n))[..fi]
    ensures fi == |tx| <==> Ones(ready, horizon) >= |tx|
    ensures invalid == Unknowns(ready, cycle) && cycle <= horizon
    ensures fi > 0 ==> first < cycle && ready(first) == One && Ones(ready, first) == 0
  {
    bus, fi, invalid, cycle, first :=
      SendBurst(tx, (i: nat) => i % n == n - 1, ready, horizon, Burst(tx, CodewordEnds(n)));
    OnesGrow(ready, cycle, horizon);
  }

  /** What the bus carried before edge `cycle`, and what is on show. */
  ghost predicate Carrying<S(!new)>(
    bus: seq<Sample<S>>, beats: seq<Beat<S>>, count: nat, show: Beat<S>, ready: nat -> Logic, cycle: nat)
  {
    Carries(bus, beats, count, show) && count == Ones(ready, cycle)
  }

  /** One rising edge: the beat on show goes over the bus, and is counted if taken. */
  method FeedEdge<S(!new)>(
    bus0: seq<Sample<S>>, fi0: nat, invalid0: nat, cycle: nat, show: Beat<S>, ready: nat -> Logic,
    ghost beats: seq<Beat<S>>)
    returns (bus: seq<Sample<S>>, fi: nat, invalid: nat, ghost next: Beat<S>)
    requires Carrying(bus0, beats, fi0, show, ready, cycle) && fi0 < |beats| && invalid0 == Unknowns(ready, cycle)
    ensures fi == fi0 + if ready(cycle) == One then 1 else 0
    ensures invalid == Unknowns(ready, cycle + 1)
    ensures next == if ready(cycle) == One && fi < |beats| then beats[fi] else show
    ensures fi < |beats| ==> next == beats[fi]
    ensures Carrying(bus, beats, fi, next, ready, cycle + 1)
  {
    bus, fi, invalid := bus0 + [Sample(show, ready(cycle))], fi0, invalid0;
    if ready(cycle) != Zero && ready(cycle) != One { invalid := invalid + 1; }
    if ready(cycle) == One { fi := fi + 1; }
    next := if ready(cycle) == One && fi < |beats| then beats[fi] else show;
    Edge(bus0, beats, fi0, show, ready(cycle), next);
  }

  /** The process itself; `beats` is what it has to send. */
  method SendBurst<S(!new)>(tx: seq<S>, ends: nat -> bool, ready: nat -> Logic, horizon: nat,
                            ghost beats: seq<Beat<S>>)
    returns (bus: seq<Sample<S>>, fi: nat, invalid: nat, cycle: nat, first: nat)
    requires 0 < |tx| == |beats|
    requires forall i :: 0 <= i < |tx| ==> beats[i] == Beat(tx[i], ends(i), false)
    ensures Holds(bus) && fi <= |tx| && Taken(bus) == beats[..fi] && fi == Ones(ready, cycle)
    ensures fi == |tx| || cycle == horizon
    ensures invalid == Unknowns(ready, cycle) && cycle <= horizon
    ensures fi > 0 ==> first < cycle && ready(first) == One && Ones(ready, first) == 0
  {
    bus, fi, invalid, cycle, first := [], 0, 0, 0, 0;
    var show := Beat(tx[0], ends(0), false);
    while fi < |tx| && cycle < horizon
      invariant fi <= |tx| && cycle <= horizon
      invariant Carrying(bus, beats, fi, show, ready, cycle)
      invariant invalid == Unknowns(ready, cycle)
      invariant fi > 0 ==> first < cycle && ready(first) == One && Ones(ready, first) == 0
      decreases horizon - cycle
    {
      if fi == 0 && ready(cycle) == One { first := cycle; }
      ghost var next;
      bus, fi, invalid, next := FeedEdge(bus, fi, invalid, cycle, show, ready, beats);
      if fi < |tx| {
        show := Beat(tx[fi], ends(fi), false);
      }
      cycle := cycle + 1;
    }
  }
}
