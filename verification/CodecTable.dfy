/** The codec workloads: their instances and the scenarios each goes through. */
module CodecTable {

  // ----- scenario table -----

  datatype Config = Config(n: nat, k: nat, erasures: bool, shortenedCode: bool, shortenedParity: bool)

  datatype Scenario = Scenario(tag: nat, kk: nat, par: nat, errors: nat, erasures: nat, throttle: bool)
  {
    function Length(): nat { kk + par }

    function CorruptionCount(): nat { errors + erasures }

    function ZeroErasures(): nat { erasures / 2 }
  }

  function Min(a: nat, b: nat): nat
  {
    if a < b then a else b
  }

  /** The scenarios of one codec instance, in source order. */
  function Scenarios(c: Config): (s: seq<Scenario>)
    requires c.k <= c.n
  {
    var par := c.n - c.k;
    var t := par / 2;
    [Scenario(0, c.k, par, 0, 0, false),
     Scenario(1, c.k, par, t, 0, false),
     Scenario(2, c.k, par, t, 0, true)]
    + (if c.erasures then
         [Scenario(3, c.k, par, 0, t, false),
          Scenario(4, c.k, par, t / 2, t / 2, false),
          Scenario(7, c.k, par, t / 2, t / 2, true)]
       else [])
    + (if c.shortenedCode then [Scenario(5, c.k / 2, par, Min(t, 8), 0, false)] else [])
    + (if c.shortenedParity then [Scenario(6, c.k, t, t / 2, 0, false)] else [])
  }

  /** Every scenario can be corrected and has room for its corruptions. */
  lemma ScenariosCorrectable(c: Config, i: nat)
    requires c.k <= c.n && i < |Scenarios(c)|
    ensures var s := Scenarios(c)[i];
      2 * s.errors + s.erasures <= s.par && s.CorruptionCount() <= s.Length()
  {
    assert Scenarios(c)[i] in Scenarios(c);
  }

  /** No two scenarios share a tag, and only a shortened one-symbol code has an empty message. */
  lemma ScenariosDistinct(c: Config, i: nat, j: nat)
    requires 0 < c.k <= c.n && i < |Scenarios(c)|
    ensures i < j < |Scenarios(c)| ==> Scenarios(c)[i].tag != Scenarios(c)[j].tag
    ensures Scenarios(c)[i].kk == 0 <==> c.k == 1 && Scenarios(c)[i].tag == 5
  {
  }

  // ----- the workloads -----

  /** The instances of the full workload; any other is refused. */
  const INSTANCES := [
    Config(255, 223, true, true, false), Config(255, 223, true, true, false), Config(255, 223, false, true, false),
    Config(15, 11, true, true, false), Config(63, 47, true, true, false), Config(255, 223, true, true, true),
    Config(31, 21, true, true, false), Config(255, 224, true, true, false), Config(255, 224, true, true, false),
    Config(15, 8, true, true, false), Config(63, 50, true, true, false)]

  /** The one instance of the reduced workload, and its scenario table. */
  const REDUCED := Config(15, 11, true, true, false)

  const REDUCED_SCENARIOS := [
    Scenario(0, 11, 4, 0, 0, false), Scenario(1, 11, 4, 2, 0, false), Scenario(2, 11, 4, 2, 0, true),
    Scenario(3, 11, 4, 0, 2, false), Scenario(4, 11, 4, 1, 1, false), Scenario(7, 11, 4, 1, 1, true),
    Scenario(5, 5, 4, 2, 0, false)]

  /** The scenario order the campaign insists on in the reduced workload. */
  const CODEC_SCENARIOS: seq<int> := [0, 1, 2, 3, 4, 7, 5]

  /** How many scenarios the first n instances have. */
  function ScenarioCount(cs: seq<Config>, n: nat): nat
    requires n <= |cs| && forall i :: 0 <= i < |cs| ==> cs[i].k <= cs[i].n
  {
    if n == 0 then 0 else ScenarioCount(cs, n - 1) + |Scenarios(cs[n - 1])|
  }

  function Tags(s: seq<Scenario>): seq<int>
  {
    seq(|s|, i requires 0 <= i < |s| => s[i].tag)
  }

  lemma InstancesFit()
    ensures forall i :: 0 <= i < |INSTANCES| ==> 1 < INSTANCES[i].k <= INSTANCES[i].n
  {
  }

  /**
   * The separately written reduced table is the general table of its one
   * instance, in the order the campaign insists on; the full workload has the
   * 75 scenarios the campaign insists on.
   */
  lemma WorkloadsAgree()
    ensures Scenarios(REDUCED) == REDUCED_SCENARIOS && Tags(REDUCED_SCENARIOS) == CODEC_SCENARIOS
    ensures |INSTANCES| == 11 && forall i :: 0 <= i < |INSTANCES| ==> INSTANCES[i].k <= INSTANCES[i].n
    ensures ScenarioCount(INSTANCES, 11) == 75
  {
    InstancesFit();
    ReducedTable();
    FullCount();
  }

  lemma ReducedTable()
    ensures Scenarios(REDUCED) == REDUCED_SCENARIOS && Tags(REDUCED_SCENARIOS) == CODEC_SCENARIOS
  {
  }

  function ScenariosOf(c: Config): nat
  {
    3 + (if c.erasures then 3 else 0) + (if c.shortenedCode then 1 else 0) + (if c.shortenedParity then 1 else 0)
  }

  lemma CountOne(cs: seq<Config>, n: nat)
    requires n < |cs| && forall i :: 0 <= i < |cs| ==> cs[i].k <= cs[i].n
    ensures ScenarioCount(cs, n + 1) == ScenarioCount(cs, n) + ScenariosOf(cs[n])
  {
  }

  lemma FullCount()
    requires forall i :: 0 <= i < |INSTANCES| ==> INSTANCES[i].k <= INSTANCES[i].n
    ensures ScenarioCount(INSTANCES, 11) == 75
  {
    CountOne(INSTANCES, 0);
    CountOne(INSTANCES, 1);
    CountOne(INSTANCES, 2);
    CountOne(INSTANCES, 3);
    CountOne(INSTANCES, 4);
    CountOne(INSTANCES, 5);
    CountOne(INSTANCES, 6);
    CountOne(INSTANCES, 7);
    CountOne(INSTANCES, 8);
    CountOne(INSTANCES, 9);
    CountOne(INSTANCES, 10);
  }

  /** No scenario of either workload has an empty message, so the drivers always have one to send. */
  lemma WorkloadMessagesNonempty(c: Config, i: nat)
    requires c in INSTANCES || c == REDUCED
    requires c.k <= c.n && i < |Scenarios(c)|
    ensures Scenarios(c)[i].kk > 0 && Scenarios(c)[i].Length() > 0
  {
    InstancesFit();
    ScenariosDistinct(c, i, i);
  }
}
