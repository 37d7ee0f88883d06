/** How the throughput fixture derives the seed of a stream from its name. */
module StreamSeeds {
  import opened Xorshift

  // Each part of a stream's name is multiplied by an odd constant, which can be undone modulo 2^32.

  function InstancePart(x: bv32): bv32 { 0x9E3779B9 * (x + 1) }

  function Uninstance(y: bv32): bv32 { 0x144CBC89 * y - 1 }

  lemma InstanceUndonePlain(x: bv32)
    ensures Uninstance(0x9E3779B9 * (x + 1)) == x
  {
  }

  lemma InstanceUndone(x: bv32)
    ensures Uninstance(InstancePart(x)) == x
  {
    InstanceUndonePlain(x);
  }

  function ScenarioPart(x: bv32): bv32 { 0x85EBCA6B * (x + 1) }

  function Unscenario(y: bv32): bv32 { 0xA5CB9243 * y - 1 }

  lemma ScenarioUndonePlain(x: bv32)
    ensures Unscenario(0x85EBCA6B * (x + 1)) == x
  {
  }

  lemma ScenarioUndone(x: bv32)
    ensures Unscenario(ScenarioPart(x)) == x
  {
    ScenarioUndonePlain(x);
  }

  function PurposePart(x: bv32): bv32 { 0xC2B2AE35 * (x + 1) }

  function Unpurpose(y: bv32): bv32 { 0x7ED1B41D * y - 1 }

  lemma PurposeUndonePlain(x: bv32)
    ensures Unpurpose(0xC2B2AE35 * (x + 1)) == x
  {
  }

  lemma PurposeUndone(x: bv32)
    ensures Unpurpose(PurposePart(x)) == x
  {
    PurposeUndonePlain(x);
  }

  function Mixed(a: bv32, b: bv32, c: bv32, d: bv32): bv32 { a ^ b ^ c ^ d }

  function Nonzero(m: bv32): (s: bv32)
    ensures s != 0
  {
    if m == 0 then 1 else m
  }

  /** The parts mixed into the root seed; a zero mix is replaced by one. */
  function Seed(root: bv32, instance: bv32, scenario: bv32, purpose: bv32): (s: bv32)
    ensures s != 0
  {
    Nonzero(Mixed(root, InstancePart(instance), ScenarioPart(scenario), PurposePart(purpose)))
  }

  // ----- streams are kept apart -----

  /** The seeds are different, or both are the replacement for zero. */
  predicate Apart(s: bv32, t: bv32)
  {
    s != t || s == t == 1
  }

  lemma NonzeroApart(m: bv32, n: bv32)
    ensures m != n ==> Apart(Nonzero(m), Nonzero(n))
  {
  }

  lemma UnmixedPlain(a: bv32, b: bv32, c: bv32, d: bv32)
    ensures Mixed(a ^ b ^ c ^ d, b, c, d) == a
    ensures Mixed(a ^ b ^ c ^ d, a, c, d) == b
    ensures Mixed(a ^ b ^ c ^ d, a, b, d) == c
    ensures Mixed(a ^ b ^ c ^ d, a, b, c) == d
  {
  }

  /** A mix without the other three parts is the fourth. */
  lemma Unmixed(a: bv32, b: bv32, c: bv32, d: bv32)
    ensures Mixed(Mixed(a, b, c, d), b, c, d) == a
    ensures Mixed(Mixed(a, b, c, d), a, c, d) == b
    ensures Mixed(Mixed(a, b, c, d), a, b, d) == c
    ensures Mixed(Mixed(a, b, c, d), a, b, c) == d
  {
    UnmixedPlain(a, b, c, d);
  }

  ghost predicate Unmixes<T(!new)>(mix: (T, T, T, T) -> T, a: T, b: T, c: T, d: T)
  {
    && mix(mix(a, b, c, d), b, c, d) == a && mix(mix(a, b, c, d), a, c, d) == b
    && mix(mix(a, b, c, d), a, b, d) == c && mix(mix(a, b, c, d), a, b, c) == d
  }

  lemma MixedUnmixes(a: bv32, b: bv32, c: bv32, d: bv32)
    ensures Unmixes(Mixed, a, b, c, d)
  {
    Unmixed(a, b, c, d);
  }

  // With three arguments of a mix fixed, different fourth ones give different mixes.

  lemma FirstTells<T(!new)>(mix: (T, T, T, T) -> T, a: T, x: T, b: T, c: T, d: T)
    requires Unmixes(mix, a, b, c, d) && Unmixes(mix, x, b, c, d) && a != x
    ensures mix(a, b, c, d) != mix(x, b, c, d)
  {
  }

  lemma SecondTells<T(!new)>(mix: (T, T, T, T) -> T, part: T -> T, undo: T -> T, a: T, b: T, y: T, c: T, d: T)
    requires undo(part(b)) == b && undo(part(y)) == y && b != y
    requires Unmixes(mix, a, part(b), c, d) && Unmixes(mix, a, part(y), c, d)
    ensures mix(a, part(b), c, d) != mix(a, part(y), c, d)
  {
  }

  lemma ThirdTells<T(!new)>(mix: (T, T, T, T) -> T, part: T -> T, undo: T -> T, a: T, b: T, c: T, z: T, d: T)
    requires undo(part(c)) == c && undo(part(z)) == z && c != z
    requires Unmixes(mix, a, b, part(c), d) && Unmixes(mix, a, b, part(z), d)
    ensures mix(a, b, part(c), d) != mix(a, b, part(z), d)
  {
  }

  lemma FourthTells<T(!new)>(mix: (T, T, T, T) -> T, part: T -> T, undo: T -> T, a: T, b: T, c: T, d: T, w: T)
    requires undo(part(d)) == d && undo(part(w)) == w && d != w
    requires Unmixes(mix, a, b, c, part(d)) && Unmixes(mix, a, b, c, part(w))
    ensures mix(a, b, c, part(d)) != mix(a, b, c, part(w))
  {
  }

  /** Streams from different root seeds have seeds apart. */
  lemma RootsApart(root: bv32, x: bv32, instance: bv32, scenario: bv32, purpose: bv32)
    requires root != x
    ensures Apart(Seed(root, instance, scenario, purpose), Seed(x, instance, scenario, purpose))
  {
    var i, s, p := InstancePart(instance), ScenarioPart(scenario), PurposePart(purpose);
    MixedUnmixes(root, i, s, p);
    MixedUnmixes(x, i, s, p);
    FirstTells(Mixed, root, x, i, s, p);
    NonzeroApart(Mixed(root, i, s, p), Mixed(x, i, s, p));
  }

  /** So have the streams of different instances, */
  lemma InstancesApart(root: bv32, instance: bv32, x: bv32, scenario: bv32, purpose: bv32)
    requires instance != x
    ensures Apart(Seed(root, instance, scenario, purpose), Seed(root, x, scenario, purpose))
  {
    var i, y, s, p := InstancePart(instance), InstancePart(x), ScenarioPart(scenario), PurposePart(purpose);
    InstanceUndone(instance);
    InstanceUndone(x);
    MixedUnmixes(root, i, s, p);
    MixedUnmixes(root, y, s, p);
    SecondTells(Mixed, InstancePart, Uninstance, root, instance, x, s, p);
    NonzeroApart(Mixed(root, i, s, p), Mixed(root, y, s, p));
  }

  /** of different codewords, */
  lemma ScenariosApart(root: bv32, instance: bv32, scenario: bv32, x: bv32, purpose: bv32)
    requires scenario != x
    ensures Apart(Seed(root, instance, scenario, purpose), Seed(root, instance, x, purpose))
  {
    var i, s, y, p := InstancePart(instance), ScenarioPart(scenario), ScenarioPart(x), PurposePart(purpose);
    ScenarioUndone(scenario);
    ScenarioUndone(x);
    MixedUnmixes(root, i, s, p);
    MixedUnmixes(root, i, y, p);
    ThirdTells(Mixed, ScenarioPart, Unscenario, root, i, scenario, x, p);
    NonzeroApart(Mixed(root, i, s, p), Mixed(root, i, y, p));
  }

  /** and for different purposes. */
  lemma PurposesApart(root: bv32, instance: bv32, scenario: bv32, purpose: bv32, x: bv32)
    requires purpose != x
    ensures Apart(Seed(root, instance, scenario, purpose), Seed(root, instance, scenario, x))
  {
    var i, s, p, y := InstancePart(instance), ScenarioPart(scenario), PurposePart(purpose), PurposePart(x);
    PurposeUndone(purpose);
    PurposeUndone(x);
    MixedUnmixes(root, i, s, p);
    MixedUnmixes(root, i, s, y);
    FourthTells(Mixed, PurposePart, Unpurpose, root, i, s, purpose, x);
    NonzeroApart(Mixed(root, i, s, p), Mixed(root, i, s, y));
  }

  // ----- counting codewords in a 32-bit register -----

  function Times<T>(next: T -> T, start: T, c: nat): (w: T)
  {
    if c == 0 then start else next(Times(next, start, c - 1))
  }

  function Next(x: bv32): bv32 { x + 1 }

  function Even(x: bv32): bv32 { x << 1 }

  function Odd(x: bv32): bv32 { (x << 1) | 1 }

  /** The register after c increments. */
  function Counter(c: nat): (w: bv32)
  {
    Times(Next, 0, c)
  }

  /** Counting up and doubling get along as they do for numbers. */
  ghost predicate CountsInBinary<T(!new)>(next: T -> T, start: T, even: T -> T, odd: T -> T)
  {
    even(start) == start && forall x :: BinaryAt(next, even, odd, x)
  }

  ghost predicate BinaryAt<T>(next: T -> T, even: T -> T, odd: T -> T, x: T)
  {
    next(even(x)) == odd(x) && next(odd(x)) == even(next(x))
  }

  lemma {:induction false} TimesDoubles<T(!new)>(next: T -> T, start: T, even: T -> T, odd: T -> T, c: nat)
    requires CountsInBinary(next, start, even, odd)
    ensures Times(next, start, 2 * c) == even(Times(next, start, c))
    ensures Times(next, start, 2 * c + 1) == odd(Times(next, start, c))
  {
    if c > 0 {
      var before := Times(next, start, c - 1);
      TimesDoubles(next, start, even, odd, c - 1);
      assert BinaryAt(next, even, odd, before);
      assert 2 * c == 2 * (c - 1) + 1 + 1;
      TimesNext(next, start, 2 * (c - 1) + 1);
    }
    assert BinaryAt(next, even, odd, Times(next, start, c));
    TimesNext(next, start, 2 * c);
  }

  lemma TimesNext<T>(next: T -> T, start: T, c: nat)
    ensures Times(next, start, c + 1) == next(Times(next, start, c))
  {
  }

  lemma NextPlain(x: bv32)
    ensures (x << 1) + 1 == (x << 1) | 1
    ensures ((x << 1) | 1) + 1 == (x + 1) << 1
  {
  }

  lemma NextDoubled(x: bv32)
    ensures Next(Even(x)) == Odd(x) && Next(Odd(x)) == Even(Next(x))
  {
    NextPlain(x);
  }

  lemma RegisterCountsInBinary()
    ensures CountsInBinary(Next, 0, Even, Odd)
  {
    forall x: bv32
      ensures BinaryAt(Next, Even, Odd, x)
    {
      NextDoubled(x);
    }
  }

  function Doubled(x: bv32, odd: bool): bv32
  {
    if odd then Odd(x) else Even(x)
  }

  lemma CounterHalves(c: nat)
    ensures Counter(c) == Doubled(Counter(c / 2), c % 2 == 1)
  {
    RegisterCountsInBinary();
    TimesHalves(Next, 0, Even, Odd, c);
  }

  lemma TimesHalves<T(!new)>(next: T -> T, start: T, even: T -> T, odd: T -> T, c: nat)
    requires CountsInBinary(next, start, even, odd)
    ensures Times(next, start, c)
         == if c % 2 == 1 then odd(Times(next, start, c / 2)) else even(Times(next, start, c / 2))
  {
    TimesDoubles(next, start, even, odd, c / 2);
    assert c == 2 * (c / 2) + c % 2;
  }

  function Power(b: nat): (n: nat)
  {
    if b == 0 then 1 else 2 * Power(b - 1)
  }

  /** The mask of the low b bits. */
  function Low(b: nat): (m: bv32)
  {
    if b == 0 then 0 else Odd(Low(b - 1))
  }

  lemma MaskPlain(x: bv32, m: bv32)
    ensures (x << 1) & ((m << 1) | 1) == (x & m) << 1
    ensures ((x << 1) | 1) & ((m << 1) | 1) == ((x & m) << 1) | 1
  {
  }

  function Masked(x: bv32, m: bv32): bv32 { x & m }

  lemma DoubledMasked(x: bv32, m: bv32, odd: bool)
    ensures Masked(Doubled(x, odd), Odd(m)) == Doubled(Masked(x, m), odd)
  {
    MaskPlain(x, m);
  }

  /** A number below 2^b has only its low b bits set. */
  lemma {:induction false} CounterFits(c: nat, b: nat)
    requires c < Power(b)
    ensures Masked(Counter(c), Low(b)) == Counter(c)
    decreases b
  {
    if b > 0 {
      CounterFits(c / 2, b - 1);
      CounterHalves(c);
      DoubledMasked(Counter(c / 2), Low(b - 1), c % 2 == 1);
    }
  }

  /** Halving gives back what was doubled, but for the top bit. */
  function Halved(x: bv32): bv32 { x >> 1 }

  lemma HalvedPlain(x: bv32)
    ensures (x << 1) >> 1 == x & 0x7FFF_FFFF
    ensures ((x << 1) | 1) >> 1 == x & 0x7FFF_FFFF
    ensures (x << 1) & 1 == 0
    ensures ((x << 1) | 1) & 1 == 1
  {
  }

  lemma DoubledHalved(x: bv32, odd: bool)
    ensures Halved(Doubled(x, odd)) == Masked(x, 0x7FFF_FFFF)
    ensures Masked(Doubled(x, odd), 1) == if odd then 1 else 0
  {
    HalvedPlain(x);
  }

  lemma LowIs31()
    ensures Low(31) == 0x7FFF_FFFF
  {
    assert Low(8) == 0xFF;
    assert Low(16) == 0xFFFF;
    assert Low(24) == 0xFF_FFFF;
  }

  lemma {:induction false} PowerGrows(a: nat, b: nat)
    requires a <= b
    ensures Power(a) <= Power(b)
  {
    if a < b { PowerGrows(a, b - 1); }
  }

  /** What the register says of its half and of its parity. */
  lemma CounterParts(c: nat)
    requires c < Power(32)
    ensures Halved(Counter(c)) == Counter(c / 2) && Masked(Counter(c), 1) == if c % 2 == 1 then 1 else 0
  {
    CounterHalves(c);
    DoubledHalved(Counter(c / 2), c % 2 == 1);
    CounterFits(c / 2, 31);
    LowIs31();
  }

  /** The register takes no value twice within 2^32 increments. */
  lemma {:induction false} CounterTells(c: nat, d: nat, b: nat)
    requires c < Power(b) && d < Power(b) && b <= 32 && Counter(c) == Counter(d)
    ensures c == d
    decreases b
  {
    if b > 0 {
      PowerGrows(b, 32);
      CounterParts(c);
      CounterParts(d);
      CounterTells(c / 2, d / 2, b - 1);
    }
  }

  // ----- the generator's own version, on integers masked to 32 bits -----

  function PythonInstance(x: bv64): bv64 { ((x + 1) * 0x9E3779B9) & 0xFFFFFFFF }

  lemma InstanceLowPlain(x: bv32)
    ensures PythonInstance(x as bv64) == (0x9E3779B9 * (x + 1)) as bv64
  {
  }

  lemma InstanceLow(x: bv32)
    ensures PythonInstance(Wide(x)) == Wide(InstancePart(x))
  {
    InstanceLowPlain(x);
  }

  function PythonScenario(x: bv64): bv64 { ((x + 1) * 0x85EBCA6B) & 0xFFFFFFFF }

  lemma ScenarioLowPlain(x: bv32)
    ensures PythonScenario(x as bv64) == (0x85EBCA6B * (x + 1)) as bv64
  {
  }

  lemma ScenarioLow(x: bv32)
    ensures PythonScenario(Wide(x)) == Wide(ScenarioPart(x))
  {
    ScenarioLowPlain(x);
  }

  function PythonPurpose(x: bv64): bv64 { ((x + 1) * 0xC2B2AE35) & 0xFFFFFFFF }

  lemma PurposeLowPlain(x: bv32)
    ensures PythonPurpose(x as bv64) == (0xC2B2AE35 * (x + 1)) as bv64
  {
  }

  lemma PurposeLow(x: bv32)
    ensures PythonPurpose(Wide(x)) == Wide(PurposePart(x))
  {
    PurposeLowPlain(x);
  }

  function PythonMixed(a: bv64, b: bv64, c: bv64, d: bv64): bv64 { (a & 0xFFFFFFFF) ^ b ^ c ^ d }

  function PythonNonzero(m: bv64): bv64 { if m == 0 then 1 else m }

  function PythonSeed(root: bv64, instance: bv64, scenario: bv64, purpose: bv64): (s: bv64)
  {
    PythonNonzero(PythonMixed(root, PythonInstance(instance), PythonScenario(scenario), PythonPurpose(purpose)))
  }

  lemma MixedLow(a: bv32, b: bv32, c: bv32, d: bv32)
    ensures PythonMixed(Wide(a), Wide(b), Wide(c), Wide(d)) == Wide(Mixed(a, b, c, d))
  {
  }

  lemma NonzeroLow(m: bv32)
    ensures PythonNonzero(Wide(m)) == Wide(Nonzero(m))
  {
  }

  /** If each stage commutes with a widening, so does the whole. */
  lemma Stages<A(!new), B(!new)>(
    w: A -> B, i: A -> A, i': B -> B, s: A -> A, s': B -> B, p: A -> A, p': B -> B,
    mix: (A, A, A, A) -> A, mix': (B, B, B, B) -> B, fix: A -> A, fix': B -> B, a: A, b: A, c: A, d: A)
    requires i'(w(b)) == w(i(b)) && s'(w(c)) == w(s(c)) && p'(w(d)) == w(p(d))
    requires mix'(w(a), w(i(b)), w(s(c)), w(p(d))) == w(mix(a, i(b), s(c), p(d)))
    requires fix'(w(mix(a, i(b), s(c), p(d)))) == w(fix(mix(a, i(b), s(c), p(d))))
    ensures fix'(mix'(w(a), i'(w(b)), s'(w(c)), p'(w(d)))) == w(fix(mix(a, i(b), s(c), p(d))))
  {
  }

  /** The seeds in the fixture's metadata are the ones the testbench uses. */
  lemma PythonSeedAgrees(root: bv32, instance: bv32, scenario: bv32, purpose: bv32)
    ensures PythonSeed(Wide(root), Wide(instance), Wide(scenario), Wide(purpose))
         == Wide(Seed(root, instance, scenario, purpose))
  {
    var i, s, p := InstancePart(instance), ScenarioPart(scenario), PurposePart(purpose);
    InstanceLow(instance);
    ScenarioLow(scenario);
    PurposeLow(purpose);
    MixedLow(root, i, s, p);
    NonzeroLow(Mixed(root, i, s, p));
    Stages(Wide, InstancePart, PythonInstance, ScenarioPart, PythonScenario, PurposePart, PythonPurpose,
           Mixed, PythonMixed, Nonzero, PythonNonzero, root, instance, scenario, purpose);
  }
}
