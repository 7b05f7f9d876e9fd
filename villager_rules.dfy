/**
 * The arithmetic behind a villager's life (villager.py): life stages by age,
 * carrying capacity, the mood ladder, and the factors that stretch or shorten
 * the cooldown after each action.
 */
module VillagerRules {
  import opened Constants
  import opened Geometry

  // ---------------------------------------------------------------------
  // Life stages

  /** The branch of `age_one_day` that picks the stage for an age. */
  function StageForAge(age: int): LifeStage
  {
    if age < 18 then Child
    else if age < 65 then Adult
    else if age < 80 then Elder
    else Retired
  }

  /** Position of a stage in the order a life runs through them. */
  function StageRank(s: LifeStage): (r: nat)
    ensures r < 4
  {
    match s
    case Child => 0
    case Adult => 1
    case Elder => 2
    case Retired => 3
  }

  /** Each stage covers exactly its age band. */
  lemma StageBands(age: int)
    ensures StageForAge(age) == Child <==> age < 18
    ensures StageForAge(age) == Adult <==> 18 <= age < 65
    ensures StageForAge(age) == Elder <==> 65 <= age < 80
    ensures StageForAge(age) == Retired <==> 80 <= age
  {
  }

  /** Growing older never moves a villager back to an earlier stage. */
  lemma StageMonotone(a: int, b: int)
    requires a <= b
    ensures StageRank(StageForAge(a)) <= StageRank(StageForAge(b))
  {
  }

  /** One day of ageing moves a villager at most one stage on. */
  lemma StageStepsOneAtATime(age: int)
    ensures StageRank(StageForAge(age + 1)) <= StageRank(StageForAge(age)) + 1
  {
  }

  /** Full carrying capacity for working-age stages, half otherwise. */
  function CapacityFor(s: LifeStage): int
  {
    if s == Adult || s == Elder then CARRY_CAPACITY else CARRY_CAPACITY / 2
  }

  /** By age: 10 units from 18 up to 79 years, 5 units for children and the retired. */
  lemma CapacityByAge(age: int)
    ensures CapacityFor(StageForAge(age)) == if 18 <= age < 80 then 10 else 5
  {
  }

  // ---------------------------------------------------------------------
  // Mood ladder SAD < NEUTRAL < HAPPY

  function MoodIndex(m: Mood): (i: nat)
    ensures i < 3
  {
    match m
    case Sad => 0
    case Neutral => 1
    case Happy => 2
  }

  /** `levels[idx]` for the ladder `[SAD, NEUTRAL, HAPPY]`. */
  function MoodAt(i: int): (m: Mood)
    requires 0 <= i < 3
    ensures MoodIndex(m) == i
  {
    if i == 0 then Sad else if i == 1 then Neutral else Happy
  }

  function ClampIndex(i: int): (r: int)
    ensures 0 <= r < 3
    ensures 0 <= i < 3 ==> r == i
  {
    if i < 0 then 0 else if i > 2 then 2 else i
  }

  /** `adjust_mood`: move `delta` rungs along the ladder, stopping at either end. */
  function MoodAfter(m: Mood, delta: int): Mood
  {
    MoodAt(ClampIndex(MoodIndex(m) + delta))
  }

  /** Moving along the ladder is monotone in `delta` and bounded by the ends. */
  lemma MoodAfterMonotone(m: Mood, d1: int, d2: int)
    requires d1 <= d2
    ensures MoodIndex(MoodAfter(m, d1)) <= MoodIndex(MoodAfter(m, d2))
    ensures d1 >= 0 ==> MoodIndex(m) <= MoodIndex(MoodAfter(m, d1))
    ensures d2 <= 0 ==> MoodIndex(MoodAfter(m, d2)) <= MoodIndex(m)
  {
  }

  /** Two adjustments in the same direction are one adjustment by their sum. */
  lemma MoodAfterComposes(m: Mood, a: int, b: int)
    requires (a >= 0 && b >= 0) || (a <= 0 && b <= 0)
    ensures MoodAfter(MoodAfter(m, a), b) == MoodAfter(m, a + b)
  {
  }

  /** `+1` from HAPPY and `-1` from SAD leave the mood as it is; one step otherwise moves one rung. */
  lemma MoodOneStep(m: Mood)
    ensures MoodAfter(m, 1) == (if m == Happy then Happy else MoodAt(MoodIndex(m) + 1))
    ensures MoodAfter(m, -1) == (if m == Sad then Sad else MoodAt(MoodIndex(m) - 1))
  {
  }

  // ---------------------------------------------------------------------
  // Action delay

  /** The personality factor (1.2, 0.8, 1.0) in tenths. */
  function PersonalityFactor(p: Personality): int
  {
    match p
    case Lazy => 12
    case Industrious => 8
    case Social => 10
  }

  /** The mood factor (0.9 when happy, 1.1 when sad, else 1.0) in tenths. */
  function MoodFactor(m: Mood): int
  {
    match m
    case Happy => 9
    case Sad => 11
    case Neutral => 10
  }

  /** The life-stage factor (1.5, 1.0, 1.2, 2.0) in tenths. */
  function StageFactor(s: LifeStage): int
  {
    match s
    case Child => 15
    case Adult => 10
    case Elder => 12
    case Retired => 20
  }

  /** Python's `int(a / b)`: division truncated toward zero. */
  function TruncDiv(a: int, b: int): (q: int)
    requires b > 0
    ensures a >= 0 ==> q >= 0
    ensures a <= 0 ==> q <= 0
  {
    if a >= 0 then a / b else -((-a) / b)
  }

  /** The truncated quotient has the magnitude of the floor of `|a| / b`, whatever the sign of `a`. */
  lemma TruncDivBounds(a: int, b: int)
    requires b > 0
    ensures Abs(TruncDiv(a, b)) * b <= Abs(a) < (Abs(TruncDiv(a, b)) + 1) * b
  {
    var m := Abs(a);
    var q := m / b;
    assert m == q * b + m % b;
    assert (q + 1) * b == q * b + b;
    assert Abs(TruncDiv(a, b)) == q;
  }

  /** The product of the three factors, in thousandths. */
  function DelayFactor(p: Personality, m: Mood, s: LifeStage): (f: int)
    ensures 720 <= f <= 2640
  {
    PersonalityFactor(p) * MoodFactor(m) * StageFactor(s)
  }

  /**
   * The tail of `_action_delay`: the (tool-adjusted) delay scaled by the three
   * factors, truncated, and never below one tick.
   */
  function ScaledDelay(delay: int, p: Personality, m: Mood, s: LifeStage): (r: int)
    ensures r >= 1
    ensures delay >= 1 ==> r <= 3 * delay
    ensures delay >= 1 && p == Social && m == Neutral && s == Adult ==> r == delay
  {
    var f := DelayFactor(p, m, s);
    ScaledBounds(delay, f);
    var scaled := TruncDiv(delay * f, 1000);
    if scaled > 1 then scaled else 1
  }

  /** A longer base delay never gives a shorter scaled delay. */
  lemma ScaledDelayMonotone(d1: int, d2: int, p: Personality, m: Mood, s: LifeStage)
    requires 1 <= d1 <= d2
    ensures ScaledDelay(d1, p, m, s) <= ScaledDelay(d2, p, m, s)
  {
    var f := DelayFactor(p, m, s);
    MulMono(d1, d2, f);
    MulMono(0, d1, f);
    DivMono(d1 * f, d2 * f, 1000);
  }

  lemma ScaledBounds(delay: int, f: int)
    requires 720 <= f <= 2640
    ensures delay >= 1 ==> 0 <= delay * f <= 2640 * delay
  {
    if delay >= 1 {
      MulMono(f, 2640, delay);
      MulMono(0, f, delay);
    }
  }

  lemma MulMono(a: int, b: int, f: int)
    requires a <= b && f >= 0
    ensures a * f <= b * f && f * a <= f * b
  {
    assert b * f - a * f == (b - a) * f;
  }

  lemma DivMono(a: int, b: int, d: int)
    requires 0 <= a <= b && d > 0
    ensures a / d <= b / d
  {
    if a / d > b / d {
      MulMono(b / d + 1, a / d, d);
      assert false;
    }
  }

  /** `max(1, delay // 2)`: the halving a nearby Blacksmith or a finished road grants. */
  function Halved(delay: int): (r: int)
    ensures r >= 1
    ensures delay >= 2 ==> 2 * r <= delay < 2 * r + 2
    ensures delay <= 1 ==> r == 1
  {
    if delay / 2 > 1 then delay / 2 else 1
  }

  /** Halving never lengthens a delay of at least one tick. */
  lemma HalvedShortens(delay: int)
    requires delay >= 1
    ensures Halved(delay) <= delay
    ensures delay >= 2 ==> Halved(delay) < delay
  {
  }

  // ---------------------------------------------------------------------
  // Neighbourhoods and inventories

  /** `sum(d.values())` for a dictionary keyed by resource names. */
  function ResourceTotal(d: map<Resource, int>): int
  {
    (if Wood in d then d[Wood] else 0) + (if Stone in d then d[Stone] else 0) + (if Food in d then d[Food] else 0)
  }

  function Get(d: map<Resource, int>, r: Resource): int
  {
    if r in d then d[r] else 0
  }

  /** Changing one resource changes the total by exactly the difference. */
  lemma TotalAfterUpdate(d: map<Resource, int>, r: Resource, v: int)
    ensures ResourceTotal(d[r := v]) == ResourceTotal(d) - Get(d, r) + v
  {
  }
}
