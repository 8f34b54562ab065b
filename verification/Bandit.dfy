/**
  The user-space bandit: epsilon-greedy, UCB and discounted UCB over a table of arms.
  Rewards, counts and totals are reals; square root and logarithm are parameters.
 */
module Bandit {
  import opened RealSums

  type AtLeastOne = x: real | x >= 1.0 witness 1.0

  datatype Algorithm = EGreedy | Ucb | Ducb

  datatype Mode = RoundRobin | Transition | MainLoop

  /** `once` is the setting that normalises rewards when the main loop starts; `coreLast` is the
      core number that the normalisation uses as its bound. */
  datatype Params = Params(
    n: nat, algorithm: Algorithm, gamma: real, epsilon: real, c: real, once: bool, coreLast: nat,
    sqrt: NonNegative -> real, log: AtLeastOne -> NonNegative)
  {
    ghost predicate Valid() {
      n >= 1 && (algorithm == Ducb ==> gamma > 0.0)
    }

    /** What a selection multiplies the counts by. */
    function Discount(): real {
      if algorithm == Ducb then gamma else 1.0
    }
  }

  /** `fault` records a division by zero; from then on the rewards stand for values that are not
      numbers. */
  datatype State = State(
    mode: Mode, arm: nat, rr: nat, total: real,
    rewards: seq<real>, nums: seq<real>, ipcs: seq<real>, avg: real, iterations: nat, fault: bool)

  /** One tick: the IPC just measured, whether the deviation filter asks for sleep, and the two
      random draws. */
  datatype Input = Input(reward: real, sleep: bool, roll: real, pick: nat)

  // ----- Sums -----

  lemma SumUpdate(xs: seq<real>, i: nat, x: real)
    requires i < |xs|
    ensures Sum(xs[i := x]) == Sum(xs) - xs[i] + x
  {
    assert xs == xs[..i] + ([xs[i]] + xs[i + 1..]);
    assert xs[i := x] == xs[..i] + ([x] + xs[i + 1..]);
    SumAppend(xs[..i], [xs[i]] + xs[i + 1..]);
    SumAppend(xs[..i], [x] + xs[i + 1..]);
    SumAppend([xs[i]], xs[i + 1..]);
    SumAppend([x], xs[i + 1..]);
    assert Sum([xs[i]]) == xs[i] && Sum([x]) == x;
  }

  function Times(a: real, b: real): real {
    a * b
  }

  lemma TimesLaws(a: real, b: real, f: real)
    ensures Times(a + b, f) == Times(a, f) + Times(b, f)
    ensures Times(0.0, f) == 0.0 && Times(1.0, f) == f && Times(a, 1.0) == a
    ensures a > 0.0 && f > 0.0 ==> Times(a, f) > 0.0
  {
  }

  function Scaled(xs: seq<real>, f: real): (r: seq<real>)
    ensures |r| == |xs| && forall i :: 0 <= i < |xs| ==> r[i] == Times(xs[i], f)
  {
    seq(|xs|, i requires 0 <= i < |xs| => Times(xs[i], f))
  }

  lemma {:induction false} SumScaled(xs: seq<real>, f: real)
    ensures Sum(Scaled(xs, f)) == Times(Sum(xs), f)
  {
    hide Times;
    TimesLaws(0.0, 0.0, f);
    if xs != [] {
      assert Scaled(xs, f)[1..] == Scaled(xs[1..], f);
      SumScaled(xs[1..], f);
      TimesLaws(xs[0], Sum(xs[1..]), f);
    }
  }

  /** Values that are not negative add up to zero exactly when every one is zero. */
  lemma {:induction false} SumZeroIff(xs: seq<real>)
    requires forall i :: 0 <= i < |xs| ==> xs[i] >= 0.0
    ensures Sum(xs) >= 0.0
    ensures Sum(xs) == 0.0 <==> forall i :: 0 <= i < |xs| ==> xs[i] == 0.0
  {
    if xs != [] {
      SumZeroIff(xs[1..]);
      assert forall i :: 1 <= i < |xs| ==> xs[i] == xs[1..][i - 1];
    }
  }

  // ----- Selection -----

  ghost predicate LowestMaximum(xs: seq<real>, r: nat) {
    && r < |xs|
    && (forall j :: 0 <= j < |xs| ==> xs[j] <= xs[r])
    && (forall j :: 0 <= j < r ==> xs[j] < xs[r])
  }

  /** Scan with a strict comparison, starting from candidate `best` before position i. */
  function ArgMaxFrom(xs: seq<real>, best: nat, i: nat): (r: nat)
    requires best < i <= |xs|
    ensures LowestMaximum(xs[..i], best) ==> LowestMaximum(xs, r)
    ensures r < |xs|
    decreases |xs| - i
  {
    if i == |xs| then
      assert xs[..i] == xs;
      best
    else
      assert xs[..i + 1] == xs[..i] + [xs[i]];
      ArgMaxFrom(xs, if xs[i] > xs[best] then i else best, i + 1)
  }

  function ArgMax(xs: seq<real>): (r: nat)
    requires xs != []
    ensures LowestMaximum(xs, r)
  {
    ArgMaxFrom(xs, 0, 1)
  }

  /** Upper confidence bound of one arm. */
  function Potential(p: Params, reward: real, num: real, total: AtLeastOne): real
    requires num > 0.0
  {
    reward + p.c * p.sqrt(p.log(total) / num)
  }

  function Potentials(p: Params, s: State): (r: seq<real>)
    requires Counted(p, s)
    ensures |r| == p.n
  {
    seq(p.n, i requires 0 <= i < p.n && Counted(p, s) => Potential(p, s.rewards[i], s.nums[i], s.total))
  }

  /** Comparisons with values that are not numbers come out false, so that a selection among such
      rewards yields some arm, here whatever `pick` says. */
  function NextArm(p: Params, s: State, input: Input): (r: nat)
    requires p.Valid() && Counted(p, s)
    ensures r < p.n
  {
    if s.fault then input.pick % p.n
    else if p.algorithm == EGreedy then
      if input.roll < p.epsilon then input.pick % p.n else ArgMax(s.rewards)
    else ArgMax(Potentials(p, s))
  }

  // ----- State invariant -----

  ghost predicate Shaped(p: Params, s: State) {
    |s.rewards| == |s.nums| == |s.ipcs| == p.n && s.arm < p.n
  }

  /** All counts positive and the total at least one: every division and logarithm is defined. */
  ghost predicate Counted(p: Params, s: State) {
    && p.n >= 1 && Shaped(p, s) && s.total >= 1.0
    && forall i :: 0 <= i < p.n ==> s.nums[i] > 0.0
  }

  /** During round robin the arms below the counter have been pulled once, the others never. */
  ghost predicate Valid(p: Params, s: State) {
    && p.Valid() && Shaped(p, s) && s.total == Sum(s.nums)
    && (s.fault <==> s.avg == 0.0) && (!p.once ==> s.avg == 1.0)
    && (s.mode == RoundRobin ==>
          && s.rr < p.n && s.avg == 1.0
          && (forall i :: 0 <= i < p.n ==> s.nums[i] == if i < s.rr then 1.0 else 0.0))
    && (s.mode == Transition ==> s.avg == 1.0 && s.rr == 0 && forall i :: 0 <= i < p.n ==> s.nums[i] == 1.0)
    && (s.mode != RoundRobin ==> Counted(p, s))
  }

  function Initial(p: Params): State {
    State(RoundRobin, 0, 0, 0.0, seq(p.n, _ => 0.0), seq(p.n, _ => 0.0), seq(p.n, _ => 1.0), 1.0, 0, false)
  }

  // ----- One tick -----

  /** The round-robin evaluation stores the raw reward. */
  function EvaluateRaw(s: State, reward: real): State
    requires s.arm < |s.rewards| && s.arm < |s.ipcs|
  {
    s.(rewards := s.rewards[s.arm := reward], ipcs := s.ipcs[s.arm := reward])
  }

  /** The main-loop evaluation folds the normalised reward into the running mean. */
  function EvaluateMean(s: State, reward: real): State
    requires s.arm < |s.rewards| == |s.nums| == |s.ipcs| && s.nums[s.arm] > 0.0
  {
    s.(rewards := s.rewards[s.arm := Folded(s.rewards[s.arm], s.nums[s.arm], Over(reward, s.avg))],
       ipcs := s.ipcs[s.arm := reward])
  }

  function Folded(mean: real, num: real, x: real): (r: real)
    requires num > 0.0
    ensures r * num == mean * (num - 1.0) + x
  {
    (mean * (num - 1.0) + x) / num
  }

  /** A quotient; where the divisor is zero, a placeholder for what is not a number. */
  function Over(a: real, b: real): real {
    if b == 0.0 then 0.0 else a / b
  }

  /** Divides the first coreLast rewards by the average IPC. */
  function NormaliseFirst(rewards: seq<real>, coreLast: nat, avg: real): (r: seq<real>)
    ensures |r| == |rewards|
  {
    seq(|rewards|, i requires 0 <= i < |rewards| => if i < coreLast then Over(rewards[i], avg) else rewards[i])
  }

  function Normalise(p: Params, s: State): State
    requires p.Valid() && Shaped(p, s)
  {
    var avg := Over(Sum(s.ipcs), p.n as real);
    s.(rewards := NormaliseFirst(s.rewards, p.coreLast, avg), avg := avg, fault := avg == 0.0)
  }

  /** Books the selection of an arm. */
  function Pull(p: Params, s: State, arm: nat): (r: State)
    requires Shaped(p, s) && arm < p.n
  {
    var nums := if p.algorithm == Ducb then Scaled(s.nums, p.gamma) else s.nums;
    var total := if p.algorithm == Ducb then Times(s.total, p.gamma) else s.total;
    s.(arm := arm, nums := nums[arm := nums[arm] + 1.0], total := total + 1.0, iterations := s.iterations + 1)
  }

  function RoundRobinStep(p: Params, s: State, reward: real): State
    requires p.Valid() && Shaped(p, s) && s.rr < p.n
  {
    var e := if s.rr != 0 then EvaluateRaw(s, reward) else s;
    var next := e.(arm := s.rr, nums := s.nums[s.rr := 1.0], total := s.total + 1.0, rr := s.rr + 1,
                   iterations := s.iterations + 1);
    if s.rr + 1 == p.n then next.(rr := 0, mode := Transition) else next
  }

  /** The state in which the main loop looks for its next arm. */
  function Evaluated(p: Params, s: State, input: Input): (r: State)
    requires Valid(p, s) && s.mode != RoundRobin
    ensures Counted(p, r) && r.nums == s.nums && r.total == s.total && r.arm == s.arm && r.rr == s.rr
    ensures (r.fault <==> r.avg == 0.0) && (!p.once ==> r.avg == 1.0)
  {
    if s.mode == Transition then
      var e := EvaluateRaw(s, input.reward);
      if p.once then Normalise(p, e) else e
    else EvaluateMean(s, input.reward)
  }

  function Step(p: Params, s: State, input: Input): (r: State)
    requires Valid(p, s)
  {
    if input.sleep then s.(arm := 0, iterations := s.iterations + 1)
    else if s.mode == RoundRobin then RoundRobinStep(p, s, input.reward)
    else
      var e := Evaluated(p, s, input);
      Pull(p, e, NextArm(p, e, input)).(mode := MainLoop)
  }

  // ----- What every tick keeps -----

  lemma PullKeepsCounts(p: Params, s: State, arm: nat)
    requires p.Valid() && Counted(p, s) && s.total == Sum(s.nums) && arm < p.n
    ensures var r := Pull(p, s, arm); Counted(p, r) && r.total == Sum(r.nums)
  {
    hide Times, Sum;
    var nums := if p.algorithm == Ducb then Scaled(s.nums, p.gamma) else s.nums;
    SumScaled(s.nums, p.gamma);
    SumUpdate(nums, arm, nums[arm] + 1.0);
    forall i | 0 <= i < p.n ensures nums[i] > 0.0 {
      TimesLaws(s.nums[i], 0.0, p.gamma);
    }
    TimesLaws(s.total, 0.0, p.gamma);
  }

  lemma {:induction false} SumConstant(xs: seq<real>, c: real)
    requires forall i :: 0 <= i < |xs| ==> xs[i] == c
    ensures Sum(xs) == |xs| as real * c
  {
    if xs != [] {
      SumConstant(xs[1..], c);
      assert |xs| as real == |xs[1..]| as real + 1.0;
    }
  }

  lemma RoundRobinKeepsValid(p: Params, s: State, reward: real)
    requires Valid(p, s) && s.mode == RoundRobin
    ensures Valid(p, RoundRobinStep(p, s, reward))
  {
    SumUpdate(s.nums, s.rr, 1.0);
    var r := RoundRobinStep(p, s, reward);
    if r.mode == Transition {
      SumConstant(r.nums, 1.0);
    }
  }

  /** The total always equals the sum of the counts, round robin pulls arm after arm, and after
      it every count is positive and the total at least one, sleeping ticks or not. */
  lemma StepKeepsValid(p: Params, s: State, input: Input)
    requires Valid(p, s)
    ensures Valid(p, Step(p, s, input))
  {
    if input.sleep {
    } else if s.mode == RoundRobin {
      RoundRobinKeepsValid(p, s, input.reward);
    } else {
      hide Pull;
      var e := Evaluated(p, s, input);
      var arm := NextArm(p, e, input);
      PullKeepsCounts(p, e, arm);
      PullKeepsRest(p, e, arm);
    }
  }

  /** The main loop starts with a division by zero if and only if rewards are normalised and the
      IPCs stored at that moment add up to zero; for IPCs that are not negative, if and only if
      every one of them is zero. */
  lemma NormalisationFaultsIff(p: Params, s: State, input: Input)
    requires Valid(p, s) && s.mode == Transition && !input.sleep
    ensures var ipcs := s.ipcs[s.arm := input.reward];
      && (Step(p, s, input).fault <==> p.once && Sum(ipcs) == 0.0)
      && ((forall i :: 0 <= i < p.n ==> ipcs[i] >= 0.0) ==>
        (Step(p, s, input).fault <==> p.once && forall i :: 0 <= i < p.n ==> ipcs[i] == 0.0))
  {
    hide Pull, NextArm, Sum;
    var ipcs := s.ipcs[s.arm := input.reward];
    var e := Evaluated(p, s, input);
    PullKeepsRest(p, e, NextArm(p, e, input));
    OverZero(Sum(ipcs), p.n as real);
    if forall i :: 0 <= i < p.n ==> ipcs[i] >= 0.0 {
      SumZeroIff(ipcs);
    }
  }

  lemma OverZero(a: real, b: real)
    requires b > 0.0
    ensures Over(a, b) == 0.0 <==> a == 0.0
  {
    assert Over(a, b) * b == a;
  }

  lemma PullKeepsRest(p: Params, s: State, arm: nat)
    requires Shaped(p, s) && arm < p.n
    ensures var r := Pull(p, s, arm);
      r == s.(arm := arm, nums := r.nums, total := r.total, iterations := s.iterations + 1)
  {
  }

  lemma InitialIsValid(p: Params)
    requires p.Valid()
    ensures Valid(p, Initial(p))
  {
    SumConstant(Initial(p).nums, 0.0);
  }

  /** A zero discount, which the configuration file allows, empties every other arm's count: the
      next confidence bound would divide by zero. Positive counts need a positive discount. */
  lemma CountsStayPositiveIff(p: Params, s: State, arm: nat)
    requires p.n >= 2 && p.algorithm == Ducb && p.gamma >= 0.0 && Counted(p, s) && arm < p.n
    ensures (forall i :: 0 <= i < p.n ==> Pull(p, s, arm).nums[i] > 0.0) <==> p.gamma > 0.0
  {
    hide Times;
    forall i | 0 <= i < p.n ensures p.gamma > 0.0 ==> Times(s.nums[i], p.gamma) > 0.0 {
      TimesLaws(s.nums[i], 0.0, p.gamma);
    }
    var other := if arm == 0 then 1 else 0;
    assert p.gamma == 0.0 ==> Times(s.nums[other], p.gamma) == 0.0 by { TimesZero(s.nums[other]); }
    assert Pull(p, s, arm).nums[other] == Times(s.nums[other], p.gamma);
  }

  lemma TimesZero(a: real)
    ensures Times(a, 0.0) == 0.0
  {
  }

  /** Normalisation reaches every arm exactly when the core number it uses as its bound covers
      them all, unless it would not change the ones left out. */
  lemma NormaliseCoversAllIff(rewards: seq<real>, coreLast: nat, avg: real)
    requires avg != 0.0
    ensures NormaliseFirst(rewards, coreLast, avg) == NormaliseFirst(rewards, |rewards|, avg) <==>
      (coreLast >= |rewards| || avg == 1.0 || forall i :: coreLast <= i < |rewards| ==> rewards[i] == 0.0)
  {
    var a, b := NormaliseFirst(rewards, coreLast, avg), NormaliseFirst(rewards, |rewards|, avg);
    forall i | 0 <= i < |rewards| ensures rewards[i] / avg == rewards[i] <==> avg == 1.0 || rewards[i] == 0.0 {
      QuotientFixed(rewards[i], avg);
    }
    if coreLast < |rewards| {
      assert forall i :: coreLast <= i < |rewards| ==> a[i] == rewards[i] && b[i] == rewards[i] / avg;
    }
    if avg == 1.0 || coreLast >= |rewards| || forall i :: coreLast <= i < |rewards| ==> rewards[i] == 0.0 {
      assert forall i :: 0 <= i < |rewards| ==> a[i] == b[i];
    }
  }

  /** Normalisation makes the average 1: if the rewards are the stored IPCs, all covered and not adding
      up to zero, the normalised rewards add up to their number. */
  lemma NormalisedAverageIsOne(p: Params, s: State)
    requires p.Valid() && Shaped(p, s) && s.rewards == s.ipcs && p.coreLast >= p.n && Sum(s.ipcs) != 0.0
    ensures Sum(Normalise(p, s).rewards) == p.n as real
  {
    hide Sum, Times;
    var avg := Over(Sum(s.ipcs), p.n as real);
    OverZero(Sum(s.ipcs), p.n as real);
    var f := Over(1.0, avg);
    forall i | 0 <= i < p.n ensures Over(s.rewards[i], avg) == Times(s.rewards[i], f) {
      OverIsTimes(s.rewards[i], avg);
    }
    assert Normalise(p, s).rewards == Scaled(s.rewards, f);
    SumScaled(s.rewards, f);
    AverageUndone(Sum(s.ipcs), p.n as real);
  }

  lemma OverIsTimes(x: real, a: real)
    requires a != 0.0
    ensures Over(x, a) == Times(x, Over(1.0, a))
  {
    assert x / a * a == x && 1.0 / a * a == 1.0;
    assert x * (1.0 / a) * a == x;
  }

  lemma AverageUndone(sum: real, n: real)
    requires sum != 0.0 && n > 0.0
    ensures Times(sum, Over(1.0, Over(sum, n))) == n
  {
    var avg := sum / n;
    assert avg * n == sum && avg != 0.0;
    assert 1.0 / avg * avg == 1.0;
    assert sum * (1.0 / avg) == n * (avg * (1.0 / avg));
  }

  lemma QuotientFixed(x: real, a: real)
    requires a != 0.0
    ensures x / a == x <==> a == 1.0 || x == 0.0
  {
    assert (x / a) * a == x;
    assert x * a == x <==> x * (a - 1.0) == 0.0;
  }
}
