/** How the user-space bandit selects: what it prefers, and that UCB leaves no arm for ever. */
module BanditExplores {
  import opened RealSums
  import opened Bandit
  import opened BanditRuns
  import opened BanditSleep

  // ----- What a selection prefers -----

  /** The bound of an arm: its reward plus c times the root of log(total) over its count. */
  ghost predicate Beats(p: Params, s: State, r: nat, j: nat)
    requires Counted(p, s) && r < p.n && j < p.n
  {
    s.rewards[r] + p.c * p.sqrt(p.log(s.total) / s.nums[r]) >= s.rewards[j] + p.c * p.sqrt(p.log(s.total) / s.nums[j])
  }

  /** UCB and DUCB take an arm whose bound no other exceeds. */
  lemma ChoiceHasHighestBound(p: Params, s: State, input: Input, j: nat)
    requires p.Valid() && Counted(p, s) && !s.fault && p.algorithm != EGreedy && j < p.n
    ensures Beats(p, s, NextArm(p, s, input), j)
  {
    var bounds := Potentials(p, s);
    assert LowestMaximum(bounds, NextArm(p, s, input));
    assert bounds[j] <= bounds[NextArm(p, s, input)];
  }

  ghost predicate RisingRoot(p: Params) {
    forall x: NonNegative, y: NonNegative :: x < y ==> p.sqrt(x) < p.sqrt(y)
  }

  lemma MulOrder(a: real, b: real, f: real)
    requires a <= b && f >= 0.0
    ensures a * f <= b * f
  {
    assert b * f - a * f == (b - a) * f;
  }

  lemma MulStrict(a: real, b: real, f: real)
    requires a < b && f > 0.0
    ensures a * f < b * f
  {
    assert b * f - a * f == (b - a) * f;
  }

  lemma QuotientOrder(l: real, a: real, b: real)
    requires l > 0.0 && 0.0 < a < b
    ensures l / b < l / a
  {
    var q, r := l / a, l / b;
    assert q * a == l && r * b == l;
    if q <= r {
      SmallerProduct(q, r, a, b);
    }
  }

  lemma SmallerProduct(q: real, r: real, a: real, b: real)
    requires q <= r && r * b > 0.0 && 0.0 < a < b
    ensures q * a < r * b
  {
    MulOrder(q, r, a);
    assert r > 0.0;
    MulStrict(a, b, r);
  }

  lemma BoundLoses(c: real, r: real, s: real, x: real, y: real)
    requires c > 0.0 && r <= s && x < y
    ensures r + c * x < s + c * y
  {
    MulStrict(x, y, c);
  }

  /** With exploration, of two arms with equal rewards the less pulled one wins: no arm at least as
      good as the chosen one has been pulled less. */
  lemma ChoicePrefersLessPulled(p: Params, s: State, input: Input, j: nat)
    requires p.Valid() && Counted(p, s) && !s.fault && p.algorithm != EGreedy && j < p.n
    requires p.c > 0.0 && p.log(s.total) > 0.0 && RisingRoot(p)
    ensures var r := NextArm(p, s, input);
      s.rewards[j] >= s.rewards[r] ==> s.nums[j] >= s.nums[r]
  {
    hide NextArm, Sum;
    var r := NextArm(p, s, input);
    ChoiceHasHighestBound(p, s, input, j);
    if s.rewards[j] >= s.rewards[r] && s.nums[j] < s.nums[r] {
      var l := p.log(s.total);
      QuotientOrder(l, s.nums[j], s.nums[r]);
      var x: NonNegative, y: NonNegative := l / s.nums[r], l / s.nums[j];
      RootRises(p, x, y);
      BoundLoses(p.c, s.rewards[r], s.rewards[j], p.sqrt(x), p.sqrt(y));
    }
  }

  lemma RootRises(p: Params, x: NonNegative, y: NonNegative)
    requires RisingRoot(p) && x < y
    ensures p.sqrt(x) < p.sqrt(y)
  {
  }

  /** Without exploration the first best reward wins. */
  lemma ChoiceWithoutExploration(p: Params, s: State, input: Input)
    requires p.Valid() && Counted(p, s) && !s.fault && p.algorithm != EGreedy && p.c == 0.0
    ensures LowestMaximum(s.rewards, NextArm(p, s, input))
  {
    assert Potentials(p, s) == s.rewards;
  }

  /** Epsilon-greedy: a draw below epsilon takes the arm drawn, so that any arm can come up; any other
      takes the first best reward. */
  lemma GreedyChoice(p: Params, s: State, input: Input)
    requires p.Valid() && Counted(p, s) && !s.fault && p.algorithm == EGreedy
    ensures input.roll < p.epsilon && input.pick < p.n ==> NextArm(p, s, input) == input.pick
    ensures input.roll >= p.epsilon ==> LowestMaximum(s.rewards, NextArm(p, s, input))
  {
    hide Counted;
    if input.pick < p.n {
      SmallRemainder(input.pick, p.n);
    }
  }

  lemma SmallRemainder(x: nat, n: nat)
    requires x < n
    ensures x % n == x
  {
  }

  // ----- Crowded arms wait -----

  ghost predicate SquareRoot(p: Params) {
    forall x: NonNegative :: p.sqrt(x) >= 0.0 && p.sqrt(x) * p.sqrt(x) == x
  }

  ghost predicate Bounded(s: State, b: real) {
    forall i :: 0 <= i < |s.rewards| ==> -b <= s.rewards[i] <= b
  }

  lemma TimesCommutes(x: real, y: real)
    ensures Times(x, y) == Times(y, x)
  {
  }

  lemma TimesStrict(a: real, b: real, f: real)
    requires a < b && f > 0.0
    ensures Times(a, f) < Times(b, f)
  {
    MulStrict(a, b, f);
  }

  lemma TimesGrows(a: real, b: real, f: real)
    requires a <= b && f >= 0.0
    ensures Times(a, f) <= Times(b, f)
  {
    MulOrder(a, b, f);
  }

  lemma TimesOrder(a: real, b: real, f: real)
    requires a <= b && f >= 0.0
    ensures Times(a, f) <= Times(b, f) && Times(f, a) <= Times(f, b)
    ensures a < b && f > 0.0 ==> Times(a, f) < Times(b, f)
  {
    hide Times;
    TimesGrows(a, b, f);
    TimesCommutes(a, f);
    TimesCommutes(b, f);
    if a < b && f > 0.0 {
      TimesStrict(a, b, f);
    }
  }

  lemma SquareOrder(x: real, y: real)
    requires 0.0 <= x <= y
    ensures Times(x, x) <= Times(y, y) && (x < y ==> Times(x, x) < Times(y, y))
  {
    hide Times;
    TimesOrder(x, y, x);
    TimesOrder(x, y, y);
  }

  /** x squared times m. */
  function Weight(x: real, m: real): real {
    Times(Times(x, x), m)
  }

  lemma WeightLaws(x: real, m: real, n: real)
    ensures Times(2.0 * x, 2.0 * x) == 4.0 * Times(x, x)
    ensures Times(4.0 * m, n) == 4.0 * Times(m, n) && Times(m, n) == Times(n, m)
  {
  }

  lemma LargerRootLargerWeight(x: real, y: real, m: real, n: real)
    requires 0.0 <= x < 2.0 * y && m > 0.0 && n >= 4.0 * m
    ensures Weight(x, m) < Weight(y, n)
  {
    hide Times;
    SquareOrder(x, 2.0 * y);
    WeightLaws(y, m, n);
    WeightLaws(y, Times(y, y), m);
    WeightLaws(y, m, Times(y, y));
    WeightLaws(y, n, Times(y, y));
    SquareOrder(0.0, y);
    TimesZero(0.0);
    TimesOrder(Times(x, x), 4.0 * Times(y, y), m);
    TimesOrder(4.0 * m, n, Times(y, y));
  }

  lemma TimesZero(x: real)
    ensures Times(0.0, x) == 0.0 && Times(x, 0.0) == 0.0
  {
  }

  lemma HalfRoot(x: real, y: real, m: real, n: real)
    requires x >= 0.0 && y >= 0.0 && m > 0.0 && n >= 4.0 * m && Weight(x, m) == Weight(y, n)
    ensures 2.0 * y <= x
  {
    hide Weight;
    if 2.0 * y > x {
      LargerRootLargerWeight(x, y, m, n);
    }
  }

  lemma Regroup(c: real, x: real, m: real)
    ensures Weight(Times(c, x), m) == Times(Weight(x, m), Times(c, c))
  {
    assert c * x * (c * x) == x * x * (c * c);
    assert x * x * (c * c) * m == x * x * m * (c * c);
  }

  lemma Sixteen(b: real, m: real)
    ensures Weight(4.0 * b, m) == 16.0 * Weight(b, m)
  {
    assert 4.0 * b * (4.0 * b) == 16.0 * (b * b);
  }

  lemma CrowdedBeatsSmallLog(c: real, b: real, l: real, m: real, n: real, x: real, y: real, ri: real, rj: real)
    requires c > 0.0 && b >= 0.0 && m > 0.0 && n >= 4.0 * m && x >= 0.0 && y >= 0.0
    requires Weight(x, m) == l && Weight(y, n) == l
    requires -b <= ri <= b && -b <= rj <= b && rj + Times(c, y) >= ri + Times(c, x)
    ensures Times(l, Times(c, c)) <= 16.0 * Weight(b, m)
  {
    HalfRoot(x, y, m, n);
    assert Times(c, 2.0 * y) == 2.0 * Times(c, y);
    hide Times;
    TimesOrder(2.0 * y, x, c);
    TimesOrder(0.0, x, c);
    TimesZero(c);
    assert 0.0 <= Times(c, x) <= 4.0 * b;
    SquareOrder(Times(c, x), 4.0 * b);
    TimesOrder(Times(Times(c, x), Times(c, x)), Times(4.0 * b, 4.0 * b), m);
    Regroup(c, x, m);
    Sixteen(b, m);
  }

  /** log(total) is so large that crowded arms cannot beat an arm with m pulls. */
  predicate LargeLog(p: Params, total: AtLeastOne, b: real, m: real) {
    Times(p.log(total), Times(p.c, p.c)) > 16.0 * Weight(b, m)
  }

  /** Then the next arm is arm i, or one that has been pulled less than four times as often. */
  lemma CrowdedArmsWait(p: Params, s: State, input: Input, i: nat, b: real)
    requires p.Valid() && Counted(p, s) && !s.fault && p.algorithm == Ucb && p.c > 0.0 && SquareRoot(p)
    requires i < p.n && b >= 0.0 && Bounded(s, b) && LargeLog(p, s.total, b, s.nums[i])
    ensures var r := NextArm(p, s, input); r == i || s.nums[r] < 4.0 * s.nums[i]
  {
    hide NextArm, Sum, Beats, Bounded, LargeLog;
    var r := NextArm(p, s, input);
    ChoiceHasHighestBound(p, s, input, i);
    if s.nums[r] >= 4.0 * s.nums[i] {
      CrowdedWinsEarly(p, s, r, i, b);
    }
  }

  /** A crowded arm that beats arm i does so before log(total) is large. */
  lemma CrowdedWinsEarly(p: Params, s: State, r: nat, i: nat, b: real)
    requires Counted(p, s) && p.c > 0.0 && SquareRoot(p) && r < p.n && i < p.n && b >= 0.0 && Bounded(s, b)
    requires Beats(p, s, r, i) && s.nums[r] >= 4.0 * s.nums[i]
    ensures !LargeLog(p, s.total, b, s.nums[i])
  {
    var l, m, n := p.log(s.total), s.nums[i], s.nums[r];
    var ri, rj := s.rewards[i], s.rewards[r];
    var x, y := RootOf(p, l, m), RootOf(p, l, n);
    assert rj + Times(p.c, y) >= ri + Times(p.c, x);
    hide Counted, Bounded, Beats, RootOf, Times, Weight;
    CrowdedBeatsSmallLog(p.c, b, l, m, n, x, y, ri, rj);
  }

  /** The root of l / m, and what its square is. */
  function RootOf(p: Params, l: NonNegative, m: real): (x: real)
    requires m > 0.0 && SquareRoot(p)
    ensures x == p.sqrt(l / m) && x >= 0.0 && Weight(x, m) == l
  {
    var q: NonNegative := l / m;
    assert p.sqrt(q) * p.sqrt(q) == q && q * m == l;
    p.sqrt(q)
  }

  // ----- No arm is left for ever -----

  /** How often arm j may still be pulled before it is crowded. */
  function RoomOf(num: real, cap: real): (r: real)
    ensures r >= 0.0
  {
    if num < cap + 1.0 then cap + 1.0 - num else 0.0
  }

  /** The same for every arm; arm i itself has none. */
  function Rooms(nums: seq<real>, i: nat, cap: real): (r: seq<real>)
    ensures |r| == |nums|
  {
    seq(|nums|, j requires 0 <= j < |nums| => if j == i then 0.0 else RoomOf(nums[j], cap))
  }

  lemma {:induction false} SumAtMost(xs: seq<real>, most: real)
    requires forall j :: 0 <= j < |xs| ==> 0.0 <= xs[j] <= most
    ensures 0.0 <= Sum(xs) <= Times(|xs| as real, most)
  {
    if xs == [] {
      TimesZero(most);
    } else {
      SumAtMost(xs[1..], most);
      OneMoreTimes(|xs[1..]|, most);
    }
  }

  lemma OneMoreTimes(n: nat, x: real)
    ensures Times((n + 1) as real, x) == Times(n as real, x) + x
  {
  }

  /** There is room for at most n * (cap + 1) pulls in all. */
  lemma RoomsBound(nums: seq<real>, i: nat, cap: real)
    requires cap >= 0.0 && forall j :: 0 <= j < |nums| ==> nums[j] >= 0.0
    ensures 0.0 <= Sum(Rooms(nums, i, cap)) <= Times(|nums| as real, cap + 1.0)
  {
    hide Times;
    SumAtMost(Rooms(nums, i, cap), cap + 1.0);
  }

  /** A pull of an arm that is not crowded takes one of the room. */
  lemma PullTakesRoom(nums: seq<real>, i: nat, r: nat, cap: real)
    requires i < |nums| && r < |nums| && r != i && nums[r] < cap
    ensures Sum(Rooms(nums[r := nums[r] + 1.0], i, cap)) == Sum(Rooms(nums, i, cap)) - 1.0
  {
    var rooms := Rooms(nums, i, cap);
    assert Rooms(nums[r := nums[r] + 1.0], i, cap) == rooms[r := rooms[r] - 1.0];
    hide Sum;
    SumUpdate(rooms, r, rooms[r] - 1.0);
  }

  /** A waking main-loop tick of UCB, once log(total) is large: arm i, or one of the room less. */
  lemma TickTakesRoom(p: Params, s: State, input: Input, i: nat, b: real)
    requires Valid(p, s) && s.mode != RoundRobin && !input.sleep && p.algorithm == Ucb && p.c > 0.0 && SquareRoot(p)
    requires i < p.n && b >= 0.0 && LargeLog(p, s.total, b, s.nums[i])
    requires !Evaluated(p, s, input).fault && Bounded(Evaluated(p, s, input), b)
    ensures var r, cap := Step(p, s, input), 4.0 * s.nums[i];
      && r.mode == MainLoop && r.total == s.total + 1.0 && |r.nums| == |s.nums| == p.n
      && (r.arm != i ==> r.nums[i] == s.nums[i] && Sum(Rooms(r.nums, i, cap)) == Sum(Rooms(s.nums, i, cap)) - 1.0)
  {
    hide Sum, LargeLog, Bounded, SquareRoot, NextArm, Evaluated;
    var e := Evaluated(p, s, input);
    CrowdedArmsWait(p, e, input, i, b);
    var arm := NextArm(p, e, input);
    if arm != i {
      PullTakesRoom(s.nums, i, arm, 4.0 * s.nums[i]);
    }
  }

  /** From tick t on for k ticks the bandit wakes, and no mean reward exceeds b. */
  ghost predicate Calm(p: Params, ins: seq<Input>, t: nat, k: nat, b: real)
    requires p.Valid() && t + k <= |ins|
  {
    forall u :: t <= u < t + k ==> CalmTick(p, After(p, ins, u), ins[u], b)
  }

  ghost predicate CalmTick(p: Params, s: State, input: Input, b: real) {
    && Valid(p, s) && !input.sleep
    && (s.mode != RoundRobin ==> !Evaluated(p, s, input).fault && Bounded(Evaluated(p, s, input), b))
  }

  ghost predicate LogStaysLarge(p: Params, from: real, b: real, m: real) {
    forall x: AtLeastOne :: x >= from ==> LargeLog(p, x, b, m)
  }

  /** Once log(total) is and stays large, arm i is pulled within as many ticks as there is room. */
  lemma {:induction false} ArmIsPulledWithinRoom(
    p: Params, ins: seq<Input>, t: nat, k: nat, i: nat, b: real) returns (u: nat)
    requires p.Valid() && p.algorithm == Ucb && p.c > 0.0 && SquareRoot(p) && i < p.n && b >= 0.0
    requires t + k <= |ins| && Calm(p, ins, t, k, b) && After(p, ins, t).mode != RoundRobin
    requires var s := After(p, ins, t);
      LogStaysLarge(p, s.total, b, s.nums[i]) && k as real > Sum(Rooms(s.nums, i, 4.0 * s.nums[i]))
    ensures t < u <= t + k && After(p, ins, u).arm == i
    decreases k
  {
    hide After, Step, Sum, LargeLog, SquareRoot, Evaluated, Bounded, Rooms;
    var s := After(p, ins, t);
    RoomIsThere(p, s, i);
    assert k > 0 && CalmTick(p, s, ins[t], b);
    AfterStep(p, ins, t);
    TickTakesRoom(p, s, ins[t], i, b);
    if After(p, ins, t + 1).arm == i {
      u := t + 1;
    } else {
      u := ArmIsPulledWithinRoom(p, ins, t + 1, k - 1, i, b);
    }
  }

  lemma RoomIsThere(p: Params, s: State, i: nat)
    requires Valid(p, s) && s.mode != RoundRobin && i < p.n
    ensures s.nums[i] > 0.0 && s.total >= 1.0
    ensures 0.0 <= Sum(Rooms(s.nums, i, 4.0 * s.nums[i])) <= Times(p.n as real, 4.0 * s.nums[i] + 1.0)
  {
    hide Sum;
    RoomsBound(s.nums, i, 4.0 * s.nums[i]);
  }

  lemma AfterStep(p: Params, ins: seq<Input>, t: nat)
    requires p.Valid() && t < |ins|
    ensures After(p, ins, t + 1) == Step(p, After(p, ins, t), ins[t])
  {
    hide Step;
  }

  /** Ticks until the total reaches `from`, rounded up. */
  function Wait(total: real, from: real): real {
    if from > total then from - total + 1.0 else 0.0
  }

  lemma TickKeepsOthers(p: Params, s: State, input: Input, i: nat)
    requires Valid(p, s) && s.mode != RoundRobin && !input.sleep && p.algorithm == Ucb && i < p.n
    ensures var r := Step(p, s, input);
      r.mode == MainLoop && r.total == s.total + 1.0 && |r.nums| == p.n && (r.arm != i ==> r.nums[i] == s.nums[i])
  {
    hide Sum, NextArm, Evaluated;
  }

  /** Within so many ticks arm i is pulled: until log(total) is large enough, and then as often as the
      other arms can be pulled before they are crowded. */
  lemma {:induction false} ArmIsPulledAgain(
    p: Params, ins: seq<Input>, t: nat, k: nat, i: nat, b: real, from: real) returns (u: nat)
    requires p.Valid() && p.algorithm == Ucb && p.c > 0.0 && SquareRoot(p) && i < p.n && b >= 0.0
    requires t + k <= |ins| && Calm(p, ins, t, k, b) && After(p, ins, t).mode != RoundRobin
    requires var s := After(p, ins, t);
      && LogStaysLarge(p, from, b, s.nums[i])
      && k as real > Wait(s.total, from) + Times(p.n as real, 4.0 * s.nums[i] + 1.0)
    ensures t < u <= t + k && After(p, ins, u).arm == i
    decreases k
  {
    hide After, Step, Sum, LargeLog, SquareRoot, Evaluated, Bounded, Rooms, Times;
    var s := After(p, ins, t);
    RoomIsThere(p, s, i);
    if s.total >= from {
      u := ArmIsPulledWithinRoom(p, ins, t, k, i, b);
    } else {
      assert k > 0 && CalmTick(p, s, ins[t], b);
      AfterStep(p, ins, t);
      TickKeepsOthers(p, s, ins[t], i);
      if After(p, ins, t + 1).arm == i {
        u := t + 1;
      } else {
        u := ArmIsPulledAgain(p, ins, t + 1, k - 1, i, b, from);
      }
    }
  }

  // ----- Bounded measurements give bounded means -----

  ghost predicate BoundedInputs(ins: seq<Input>, b: real) {
    forall j :: 0 <= j < |ins| ==> -b <= ins[j].reward <= b
  }

  lemma FoldedBounded(mean: real, num: real, x: real, b: real)
    requires num >= 1.0 && -b <= mean <= b && -b <= x <= b
    ensures -b <= Folded(mean, num, x) <= b
  {
    var f := Folded(mean, num, x);
    assert f * num == mean * (num - 1.0) + x;
    MulOrder(mean, b, num - 1.0);
    MulOrder(-b, mean, num - 1.0);
    assert b * (num - 1.0) + b == b * num && -b * (num - 1.0) + -b == -b * num;
    WithinFactor(f, b, num);
  }

  lemma WithinFactor(f: real, b: real, num: real)
    requires num > 0.0 && -b * num <= f * num <= b * num
    ensures -b <= f <= b
  {
    if f > b {
      MulStrict(b, f, num);
    }
    if f < -b {
      MulStrict(f, -b, num);
    }
  }

  /** Every finished pull counts one: after round robin no count is below one. */
  ghost predicate CountsAtLeastOne(s: State) {
    s.mode != RoundRobin ==> forall i :: 0 <= i < |s.nums| ==> s.nums[i] >= 1.0
  }

  lemma StepCountsOne(p: Params, s: State, input: Input)
    requires Valid(p, s) && p.algorithm != Ducb && CountsAtLeastOne(s)
    ensures CountsAtLeastOne(Step(p, s, input))
  {
    hide Sum, NextArm, Evaluated;
  }

  lemma {:induction false} PullsCountOne(p: Params, ins: seq<Input>, t: nat)
    requires p.Valid() && p.algorithm != Ducb && t <= |ins|
    ensures CountsAtLeastOne(After(p, ins, t))
  {
    if t > 0 {
      hide Step, After, CountsAtLeastOne;
      PullsCountOne(p, ins, t - 1);
      StepCountsOne(p, After(p, ins, t - 1), ins[t - 1]);
      AfterStep(p, ins, t - 1);
    }
  }

  lemma EvaluationStaysBounded(p: Params, s: State, input: Input, b: real)
    requires Valid(p, s) && !p.once && s.mode != RoundRobin && CountsAtLeastOne(s)
    requires Bounded(s, b) && -b <= input.reward <= b
    ensures Bounded(Evaluated(p, s, input), b) && !Evaluated(p, s, input).fault
  {
    hide Folded, Sum;
    if s.mode == MainLoop {
      FoldedBounded(s.rewards[s.arm], s.nums[s.arm], input.reward, b);
    }
  }

  lemma StepStaysBounded(p: Params, s: State, input: Input, b: real)
    requires Valid(p, s) && !p.once && p.algorithm != Ducb && CountsAtLeastOne(s)
    requires Bounded(s, b) && -b <= input.reward <= b
    ensures Bounded(Step(p, s, input), b)
  {
    hide Sum;
    if !input.sleep && s.mode != RoundRobin {
      EvaluationStaysBounded(p, s, input, b);
      hide Evaluated, NextArm, Folded;
      var e := Evaluated(p, s, input);
      PullKeepsRest(p, e, NextArm(p, e, input));
    }
  }

  lemma {:induction false} RunStaysBounded(p: Params, ins: seq<Input>, t: nat, b: real)
    requires p.Valid() && !p.once && p.algorithm != Ducb && t <= |ins| && b >= 0.0 && BoundedInputs(ins, b)
    ensures Bounded(After(p, ins, t), b)
  {
    hide Step, After, Bounded, CountsAtLeastOne;
    if t == 0 {
      StartIsBounded(p, ins, b);
    } else {
      RunStaysBounded(p, ins, t - 1, b);
      PullsCountOne(p, ins, t - 1);
      StepStaysBounded(p, After(p, ins, t - 1), ins[t - 1], b);
      AfterStep(p, ins, t - 1);
    }
  }

  lemma StartIsBounded(p: Params, ins: seq<Input>, b: real)
    requires p.Valid() && b >= 0.0
    ensures Bounded(After(p, ins, 0), b)
  {
    assert After(p, ins, 0) == Initial(p);
  }

  /** UCB leaves no arm for ever: without normalisation, with measurements within b, exploration and a
      logarithm that stays large from some total on, every arm is pulled again within a number of
      waking ticks that its count and that total determine. */
  lemma UcbLeavesNoArm(p: Params, ins: seq<Input>, t: nat, k: nat, i: nat, b: real, from: real) returns (u: nat)
    requires p.Valid() && p.algorithm == Ucb && !p.once && p.c > 0.0 && SquareRoot(p) && i < p.n && b >= 0.0
    requires t + k <= |ins| && BoundedInputs(ins, b) && forall j :: t <= j < t + k ==> !ins[j].sleep
    requires After(p, ins, t).mode != RoundRobin
    requires var s := After(p, ins, t);
      && LogStaysLarge(p, from, b, s.nums[i])
      && k as real > Wait(s.total, from) + Times(p.n as real, 4.0 * s.nums[i] + 1.0)
    ensures t < u <= t + k && After(p, ins, u).arm == i
  {
    hide After, Sum, LargeLog, SquareRoot, Evaluated, Times, Bounded, CountsAtLeastOne;
    forall j | t <= j < t + k ensures CalmTick(p, After(p, ins, j), ins[j], b) {
      RunStaysBounded(p, ins, j, b);
      PullsCountOne(p, ins, j);
      if After(p, ins, j).mode != RoundRobin {
        EvaluationStaysBounded(p, After(p, ins, j), ins[j], b);
      }
    }
    u := ArmIsPulledAgain(p, ins, t, k, i, b, from);
  }

  // ----- Every arm, after every past -----

  /** The logarithm never falls and has no upper limit. */
  ghost predicate GrowingLog(p: Params) {
    && (forall x: AtLeastOne, y: AtLeastOne :: x <= y ==> p.log(x) <= p.log(y))
    && (forall l: real :: LogExceeds(p, l))
  }

  ghost predicate LogExceeds(p: Params, l: real) {
    exists x: AtLeastOne :: p.log(x) > l
  }

  lemma LogGetsLarge(p: Params, b: real, m: real) returns (from: AtLeastOne)
    requires p.c > 0.0 && GrowingLog(p)
    ensures LogStaysLarge(p, from, b, m)
  {
    hide Weight;
    TimesStrict(0.0, p.c, p.c);
    TimesZero(p.c);
    var w, square := 16.0 * Weight(b, m), Times(p.c, p.c);
    var l := w / square;
    assert Times(l, square) == w;
    assert LogExceeds(p, l);
    from :| p.log(from) > l;
    hide Times;
    forall x: AtLeastOne | x >= from ensures LargeLog(p, x, b, m) {
      assert p.log(x) >= p.log(from);
      TimesStrict(l, p.log(x), square);
    }
  }

  /** Some bound on the size of the values. */
  function SizeOf(xs: seq<real>): (b: real)
    ensures b >= 0.0 && forall i :: 0 <= i < |xs| ==> -b <= xs[i] <= b
  {
    if xs == [] then 0.0
    else
      var b := SizeOf(xs[1..]);
      b + if xs[0] >= 0.0 then xs[0] else -xs[0]
  }

  /** Measurements within b, normalised by a, are within NormalisedBound(b, a). */
  function NormalisedBound(b: real, a: real): (r: real)
    requires a != 0.0 && b >= 0.0
    ensures r >= 0.0
  {
    if a > 0.0 then b / a else b / -a
  }

  lemma NormalisedWithin(x: real, b: real, a: real)
    requires a != 0.0 && -b <= x <= b && b >= 0.0
    ensures -NormalisedBound(b, a) <= Over(x, a) <= NormalisedBound(b, a)
  {
    if a > 0.0 {
      QuotientWithin(x, b, a);
    } else {
      QuotientWithin(x, b, -a);
      assert x / a == -(x / -a);
    }
  }

  lemma QuotientWithin(x: real, b: real, a: real)
    requires a > 0.0 && -b <= x <= b
    ensures -(b / a) <= x / a <= b / a
  {
    assert x / a * a == x && b / a * a == b;
    WithinFactor(x / a, b / a, a);
  }

  /** A waking tick of the main loop, with a normalised measurement within b. */
  lemma MainTickStaysBounded(p: Params, s: State, input: Input, b: real)
    requires Valid(p, s) && s.mode == MainLoop && !s.fault && p.algorithm == Ucb && CountsAtLeastOne(s)
    requires Bounded(s, b) && -b <= Over(input.reward, s.avg) <= b && !input.sleep
    ensures Bounded(Evaluated(p, s, input), b) && !Evaluated(p, s, input).fault
    ensures var r := Step(p, s, input); r.mode == MainLoop && !r.fault && r.avg == s.avg && Bounded(r, b)
  {
    hide Folded, Sum, NextArm, Over;
    FoldedBounded(s.rewards[s.arm], s.nums[s.arm], Over(input.reward, s.avg), b);
  }

  /** k waking ticks with measurements within b. */
  ghost predicate GoesOn(more: seq<Input>, k: nat, b: real) {
    |more| == k && forall j :: 0 <= j < k ==> !more[j].sleep && -b <= more[j].reward <= b
  }

  /** Underway with the average a, and no mean exceeds b. */
  ghost predicate Underway(s: State, a: real, b: real) {
    s.mode == MainLoop && !s.fault && s.avg == a && Bounded(s, b)
  }

  lemma {:induction false} StaysUnderway(
    p: Params, ins: seq<Input>, more: seq<Input>, u: nat, a: real, b: real, limit: real)
    requires p.Valid() && p.algorithm == Ucb && u <= |more| && a != 0.0 && b >= 0.0
    requires GoesOn(more, |more|, b) && limit >= NormalisedBound(b, a)
    requires Underway(After(p, ins, |ins|), a, limit)
    ensures Underway(After(p, ins + more, |ins| + u), a, limit)
    ensures u < |more| ==> CalmTick(p, After(p, ins + more, |ins| + u), more[u], limit)
  {
    hide After, Step, Sum, Bounded, Evaluated, NormalisedBound, CountsAtLeastOne, Over;
    if u == 0 {
      AfterPrefix(p, ins, more, |ins|);
    } else {
      StaysUnderway(p, ins, more, u - 1, a, b, limit);
      AfterStep(p, ins + more, |ins| + u - 1);
      TickUnderway(p, ins + more, |ins| + u - 1, a, b, limit);
    }
    if u < |more| {
      TickUnderway(p, ins + more, |ins| + u, a, b, limit);
    }
  }

  lemma TickUnderway(p: Params, ins: seq<Input>, t: nat, a: real, b: real, limit: real)
    requires p.Valid() && p.algorithm == Ucb && t < |ins| && a != 0.0 && b >= 0.0
    requires !ins[t].sleep && -b <= ins[t].reward <= b && limit >= NormalisedBound(b, a)
    requires Underway(After(p, ins, t), a, limit)
    ensures CalmTick(p, After(p, ins, t), ins[t], limit)
    ensures Underway(Step(p, After(p, ins, t), ins[t]), a, limit)
  {
    hide After, Step, Sum, Bounded, Evaluated, NormalisedBound, CountsAtLeastOne, Over;
    NormalisedWithin(ins[t].reward, b, a);
    PullsCountOne(p, ins, t);
    MainTickStaysBounded(p, After(p, ins, t), ins[t], limit);
  }

  ghost predicate PulledWithin(p: Params, ins: seq<Input>, t: nat, k: nat, i: nat)
    requires p.Valid() && t + k <= |ins|
  {
    exists u :: t < u <= t + k && After(p, ins, u).arm == i
  }

  /** Whatever has happened, normalised or not, there is a number of ticks within which the arm is
      pulled, for every way in which the main loop goes on awake with measurements within b, if only
      the logarithm grows without limit and no division by zero has happened. */
  lemma NoArmIsLeft(p: Params, ins: seq<Input>, i: nat, b: real) returns (k: nat)
    requires p.Valid() && p.algorithm == Ucb && p.c > 0.0 && SquareRoot(p) && GrowingLog(p)
    requires i < p.n && b >= 0.0 && After(p, ins, |ins|).mode == MainLoop && !After(p, ins, |ins|).fault
    ensures forall more :: GoesOn(more, k, b) ==> PulledWithin(p, ins + more, |ins|, k, i)
  {
    hide After, Sum, LogStaysLarge, SquareRoot, GrowingLog, Times, CalmTick;
    var s, t := After(p, ins, |ins|), |ins|;
    var limit := SizeOf(s.rewards) + NormalisedBound(b, s.avg);
    var from := LogGetsLarge(p, limit, s.nums[i]);
    var ticks := Wait(s.total, from) + Times(p.n as real, 4.0 * s.nums[i] + 1.0);
    k := if ticks < 0.0 then 1 else ticks.Floor + 1;
    forall more | GoesOn(more, k, b) ensures PulledWithin(p, ins + more, t, k, i) {
      forall u | t <= u < t + k ensures CalmTick(p, After(p, ins + more, u), (ins + more)[u], limit) {
        StaysUnderway(p, ins, more, u - t, s.avg, b, limit);
      }
      AfterPrefix(p, ins, more, t);
      var u := ArmIsPulledAgain(p, ins + more, t, k, i, limit, from);
    }
  }
}
