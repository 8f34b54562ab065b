/** The user-space bandit as the program runs it, with its tables updated in place. */
module BanditTuner {
  import opened RealSums
  import opened Bandit

  class Tuner {
    const p: Params
    const rewards: array<real>
    const nums: array<real>
    const ipcs: array<real>
    var mode: Mode
    var arm: nat
    var rr: nat
    var total: real
    var avg: real
    var iterations: nat
    var fault: bool

    ghost function Abs(): State
      reads this, rewards, nums, ipcs
    {
      State(mode, arm, rr, total, rewards[..], nums[..], ipcs[..], avg, iterations, fault)
    }

    ghost predicate Separate()
      reads this
    {
      rewards != nums && rewards != ipcs && nums != ipcs
    }

    ghost predicate Ready()
      reads this, rewards, nums, ipcs
    {
      Separate() && Valid(p, Abs())
    }

    constructor (p: Params)
      requires p.Valid()
      ensures Ready() && this.p == p && Abs() == Initial(p)
      ensures fresh(rewards) && fresh(nums) && fresh(ipcs)
    {
      this.p := p;
      rewards := new real[p.n](_ => 0.0);
      nums := new real[p.n](_ => 0.0);
      ipcs := new real[p.n](_ => 1.0);
      mode, arm, rr, total, avg, iterations, fault := RoundRobin, 0, 0, 0.0, 1.0, 0, false;
      new;
      InitialIsValid(p);
      assert Abs() == Initial(p);
    }

    // ----- Selection -----

    method NextArmMax(input: Input) returns (r: nat)
      requires p.Valid() && Counted(p, Abs()) && p.algorithm == EGreedy
      ensures r < p.n && (!fault ==> r == NextArm(p, Abs(), input))
    {
      if input.roll < p.epsilon { return input.pick % p.n; }
      r := 0;
      var highest := rewards[0];
      for i := 1 to p.n
        invariant r < i && highest == rewards[r]
        invariant ArgMaxFrom(rewards[..], r, i) == ArgMax(rewards[..])
      {
        if rewards[i] > highest {
          highest := rewards[i];
          r := i;
        }
      }
    }

    method NextArmPotential() returns (r: nat)
      requires p.Valid() && Counted(p, Abs())
      ensures r == ArgMax(Potentials(p, Abs()))
    {
      ghost var bounds := Potentials(p, Abs());
      r := 0;
      var highest := Potential(p, rewards[0], nums[0], total);
      for i := 1 to p.n
        invariant r < i && highest == bounds[r]
        invariant ArgMaxFrom(bounds, r, i) == ArgMax(bounds)
      {
        var bound := Potential(p, rewards[i], nums[i], total);
        if bound > highest {
          highest := bound;
          r := i;
        }
      }
    }

    // ----- Counts -----

    method DiscountCounts()
      requires Separate() && nums.Length == p.n
      modifies nums
      ensures nums[..] == Scaled(old(nums[..]), p.gamma)
    {
      for i := 0 to p.n
        invariant forall j :: 0 <= j < p.n ==>
          nums[j] == if j < i then Times(old(nums[j]), p.gamma) else old(nums[j])
      {
        nums[i] := Times(nums[i], p.gamma);
      }
    }

    method PullArm(next: nat)
      requires Separate() && Shaped(p, Abs()) && next < p.n
      modifies this`arm, this`total, this`iterations, nums
      ensures Abs() == Pull(p, old(Abs()), next)
    {
      hide Times;
      arm := next;
      iterations := iterations + 1;
      if p.algorithm == Ducb {
        DiscountCounts();
        total := Times(total, p.gamma);
      }
      ghost var before := nums[..];
      nums[arm] := nums[arm] + 1.0;
      assert nums[..] == before[arm := before[arm] + 1.0];
      total := total + 1.0;
    }

    method RoundRobinPull()
      requires Separate() && Shaped(p, Abs()) && rr < p.n
      modifies this`arm, this`rr, this`total, this`iterations, nums
      ensures Abs() == old(Abs()).(arm := old(rr), nums := old(nums[..])[old(rr) := 1.0], total := old(total) + 1.0,
                                   rr := old(rr) + 1, iterations := old(iterations) + 1)
    {
      arm := rr;
      iterations := iterations + 1;
      nums[arm] := 1.0;
      assert nums[..] == old(nums[..])[old(rr) := 1.0];
      total := total + 1.0;
      rr := rr + 1;
    }

    // ----- Rewards -----

    method StoreReward(value: real, ipc: real)
      requires Separate() && Shaped(p, Abs())
      modifies rewards, ipcs
      ensures Abs() == old(Abs()).(rewards := old(rewards[..])[arm := value], ipcs := old(ipcs[..])[arm := ipc])
    {
      ipcs[arm] := ipc;
      rewards[arm] := value;
      assert rewards[..] == old(rewards[..])[arm := value] && ipcs[..] == old(ipcs[..])[arm := ipc];
    }

    method NormaliseRewards()
      requires p.Valid() && Separate() && Shaped(p, Abs())
      modifies rewards, this`avg, this`fault
      ensures Abs() == Normalise(p, old(Abs()))
    {
      hide Sum, Over;
      var sum := SumOf();
      var mean := Over(sum, p.n as real);
      avg := mean;
      fault := mean == 0.0;
      var bound := if p.coreLast < p.n then p.coreLast else p.n;
      for i := 0 to bound
        invariant avg == mean && fault == (mean == 0.0)
        invariant forall j :: 0 <= j < p.n ==>
          rewards[j] == if j < i then Over(old(rewards[j]), mean) else old(rewards[j])
      {
        rewards[i] := Over(rewards[i], avg);
      }
      assert rewards[..] == NormaliseFirst(old(rewards[..]), p.coreLast, avg);
    }

    method SumOf() returns (sum: real)
      requires ipcs.Length == p.n
      ensures sum == Sum(ipcs[..])
    {
      sum := 0.0;
      for i := 0 to p.n
        invariant sum == Sum(ipcs[..i])
      {
        assert ipcs[..i + 1] == ipcs[..i] + [ipcs[i]];
        SumAppend(ipcs[..i], [ipcs[i]]);
        assert Sum([ipcs[i]]) == ipcs[i];
        sum := sum + ipcs[i];
      }
      assert ipcs[..] == ipcs[..p.n];
    }

    // ----- One tick -----

    method SelectAndPull(input: Input)
      requires p.Valid() && Separate() && Counted(p, Abs())
      modifies this`arm, this`total, this`iterations, nums
      ensures Abs() == Pull(p, old(Abs()), NextArm(p, old(Abs()), input))
    {
      var next;
      if fault {
        next := input.pick % p.n;
      } else if p.algorithm == EGreedy {
        next := NextArmMax(input);
      } else {
        next := NextArmPotential();
      }
      PullArm(next);
    }

    method RoundRobinTick(reward: real)
      requires Ready() && mode == RoundRobin
      modifies this, rewards, nums, ipcs
      ensures Separate() && Abs() == RoundRobinStep(p, old(Abs()), reward)
    {
      if rr != 0 {
        StoreReward(reward, reward);
      }
      RoundRobinPull();
      if rr == p.n {
        rr := 0;
        mode := Transition;
      }
    }

    method EvaluateTick(input: Input)
      requires Ready() && mode != RoundRobin
      modifies rewards, ipcs, this`avg, this`fault
      ensures Separate() && Abs() == Evaluated(p, old(Abs()), input)
    {
      if mode == Transition {
        StoreReward(input.reward, input.reward);
        if p.once {
          NormaliseRewards();
        }
      } else {
        StoreReward(Folded(rewards[arm], nums[arm], Over(input.reward, avg)), input.reward);
      }
    }

    /** One call of the bandit: sleep, round robin, or evaluate, select and pull. */
    method Mab(input: Input)
      requires Ready()
      modifies this, rewards, nums, ipcs
      ensures Ready() && Abs() == Step(p, old(Abs()), input)
    {
      hide Pull, RoundRobinStep, NextArm, Evaluated;
      StepKeepsValid(p, Abs(), input);
      if input.sleep {
        arm := 0;
        iterations := iterations + 1;
      } else if mode == RoundRobin {
        RoundRobinTick(input.reward);
      } else {
        EvaluateTick(input);
        SelectAndPull(input);
        mode := MainLoop;
      }
    }
  }
}
