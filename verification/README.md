# Dynamic prefetcher tuning: a verified model

The program tunes the hardware prefetchers of Intel efficiency cores while workloads run. A kernel
module samples performance counters per core and switches prefetcher register configurations per
four-core module with a small bandit; a user-space daemon does the same with richer bandit
algorithms or simple bandwidth controllers; the two talk through a `/proc` file, which also carries a
log of counter samples.

The project models the five parts with state that is hard to get right, and proves what holds over
every run of them:

- **Kernel bandit** (`KernelMab`, `KernelMabRuns`, `KernelMabRounds`, `KernelMabSelect`,
  `KernelMabScores`, `KernelMabSwitch`, `KernelMabStuck`, `KernelMabExamples`, `KernelMabPair`,
  `KernelMabDriver`). One call of the per-core work function is one step. The functions of `KernelMab`
  define the step; the class in `KernelMabDriver` works in place on arrays and is proved to compute it; the
  other modules prove properties of all runs, and give runs from module load.
- **User-space bandit** (`SdWindow`, `Bandit`, `BanditRuns`, `BanditRewards`, `BanditSleep`,
  `BanditExplores`, `BanditTuner`). Incremental statistics against their closed forms, and what the
  selections prefer.
- **Spin barrier** (`Barrier`, `BarrierReleases`). An interleaving transition system of the worker threads.
- **Log and request channel** (`LogFormat`, `PmuLog`, `Channel`, `ChannelReplies`, `ChannelHistory`,
  `ChannelDriver`, `LogReader`). The byte format, the log, the requests with their replies and owned
  allocations, what is in force after any run of them, and the reading side.
- **Registers, controllers and traffic counters** (`MsrLayout`, `Controllers`, `ModuleVote`,
  `ModuleVoteDriver`, `DdrCounters`).

`Words` holds the 32- and 64-bit operations, `RealSums` sums of reals. Wrap-around is explicit
wherever the source has fixed-width unsigned arithmetic; `float` is `real`; `sqrt` and `log` are arbitrary functions passed
in. Clocks, counter readings, random draws, copies between kernel and user space, and the outcome of
every allocation are inputs. The number of arms and the number of cores are symbolic.

## Where the code does not do what it says

- `kernelmod/kernel_mab.c:332-336` promises the highest average with ties kept by the running arm.
  The loop reads the running arm's slot before filling it, so this holds as written only while arm 0
  runs. `SelectionIsIntendedIff` states the exact condition, `ArmOneSelectionCanFail` gives inputs.
  `SelectionLeavesIff` says exactly when the running arm is left: with an unlucky residue, never
  (`TopArmStays`, `StuckRun`).
- `kernelmod/kernel_mab.c:146-149` divides in a log argument before the zero guard at line 152.
  `NeverDividesByZero` shows that no run of rounds reaches a zero divisor; `StepFault` says exactly when
  a single call would, `InterleavedReadFaults` that a counter request between calls can cause it, and
  `RereadRunFaults` gives such a run from module load.
- `tuners/mab.c:172` normalises the first `core_last` rewards, not the first `num_arms`
  (`NormaliseCoversAllIff`); for an arm it misses, the stored reward stays the discounted mean only if
  the average IPC is 1 or the arm's first reward is 0 (`RewardsAreDiscountedMeans`).
- The normalisation at `tuners/mab.c:170-173` divides by zero if and only if the IPCs stored by then add
  up to zero (`NormalisationFaultsIff`, and over runs `FaultIffStoredIpcsCancel` and
  `FaultIffFirstRewardsCancel`).
- A sleeping tick (`tuners/mab.c:244-247`) switches to arm 0 without evaluating the arm that ran: the
  next reward is credited to arm 0 and the pull in progress is never evaluated. `SleepKeepsMassIff` says
  exactly which arms this leaves right; runs that sleep only while arm 0 runs keep every guarantee
  (`SleepLeavesNoTrace`).
- The test at `tuners/mab.c:114` is always true, so the IPC of an arm is always overwritten and never
  averaged (`StoredIpcIsLatest`).
- A discount of zero, which the configuration allows, empties the counts of all arms but the pulled
  one, and the next exploration term divides by zero; `CountsStayPositiveIff` gives the exact condition.
- `tools/cli/dpfctrl.c:281-290` passes a number of entries where the kernel takes bytes
  (`StartKeepsTooFew`). The argument documented as "reset" in `user_api.c:34-37` is sent as the mode, where
  1 means append (`ResetArgumentAppends`).
- `user_api.c:116-184` passes a buffer size on as 32 bits, and zero means "everything"
  (`CopyFitsIff`): `ReadLog` overruns its buffer exactly when the size is a multiple of 2^32 and the log is
  larger.
- The barrier at `main.c:211-227` counts posts, not threads: one free-running thread can stand in for
  all others (`DecisionWithoutTheOthers`). Posts are lost exactly if they come between a decision and its
  reset (`LostAreLatePosts`, and `LatePostIsLost` for a run). A primary misses its release exactly if none
  of its tests finds the counter at zero (`MissedIffNoTestFindsZero`, and `MissedReleaseHappens` for a run).
  The next decision is then made without it (`NextDecisionAfterMiss`), and there is none at all if the free
  threads keep to one post per epoch (`MissBlocks`).
- The percentages at `kernelmod/kernel_primitive.c:121-147` stay within 100 while the sums do not wrap
  (`RatesWithinHundred`, `SharesSumToHundred`), but are the true ones only if a hundred times the hits
  does not wrap either (`RatesExactIff`). That the sums must not wrap is stated in this direction only:
  a wrapped sum can give a rate above 100 (`WrappedRateExceedsHundred`, `WrappedSharesExceedHundred`), or by
  chance one below. The comment at lines 57-59 says modes start at -1; they start at 2, which is what
  `CacheFollowsVotes` needs. The error test at line 42 compares values that have been shifted right by 20
  bits, so it never holds (`ShiftedNeverError`).
- `tools/msr2settings.c:20` shows six settings for register 0x1320; the code takes sixteen, as
  `ToValue` does. `tools/msr2settings.c:26` parses a value as a signed number, so that one with bit 63
  set is shown with other settings than its own (`ParsedSettingsIff`).

## Model

| member | source | states |
|---|---|---|
| `KernelMab.FirstEnabled` | kernelmod/kernel_mab.c:19-33 | the lowest enabled core of the window; -1 exactly when there is none |
| `KernelMab.FirstActive` | kernelmod/kernel_mab.c:37-59 | the leader is the lowest enabled core that is not idle; -1 exactly when there is none |
| `KernelMab.RecordScores` | kernelmod/kernel_mab.c:400-409 | a scan call rescores exactly the enabled, non-idle cores of the module, each in the slot of the running arm only |
| `KernelMab.Step` | kernelmod/kernel_dpf.c:262-391 | one call changes nothing outside its module, and of the module's other cores only their scores |
| `KernelMabRuns.StepOwnCore` | kernelmod/kernel_dpf.c:310-361 | what each verdict does to the caller's counters, clock and idle count |
| `KernelMabRuns.StepModule` | kernelmod/kernel_dpf.c:320-384 | what each verdict and each leader call does to the module's scan state, active arm and idle count |
| `KernelMabRuns.RegistersFollowActiveArm` | kernelmod/kernel_mab.c:293-446 | in every state between calls, from module load through scans, switches and idle resets, no shadow write is pending and each module's hardware registers are those of its active arm |
| `KernelMabRuns.ScanTriesArmsInOrder` | kernelmod/kernel_mab.c:367-446 | without an idle reset a scan is exactly K+1 leader calls and runs arms 0..K-1 in order |
| `KernelMabRuns.IdleCountIsQuietStretch` | kernelmod/kernel_dpf.c:320-361 | the module idle count is the number of idle verdicts of its first enabled core since the last active verdict in the module |
| `KernelMabRuns.ResetIffSixQuietVerdicts` | kernelmod/kernel_dpf.c:320-347 | a module is reset if and only if its first enabled core has a sixth idle verdict with no active verdict in the module in between |
| `KernelMabRuns.BestFromIsLowestMaximum` | kernelmod/kernel_mab.c:425-433 | the final comparison of a scan yields the lowest-index maximum |
| `KernelMabRuns.ScanRecordsAverages` | kernelmod/kernel_mab.c:396-422 | while one core leads a scan, its score table holds exactly the module averages recorded so far |
| `KernelMabRuns.ScanSelectsBestAverage` | kernelmod/kernel_mab.c:423-446 | a scan led by one core ends on the lowest-index maximum of the K recorded module averages |
| `KernelMabScores.VerdictIff` | kernelmod/kernel_mab.c:164-201 | a core is active if and only if it was called before, at least a millisecond ago, and ran at least 500000 cycles for each whole millisecond since; idle if and only if it ran fewer; without a verdict otherwise |
| `KernelMabScores.ScoreIsRatio` | kernelmod/kernel_mab.c:131-159 | the score is the instructions over the cycles in units of 1024, each rounded down, cut to 32 bits, and 0 without a unit of cycles |
| `KernelMabScores.ModuleScoreIsMean` | kernelmod/kernel_mab.c:64-102 | with n the number of enabled cores of the four that are not idle and t the sum of their scores, the module score r satisfies n\*r <= t < n\*(r+1), and is 0 for n = 0 |
| `KernelMabScores.ScanAverageIsMean` | kernelmod/kernel_mab.c:396-422 | what a scan call records is that mean of the fresh scores of this call |
| `KernelMabScores.AveragesAreMeans` | kernelmod/kernel_mab.c:367-446 | without an idle reset the k-th recorded average is such a mean, taken by a scan call while arm k ran |
| `KernelMabScores.ScanSelectsBestMean` | kernelmod/kernel_mab.c:367-446 | a scan led by one core ends on the lowest-index maximum of K such means, one per arm |
| `KernelMabScores.ScanCallOthers` | kernelmod/kernel_mab.c:396-409 | a scan call stores the fresh score of every other counting core in the slot of the arm that ran, and leaves the other cores alone |
| `KernelMabScores.FirstCall` | kernelmod/kernel_dpf.c:308-318 | a call without a verdict changes nothing but its own counters and clock |
| `KernelMabRounds.LeadersDescend` | kernelmod/kernel_mab.c:37-59 | within a round, later leader calls of a module are made by strictly lower core ids |
| `KernelMabRounds.LeaderCallsPerRound` | kernelmod/kernel_dpf.c:320-384 | at most four leader calls per module and round, and at most one if cores run in ascending order |
| `KernelMabRounds.StepFault` | kernelmod/kernel_mab.c:131-159 | a call divides by zero if and only if it scores itself, or scans a counting core, with fewer than 1024 elapsed cycles |
| `KernelMabRounds.ActiveIsScorable` | kernelmod/kernel_mab.c:164-201 | a core judged active has advanced at least 500000 cycles |
| `KernelMabRounds.NeverDividesByZero` | kernelmod/kernel_mab.c:131-201 | over all runs of rounds from load, with a millisecond between calls of a core and no other counter reads, no score is computed with a zero divisor |
| `KernelMabRounds.InterleavedReadFaults` | kernelmod/kernel_api.c:319-352 | the proviso on counter reads is needed: a read of an unmoved counter makes the next scan call divide by zero |
| `KernelMabExamples.RereadRunFaults` | kernelmod/kernel_api.c:319-352 | a run from module load in which such a read makes the next scan call divide by zero |
| `KernelMabSelect.SelectionIsIntendedIff` | kernelmod/kernel_mab.c:332-347 | the comparison picks the highest average, ties to the running arm, if and only if arm 0 runs, or no lower arm reaches the maximum, or the stack residue compares as the true score would |
| `KernelMabSelect.ArmZeroSelection` | kernelmod/kernel_mab.c:332-347 | while arm 0 runs the intended arm is picked whatever the residue |
| `KernelMabSelect.ArmOneSelectionCanFail` | kernelmod/kernel_mab.c:338-347 | inputs on which arm 1 is kept although beaten, and dropped although tied |
| `KernelMabSelect.SelectionLeavesIff` | kernelmod/kernel_mab.c:338-347 | the running arm is left if and only if a lower arm beats the residue and is at least as good, or a higher arm beats it |
| `KernelMabSelect.ArmOneLeavesIff` | kernelmod/kernel_mab.c:338-347 | with two arms, arm 1 gives way if and only if arm 0 beats the residue and is at least as good |
| `KernelMabSwitch.TuningCall` | kernelmod/kernel_mab.c:293-360 | a call after the scan touches only its own scores; only a leader changes the arm, to the outcome of the comparison |
| `KernelMabSwitch.IdleCall` | kernelmod/kernel_dpf.c:330-347 | an idle call keeps scores and arm and counts idleness for the core, and for the module only on its first enabled core |
| `KernelMabSwitch.AverageBounds` | kernelmod/kernel_mab.c:64-102 | a module average lies between bounds common to the scores of its counting cores |
| `KernelMabSwitch.SwitchWithinBound` | kernelmod/kernel_mab.c:293-360 | with aggressiveness at least 1, a fixed active set in ascending order, scores of the running arm up to B and no 32-bit wrap, any running arm is left within floor(B/aggr)+2 rounds for a rival above it (so always for arm 0), and within floor(max(B,R)/aggr)+2 for a rival below it when leaders find residues up to R |
| `KernelMabExamples.SteadyWorkloadExists` | kernelmod/kernel_mab.c:293-446 | for either arm of two, a state reached from module load and a workload that meet every assumption of the bound |
| `KernelMabStuck.TopArmStays` | kernelmod/kernel_mab.c:338-360 | over every run without an idle reset, if leaders always find the highest residue the top arm never gives way |
| `KernelMabExamples.StuckRun` | kernelmod/kernel_mab.c:293-446 | from module load, for every n, a run that ends its scan on arm 1 and keeps it through n leader calls in which it scores 0 while arm 0 collects n bonuses |
| `KernelMabExamples.LoneScan` | kernelmod/kernel_mab.c:367-446 | from module load, four calls of a single core end the scan on the arm whose interval retired more |
| `KernelMabPair.PairScan` | kernelmod/kernel_mab.c:64-102 | from module load, a scan by two counting cores ends on the arm with the higher mean although the leader scored the other arm higher |
| `KernelMabPair.SlowCoreStaysIdle` | kernelmod/kernel_mab.c:164-201 | from module load, a core with ten million cycles per one-second tick is idle at every call after its first |
| `KernelMabDriver.Driver.constructor` | kernelmod/kernel_dpf.c:51-64 | module load: boot registers equal arm 0, every module not started |
| `KernelMabDriver.Driver.FirstEnabledCore` | kernelmod/kernel_mab.c:19-33 | the loop finds the first enabled core |
| `KernelMabDriver.Driver.FirstActiveCore` | kernelmod/kernel_mab.c:37-59 | the loop finds the leader |
| `KernelMabDriver.Driver.ModuleScoreOf` | kernelmod/kernel_mab.c:64-102 | the loop computes the average over counting cores, 0 if there are none |
| `KernelMabDriver.Driver.ComputeScoreOf` | kernelmod/kernel_mab.c:131-159 | the score, and a fault exactly when the scaled cycle delta is zero |
| `KernelMabDriver.Driver.ApplyMsrConfig` | kernelmod/kernel_mab.c:106-126 | all seven shadow registers replaced by the table entry and marked, or an error for an arm outside 0..9 |
| `KernelMabDriver.Driver.MsrUpdateCore` | kernelmod/kernel_common.c:71-84 | shadow registers reach the module's bank and the mark is cleared |
| `KernelMabDriver.Driver.CoreIsActiveNow` | kernelmod/kernel_mab.c:164-201 | first call unknown, then active or idle by cycles per millisecond, and the time stamp stored |
| `KernelMabDriver.Driver.RefreshScores` | kernelmod/kernel_mab.c:293-325 | own score of the running arm refreshed, all other arms raised by the aggressiveness |
| `KernelMabDriver.Driver.CompareArms` | kernelmod/kernel_mab.c:327-347 | the comparison over the partly filled score table, residue included |
| `KernelMabDriver.Driver.MabTuning` | kernelmod/kernel_mab.c:293-360 | the in-place tuning call computes the tuning function |
| `KernelMabDriver.Driver.MabInitModuleStep` | kernelmod/kernel_mab.c:367-446 | the in-place scan call computes the scan function |
| `KernelMabDriver.Driver.CountIdle` | kernelmod/kernel_dpf.c:330-347 | the in-place idle branch computes the idle function |
| `KernelMabDriver.Driver.PerCoreWork` | kernelmod/kernel_dpf.c:262-391 | the whole in-place call computes the step about which the run theorems speak |
| `SdWindow.SlideStatistics` | tuners/mab.c:191-193 | the incremental mean and M2 updates are the mean and the sum of squared deviations of the window slid by one |
| `SdWindow.VarianceIsMeanOfSquares` | tuners/mab.c:195-198 | the variance is the mean of the squares less the square of the mean |
| `SdWindow.WindowFull` | tuners/mab.c:183-196 | once full, the zero-padded window is exactly the last w samples |
| `SdWindow.StoreSlides` | tuners/mab.c:185-187 | storing at the index of a circular buffer slides the window it represents |
| `SdWindow.GrowMean` | tuners/mab.c:206-208 | the update for a filling buffer is the mean of all standard deviations so far |
| `SdWindow.SlideMean` | tuners/mab.c:209-212 | the update for a full buffer is the mean of the last n |
| `SdWindow.Filter.constructor` | tuners/mab_setup.c:262-276 | empty buffers represent the empty history |
| `SdWindow.Filter.UpdateAndFetch` | tuners/mab.c:183-216 | for every sample sequence the running statistics are those of the window, and the result is the mean of the last min(k, n) standard deviations, of a variance that is never negative |
| `SdWindow.Filter.PushIpc` | tuners/mab.c:183-193 | mean and M2 equal those of the window after one more sample |
| `SdWindow.Filter.PushSd` | tuners/mab.c:196-213 | the standard deviation mean equals the mean of the last ones |
| `Bandit.StepKeepsValid` | tuners/mab.c:242-286 | every tick, sleeping or not and whatever it measures, keeps: the total is the sum of the counts, arms in range, after round robin all counts positive and the total at least 1, and a fault recorded exactly when the average IPC is zero |
| `Bandit.PullKeepsCounts` | tuners/mab.c:83-100 | a pull, discounted or not, keeps counts positive and the total their sum |
| `Bandit.CountsStayPositiveIff` | tuners/mab.c:94-100 | with at least two arms, a discounted pull keeps all counts positive if and only if the discount is positive |
| `Bandit.NormaliseCoversAllIff` | tuners/mab.c:165-178 | normalisation divides every arm's reward if and only if the core bound covers the arms or the rest is unaffected by the division |
| `Bandit.NormalisationFaultsIff` | tuners/mab.c:165-178 | the main loop starts with a division by zero if and only if rewards are normalised and the stored IPCs add up to zero; for IPCs that are not negative, if and only if all are zero |
| `Bandit.NormalisedAverageIsOne` | tuners/mab.c:165-178 | normalising rewards that are the stored IPCs, all covered, makes their average 1 |
| `Bandit.ArgMaxFrom` | tuners/mab.c:25-46 | the selection loop yields the lowest-index maximum |
| `BanditExplores.ChoiceHasHighestBound` | tuners/mab.c:53-73 | UCB and DUCB take an arm whose reward plus c times the root of log(total) over its count no other arm exceeds |
| `BanditExplores.ChoicePrefersLessPulled` | tuners/mab.c:53-73 | with exploration, no arm at least as good as the chosen one has been pulled less |
| `BanditExplores.ChoiceWithoutExploration` | tuners/mab.c:53-73 | with c = 0 the choice is the lowest-index best reward |
| `BanditExplores.GreedyChoice` | tuners/mab.c:25-46 | epsilon-greedy takes the drawn arm below epsilon and the lowest-index best reward otherwise |
| `BanditExplores.CrowdedArmsWait` | tuners/mab.c:53-73 | once log(total) is large against the bound on rewards and the count of an arm, UCB takes this arm or one pulled less than four times as often |
| `BanditExplores.ArmIsPulledAgain` | tuners/mab.c:53-100 | in every stretch of waking ticks with bounded means, UCB pulls the arm within an explicit number of ticks |
| `BanditExplores.RunStaysBounded` | tuners/mab.c:110-133 | without normalisation, measurements within b keep all mean rewards within b |
| `BanditExplores.UcbLeavesNoArm` | tuners/mab.c:53-133 | without normalisation, with measurements within b, every arm is pulled again within an explicit number of waking ticks |
| `BanditExplores.NoArmIsLeft` | tuners/mab.c:53-178 | normalised or not, after every run that has reached the main loop without a division by zero, there is a number of ticks within which UCB pulls the arm in every waking continuation with bounded measurements, if the logarithm grows without limit |
| `BanditRuns.RoundRobinPullsEachArmOnce` | tuners/mab.c:242-286 | whatever ticks are slept through, round robin pulls arms in order, each exactly once, and then hands over to the main loop |
| `BanditRuns.CountsClosedForm` | tuners/mab.c:83-100 | after k main-loop pulls each count is g^k plus its discounted pulls, and the total n*g^k plus the geometric sum |
| `BanditRuns.PullWeightAppend` | tuners/mab.c:94-100 | one more pull multiplies the discounted pull count by g and adds 1 for the pulled arm |
| `BanditRewards.EvaluatedMass` | tuners/mab.c:110-178 | an evaluation adds the observed reward to reward times count: always in the main loop, and at the transition if and only if the arm is normalised like its later rewards |
| `BanditRewards.DiscountedSumMain` | tuners/mab.c:94-133 | one more observation and pull multiplies the discounted reward sum by g after adding the reward |
| `BanditSleep.RewardsAreDiscountedMeans` | tuners/mab.c:110-178 | after every run that sleeps only while arm 0 runs and whose first IPCs do not add up to zero, each arm's reward times its count is the discounted sum of all its observed rewards, if and only if the arm was normalised like its later rewards, the average IPC is 1 or its first reward is 0 |
| `BanditRewards.MeansWithoutSleep` | tuners/mab.c:110-178 | the same for runs without sleep |
| `BanditSleep.SleepKeepsMassIff` | tuners/mab.c:242-247 | a sleeping tick keeps an arm's reward times its finished pulls if and only if arm 0 was running, or the arm is neither arm 0 nor the running one, or its reward is 0 |
| `BanditSleep.SleepLeavesNoTrace` | tuners/mab.c:242-247 | a run that sleeps only while arm 0 runs ends in the state of its waking ticks alone, but for the iteration count |
| `BanditRewards.FaultIffStoredIpcsCancel` | tuners/mab.c:165-178 | over every run, sleeping ticks anywhere, a division by zero has happened if and only if the IPCs stored at the transition added up to zero |
| `BanditRewards.FaultIffFirstRewardsCancel` | tuners/mab.c:165-178 | without sleep, if and only if the first n measured IPCs add up to zero, and for IPCs that are not negative, are all zero |
| `BanditRewards.RoundRobinStores` | tuners/mab.c:254-268 | without sleep round robin has stored the measured IPC of each arm evaluated so far, and nothing else |
| `BanditRewards.StoredIpcIsLatest` | tuners/mab.c:110-123 | over every run, sleeping ticks anywhere, the IPC stored for an arm is the latest one observed |
| `BanditTuner.Tuner.constructor` | tuners/mab_setup.c:231-236 | rewards and counts zero, IPCs one, round robin next |
| `BanditTuner.Tuner.NextArmMax` | tuners/mab.c:25-46 | epsilon-greedy: a random arm below epsilon, else the first best reward; always an arm in range |
| `BanditTuner.Tuner.NextArmPotential` | tuners/mab.c:53-73 | the first arm of highest reward plus exploration term |
| `BanditTuner.Tuner.PullArm` | tuners/mab.c:83-100 | counts and total after a pull, discounted for DUCB |
| `BanditTuner.Tuner.NormaliseRewards` | tuners/mab.c:165-178 | the first core_last rewards divided by the mean IPC, which is stored, and a fault if it is zero |
| `BanditTuner.Tuner.Mab` | tuners/mab.c:242-286 | the in-place tick computes the step about which the run theorems speak |
| `Barrier.RunIsSound` | main.c:177-240 | in every interleaving the counter is the number of posts since the last reset, and waiting threads have posted |
| `Barrier.DecisionFollowsAllPosts` | main.c:211-221 | every decision is the master's and follows at least as many posts as there are threads; the master posted once, each module primary at most once |
| `Barrier.DecisionSeesEveryThread` | main.c:211-227 | at a decision every thread has posted exactly once if and only if the free threads have kept to one post since the last reset |
| `Barrier.LostAreLatePosts` | main.c:211-227 | in every interleaving the posts lost, and those about to be, are exactly those made between a decision and its reset; so outside a decision nothing is lost if and only if nobody posted late |
| `Barrier.NoPostLost` | main.c:211-227 | in particular nothing is lost while free threads keep to one post per epoch |
| `Barrier.DecisionWithoutTheOthers` | main.c:211-227 | for any number of threads there is a run in which one free thread lets the master decide alone |
| `Barrier.LatePostIsLost` | main.c:216-221 | for any number of threads there is a run that loses a post |
| `BarrierReleases.MissedReleaseNeedsDoublePost` | main.c:222-227 | a decision made while a primary spins for a missed release rests on a free thread that posted at least twice |
| `BarrierReleases.NextDecisionAfterMiss` | main.c:211-227 | in every interleaving the first decision after a missed release is made without that primary and with a free thread counted at least twice |
| `BarrierReleases.MissedReleaseHappens` | main.c:211-227 | a run in which a primary misses its release |
| `BarrierReleases.MissedIffNoTestFindsZero` | main.c:222-227 | between two decisions, a primary that waits without a post goes on waiting if and only if none of its tests has found the counter at zero |
| `BarrierReleases.MissBlocks` | main.c:211-227 | after a missed release, while free threads keep to one post per epoch, no run decides again |
| `BarrierReleases.SomeContinuationDecides` | main.c:177-227 | from every reachable state with two or more threads some continuation decides |
| `LogFormat.DecodeEncode` | kernelmod/kernel_common.h:47-51 | little-endian words survive the trip to bytes and back |
| `LogFormat.LowByteFirst` | kernelmod/kernel_common.h:47-51 | the low byte of a word comes first |
| `LogFormat.EntryLayout` | kernelmod/kernel_common.h:47-51 | time stamp in bytes 0 to 7, core in 8 to 11, the k-th counter in the eight bytes from 12 + 8k |
| `LogFormat.DecodeEncodeEntry` | kernelmod/kernel_common.h:47-51 | a packed 76-byte entry decodes to itself |
| `LogFormat.DecodeEncodeAll` | tools/cli/dpfctrl.c:178-218 | a buffer of whole entries decodes to exactly those entries |
| `LogFormat.EncodeAllPrefix` | tools/cli/dpfctrl.c:19-21 | the first k entries occupy the first 76*k bytes |
| `PmuLog.LogHoldsFirstOffered` | kernelmod/kernel_api.c:462-757 | over any sequence of control, stop, append and read, with any allocation failing, and from that history alone: the log is on if and only if the latest successful control or stop was a control, has a buffer if and only if the latest request for one was granted, of the size asked for, and holds exactly the first entries offered since while it was on, as many as fit |
| `PmuLog.ReportsFollowHistory` | kernelmod/kernel_api.c:462-757 | which requests and appends succeed, from the history alone |
| `PmuLog.StopStops` | kernelmod/kernel_api.c:566-627 | after a stop that succeeds the log is off and its buffer unchanged until the next control, whatever else comes |
| `PmuLog.StartKeepsTooFew` | tools/cli/dpfctrl.c:281-290 | a log started for n entries keeps only the first (n mod 2^32)/76, and there is none if n is a multiple of 2^32 |
| `PmuLog.ResetArgumentAppends` | user_api.c:34-46 | the argument value meant to reset the log keeps the buffer and entries of an existing one |
| `PmuLog.DecodedReadIsPrefix` | kernelmod/kernel_api.c:665-700 | a read limited to whole entries decodes to exactly that prefix of the log |
| `PmuLog.CopyFitsIff` | user_api.c:116-184 | the kernel's answer fits the caller's buffer if and only if its size does not wrap to zero or the whole log fits |
| `Channel.ReplyIffServed` | kernelmod/kernel_dpf.c:172-251 | after a write of valid size a reply is present if and only if the write succeeded, except that stopping a stopped log fails and still replies |
| `Channel.ReactIsLogOp` | kernelmod/kernel_dpf.c:199-243 | a write acts on the log as the log operation it carries, or not at all |
| `Channel.RunLogs` | kernelmod/kernel_dpf.c:172-251 | runs of the channel project to runs of the log |
| `Channel.ChannelLogHoldsFirstOffered` | kernelmod/kernel_api.c:462-757 | over any run of writes of any kind, size and outcome, with samples in between, the log is on or off, has a buffer or not, and holds what the log requests among them amount to |
| `ChannelReplies.ServedIff` | kernelmod/kernel_dpf.c:172-251 | a write succeeds if and only if its size is acceptable, it arrives whole, it gets a reply buffer and what it asks for can be done; and which failures have which codes |
| `ChannelReplies.ReplyNamesItsRequest` | kernelmod/kernel_dpf.c:204-243 | every reply starts with the type of its request and its own size |
| `ChannelReplies.ReplyConfirms` | kernelmod/kernel_api.c:38-627 | the replies in 32-bit words carry what was asked and what is now in force |
| `ChannelReplies.WeightsComeBack` | kernelmod/kernel_api.c:152-185 | core weights come back as they were sent, after their number |
| `ChannelReplies.ReadingsComeBack` | kernelmod/kernel_api.c:282-457 | registers, counters and traffic come back as they were read, in 64-bit words |
| `ChannelHistory.LatestRequestIsInForce` | kernelmod/kernel_api.c:64-424 | after any run, whatever failed in it: the bandwidth target, the algorithm with its aggressiveness in tenths, the core range with exactly its online cores on, and the memory controllers are those of the latest request that set them |
| `ChannelHistory.WorkFollowsHistory` | kernelmod/kernel_api.c:190-627 | the periodic work goes on if and only if the latest request that started or stopped it, a tuning request, a successful log control or a successful stop, started it |
| `ChannelDriver.Driver.constructor` | kernelmod/kernel_dpf.c:432-441 | before load nothing is allocated, the lock is free and all cores are off |
| `ChannelDriver.Driver.Load` | kernelmod/kernel_dpf.c:432-456 | load leaves exactly the empty response allocated, or nothing if the allocation or the proc entry fails |
| `ChannelDriver.Driver.Publish` | kernelmod/kernel_api.c:51-54 | a new reply replaces the old one, which is freed once |
| `ChannelDriver.Driver.ConfigurePmu` | kernelmod/kernel_dpf.c:106-125 | the temporary mask is freed on every path |
| `ChannelDriver.Driver.ApiCoreRange` | kernelmod/kernel_api.c:64-147 | the range is checked, exactly the online cores in it are enabled, and the reply confirms it |
| `ChannelDriver.Driver.ApiTuning` | kernelmod/kernel_api.c:190-248 | aggressiveness clamped to 100 and stored in tenths, and the periodic work on exactly for the value 1 |
| `ChannelDriver.Driver.ApiDdrbwSet` | kernelmod/kernel_api.c:253-277 | the target is stored and confirmed, or nothing changes |
| `ChannelDriver.Driver.ReadCore` | kernelmod/kernel_api.c:282-352 | register and counter reads are refused for a core that is off |
| `ChannelDriver.Driver.ApiDdrConfig` | kernelmod/kernel_api.c:356-424 | the reply is freed on every error path; from a valid count on the old mappings go and the new configuration is stored, and controllers are mapped only on success |
| `ChannelDriver.Driver.RestartLog` | kernelmod/kernel_api.c:491-515 | the old buffer is freed first, and the new log is empty or absent |
| `ChannelDriver.Driver.ApiLogControl` | kernelmod/kernel_api.c:462-561 | control computes the log's control function and turns the periodic work on, with allocations accounted for on every path |
| `ChannelDriver.Driver.ApiLogStop` | kernelmod/kernel_api.c:566-627 | stop computes the log's stop function and turns the periodic work off; on the inactive path the reply is freed, allocated again and published with the error |
| `ChannelDriver.Driver.ApiLogRead` | kernelmod/kernel_api.c:632-717 | the reply carries exactly the first min(limit, size) log bytes |
| `ChannelDriver.Driver.Dispatch` | kernelmod/kernel_dpf.c:204-243 | every message type is served by its handler, and afterwards the response and log buffer own all that is allocated besides the message |
| `ChannelDriver.Driver.ProcWrite` | kernelmod/kernel_dpf.c:172-251 | after every request, whatever failed, the live allocations are exactly the response and log buffers, nothing was freed twice, and the lock is free |
| `ChannelDriver.Driver.ServeLocked` | kernelmod/kernel_dpf.c:188-250 | the lock is released on every path |
| `ChannelDriver.Driver.ServeMessage` | kernelmod/kernel_dpf.c:199-250 | the message buffer is freed and the lock released whatever the handler does |
| `ChannelDriver.Driver.ProcRead` | kernelmod/kernel_dpf.c:129-168 | a read returns the asked-for part of the reply from the current position and advances it by as much |
| `ChannelDriver.Driver.AppendSample` | kernelmod/kernel_api.c:721-757 | an entry is copied behind the others or refused, and the bytes remain the encoding of the accepted entries |
| `ChannelDriver.Driver.Unload` | kernelmod/kernel_dpf.c:478-510 | the periodic work is off and nothing stays allocated or mapped |
| `LogReader.ReadLog` | user_api.c:116-184 | with no request in between, the two-stage read fails exactly when something on the way failed, overruns the buffer exactly when its size is a multiple of 2^32 and the log is larger, and otherwise delivers exactly the first bytes of the log |
| `LogReader.DumpRows` | tools/cli/dpfctrl.c:178-218 | one row per entry, in order, or none for a size that is not whole entries |
| `LogReader.Dump` | tools/cli/dpfctrl.c:221-270 | the table holds exactly the first min(10000, n) entries of the kernel's log, and there is none exactly when the log is empty or a step failed |
| `MsrLayout.LowIsRemainder` | include/atom_msr.h:19-145 | cutting a value to w bits is taking it modulo 2^w |
| `MsrLayout.SetChangesOnlyItsSlot` | msr.c:189-583 | for every layout a setter stores its value modulo the field width and changes no other field, no padding and nothing above |
| `MsrLayout.SetKeepsOtherBits` | msr.c:189-583 | no bit outside the field changes |
| `MsrLayout.SlotsDetermine` | include/atom_msr.h:148-159 | a register value is determined by its fields, padding and the bits above |
| `MsrLayout.SetGet` | msr.c:189-583 | writing back what was read changes nothing |
| `MsrLayout.SetSet` | msr.c:189-583 | the last of two writes wins |
| `MsrLayout.SetStaysWithin` | include/atom_msr.h:148-159 | writing keeps a 64-bit value |
| `MsrLayout.RegistersFit` | include/atom_msr.h:19-145 | all nine layouts fit 64 bits |
| `MsrLayout.Fits1A4` | include/atom_msr.h:19-32 | the bit at which every slot of register 0x1A4 starts, and where the layout ends |
| `MsrLayout.Fields1A4` | include/atom_msr.h:19-32 | which slots of register 0x1A4 are settings and which are padding |
| `MsrLayout.Fits1320` | include/atom_msr.h:34-54 | the bit at which every slot of register 0x1320 starts, and where the layout ends |
| `MsrLayout.Fields1320` | include/atom_msr.h:34-54 | which slots of register 0x1320 are settings and which are padding |
| `MsrLayout.Fits1321` | include/atom_msr.h:56-72 | the bit at which every slot of register 0x1321 starts, and where the layout ends |
| `MsrLayout.Fields1321` | include/atom_msr.h:56-72 | which slots of register 0x1321 are settings and which are padding |
| `MsrLayout.Fits1322` | include/atom_msr.h:74-88 | the bit at which every slot of register 0x1322 starts, and where the layout ends |
| `MsrLayout.Fields1322` | include/atom_msr.h:74-88 | which slots of register 0x1322 are settings and which are padding |
| `MsrLayout.Fits1323` | include/atom_msr.h:90-107 | the bit at which every slot of register 0x1323 starts, and where the layout ends |
| `MsrLayout.Fields1323` | include/atom_msr.h:90-107 | which slots of register 0x1323 are settings and which are padding |
| `MsrLayout.Fits1324` | include/atom_msr.h:109-112 | the bit at which every slot of register 0x1324 starts, and where the layout ends |
| `MsrLayout.Fields1324` | include/atom_msr.h:109-112 | which slots of register 0x1324 are settings and which are padding |
| `MsrLayout.Fits1325` | include/atom_msr.h:114-128 | the bit at which every slot of register 0x1325 starts, and where the layout ends |
| `MsrLayout.Fields1325` | include/atom_msr.h:114-128 | which slots of register 0x1325 are settings and which are padding |
| `MsrLayout.Fits1326` | include/atom_msr.h:130-133 | the bit at which every slot of register 0x1326 starts, and where the layout ends |
| `MsrLayout.Fields1326` | include/atom_msr.h:130-133 | which slots of register 0x1326 are settings and which are padding |
| `MsrLayout.Fits1327` | include/atom_msr.h:135-145 | the bit at which every slot of register 0x1327 starts, and where the layout ends |
| `MsrLayout.Fields1327` | include/atom_msr.h:135-145 | which slots of register 0x1327 are settings and which are padding |
| `MsrLayout.UsageExample` | tools/msr2settings.c:17-18 | the value in the usage text has the six settings given there, in the fields at bits 0, 20, 30, 37, 43 and 58 |
| `MsrLayout.ToValue` | tools/msr2settings.c:145-257 | settings assigned one by one from zero give a value that reads back each setting modulo its field width and has nothing in its padding or above |
| `MsrLayout.ToSettings` | tools/msr2settings.c:25-143 | the settings listed are the fields, in order, of the number the parser returns |
| `MsrLayout.ParsedSettingsIff` | tools/msr2settings.c:26 | these are the settings of the value given if and only if it is below 2^63 or all its fields lie below bit 63 and are full of ones |
| `MsrLayout.EncodesUnique` | tools/msr2settings.c:145-257 | the value is the only one with these settings and clear padding |
| `MsrLayout.ValueRoundTrip` | tools/msr2settings.c:25-264 | value to settings to value clears padding and the bits above, and is the identity if and only if they were clear |
| `MsrLayout.SetField` | msr.c:189-583 | a setter changes one register of the table, and in it one field |
| `Controllers.MovedReadsBack` | msr.c:254-303 | a steered field reads back exactly the clamped value |
| `Controllers.RoundIsNearest` | tuners/primitive.c:115-194 | steps are rounded to the nearest integer, halves away from zero |
| `Controllers.PullRises` | tuners/primitive.c:121-142 | nothing moves below a tenth of the target; from there the pull grows with the share and is downward exactly below four fifths |
| `Controllers.PullBands` | tuners/primitive.c:121-142 | each of the eight steps with the exact interval of shares that gives it |
| `Controllers.ShareIsPartOfTarget` | tuners/primitive.c:52-62 | share times target times time is the traffic, and more traffic is a larger share |
| `Controllers.MovesDoNotCancel` | tuners/primitive.c:115-194 | the two moves of a tick restore the register only if neither did anything |
| `Controllers.TickSteersOnlyItsFields` | tuners/primitive.c:115-287 | each tick leaves both steered fields at their clamped new values and every other slot as it was |
| `Controllers.RunStaysInBounds` | tuners/primitive.c:115-287 | over any run and any bandwidth sequence, steered fields stay within 1 and their maxima and nothing else in the register changes |
| `Controllers.SteadyClosedForm` | tuners/primitive.c:115-287 | under shares that all pull alike a steered field of either algorithm stands after n ticks at the start plus n steps, clamped |
| `Controllers.SteadyReachesLimit` | tuners/primitive.c:115-287 | sustained strong shares bring every steered field, from every start, to the end they pull to within as many ticks as its maximum |
| `Controllers.PressureDrives` | tuners/primitive.c:115-287 | shares of at least 0.96 raise both thresholds to 31 within 31 ticks, and lower both distances to 1 within 63 |
| `Controllers.LowUseDrives` | tuners/primitive.c:115-287 | shares from 0.10 to 0.20 lower both thresholds to 1 within 31 ticks, and raise the distances to 31 and 63 within 63 |
| `Controllers.PressureSaturatesIff` | tuners/primitive.c:121-149 | from every start the threshold is 31 after 31 such ticks if and only if the aggressiveness is at least 1/16 |
| `Controllers.Tuner.MoveField` | tuners/primitive.c:118-154 | one field moved in place, and the thread marked if the register changed |
| `Controllers.Tuner.Tick` | tuners/primitive.c:27-290 | the first call only starts the clock; later calls tick every thread with the share of the traffic since the call before, and mark exactly those whose register changed |
| `ModuleVote.RatesWithinHundred` | kernelmod/kernel_primitive.c:127-136 | hit rates lie in 0..100 whenever the terms add up without wrapping, even if the product wraps |
| `ModuleVote.PercentExactIff` | kernelmod/kernel_primitive.c:127-147 | a percentage is the true one if and only if a hundred times the part does not wrap |
| `ModuleVote.RatesExactIff` | kernelmod/kernel_primitive.c:127-147 | while no term is zero and the terms do not wrap, each of the three rates is the true percentage if and only if a hundred times its part does not wrap |
| `ModuleVote.ShareExactIff` | kernelmod/kernel_primitive.c:138-140 | the same for the share of memory traffic |
| `ModuleVote.ZeroCountsGiveZero` | kernelmod/kernel_primitive.c:115-125 | a core with a zero count gets zero for all four |
| `ModuleVote.ShiftedNeverError` | kernelmod/kernel_primitive.c:39-48 | the test for a failed counter read never holds |
| `ModuleVote.RateFaultsIff` | kernelmod/kernel_primitive.c:115-136 | a rate divides by zero if and only if no term is zero and they add up to a multiple of 2^64 |
| `ModuleVote.WrappedRateExceedsHundred` | kernelmod/kernel_primitive.c:132-136 | counters whose sum wraps and whose rate is 200 |
| `ModuleVote.SharesSumToHundred` | kernelmod/kernel_primitive.c:102-140 | the cores' shares of memory traffic add up to at most 100 whenever the total does not wrap |
| `ModuleVote.WrappedSharesExceedHundred` | kernelmod/kernel_primitive.c:102-140 | counters whose total wraps and whose share is 200 |
| `ModuleVote.VoteIff` | kernelmod/kernel_primitive.c:207-225 | a core is idle if and only if it ran fewer than 500000 cycles per millisecond; otherwise it votes for the aggressive mode if and only if it hit the second-level cache more often than it missed |
| `ModuleVote.AggressiveIffMajority` | kernelmod/kernel_primitive.c:230-250 | a module goes aggressive if and only if benefiting cores outnumber non-benefiting ones |
| `ModuleVote.ModulesPartition` | kernelmod/kernel_primitive.c:228-248 | every core in range is in exactly one module, also when the last is short |
| `ModuleVote.DecideOutcome` | kernelmod/kernel_primitive.c:228-281 | after a decision each cached mode is the voted one, only module-leading cores were written, and a core is marked exactly when its module's mode is new |
| `ModuleVote.CacheFollowsVotes` | kernelmod/kernel_primitive.c:228-281 | over every run, from the first decision on, the cached mode is the latest vote's, the four shadow registers are that mode's, and so are the hardware's unless a write is pending |
| `ModuleVote.FlushSettles` | kernelmod/kernel_primitive.c:228-281 | once the leading core of a module is written out after a decision, the hardware has the registers of the voted mode and nothing is pending, until the next decision |
| `ModuleVoteDriver.DeltaIsChange` | kernelmod/kernel_primitive.c:96-100 | each counter change leads from the old value of that counter to the new one, in 64 bits |
| `ModuleVoteDriver.ModesAreArms` | kernelmod/kernel_primitive.c:260-277 | the two modes set the same four registers as the two arms of the bandit |
| `ModuleVoteDriver.Voter.CastVotes` | kernelmod/kernel_primitive.c:203-225 | each core's vote from its counter changes |
| `ModuleVoteDriver.Voter.ComputeRates` | kernelmod/kernel_primitive.c:110-147 | the loop stores each core's percentages, cut to signed 32 bits and zero where a count is zero, or faults if and only if some core's divide by zero |
| `ModuleVoteDriver.Voter.DecideModules` | kernelmod/kernel_primitive.c:228-281 | the in-place loops compute the decision function |
| `ModuleVoteDriver.Voter.BasicAlg` | kernelmod/kernel_primitive.c:25-284 | set-up on the first call, no decision without target, time or traffic, a fault exactly when a percentage divides by zero, otherwise votes and decisions |
| `DdrCounters.MovedIsLevelChange` | kernelmod/kernel_pmu_ddr.c:19-70 | the sum of one poll is the change of the mapped counters modulo 2^64 |
| `DdrCounters.CountsAre64Bytes` | kernelmod/kernel_pmu_ddr.c:19-70 | a poll of one mapped controller returns 64 for each count |
| `DdrCounters.PollsTelescope` | kernelmod/kernel_pmu_ddr.c:19-124 | for any interleaving of read and write polls the values returned for one kind add up to 64 times the change of its readings, modulo 2^64 |
| `DdrCounters.PollsMeasureAdvance` | kernelmod/kernel_pmu_ddr.c:19-124 | the same for the true counts behind wrapping counters: nothing lost or counted twice |
| `DdrCounters.Counters.Kernel` | kernelmod/kernel_pmu_ddr.c:19-124 | the kernel's in-place poll meets the specification, skipping unmapped controllers |
| `DdrCounters.Counters.User` | pmu_ddr.c:176-241 | the user-space poll meets the same specification |

## Left out

- ChannelDriver.Driver.ProcWrite: the fields of a request are inputs; the source does not check that the message is long enough to hold them.
- KernelMabDriver.Driver.PerCoreWork: the log entry written at lines 272-297 is `ChannelDriver.Driver.AppendSample`, on the state of the channel.
- ChannelDriver.Driver.ReadCore: the counter update and the register load it causes are the events `ReadCounters` and `LoadShadow` of `KernelMabRuns`; the values replied are inputs.
- ChannelDriver.Driver.ApiTuning: the register reload at lines 224-231 is the event `LoadShadow` of `KernelMabRuns`; the timer is the flag that keeps it going.
- ChannelDriver.Driver.ApiLogControl: the clearing of counters at lines 523-533 is the event `ClearCounters` of `KernelMabRuns`.
- MsrLayout.ToValue: the settings are numbers as the tool's parser returns them.
- Kernel log lines and their arguments, among them the index `1 - active_arm` used for logging, except for the division at `kernelmod/kernel_mab.c:146-149`.
- The range is fixed for a run of the kernel bandit, the last module fits the core table, and between two and ten arms are available.
- The unused per-core scan `mab_init_core_step`, and wrap-around of the signed idle counters.
- Appends and requests are atomic steps; concurrent unlocked appends and memory ordering are not modelled.
- The flag that ends the worker threads (`quitflag`, `main.c:177`) and the register writes after the barrier.
- The DDR auto-test barrier (`main.c:135-160`): its entry check races with the master's reset.
- Random arm selection, periodic normalisation and the time-interval variant of the deviation filter in the user-space bandit, the dirty marks it sets per thread, and IPCs measured over zero cycles.
- Rounding of `float` arithmetic.
- `kernel_basicalg` is not called at present; it is modelled on its own, with the voting algorithm only.
- The mapping of DDR controllers itself; its outcome is an input.
- Register, counter and memory-mapped I/O, CPU detection, SMBIOS parsing, RDT monitoring, JSON configuration, command-line and console handling: wrappers around foreign calls or presentation.
