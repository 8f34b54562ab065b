/** When a primary misses its release, what that does to later decisions, and when the barrier can
    go on. */
module BarrierReleases {
  import opened Barrier

  /** Thread t spins for a release it has missed: the counter was cleared and raised again between
      two of its tests. */
  predicate Missed(s: State, t: nat)
    requires t < |s.place| == |s.posts|
  {
    s.place[t] == AwaitingRelease && s.posts[t] == 0
  }

  lemma {:induction false} TotalGap(xs: seq<nat>, i: nat)
    requires i < |xs| && xs[i] == 0 && Total(xs) >= |xs|
    ensures exists j :: 0 <= j < |xs| && xs[j] >= 2
  {
    if forall j :: 0 <= j < |xs| ==> xs[j] <= 1 {
      TotalFull(xs);
    }
  }

  /** In every interleaving, a decision made while a primary spins for a missed release rests on a
      free thread that has posted at least twice since the last reset. */
  lemma MissedReleaseNeedsDoublePost(threads: nat, schedule: seq<nat>, t: nat, missing: nat)
    requires threads >= 1 && t < threads && missing < threads
    requires forall i :: 0 <= i < |schedule| ==> schedule[i] < threads
    requires Decides(Run(threads, schedule), t) && Missed(Run(threads, schedule), missing)
    ensures exists j :: 0 <= j < threads && IsFree(j) && Run(threads, schedule).posts[j] >= 2
  {
    DecisionFollowsAllPosts(threads, schedule, t);
    var s := Run(threads, schedule);
    TotalGap(s.posts, missing);
    var j :| 0 <= j < threads && s.posts[j] >= 2;
    assert IsMaster(j) || IsPrimary(j) || IsFree(j);
  }

  /** While the counter is up, a missed release stays missed until the next decision. */
  lemma {:induction false} MissedUntilDecision(threads: nat, before: seq<nat>, after: seq<nat>, missing: nat)
    requires threads >= 1 && missing < threads
    requires forall i :: 0 <= i < |before| ==> before[i] < threads
    requires forall i :: 0 <= i < |after| ==> after[i] < threads
    requires var s := Run(threads, before); Missed(s, missing) && s.flag > 0 && s.place[0] != Deciding
    ensures var s, r := Run(threads, before), Run(threads, before + after);
      r.decisions >= s.decisions
      && (r.decisions == s.decisions ==> Missed(r, missing) && r.flag > 0 && r.place[0] != Deciding)
  {
    if after == [] {
      assert before + after == before;
    } else {
      var most := after[..|after| - 1];
      MissedUntilDecision(threads, before, most, missing);
      assert (before + after)[..|before + after| - 1] == before + most;
      RunIsSound(threads, before + most);
    }
  }

  /** So in every interleaving the first decision after a missed release is made without the primary
      that missed it, and with a free thread counted at least twice. */
  lemma NextDecisionAfterMiss(threads: nat, before: seq<nat>, after: seq<nat>, t: nat, missing: nat)
    requires threads >= 1 && t < threads && missing < threads
    requires forall i :: 0 <= i < |before| ==> before[i] < threads
    requires forall i :: 0 <= i < |after| ==> after[i] < threads
    requires var s := Run(threads, before); Missed(s, missing) && s.flag > 0 && s.place[0] != Deciding
    requires Run(threads, before + after).decisions == Run(threads, before).decisions
    requires Decides(Run(threads, before + after), t)
    ensures var r := Run(threads, before + after);
      r.posts[missing] == 0 && exists j :: 0 <= j < threads && IsFree(j) && r.posts[j] >= 2
  {
    MissedUntilDecision(threads, before, after, missing);
    MissedReleaseNeedsDoublePost(threads, before + after, t, missing);
  }

  /** In some step of `after`, thread t tests and finds the counter at zero. */
  ghost predicate Tests(threads: nat, before: seq<nat>, after: seq<nat>, t: nat)
    requires forall i :: 0 <= i < |before| ==> before[i] < threads
    requires forall i :: 0 <= i < |after| ==> after[i] < threads
  {
    exists k :: 0 <= k < |after| && after[k] == t && Run(threads, before + after[..k]).flag == 0
  }

  lemma TestsNext(threads: nat, before: seq<nat>, after: seq<nat>, u: nat, t: nat)
    requires forall i :: 0 <= i < |before| ==> before[i] < threads
    requires (forall i :: 0 <= i < |after| ==> after[i] < threads) && u < threads
    ensures Tests(threads, before, after + [u], t) <==>
      Tests(threads, before, after, t) || (u == t && Run(threads, before + after).flag == 0)
  {
    var more := after + [u];
    assert forall k :: 0 <= k <= |after| ==> more[..k] == after[..k];
    assert after[..|after|] == after && more[|after|] == u;
    if k :| 0 <= k < |after| && after[k] == t && Run(threads, before + after[..k]).flag == 0 {
      assert more[k] == t && more[..k] == after[..k];
    }
  }

  /** One step while the master does not decide: a missed release ends exactly with a test that finds
      zero, and no other thread starts to miss one. */
  lemma MissedStep(s: State, threads: nat, u: nat, t: nat)
    requires Sound(s, threads) && u < threads && t < threads && s.place[0] != Deciding
    ensures Missed(Step(s, u), t) <==> Missed(s, t) && !(u == t && s.flag == 0)
  {
  }

  /** Exactly when a release is missed: between two decisions, a primary that waits without a post
      goes on waiting if and only if none of its tests has found the counter at zero. */
  lemma {:induction false} MissedIffNoTestFindsZero(threads: nat, before: seq<nat>, after: seq<nat>, t: nat)
    requires threads >= 1 && t < threads
    requires forall i :: 0 <= i < |before| ==> before[i] < threads
    requires forall i :: 0 <= i < |after| ==> after[i] < threads
    requires Missed(Run(threads, before), t) && Run(threads, before).place[0] != Deciding
    ensures var s, r := Run(threads, before), Run(threads, before + after);
      && r.decisions >= s.decisions
      && (r.decisions == s.decisions ==> r.place[0] != Deciding)
      && (r.decisions == s.decisions ==> (Missed(r, t) <==> !Tests(threads, before, after, t)))
  {
    if after == [] {
      assert before + after == before;
      assert !Tests(threads, before, after, t);
    } else {
      hide Run, Step, Tests, Missed, Sound;
      var most, u := after[..|after| - 1], after[|after| - 1];
      assert after == most + [u] && before + after == (before + most) + [u];
      MissedIffNoTestFindsZero(threads, before, most, t);
      RunNext(threads, before + most, u);
      TestsNext(threads, before, most, u, t);
      RunIsSound(threads, before + most);
      var s := Run(threads, before + most);
      DecisionsGrow(s, u);
      if Step(s, u).decisions == Run(threads, before).decisions {
        MissedStep(s, threads, u, t);
      }
    }
  }

  lemma DecisionsGrow(s: State, u: nat)
    requires u < |s.place| == |s.posts|
    ensures Step(s, u).decisions >= s.decisions
    ensures Step(s, u).decisions == s.decisions && s.place[0] != Deciding ==> Step(s, u).place[0] != Deciding
  {
  }

  // ----- Progress -----

  /** Once a release is missed, free threads that keep to one post per epoch block the barrier: no
      run of theirs ever decides again. */
  lemma {:induction false} MissBlocks(threads: nat, before: seq<nat>, after: seq<nat>, missing: nat)
    requires threads >= 1 && missing < threads
    requires forall i :: 0 <= i < |before| ==> before[i] < threads
    requires forall i :: 0 <= i < |after| ==> after[i] < threads
    requires var s := Run(threads, before); Missed(s, missing) && s.flag > 0 && s.place[0] != Deciding
    requires forall n :: 0 <= n < |after| ==> FreePostOnce(Run(threads, before + after[..n]))
    ensures Run(threads, before + after).decisions == Run(threads, before).decisions
  {
    if after == [] {
      assert before + after == before;
    } else {
      var most, u := after[..|after| - 1], after[|after| - 1];
      assert before + after == (before + most) + [u];
      assert forall n :: 0 <= n < |most| ==> most[..n] == after[..n];
      MissBlocks(threads, before, most, missing);
      RunNext(threads, before + most, u);
      assert FreePostOnce(Run(threads, before + most));
      if Decides(Run(threads, before + most), u) {
        NextDecisionAfterMiss(threads, before, most, u, missing);
      }
    }
  }

  /** Thread 1 is free and can post any number of times. */
  lemma {:induction false} KeepPosting(threads: nat, schedule: seq<nat>, k: nat)
    requires threads >= 2 && forall i :: 0 <= i < |schedule| ==> schedule[i] < threads
    ensures var s, r := Run(threads, schedule), Run(threads, schedule + Repeat(1, k));
      r.flag == s.flag + k && r.decisions == s.decisions && r.place[0] == s.place[0]
  {
    hide Run, Step;
    if k == 0 {
      assert schedule + Repeat(1, 0) == schedule;
    } else {
      var most := schedule + Repeat(1, k - 1);
      KeepPosting(threads, schedule, k - 1);
      assert schedule + Repeat(1, k) == most + [1];
      RunNext(threads, most, 1);
      RunIsSound(threads, most);
      FreePost(Run(threads, most), threads);
    }
  }

  lemma FreePost(s: State, threads: nat)
    requires Sound(s, threads) && threads >= 2
    ensures var r := Step(s, 1); r.flag == s.flag + 1 && r.decisions == s.decisions && r.place[0] == s.place[0]
  {
    assert MayBe(1, s.place[1]);
  }

  lemma DecideFromWaiting(threads: nat, schedule: seq<nat>) returns (more: seq<nat>)
    requires threads >= 2 && forall i :: 0 <= i < |schedule| ==> schedule[i] < threads
    requires Run(threads, schedule).place[0] == AwaitingPosts
    ensures forall i :: 0 <= i < |more| ==> more[i] < threads
    ensures Run(threads, schedule + more).decisions == Run(threads, schedule).decisions + 1
  {
    more := Repeat(1, threads) + [0];
    KeepPosting(threads, schedule, threads);
    RunNext(threads, schedule + Repeat(1, threads), 0);
    assert schedule + more == schedule + Repeat(1, threads) + [0];
  }

  lemma DecideFromWorking(threads: nat, schedule: seq<nat>) returns (more: seq<nat>)
    requires threads >= 2 && forall i :: 0 <= i < |schedule| ==> schedule[i] < threads
    requires Run(threads, schedule).place[0] == Working
    ensures forall i :: 0 <= i < |more| ==> more[i] < threads
    ensures Run(threads, schedule + more).decisions == Run(threads, schedule).decisions + 1
  {
    RunNext(threads, schedule, 0);
    var rest := DecideFromWaiting(threads, schedule + [0]);
    more := [0] + rest;
    assert schedule + more == schedule + [0] + rest;
  }

  /** From every reachable state with two or more threads some continuation decides. */
  lemma SomeContinuationDecides(threads: nat, schedule: seq<nat>) returns (more: seq<nat>)
    requires threads >= 2 && forall i :: 0 <= i < |schedule| ==> schedule[i] < threads
    ensures forall i :: 0 <= i < |more| ==> more[i] < threads
    ensures Run(threads, schedule + more).decisions == Run(threads, schedule).decisions + 1
  {
    RunIsSound(threads, schedule);
    match Run(threads, schedule).place[0] {
      case Working => more := DecideFromWorking(threads, schedule);
      case AwaitingPosts => more := DecideFromWaiting(threads, schedule);
      case Deciding =>
        RunNext(threads, schedule, 0);
        var rest := DecideFromWorking(threads, schedule + [0]);
        more := [0] + rest;
        assert schedule + more == schedule + [0] + rest;
      case AwaitingRelease => assert false;
    }
  }

  // ----- A missed release -----

  /** The master posts, decides and resets, and a free thread posts before the primary tests. */
  lemma ReleaseIsMissed(s: State, threads: nat, schedule: seq<nat>, t: nat)
    requires threads >= 2 && t < threads && IsPrimary(t)
    requires forall i :: 0 <= i < |schedule| ==> schedule[i] < threads
    requires s == Run(threads, schedule) && s.flag >= threads - 1
    requires s.place[0] == Working && s.place[1] == Working && s.place[t] == AwaitingRelease
    ensures Missed(Run(threads, schedule + [0] + [0] + [0] + [1] + [t]), t)
  {
    RunNext(threads, schedule, 0);
    RunNext(threads, schedule + [0], 0);
    RunNext(threads, schedule + [0] + [0], 0);
    RunNext(threads, schedule + [0] + [0] + [0], 1);
    RunNext(threads, schedule + [0] + [0] + [0] + [1], t);
    hide Run;
    var decided := Step(Step(s, 0), 0);
    assert decided.place == s.place[0 := Deciding];
    var reset := Step(decided, 0);
    assert reset.flag == 0 && reset.place[1] == Working && reset.place[t] == AwaitingRelease && reset.posts[t] == 0;
    var raised := Step(reset, 1);
    assert raised.flag == 1 && raised.place[t] == AwaitingRelease && raised.posts[t] == 0;
  }

  lemma FourPosts()
    ensures var s := Run(5, [4, 1, 2, 3]);
      s.flag == 4 && s.place[0] == Working && s.place[1] == Working && s.place[4] == AwaitingRelease
  {
    assert [4, 1, 2, 3][..3] == [4, 1, 2] && [4, 1, 2][..2] == [4, 1] && [4, 1][..1] == [4] && [4][..0] == [];
    assert Run(5, [4]) == Step(Initial(5), 4);
    assert Run(5, [4, 1]) == Step(Run(5, [4]), 1);
    assert Run(5, [4, 1, 2]) == Step(Run(5, [4, 1]), 2);
    assert Run(5, [4, 1, 2, 3]) == Step(Run(5, [4, 1, 2]), 3);
  }

  /** Such runs exist: with five threads, one full epoch, and a free thread of the next epoch
      faster than the primary's test. */
  lemma MissedReleaseHappens()
    ensures var schedule := [4, 1, 2, 3] + [0] + [0] + [0] + [1] + [4];
      (forall i :: 0 <= i < |schedule| ==> schedule[i] < 5) && Missed(Run(5, schedule), 4)
  {
    FourPosts();
    ReleaseIsMissed(Run(5, [4, 1, 2, 3]), 5, [4, 1, 2, 3], 4);
  }
}
