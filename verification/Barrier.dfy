/**
  The spin barrier between the worker threads: every thread posts by incrementing a shared
  counter, the master waits for as many posts as there are threads, decides and clears the
  counter, the other module primaries wait for zero, and the rest run free.
 */
module Barrier {
  /** Where a thread is: about to post, or spinning or deciding after its post. */
  datatype Place = Working | AwaitingPosts | Deciding | AwaitingRelease

  /** `flag` is the shared counter. The rest observes the run: how often each thread has posted
      since the last reset, how often settings were calculated, and how many posts a reset wiped
      out that came after the master had seen enough. */
  datatype State = State(flag: nat, place: seq<Place>, posts: seq<nat>, decisions: nat, lost: nat, seen: nat)

  predicate IsMaster(t: nat) {
    t == 0
  }

  predicate IsPrimary(t: nat) {
    t % 4 == 0 && t != 0
  }

  predicate IsFree(t: nat) {
    t % 4 != 0
  }

  function Initial(threads: nat): State {
    State(0, seq(threads, _ => Working), seq(threads, _ => 0), 0, 0, 0)
  }

  ghost predicate Shaped(s: State, threads: nat) {
    |s.place| == |s.posts| == threads
  }

  /** One atomic action of thread t: its post, one test of its spin loop, the decision, or the
      reset that follows it. */
  function Step(s: State, t: nat): (r: State)
    requires t < |s.place| == |s.posts|
    ensures |r.place| == |r.posts| == |s.place|
  {
    match s.place[t]
    case Working =>
      var next := if IsMaster(t) then AwaitingPosts else if IsPrimary(t) then AwaitingRelease else Working;
      s.(flag := s.flag + 1, posts := s.posts[t := s.posts[t] + 1], place := s.place[t := next])
    case AwaitingPosts =>
      if s.flag < |s.place| then s
      else s.(place := s.place[t := Deciding], decisions := s.decisions + 1, seen := s.flag)
    case Deciding =>
      s.(flag := 0, place := s.place[t := Working], posts := seq(|s.posts|, _ => 0),
         lost := s.lost + (if s.flag > s.seen then s.flag - s.seen else 0))
    case AwaitingRelease =>
      if s.flag != 0 then s else s.(place := s.place[t := Working])
  }

  function Run(threads: nat, schedule: seq<nat>): (r: State)
    requires forall i :: 0 <= i < |schedule| ==> schedule[i] < threads
    ensures Shaped(r, threads)
  {
    if schedule == [] then Initial(threads)
    else Step(Run(threads, schedule[..|schedule| - 1]), schedule[|schedule| - 1])
  }

  // ----- Counting -----

  function Total(xs: seq<nat>): nat {
    if xs == [] then 0 else xs[0] + Total(xs[1..])
  }

  lemma {:induction false} TotalUpdate(xs: seq<nat>, i: nat, x: nat)
    requires i < |xs|
    ensures Total(xs[i := x]) == Total(xs) - xs[i] + x
  {
    if i == 0 {
      assert xs[i := x][1..] == xs[1..];
    } else {
      assert xs[i := x][1..] == xs[1..][i - 1 := x];
      TotalUpdate(xs[1..], i - 1, x);
    }
  }

  lemma {:induction false} TotalZero(xs: seq<nat>)
    requires forall i :: 0 <= i < |xs| ==> xs[i] == 0
    ensures Total(xs) == 0
  {
    if xs != [] {
      TotalZero(xs[1..]);
    }
  }

  lemma {:induction false} TotalAtMost(xs: seq<nat>)
    requires forall i :: 0 <= i < |xs| ==> xs[i] <= 1
    ensures Total(xs) <= |xs|
  {
    if xs != [] {
      TotalAtMost(xs[1..]);
    }
  }

  /** At most one each and as many as there are positions: exactly one each. */
  lemma {:induction false} TotalFull(xs: seq<nat>)
    requires (forall i :: 0 <= i < |xs| ==> xs[i] <= 1) && Total(xs) >= |xs|
    ensures forall i :: 0 <= i < |xs| ==> xs[i] == 1
  {
    if xs != [] {
      TotalAtMost(xs[1..]);
      TotalFull(xs[1..]);
      assert forall i :: 1 <= i < |xs| ==> xs[i] == xs[1..][i - 1];
    }
  }

  lemma {:induction false} TotalIncludes(xs: seq<nat>, i: nat)
    requires i < |xs|
    ensures Total(xs) >= xs[i]
  {
    if i > 0 {
      TotalIncludes(xs[1..], i - 1);
    }
  }

  // ----- What every interleaving keeps -----

  /** Only the master waits for posts and decides; only the other primaries wait for release. */
  predicate MayBe(t: nat, p: Place) {
    match p
    case Working => true
    case AwaitingPosts => IsMaster(t)
    case Deciding => IsMaster(t)
    case AwaitingRelease => IsPrimary(t)
  }

  /** The counter is the number of posts since the last reset; threads that wait after their post
      stay where they are until the reset; once the master decides, enough posts are in. */
  ghost predicate Sound(s: State, threads: nat) {
    && Shaped(s, threads) && threads >= 1
    && s.flag == Total(s.posts)
    && (s.place[0] == Working ==> s.posts[0] == 0)
    && (s.place[0] != Working ==> s.posts[0] == 1)
    && (forall t :: 0 <= t < threads && IsPrimary(t) ==>
          s.posts[t] <= 1 && (s.posts[t] == 1 ==> s.place[t] == AwaitingRelease))
    && (forall t :: 0 <= t < threads ==> MayBe(t, s.place[t]))
    && (s.place[0] == Deciding ==> threads <= s.seen <= s.flag)
  }

  lemma StepKeepsSound(s: State, threads: nat, t: nat)
    requires Sound(s, threads) && t < threads
    ensures Sound(Step(s, t), threads)
  {
    match s.place[t] {
      case Working => TotalUpdate(s.posts, t, s.posts[t] + 1);
      case AwaitingPosts =>
      case Deciding => TotalZero(Step(s, t).posts);
      case AwaitingRelease =>
        TotalIncludes(s.posts, t);
    }
  }

  lemma {:induction false} RunIsSound(threads: nat, schedule: seq<nat>)
    requires threads >= 1 && forall i :: 0 <= i < |schedule| ==> schedule[i] < threads
    ensures Sound(Run(threads, schedule), threads)
  {
    if schedule == [] {
      TotalZero(Initial(threads).posts);
    } else {
      RunIsSound(threads, schedule[..|schedule| - 1]);
      StepKeepsSound(Run(threads, schedule[..|schedule| - 1]), threads, schedule[|schedule| - 1]);
    }
  }

  /** The settings are calculated in this step. */
  predicate Decides(s: State, t: nat)
    requires t < |s.place| == |s.posts|
  {
    Step(s, t).decisions == s.decisions + 1
  }

  /** In every interleaving a decision is made by the master and follows at least as many posts
      since the last reset as there are threads; the master has posted exactly once and every
      module primary at most once. */
  lemma DecisionFollowsAllPosts(threads: nat, schedule: seq<nat>, t: nat)
    requires threads >= 1 && t < threads && forall i :: 0 <= i < |schedule| ==> schedule[i] < threads
    requires Decides(Run(threads, schedule), t)
    ensures var s := Run(threads, schedule);
      && IsMaster(t)
      && Total(s.posts) >= threads
      && s.posts[0] == 1
      && forall p :: 0 <= p < threads && IsPrimary(p) ==> s.posts[p] <= 1
  {
    RunIsSound(threads, schedule);
  }

  /** Free threads have posted at most once since the last reset. */
  ghost predicate FreePostOnce(s: State) {
    forall t :: 0 <= t < |s.posts| && IsFree(t) ==> s.posts[t] <= 1
  }

  /** At a decision every thread has posted exactly once if and only if the free threads have
      kept to one post since the last reset. */
  lemma DecisionSeesEveryThread(threads: nat, schedule: seq<nat>, t: nat)
    requires threads >= 1 && t < threads && forall i :: 0 <= i < |schedule| ==> schedule[i] < threads
    requires Decides(Run(threads, schedule), t)
    ensures (forall i :: 0 <= i < threads ==> Run(threads, schedule).posts[i] == 1)
      <==> FreePostOnce(Run(threads, schedule))
  {
    RunIsSound(threads, schedule);
    var s := Run(threads, schedule);
    if FreePostOnce(s) {
      forall i | 0 <= i < threads ensures s.posts[i] <= 1 {
        assert IsMaster(i) || IsPrimary(i) || IsFree(i);
      }
      TotalFull(s.posts);
    }
  }

  // ----- Lost posts -----

  /** Thread t posts after the master has seen enough and before its reset. */
  predicate PostsLate(s: State, t: nat)
    requires t < |s.place|
  {
    s.place[0] == Deciding && s.place[t] == Working
  }

  /** How many steps of a run are such posts. */
  function LatePosts(threads: nat, schedule: seq<nat>): nat
    requires forall i :: 0 <= i < |schedule| ==> schedule[i] < threads
  {
    if schedule == [] then 0
    else
      var before, t := schedule[..|schedule| - 1], schedule[|schedule| - 1];
      LatePosts(threads, before) + if PostsLate(Run(threads, before), t) then 1 else 0
  }

  /** Posts that the master's coming reset will wipe out unseen. */
  function Doomed(s: State): int
    requires |s.place| >= 1
  {
    if s.place[0] == Deciding then s.flag - s.seen else 0
  }

  /** In every interleaving the posts lost so far, and those about to be lost, are exactly the late
      ones. So outside a decision nothing is lost if and only if nobody has posted late. */
  lemma {:induction false} LostAreLatePosts(threads: nat, schedule: seq<nat>)
    requires threads >= 1 && forall i :: 0 <= i < |schedule| ==> schedule[i] < threads
    ensures var s := Run(threads, schedule);
      && s.lost + Doomed(s) == LatePosts(threads, schedule)
      && (s.place[0] != Deciding ==> (s.lost == 0 <==> LatePosts(threads, schedule) == 0))
  {
    if schedule != [] {
      LostAreLatePosts(threads, schedule[..|schedule| - 1]);
      RunIsSound(threads, schedule[..|schedule| - 1]);
    }
  }

  ghost predicate OnceEverywhere(threads: nat, schedule: seq<nat>)
    requires forall i :: 0 <= i < |schedule| ==> schedule[i] < threads
  {
    forall n :: 0 <= n <= |schedule| ==> FreePostOnce(Run(threads, schedule[..n]))
  }

  /** If the free threads keep to one post per epoch throughout a run, no post is lost. */
  lemma {:induction false} NoPostLost(threads: nat, schedule: seq<nat>)
    requires threads >= 1 && forall i :: 0 <= i < |schedule| ==> schedule[i] < threads
    requires OnceEverywhere(threads, schedule)
    ensures Run(threads, schedule).lost == 0
  {
    if schedule != [] {
      var n := |schedule| - 1;
      var before := schedule[..n];
      forall k | 0 <= k <= n ensures FreePostOnce(Run(threads, before[..k])) {
        assert before[..k] == schedule[..k];
      }
      NoPostLost(threads, before);
      RunIsSound(threads, before);
      var s := Run(threads, before);
      assert FreePostOnce(s) by { assert before[..n] == before; }
      if s.place[schedule[n]] == Deciding {
        forall i | 0 <= i < threads ensures s.posts[i] <= 1 {
          assert IsMaster(i) || IsPrimary(i) || IsFree(i);
        }
        TotalAtMost(s.posts);
      }
    }
  }

  // ----- Without the proviso -----

  function Repeat(t: nat, k: nat): (r: seq<nat>)
    ensures |r| == k && forall i :: 0 <= i < k ==> r[i] == t
  {
    seq(k, _ => t)
  }

  lemma {:induction false} FreeThreadPosts(threads: nat, k: nat)
    requires threads >= 2
    ensures Run(threads, Repeat(1, k)) == Initial(threads).(flag := k, posts := Initial(threads).posts[1 := k])
  {
    if k == 0 {
      assert Initial(threads).posts[1 := 0] == Initial(threads).posts;
    } else {
      FreeThreadPosts(threads, k - 1);
      var before := Run(threads, Repeat(1, k - 1));
      assert Repeat(1, k)[..k - 1] == Repeat(1, k - 1);
      assert before.place[1] == Working && before.place[1 := Working] == before.place;
      assert Step(before, 1).posts == Initial(threads).posts[1 := k];
    }
  }

  /** With any number of threads above one, a single free thread that keeps posting lets the
      master decide although no other thread has posted. */
  lemma DecisionWithoutTheOthers(threads: nat)
    requires threads >= 2
    ensures var schedule := Repeat(1, threads - 1) + [0];
      && (forall i :: 0 <= i < |schedule| ==> schedule[i] < threads)
      && Decides(Run(threads, schedule), 0)
      && forall i :: 2 <= i < threads ==> Run(threads, schedule).posts[i] == 0
  {
    FreeThreadPosts(threads, threads - 1);
    var schedule := Repeat(1, threads - 1) + [0];
    assert schedule[..|schedule| - 1] == Repeat(1, threads - 1);
  }

  /** With any number of threads above one there is a run that loses a post: the free thread
      posts between the decision and the reset. */
  lemma LatePostIsLost(threads: nat)
    requires threads >= 2
    ensures var schedule := Repeat(1, threads - 1) + [0] + [0] + [1] + [0];
      && (forall i :: 0 <= i < |schedule| ==> schedule[i] < threads)
      && Run(threads, schedule).lost == 1
  {
    hide Run, Step;
    FreeThreadPosts(threads, threads - 1);
    var first := Repeat(1, threads - 1);
    RunNext(threads, first, 0);
    RunNext(threads, first + [0], 0);
    RunNext(threads, first + [0] + [0], 1);
    RunNext(threads, first + [0] + [0] + [1], 0);
    LostAfter(Run(threads, first), threads);
  }

  lemma LostAfter(s: State, threads: nat)
    requires Shaped(s, threads) && threads >= 2 && s.flag == threads - 1 && s.lost == 0
    requires s.place[0] == Working && s.place[1] == Working
    ensures Step(Step(Step(Step(s, 0), 0), 1), 0).lost == 1
  {
    var decided := Step(Step(s, 0), 0);
    assert decided.place == s.place[0 := Deciding] && decided.seen == decided.flag == threads && decided.lost == 0;
    var late := Step(decided, 1);
    assert late.place[0] == Deciding && late.flag == threads + 1 && late.seen == threads && late.lost == 0;
  }

  /** One more step at the end of a schedule. */
  lemma RunNext(threads: nat, schedule: seq<nat>, t: nat)
    requires t < threads && forall i :: 0 <= i < |schedule| ==> schedule[i] < threads
    ensures Run(threads, schedule + [t]) == Step(Run(threads, schedule), t)
  {
    assert (schedule + [t])[..|schedule + [t]| - 1] == schedule;
  }
}
