/** `ThreadPool`: enqueueing threads, workers and shutdown as atomic steps.  Each critical section
    under the pool's mutex is one step; a notification is a step of its own, made after the lock
    is released; a worker that finds nothing to do releases the lock and falls asleep in one step;
    sleepers may wake spuriously. */
module ThreadPool {

  datatype Worker<T> =
    | Ready            // about to take the lock and test the wait condition
    | Asleep           // blocked in cond_.wait
    | Running(job: T)  // outside the lock, inside the job
    | Exited

  datatype Pool<T> = Pool(
    jobs: seq<T>,            // jobs_
    shutdown: bool,          // shutdown_
    workers: seq<Worker<T>>, // threads_
    owedOne: nat,            // pushes whose notify_one is still to come
    owedAll: bool,           // shutdown's notify_all is still to come
    // history
    enqueued: seq<T>,
    taken: seq<T>,
    finished: multiset<T>,
    late: seq<T>)            // pushed when every worker had exited already

  datatype Action<T> =
    | Push(job: T)
    | NotifyOne(w: nat)
    | NotifyNobody
    | SetShutdown
    | NotifyAll
    | Take(w: nat)
    | Return(w: nat)
    | WakeSpuriously(w: nat)

  function Start<T>(n: nat): Pool<T> {
    Pool([], false, seq(n, _ => Ready), 0, false, [], [], multiset{}, [])
  }

  predicate IsAsleep<T(==)>(s: Pool<T>, w: nat) { w < |s.workers| && s.workers[w].Asleep? }

  predicate IsAwake<T(==)>(s: Pool<T>, w: nat) {
    w < |s.workers| && (s.workers[w].Ready? || s.workers[w].Running?)
  }

  predicate AllExited<T(==)>(s: Pool<T>) { forall w :: 0 <= w < |s.workers| ==> s.workers[w].Exited? }

  predicate Enabled<T(==)>(s: Pool<T>, a: Action<T>) {
    match a
    case Push(_) => true
    case NotifyOne(w) => s.owedOne > 0 && IsAsleep(s, w)
    case NotifyNobody => s.owedOne > 0 && forall w :: 0 <= w < |s.workers| ==> !s.workers[w].Asleep?
    case SetShutdown => !s.shutdown
    case NotifyAll => s.owedAll
    case Take(w) => w < |s.workers| && s.workers[w].Ready?
    case Return(w) => w < |s.workers| && s.workers[w].Running?
    case WakeSpuriously(w) => IsAsleep(s, w)
  }

  function Woken<T>(ws: seq<Worker<T>>): (vs: seq<Worker<T>>)
    ensures |vs| == |ws| && forall i :: 0 <= i < |ws| ==> vs[i] == if ws[i].Asleep? then Ready else ws[i]
  {
    seq(|ws|, i requires 0 <= i < |ws| => if ws[i].Asleep? then Ready else ws[i])
  }

  function Step<T(==)>(s: Pool<T>, a: Action<T>): Pool<T>
    requires Enabled(s, a)
  {
    match a
    case Push(j) =>
      s.(jobs := s.jobs + [j], enqueued := s.enqueued + [j], owedOne := s.owedOne + 1,
         late := if AllExited(s) then s.late + [j] else s.late)
    case NotifyOne(w) => s.(owedOne := s.owedOne - 1, workers := s.workers[w := Ready])
    case NotifyNobody => s.(owedOne := s.owedOne - 1)
    case SetShutdown => s.(shutdown := true, owedAll := true)
    case NotifyAll => s.(owedAll := false, workers := Woken(s.workers))
    case Take(w) =>
      if s.jobs == [] && !s.shutdown then s.(workers := s.workers[w := Asleep])
      else if s.jobs == [] then s.(workers := s.workers[w := Exited])
      else s.(workers := s.workers[w := Running(s.jobs[0])], jobs := s.jobs[1..], taken := s.taken + [s.jobs[0]])
    case Return(w) =>
      s.(workers := s.workers[w := Ready], finished := s.finished + multiset{s.workers[w].job})
    case WakeSpuriously(w) => s.(workers := s.workers[w := Ready])
  }

  // ---------------------------------------------------------------- runs

  /** Every action of the run is enabled when its turn comes. */
  predicate CanRun<T(==)>(s: Pool<T>, run: seq<Action<T>>)
    decreases |run|
  {
    run == [] || (Enabled(s, run[0]) && CanRun(Step(s, run[0]), run[1..]))
  }

  function After<T(==)>(s: Pool<T>, run: seq<Action<T>>): Pool<T>
    requires CanRun(s, run)
    decreases |run|
  {
    if run == [] then s else After(Step(s, run[0]), run[1..])
  }

  // ---------------------------------------------------------------- the invariant

  function Held<T>(v: Worker<T>): multiset<T> { if v.Running? then multiset{v.job} else multiset{} }

  /** The jobs being run. */
  function InHand<T>(ws: seq<Worker<T>>): multiset<T> {
    if ws == [] then multiset{} else Held(ws[0]) + InHand(ws[1..])
  }

  /** First in, first out; and what was taken is being run or done. */
  ghost predicate Conserved<T>(s: Pool<T>) {
    && s.enqueued == s.taken + s.jobs
    && multiset(s.taken) == InHand(s.workers) + s.finished
  }

  /** No lost wake-up: work without a notification on its way finds a worker awake; and after
      shutdown every sleeper still has the broadcast coming. */
  ghost predicate NoLostWakeup<T>(s: Pool<T>) {
    && (s.jobs != [] && s.owedOne == 0 && !AllExited(s) ==> exists w: nat :: IsAwake(s, w))
    && (s.shutdown && !s.owedAll ==> forall w: nat :: !IsAsleep(s, w))
    && (s.owedAll ==> s.shutdown)
  }

  /** Workers exit only after shutdown, and the last one leaves an empty queue behind. */
  ghost predicate ExitsClean<T>(s: Pool<T>) {
    && ((exists w :: 0 <= w < |s.workers| && s.workers[w].Exited?) ==> s.shutdown)
    && (AllExited(s) && s.workers != [] ==> s.jobs == s.late)
    && (!AllExited(s) ==> s.late == [])
  }

  ghost predicate Inv<T>(s: Pool<T>) { Conserved(s) && NoLostWakeup(s) && ExitsClean(s) }

  lemma AddFront<T>(a: multiset<T>, x: multiset<T>, h: multiset<T>, y: multiset<T>, v: multiset<T>)
    requires x + h == y + v
    ensures a + x + h == a + y + v
  {
    assert a + x + h == a + (x + h);
    assert a + y + v == a + (y + v);
  }

  lemma {:induction false} InHandUpdate<T>(ws: seq<Worker<T>>, w: nat, v: Worker<T>)
    requires w < |ws|
    ensures InHand(ws[w := v]) + Held(ws[w]) == InHand(ws) + Held(v)
  {
    hide Held;
    var rest := ws[1..];
    if w == 0 {
      assert ws[0 := v][1..] == rest;
      var y := InHand(rest);
      assert Held(v) + y + Held(ws[0]) == Held(ws[0]) + y + Held(v);
    } else {
      InHandUpdate(rest, w - 1, v);
      assert ws[w := v][1..] == rest[w - 1 := v];
      AddFront(Held(ws[0]), InHand(rest[w - 1 := v]), Held(ws[w]), InHand(rest), Held(v));
    }
  }

  lemma {:induction false} InHandWoken<T>(ws: seq<Worker<T>>)
    ensures InHand(Woken(ws)) == InHand(ws)
  {
    if ws != [] {
      assert Woken(ws)[1..] == Woken(ws[1..]);
      InHandWoken(ws[1..]);
    }
  }

  lemma InHandStart<T>(n: nat)
    ensures InHand(Start<T>(n).workers) == multiset{}
  {
    if n > 0 {
      InHandStart<T>(n - 1);
      assert Start<T>(n).workers[1..] == Start<T>(n - 1).workers;
    }
  }

  lemma StartSize<T>(n: nat)
    ensures |Start<T>(n).workers| == n
  {
  }

  lemma StartInv<T>(n: nat)
    ensures Inv(Start<T>(n))
  {
    InHandStart<T>(n);
    assert n > 0 ==> !Start<T>(n).workers[0].Exited?;
  }

  lemma HandKept<T>(ws: seq<Worker<T>>, w: nat, v: Worker<T>)
    requires w < |ws| && !ws[w].Running? && !v.Running?
    ensures InHand(ws[w := v]) == InHand(ws)
  {
    hide InHand;
    InHandUpdate(ws, w, v);
    assert InHand(ws[w := v]) == InHand(ws[w := v]) + Held(ws[w]);
    assert InHand(ws) == InHand(ws) + Held(v);
  }

  lemma HandTakes<T>(ws: seq<Worker<T>>, w: nat, j: T)
    requires w < |ws| && !ws[w].Running?
    ensures InHand(ws[w := Running(j)]) == InHand(ws) + multiset{j}
  {
    hide InHand;
    InHandUpdate(ws, w, Running(j));
  }

  lemma HandReturns<T>(ws: seq<Worker<T>>, w: nat)
    requires w < |ws| && ws[w].Running?
    ensures InHand(ws[w := Ready]) + multiset{ws[w].job} == InHand(ws)
  {
    hide InHand;
    InHandUpdate(ws, w, Ready);
  }

  lemma StepKeepsOrder<T>(s: Pool<T>, a: Action<T>)
    requires s.enqueued == s.taken + s.jobs && Enabled(s, a)
    ensures Step(s, a).enqueued == Step(s, a).taken + Step(s, a).jobs
  {
    if a.Push? {
      assert s.taken + (s.jobs + [a.job]) == s.enqueued + [a.job];
    } else if a.Take? && s.jobs != [] {
      assert s.taken + s.jobs == s.taken + [s.jobs[0]] + s.jobs[1..];
    }
  }

  lemma StepConserves<T>(s: Pool<T>, a: Action<T>)
    requires Conserved(s) && Enabled(s, a)
    ensures Conserved(Step(s, a))
  {
    hide InHand;
    StepKeepsOrder(s, a);
    match a {
      case Push(j) =>
      case NotifyOne(w) => HandKept(s.workers, w, Ready);
      case NotifyNobody =>
      case SetShutdown =>
      case NotifyAll => InHandWoken(s.workers);
      case Take(w) =>
        if s.jobs == [] {
          HandKept(s.workers, w, if s.shutdown then Exited else Asleep);
        } else {
          HandTakes(s.workers, w, s.jobs[0]);
        }
      case Return(w) => HandReturns(s.workers, w);
      case WakeSpuriously(w) => HandKept(s.workers, w, Ready);
    }
  }

  lemma StepKeepsAwake<T>(s: Pool<T>, a: Action<T>)
    requires NoLostWakeup(s) && Enabled(s, a)
    ensures NoLostWakeup(Step(s, a))
  {
    var t := Step(s, a);
    assert forall v: nat :: IsAsleep(t, v) && !(a.Take? && a.w == v) ==> IsAsleep(s, v);
    match a {
      case Push(j) =>
      case NotifyOne(w) => assert IsAwake(t, w);
      case NotifyNobody =>
        if !AllExited(t) {
          var v :| 0 <= v < |t.workers| && !t.workers[v].Exited?;
          assert IsAwake(t, v);
        }
      case SetShutdown =>
        if v: nat :| IsAwake(s, v) { assert IsAwake(t, v); }
      case NotifyAll =>
        if !AllExited(t) {
          var v :| 0 <= v < |t.workers| && !t.workers[v].Exited?;
          assert IsAwake(t, v);
        }
      case Take(w) =>
        assert t.jobs != [] ==> IsAwake(t, w);
      case Return(w) => assert IsAwake(t, w);
      case WakeSpuriously(w) => assert IsAwake(t, w);
    }
  }

  lemma StepExitsClean<T>(s: Pool<T>, a: Action<T>)
    requires ExitsClean(s) && Enabled(s, a)
    ensures ExitsClean(Step(s, a))
  {
    var t := Step(s, a);
    match a {
      case Push(j) =>
      case NotifyOne(w) => assert !t.workers[w].Exited?;
      case NotifyNobody =>
      case SetShutdown =>
      case NotifyAll =>
        assert AllExited(t) <==> AllExited(s) by {
          assert forall v :: 0 <= v < |s.workers| ==> (t.workers[v].Exited? <==> s.workers[v].Exited?);
        }
      case Take(w) =>
        assert !s.workers[w].Exited?;
        assert t.workers[w].Exited? ==> t.jobs == [] && s.late == [];
      case Return(w) => assert !t.workers[w].Exited? && !s.workers[w].Exited?;
      case WakeSpuriously(w) => assert !t.workers[w].Exited? && !s.workers[w].Exited?;
    }
  }

  lemma StepInv<T>(s: Pool<T>, a: Action<T>)
    requires Inv(s) && Enabled(s, a)
    ensures Inv(Step(s, a))
  {
    hide Conserved, NoLostWakeup, ExitsClean, Step;
    StepConserves(s, a);
    StepKeepsAwake(s, a);
    StepExitsClean(s, a);
  }

  // ---------------------------------------------------------------- whole runs

  lemma {:induction false} RunInv<T>(s: Pool<T>, run: seq<Action<T>>)
    requires Inv(s) && CanRun(s, run)
    ensures Inv(After(s, run))
    decreases |run|
  {
    hide Inv, Step, Enabled;
    if run != [] {
      StepInv(s, run[0]);
      RunInv(Step(s, run[0]), run[1..]);
    }
  }

  /** MAIN RESULT.  In every run of a pool every job is queued, running or finished, exactly once;
      jobs are taken in the order they were enqueued; and a queued job with no notification on its
      way finds some worker neither asleep nor exited, unless all have exited. */
  lemma JobsConserved<T>(n: nat, run: seq<Action<T>>)
    requires CanRun(Start<T>(n), run)
    ensures var s := After(Start<T>(n), run);
      && |s.workers| == n
      && multiset(s.enqueued) == multiset(s.jobs) + InHand(s.workers) + s.finished
      && s.taken <= s.enqueued
      && (s.jobs != [] && s.owedOne == 0 && !AllExited(s) ==> exists w: nat :: IsAwake(s, w))
  {
    StartSize<T>(n);
    hide CanRun, After, Start;
    StartInv<T>(n);
    RunInv(Start<T>(n), run);
    SameSize(Start<T>(n), run);
    var s := After(Start<T>(n), run);
    assert multiset(s.taken + s.jobs) == multiset(s.taken) + multiset(s.jobs);
  }

  /** Once all of at least one worker have exited, the unfinished jobs are exactly those pushed
      after the last exit: every job is finished if and only if there is none of those. */
  lemma AllJobsFinish<T>(n: nat, run: seq<Action<T>>)
    requires CanRun(Start<T>(n), run) && n > 0 && AllExited(After(Start<T>(n), run))
    ensures var s := After(Start<T>(n), run);
      && multiset(s.enqueued) == s.finished + multiset(s.late)
      && (multiset(s.enqueued) == s.finished <==> s.late == [])
  {
    hide CanRun, After;
    var s := After(Start<T>(n), run);
    JobsConserved(n, run);
    StartInv<T>(n);
    RunInv(Start<T>(n), run);
    SameSize(Start<T>(n), run);
    NobodyRuns(s.workers);
    if s.late != [] {
      assert s.late[0] in multiset(s.late);
    }
  }

  lemma {:induction false} SameSize<T>(s: Pool<T>, run: seq<Action<T>>)
    requires CanRun(s, run)
    ensures |After(s, run).workers| == |s.workers|
    decreases |run|
  {
    if run != [] {
      SameSize(Step(s, run[0]), run[1..]);
    }
  }

  lemma {:induction false} NobodyRuns<T>(ws: seq<Worker<T>>)
    requires forall w :: 0 <= w < |ws| ==> ws[w].Exited?
    ensures InHand(ws) == multiset{}
  {
    if ws != [] {
      NobodyRuns(ws[1..]);
    }
  }

  /** No push follows shutdown in the run. */
  predicate NoLatePush<T(==)>(s: Pool<T>, run: seq<Action<T>>)
    requires CanRun(s, run)
    decreases |run|
  {
    run == [] || ((run[0].Push? ==> !s.shutdown) && NoLatePush(Step(s, run[0]), run[1..]))
  }

  lemma StepNotLate<T>(s: Pool<T>, a: Action<T>)
    requires Enabled(s, a) && ExitsClean(s) && s.late == [] && s.workers != [] && (a.Push? ==> !s.shutdown)
    ensures Step(s, a).late == [] && Step(s, a).workers != []
  {
    if a.Push? && !s.workers[0].Exited? { assert !AllExited(s); }
  }

  lemma {:induction false} NothingLate<T>(s: Pool<T>, run: seq<Action<T>>)
    requires CanRun(s, run) && NoLatePush(s, run) && Inv(s) && s.late == [] && s.workers != []
    ensures After(s, run).late == []
    decreases |run|
  {
    hide Conserved, NoLostWakeup, ExitsClean, Step, Enabled;
    if run != [] {
      StepInv(s, run[0]);
      StepNotLate(s, run[0]);
      NothingLate(Step(s, run[0]), run[1..]);
    }
  }

  /** With at least one worker and no push after shutdown, a queued job with no notification on its
      way always finds a worker neither asleep nor exited. */
  lemma ServerNeverStalls<T>(n: nat, run: seq<Action<T>>)
    requires n > 0 && CanRun(Start<T>(n), run) && NoLatePush(Start<T>(n), run)
    ensures var s := After(Start<T>(n), run);
      s.jobs != [] && s.owedOne == 0 ==> exists w: nat :: IsAwake(s, w)
  {
    hide Step, Enabled, CanRun, After, IsAwake, Conserved;
    StartInv<T>(n);
    RunInv(Start<T>(n), run);
    SameSize(Start<T>(n), run);
    NothingLate(Start<T>(n), run);
  }

  /** The server never enqueues after shutdown, so all its jobs are finished when the joins are. */
  lemma ServerJobsFinish<T>(n: nat, run: seq<Action<T>>)
    requires n > 0 && CanRun(Start<T>(n), run) && NoLatePush(Start<T>(n), run)
    requires AllExited(After(Start<T>(n), run))
    ensures multiset(After(Start<T>(n), run).enqueued) == After(Start<T>(n), run).finished
  {
    StartInv<T>(n);
    NothingLate(Start<T>(n), run);
    AllJobsFinish(n, run);
  }

  // ---------------------------------------------------------------- shutdown comes to an end

  function Weight<T>(v: Worker<T>): nat {
    match v case Exited => 0 case Ready => 1 case Asleep => 2 case Running(_) => 2
  }

  function Weights<T>(ws: seq<Worker<T>>): nat {
    if ws == [] then 0 else Weight(ws[0]) + Weights(ws[1..])
  }

  function Rank<T>(s: Pool<T>): nat {
    2 * |s.jobs| + Weights(s.workers) + s.owedOne + if s.owedAll then 1 else 0
  }

  lemma {:induction false} WeightsUpdate<T>(ws: seq<Worker<T>>, w: nat, v: Worker<T>)
    requires w < |ws|
    ensures Weights(ws[w := v]) + Weight(ws[w]) == Weights(ws) + Weight(v)
  {
    if w == 0 {
      assert ws[0 := v][1..] == ws[1..];
    } else {
      WeightsUpdate(ws[1..], w - 1, v);
      assert ws[w := v][1..] == ws[1..][w - 1 := v];
    }
  }

  lemma {:induction false} WeightsWoken<T>(ws: seq<Worker<T>>)
    ensures Weights(Woken(ws)) <= Weights(ws)
  {
    if ws != [] {
      assert Woken(ws)[1..] == Woken(ws[1..]);
      WeightsWoken(ws[1..]);
    }
  }

  /** After shutdown nobody falls asleep, and every step but a push lowers the rank. */
  lemma ShutdownStep<T>(s: Pool<T>, a: Action<T>)
    requires Enabled(s, a) && s.shutdown && !a.Push?
    ensures var t := Step(s, a);
      t.shutdown && Rank(t) < Rank(s) && forall w: nat :: IsAsleep(t, w) ==> IsAsleep(s, w)
  {
    hide Weights;
    match a {
      case NotifyOne(w) => WeightsUpdate(s.workers, w, Ready);
      case NotifyNobody =>
      case SetShutdown =>
      case NotifyAll => WeightsWoken(s.workers);
      case Take(w) => WeightsUpdate(s.workers, w, if s.jobs == [] then Exited else Running(s.jobs[0]));
      case Return(w) => WeightsUpdate(s.workers, w, Ready);
      case WakeSpuriously(w) => WeightsUpdate(s.workers, w, Ready);
    }
  }

  /** After shutdown some worker can move, or the broadcast is due, until all have exited. */
  lemma ShutdownProgress<T>(s: Pool<T>)
    requires Inv(s) && s.shutdown && !AllExited(s)
    ensures exists a :: Enabled(s, a) && !a.Push? && !a.WakeSpuriously?
  {
    var w :| 0 <= w < |s.workers| && !s.workers[w].Exited?;
    match s.workers[w] {
      case Ready => assert Enabled(s, Take(w));
      case Running(_) => assert Enabled(s, Return(w));
      case Asleep =>
        assert IsAsleep(s, w);
        assert Enabled(s, NotifyAll);
    }
  }

  /** MAIN RESULT.  From any state reached after shutdown, with no further push, every run is
      finite -- its length is at most the rank -- and a run that cannot be continued has every
      worker exited, so the joins in `shutdown` complete; spurious wake-ups included. */
  lemma {:induction false} ShutdownCompletes<T>(s: Pool<T>, run: seq<Action<T>>)
    requires Inv(s) && s.shutdown && CanRun(s, run)
    requires forall i :: 0 <= i < |run| ==> !run[i].Push?
    ensures |run| <= Rank(s)
    ensures (forall a :: Enabled(After(s, run), a) ==> a.Push?) ==> AllExited(After(s, run))
    decreases |run|
  {
    hide Rank, Inv;
    if run == [] {
      if !AllExited(s) { ShutdownProgress(s); }
    } else {
      ShutdownStep(s, run[0]);
      StepInv(s, run[0]);
      ShutdownCompletes(Step(s, run[0]), run[1..]);
    }
  }

  // ---------------------------------------------------------------- before shutdown, too

  /** Anything but a push, a shutdown and a spurious wake-up. */
  predicate Quiet<T(==)>(a: Action<T>) { !a.Push? && !a.SetShutdown? && !a.WakeSpuriously? }

  function QuietWeight<T>(v: Worker<T>): nat {
    match v case Exited => 0 case Asleep => 0 case Ready => 1 case Running(_) => 3
  }

  function QuietWeights<T>(ws: seq<Worker<T>>): nat {
    if ws == [] then 0 else QuietWeight(ws[0]) + QuietWeights(ws[1..])
  }

  function QuietRank<T>(s: Pool<T>): nat {
    4 * |s.jobs| + QuietWeights(s.workers) + 2 * s.owedOne + if s.owedAll then |s.workers| + 1 else 0
  }

  lemma {:induction false} QuietUpdate<T>(ws: seq<Worker<T>>, w: nat, v: Worker<T>)
    requires w < |ws|
    ensures QuietWeights(ws[w := v]) + QuietWeight(ws[w]) == QuietWeights(ws) + QuietWeight(v)
  {
    if w == 0 {
      assert ws[w := v][1..] == ws[1..];
    } else {
      assert ws[w := v][1..] == ws[1..][w - 1 := v];
      QuietUpdate(ws[1..], w - 1, v);
    }
  }

  lemma {:induction false} QuietWoken<T>(ws: seq<Worker<T>>)
    ensures QuietWeights(Woken(ws)) <= QuietWeights(ws) + |ws|
  {
    if ws != [] {
      assert Woken(ws)[1..] == Woken(ws[1..]);
      QuietWoken(ws[1..]);
    }
  }

  lemma QuietStep<T>(s: Pool<T>, a: Action<T>)
    requires Enabled(s, a) && Quiet(a)
    ensures QuietRank(Step(s, a)) < QuietRank(s)
  {
    hide QuietWeights;
    match a {
      case NotifyOne(w) => QuietUpdate(s.workers, w, Ready);
      case NotifyNobody =>
      case NotifyAll => QuietWoken(s.workers);
      case Take(w) => QuietUpdate(s.workers, w, Step(s, a).workers[w]);
      case Return(w) => QuietUpdate(s.workers, w, Ready);
    }
  }

  /** Where no such step is possible, nobody runs or waits for the lock, no notification is on its way,
      and no job is left unless every worker has exited. */
  lemma QuietEnds<T>(s: Pool<T>)
    requires Inv(s) && forall a :: Enabled(s, a) ==> !Quiet(a)
    ensures forall w :: 0 <= w < |s.workers| ==> s.workers[w].Asleep? || s.workers[w].Exited?
    ensures s.owedOne == 0 && !s.owedAll && (s.jobs == [] || AllExited(s))
  {
    hide Conserved, ExitsClean;
    forall w | 0 <= w < |s.workers| ensures s.workers[w].Asleep? || s.workers[w].Exited? {
      assert Quiet<T>(Take(w)) && Quiet<T>(Return(w));
      assert !Enabled(s, Take(w)) && !Enabled(s, Return(w));
    }
    assert Quiet<T>(NotifyAll) && !Enabled(s, NotifyAll);
    forall w | 0 <= w < |s.workers| ensures s.owedOne > 0 ==> !s.workers[w].Asleep? {
      assert Quiet<T>(NotifyOne(w)) && !Enabled(s, NotifyOne(w));
    }
    assert Quiet<T>(NotifyNobody) && !Enabled(s, NotifyNobody);
  }

  lemma {:induction false} IdleHands<T>(ws: seq<Worker<T>>)
    requires forall w :: 0 <= w < |ws| ==> !ws[w].Running?
    ensures InHand(ws) == multiset{}
  {
    if ws != [] { IdleHands(ws[1..]); }
  }

  /** MAIN RESULT.  Jobs are not only kept but done: while nothing is pushed, nobody wakes spuriously and
      the pool is not shut down, every run from a reachable state is finite, and where it cannot go on
      every job pushed so far is finished and every worker of the pool asleep. */
  lemma AllJobsRun<T>(n: nat, before: seq<Action<T>>, run: seq<Action<T>>)
    requires n > 0 && CanRun(Start<T>(n), before) && !After(Start<T>(n), before).shutdown
    requires CanRun(After(Start<T>(n), before), run) && forall i :: 0 <= i < |run| ==> Quiet(run[i])
    ensures var s := After(Start<T>(n), before);
      var t := After(s, run);
      && |run| <= QuietRank(s)
      && ((forall a :: Enabled(t, a) ==> !Quiet(a)) ==>
            && t.finished == multiset(s.enqueued) && t.enqueued == s.enqueued
            && |t.workers| == n && forall w :: 0 <= w < n ==> t.workers[w].Asleep?)
  {
    hide Step, Enabled, CanRun, After, Inv;
    var s := After(Start<T>(n), before);
    StartInv<T>(n);
    RunInv(Start<T>(n), before);
    SameSize(Start<T>(n), before);
    assert |Start<T>(n).workers| == n;
    QuietRun(s, run);
    RunInv(s, run);
    SameSize(s, run);
    var t := After(s, run);
    if forall a :: Enabled(t, a) ==> !Quiet(a) { RestsDone(t); }
  }

  lemma RestsDone<T>(t: Pool<T>)
    requires Inv(t) && !t.shutdown && t.workers != [] && forall a :: Enabled(t, a) ==> !Quiet(a)
    ensures t.finished == multiset(t.enqueued) && forall w :: 0 <= w < |t.workers| ==> t.workers[w].Asleep?
  {
    hide Enabled;
    QuietEnds(t);
    IdleHands(t.workers);
    assert !t.workers[0].Exited?;
    assert t.taken + t.jobs == t.taken;
  }

  lemma {:induction false} QuietRun<T>(s: Pool<T>, run: seq<Action<T>>)
    requires CanRun(s, run) && forall i :: 0 <= i < |run| ==> Quiet(run[i])
    ensures |run| <= QuietRank(s) && After(s, run).shutdown == s.shutdown && After(s, run).enqueued == s.enqueued
    decreases |run|
  {
    hide QuietRank;
    if run != [] {
      QuietStep(s, run[0]);
      QuietRun(Step(s, run[0]), run[1..]);
    }
  }

  /** What can be done when: pushing always, shutting down once; a worker at the lock can take it, a job can
      return, a sleeper can wake for no reason, and a push is notified as long as it is owed. */
  lemma CanAlways<T>(s: Pool<T>, job: T)
    ensures Enabled(s, Push(job)) && (!s.shutdown ==> Enabled(s, SetShutdown)) && (s.owedAll ==> Enabled(s, NotifyAll))
    ensures forall w: nat :: w < |s.workers| && s.workers[w].Ready? ==> Enabled(s, Take(w))
    ensures forall w: nat :: w < |s.workers| && s.workers[w].Running? ==> Enabled(s, Return(w))
    ensures forall w: nat :: w < |s.workers| && s.workers[w].Asleep? ==> Enabled(s, WakeSpuriously(w))
    ensures forall w: nat :: w < |s.workers| && s.workers[w].Asleep? && s.owedOne > 0 ==> Enabled(s, NotifyOne(w))
    ensures s.owedOne > 0 ==> Enabled(s, NotifyNobody) || exists w: nat :: Enabled(s, NotifyOne(w))
  {
    if s.owedOne > 0 && !Enabled(s, NotifyNobody) {
      var w :| 0 <= w < |s.workers| && s.workers[w].Asleep?;
      assert Enabled(s, NotifyOne(w));
    }
  }
}
