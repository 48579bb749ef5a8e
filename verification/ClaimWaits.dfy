/** What the tasks that wait for a piece have seen: why they sleep, return, claim and purge. */
module ClaimWaits {
  import opened Wrappers
  import opened Claims
  import opened ClaimRuns

  /** Where a task stands, apart from whether it has been woken. */
  function Plain(pc: Pc): Pc {
    if Hooked(pc) then pc.(hook := pc.hook.(woken := false)) else pc
  }

  lemma Untouched(s: State, a: Action, t: nat)
    requires t < |s.tasks| && !Acts(a, t)
    ensures t < |Step(s, a).tasks| && Plain(Step(s, a).tasks[t]) == Plain(s.tasks[t])
  {
    hide Local;
    StepSize(s, a);
    if a.Go? && a.task < |s.tasks| {
      assert RemoveAndNotify(s).tasks[t] == if s.entry.Some? then WakeOne(s.tasks[t], s.entry.value) else s.tasks[t];
    }
  }

  /** A task that has left its start did so by an action, and has not acted since the last one. */
  lemma {:induction false} LastAct(tasks: nat, record: Record, run: seq<Action>, n: nat, t: nat) returns (m: nat)
    requires n <= |run| && t < |At(Init(tasks, record), run, n).tasks| && !At(Init(tasks, record), run, n).tasks[t].Top?
    ensures m < n && Acts(run[m], t) && forall i | m < i < n :: !Acts(run[i], t)
    ensures var s := Init(tasks, record);
            && t < |At(s, run, m).tasks| && t < |Step(At(s, run, m), run[m]).tasks|
            && Plain(Step(At(s, run, m), run[m]).tasks[t]) == Plain(At(s, run, n).tasks[t])
    decreases n
  {
    hide Step, At;
    var s := Init(tasks, record);
    AtStart(s, run);
    assert n > 0;
    AtNext(s, run, n - 1);
    StepSize(At(s, run, n - 1), run[n - 1]);
    if Acts(run[n - 1], t) {
      m := n - 1;
    } else {
      Untouched(At(s, run, n - 1), run[n - 1], t);
      m := LastAct(tasks, record, run, n - 1, t);
    }
  }

  lemma PlainSame()
    ensures forall pc: Pc :: !Hooked(Plain(pc)) ==> Plain(pc) == pc
    ensures forall pc: Pc :: Hooked(pc) <==> Hooked(Plain(pc))
  {
  }

  /** The places at which a waiting task reads the record. */
  predicate Reads(pc: Pc) {
    pc.Top? || pc.Recheck? || (pc.Missing? && pc.round % 2 == 0)
  }

  /** A read that succeeds ends the wait exactly if the piece is finished. */
  lemma ReadReturns(s: State, a: Action, t: nat)
    requires Acts(a, t) && t < |s.tasks| && Reads(s.tasks[t]) && !a.choice.Break?
    ensures t < |Step(s, a).tasks| && (Step(s, a).tasks[t].Over? <==> s.record.Finished?)
  {
  }

  /** How a task comes to be where it is by its own action. */
  lemma Entered(s: State, a: Action, t: nat)
    requires Acts(a, t) && t < |s.tasks| && t < |Step(s, a).tasks|
    ensures var before, after := s.tasks[t], Step(s, a).tasks[t];
            && (after.Sleep? && !before.Sleep? ==> before == Recheck(after.hook) && s.record.Started? && !a.choice.Break?)
            && (after.Recheck? ==> before == Hooking(after.hook.id) && (after.hook.live <==> s.entry == Some(after.hook.id)))
            && (after.Over? && !before.Over? ==>
                  before.Release? || (Reads(before) && s.record.Finished? && !a.choice.Break?))
            && (after.Claiming? ==>
                  || (Reads(before) && (s.record.Absent? || a.choice.Break?))
                  || before == Purge(false) || before == PurgeDelete(false) || before.TimedOut?)
            && (after.Committing? ==> before.Downloading? && !s.record.Absent? && !a.choice.Break?)
            && (after.Downloading? ==> before.Starting? && !a.choice.Break?)
            && (after.Failing? ==>
                  || (before.Downloading? && (s.record.Absent? || a.choice.Break?))
                  || (before.Committing? && a.choice.Break?))
            && (after.Release? ==>
                  || (before.Owning? && (s.record.Finished? || a.choice.Break?)) || (before.Starting? && a.choice.Break?)
                  || (before.Committing? && !a.choice.Break?) || before.Failing? || before.FailDelete?)
            && (after.Hooking? ==> before.Look? && s.entry == Some(after.id))
            && (after.Look? ==> (before.Top? && s.record.Started?) || before.Sleep? || (before.Missing? && s.entry.Some?))
            && (after.TimedOut? ==> before == Purge(true) || before == PurgeDelete(true))
            && (after == Purge(true) ==> before.Sleep? && a.choice.Timeout?)
  {
  }

  lemma EnteredMissing(s: State, a: Action, t: nat)
    requires Acts(a, t) && t < |s.tasks| && t < |Step(s, a).tasks|
    ensures var before, after := s.tasks[t], Step(s, a).tasks[t];
            && (after == Missing(0) ==> before.Look? && s.entry.None?)
            && (after == Missing(1) ==> before == Missing(0) && s.record.Started?)
            && (after == Missing(2) ==> before == Missing(1) && s.entry.None?)
            && (after == Missing(3) ==> before == Missing(2) && s.record.Started?)
            && (after == Purge(false) ==> before.Missing? && before.round % 2 == 1 && before.round != 1 && s.entry.None?)
  {
  }

  lemma SleepKept(s: State, a: Action, t: nat)
    requires Acts(a, t) && t < |s.tasks| && t < |Step(s, a).tasks| && s.tasks[t].Sleep? && Step(s, a).tasks[t].Sleep?
    ensures Step(s, a).tasks[t] == s.tasks[t]
  {
  }

  /**
   In every run, a task that sleeps registered on its notifier at `g`, live
   exactly if that was still published, and at `m`, its next action, read a
   record that was started and not finished. So one whose hook was not live has
   missed no finish before `m`.
   */
  lemma {:induction false} AsleepSince(tasks: nat, record: Record, run: seq<Action>, n: nat, t: nat) returns (g: nat, m: nat)
    requires n <= |run| && t < |At(Init(tasks, record), run, n).tasks| && At(Init(tasks, record), run, n).tasks[t].Sleep?
    ensures g < m < n && Acts(run[g], t) && Acts(run[m], t) && forall i | g < i < m :: !Acts(run[i], t)
    ensures var s := Init(tasks, record);
            var hook := At(s, run, n).tasks[t].hook;
            && t < |At(s, run, g).tasks| && At(s, run, g).tasks[t] == Hooking(hook.id)
            && (hook.live <==> At(s, run, g).entry == Some(hook.id))
            && t < |At(s, run, m).tasks| && At(s, run, m).tasks[t].Recheck? && At(s, run, m).record.Started?
    decreases n
  {
    hide Step, At;
    var s := Init(tasks, record);
    m := LastAct(tasks, record, run, n, t);
    Entered(At(s, run, m), run[m], t);
    if At(s, run, m).tasks[t].Sleep? {
      SleepKept(At(s, run, m), run[m], t);
      g, m := AsleepSince(tasks, record, run, m, t);
    } else {
      g := LastAct(tasks, record, run, m, t);
      Entered(At(s, run, g), run[g], t);
    }
  }

  /** In every run, a task that never held the claim returns only by reading a finished record. */
  lemma {:induction false} ReturnedFinished(tasks: nat, record: Record, run: seq<Action>, n: nat, t: nat) returns (m: nat)
    requires n <= |run| && t < |At(Init(tasks, record), run, n).tasks| && At(Init(tasks, record), run, n).tasks[t].Over?
    requires forall i | 0 <= i <= n ::
               t < |At(Init(tasks, record), run, i).tasks| ==> !Owner(At(Init(tasks, record), run, i).tasks[t])
    ensures m < n && Acts(run[m], t) && !run[m].choice.Break?
    ensures var s := At(Init(tasks, record), run, m);
            t < |s.tasks| && Reads(s.tasks[t]) && s.record.Finished?
    decreases n
  {
    hide Step, At;
    m := LastAct(tasks, record, run, n, t);
    var s := At(Init(tasks, record), run, m);
    Entered(s, run[m], t);
    if s.tasks[t].Over? {
      m := ReturnedFinished(tasks, record, run, m, t);
    }
  }

  /** In every run, a task claims only after it read no record, or gave up on a stale or overdue download. */
  lemma ClaimedFor(tasks: nat, record: Record, run: seq<Action>, n: nat, t: nat) returns (m: nat)
    requires n <= |run| && t < |At(Init(tasks, record), run, n).tasks| && At(Init(tasks, record), run, n).tasks[t].Claiming?
    ensures m < n && Acts(run[m], t) && forall i | m < i < n :: !Acts(run[i], t)
    ensures var s := At(Init(tasks, record), run, m);
            && t < |s.tasks|
            && (|| (Reads(s.tasks[t]) && (s.record.Absent? || run[m].choice.Break?))
                || s.tasks[t] == Purge(false) || s.tasks[t] == PurgeDelete(false) || s.tasks[t].TimedOut?)
  {
    hide Step, At;
    m := LastAct(tasks, record, run, n, t);
    Entered(At(Init(tasks, record), run, m), run[m], t);
  }

  /** In every run, a task about to commit found its record when it came to commit, after it had started its own download. */
  lemma CommitsFound(tasks: nat, record: Record, run: seq<Action>, n: nat, t: nat) returns (g: nat, m: nat)
    requires n <= |run| && t < |At(Init(tasks, record), run, n).tasks| && At(Init(tasks, record), run, n).tasks[t].Committing?
    ensures g < m < n && Acts(run[g], t) && Acts(run[m], t)
    ensures var s := Init(tasks, record);
            && t < |At(s, run, g).tasks| && Starts(At(s, run, g), run[g])
            && t < |At(s, run, m).tasks| && At(s, run, m).tasks[t].Downloading? && !At(s, run, m).record.Absent?
  {
    hide Step, At;
    var s := Init(tasks, record);
    m := LastAct(tasks, record, run, n, t);
    Entered(At(s, run, m), run[m], t);
    g := LastAct(tasks, record, run, m, t);
    Entered(At(s, run, g), run[g], t);
  }

  /** In every run, a task that gives up on a running download slept on it until its timeout. */
  lemma TimedOutFor(tasks: nat, record: Record, run: seq<Action>, n: nat, t: nat) returns (m: nat)
    requires n <= |run| && t < |At(Init(tasks, record), run, n).tasks| && At(Init(tasks, record), run, n).tasks[t] == Purge(true)
    ensures m < n && Acts(run[m], t) && run[m].choice.Timeout?
    ensures t < |At(Init(tasks, record), run, m).tasks| && At(Init(tasks, record), run, m).tasks[t].Sleep?
  {
    hide Step, At;
    m := LastAct(tasks, record, run, n, t);
    Entered(At(Init(tasks, record), run, m), run[m], t);
  }

  /** What a task saw that is about to purge a record it takes for stale. */
  ghost predicate SawStale(s: State, run: seq<Action>, t: nat, a: nat, b: nat, c: nat, d: nat, e: nat) {
    && a < b < c < d < e < |run|
    && Acts(run[a], t) && Acts(run[b], t) && Acts(run[c], t) && Acts(run[d], t) && Acts(run[e], t)
    && At(s, run, a).entry.None? && At(s, run, c).entry.None? && At(s, run, e).entry.None?
    && At(s, run, b).record.Started? && At(s, run, d).record.Started?
  }

  /**
   In every run, a purge without a timeout comes after three looks that found no
   notifier and two reads that found a started record in between.
   */
  lemma StalePurge(tasks: nat, record: Record, run: seq<Action>, n: nat, t: nat)
    returns (a: nat, b: nat, c: nat, d: nat, e: nat)
    requires n <= |run| && t < |At(Init(tasks, record), run, n).tasks| && At(Init(tasks, record), run, n).tasks[t] == Purge(false)
    ensures SawStale(Init(tasks, record), run, t, a, b, c, d, e) && e < n
  {
    hide Step, At, Plain;
    var s := Init(tasks, record);
    PlainSame();
    e := LastAct(tasks, record, run, n, t);
    EnteredMissing(At(s, run, e), run[e], t);
    RoundBound(tasks, record, run, e, t);
    d := LastAct(tasks, record, run, e, t);
    EnteredMissing(At(s, run, d), run[d], t);
    c := LastAct(tasks, record, run, d, t);
    EnteredMissing(At(s, run, c), run[c], t);
    b := LastAct(tasks, record, run, c, t);
    EnteredMissing(At(s, run, b), run[b], t);
    a := LastAct(tasks, record, run, b, t);
    EnteredMissing(At(s, run, a), run[a], t);
  }

  lemma {:induction false} RoundBound(tasks: nat, record: Record, run: seq<Action>, n: nat, t: nat)
    requires n <= |run| && t < |At(Init(tasks, record), run, n).tasks|
    ensures At(Init(tasks, record), run, n).tasks[t].Missing? ==> At(Init(tasks, record), run, n).tasks[t].round <= 3
    decreases n
  {
    hide Step, At;
    var s := Init(tasks, record);
    if At(s, run, n).tasks[t].Missing? {
      var m := LastAct(tasks, record, run, n, t);
      RoundBound(tasks, record, run, m, t);
      RoundNext(At(s, run, m), run[m], t);
    }
  }

  lemma RoundNext(s: State, a: Action, t: nat)
    requires Acts(a, t) && t < |s.tasks| && t < |Step(s, a).tasks| && (s.tasks[t].Missing? ==> s.tasks[t].round <= 3)
    ensures Step(s, a).tasks[t].Missing? ==> Step(s, a).tasks[t].round <= 3
  {
  }

  // ---- no started record is left behind ------------------------------------------

  predicate Worker(pc: Pc) {
    pc.Downloading? || pc.Committing? || pc.Failing? || pc.FailDelete?
  }

  /** A started record has a task behind it. */
  ghost predicate Attended(s: State) {
    s.record.Started? ==> exists i | 0 <= i < |s.tasks| :: Worker(s.tasks[i])
  }

  /** The store refused the cleanup of a failed download. */
  predicate CleanupError(s: State, a: Action) {
    a.Go? && a.task < |s.tasks| && (s.tasks[a.task].Failing? || s.tasks[a.task].FailDelete?) && a.choice.Break?
  }

  lemma WorkerStays(s: State, a: Action, i: nat)
    requires i < |s.tasks| && i < |Step(s, a).tasks| && Worker(s.tasks[i]) && !CleanupError(s, a)
    ensures Step(s, a).record.Started? ==> Worker(Step(s, a).tasks[i])
  {
    if !Acts(a, i) {
      Untouched(s, a, i);
    }
  }

  lemma NewlyStarted(s: State, a: Action)
    requires !s.record.Started? && Step(s, a).record.Started?
    ensures a.Go? && a.task < |Step(s, a).tasks| && Worker(Step(s, a).tasks[a.task])
  {
  }

  lemma AttendedAfter(s: State, a: Action)
    requires Attended(s) && !CleanupError(s, a)
    ensures Attended(Step(s, a))
  {
    hide Step, Worker;
    StepSize(s, a);
    if Step(s, a).record.Started? {
      if s.record.Started? {
        var i :| 0 <= i < |s.tasks| && Worker(s.tasks[i]);
        WorkerStays(s, a, i);
        assert Worker(Step(s, a).tasks[i]);
      } else {
        NewlyStarted(s, a);
        assert Worker(Step(s, a).tasks[a.task]);
      }
    }
  }

  ghost predicate NoCleanupError(s: State, run: seq<Action>) {
    run != [] ==> NoCleanupError(s, run[..|run| - 1]) && !CleanupError(Run(s, run[..|run| - 1]), run[|run| - 1])
  }

  /**
   In every run that begins without a started record and whose cleanups the store
   carries out, each started record has a task behind it.
   */
  lemma {:induction false} NoneLeftBehind(tasks: nat, record: Record, run: seq<Action>)
    requires !record.Started? && NoCleanupError(Init(tasks, record), run)
    ensures Attended(Run(Init(tasks, record), run))
  {
    hide Step, CleanupError;
    if run != [] {
      NoneLeftBehind(tasks, record, run[..|run| - 1]);
      AttendedAfter(Run(Init(tasks, record), run[..|run| - 1]), run[|run| - 1]);
    }
  }
}
