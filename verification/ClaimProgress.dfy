/** No task that asks for a piece is ever stuck: the fallbacks and timeouts get it past every other. */
module ClaimProgress {
  import opened Wrappers
  import opened Claims
  import opened ClaimRuns
  import opened ClaimWaits

  /** The timer that ends a wait; everything else needs none. */
  function Timer(pc: Pc): Choice {
    match pc
    case Sleep(_) => Timeout
    case Waiting(_) => Fallback
    case _ => Normal
  }

  /** How many actions of its own bring a task home when nobody else holds the notifier. */
  function Distance(pc: Pc): nat {
    match pc
    case Over => 0
    case Release => 1
    case Committing => 2
    case Failing => 2
    case FailDelete => 2
    case Downloading => 3
    case Starting => 4
    case Owning => 5
    case Claiming => 6
    case TimedOut => 7
    case PurgeDelete(_) => 8
    case Purge(_) => 9
    case Sleep(_) => 10
    case Recheck(_) => 11
    case Hooking(_) => 12
    case Missing(round) => if round == 0 then 13 else if round == 1 then 12 else if round % 2 == 0 then 11 else 10
    case Look => 14
    case Top => 15
    case Waiting(_) => 16
    case Joining(_) => 17
  }

  /** Nobody else's notifier is in the way of the task. */
  predicate Clear(s: State, t: nat)
    requires t < |s.tasks|
  {
    s.entry.None? || Owner(s.tasks[t]) || s.tasks[t].Over?
  }

  /** The task asked for the piece and, as things stand, will have it when it returns. */
  predicate Promising(pc: Pc, record: Record) {
    match pc
    case Downloading => !record.Absent?
    case Failing => false
    case FailDelete => false
    case Release => record.Finished?
    case Over => record.Finished?
    case _ => true
  }

  predicate StepsOf(run: seq<Action>, t: nat) {
    forall n | 0 <= n < |run| :: Acts(run[n], t) && run[n].choice in {Normal, Fallback, Timeout}
  }

  lemma Nearer(s: State, t: nat)
    requires t < |s.tasks| && Clear(s, t) && !s.tasks[t].Over?
    ensures var next := Step(s, Go(t, Timer(s.tasks[t])));
            && t < |next.tasks| && Clear(next, t) && Distance(next.tasks[t]) < Distance(s.tasks[t])
            && (Owner(s.tasks[t]) ==> Owner(next.tasks[t]) || (next.tasks[t].Over? && next.entry.None?))
            && (Promising(s.tasks[t], s.record) ==> Promising(next.tasks[t], next.record))
  {
  }

  lemma RunThen(s: State, a: Action, rest: seq<Action>)
    ensures Run(s, [a] + rest) == Run(Step(s, a), rest)
  {
    hide Step;
    if rest == [] {
      assert [a] + rest == [a] && [a][..0] == [];
      assert Run(s, [a]) == Step(Run(s, []), a);
    } else {
      var k := |rest| - 1;
      RunThen(s, a, rest[..k]);
      assert ([a] + rest)[..k + 1] == [a] + rest[..k];
    }
  }

  lemma {:induction false} RunAppend(s: State, a: seq<Action>, b: seq<Action>)
    ensures Run(s, a + b) == Run(Run(s, a), b)
  {
    hide Step;
    if b == [] {
      assert a + b == a;
    } else {
      var k := |b| - 1;
      RunAppend(s, a, b[..k]);
      assert (a + b)[..|a| + k] == a + b[..k];
    }
  }

  /** By its own actions alone, none of which fails, a task returns if nobody else's notifier is in its way. */
  lemma {:induction false} OnItsOwn(s: State, t: nat) returns (run: seq<Action>)
    requires t < |s.tasks| && Clear(s, t)
    ensures StepsOf(run, t) && |run| <= Distance(s.tasks[t]) && (s.tasks[t].Over? ==> run == [])
    ensures var end := Run(s, run);
            && t < |end.tasks| && end.tasks[t].Over?
            && (Owner(s.tasks[t]) ==> end.entry.None?)
            && (Promising(s.tasks[t], s.record) ==> end.record.Finished?)
    decreases Distance(s.tasks[t])
  {
    hide Step, Distance, Timer;
    if s.tasks[t].Over? {
      run := [];
    } else {
      var a := Go(t, Timer(s.tasks[t]));
      Nearer(s, t);
      TimerOnly(s.tasks[t]);
      var rest := OnItsOwn(Step(s, a), t);
      RunThen(s, a, rest);
      run := [a] + rest;
    }
  }

  lemma TimerOnly(pc: Pc)
    ensures Timer(pc) in {Normal, Fallback, Timeout}
  {
  }

  /** Another task's actions leave this one where it is. */
  lemma {:induction false} StaysPut(s: State, run: seq<Action>, i: nat, t: nat)
    requires StepsOf(run, i) && i != t && t < |s.tasks|
    ensures t < |Run(s, run).tasks| && Plain(Run(s, run).tasks[t]) == Plain(s.tasks[t])
  {
    hide Step, Plain;
    if run != [] {
      var k := |run| - 1;
      StaysPut(s, run[..k], i, t);
      Untouched(Run(s, run[..k]), run[k], t);
    }
  }

  /** A published notifier has a downloader behind it. */
  ghost predicate Backed(s: State) {
    s.entry.Some? ==> HasOwner(s)
  }

  lemma BackedAfter(s: State, a: Action)
    requires Backed(s)
    ensures Backed(Step(s, a))
  {
    var next := Step(s, a);
    if a.Go? && a.task < |s.tasks| && next.entry.Some? {
      if s.entry.None? {
        assert Owner(next.tasks[a.task]);
      } else {
        var i :| 0 <= i < |s.tasks| && Owner(s.tasks[i]);
        OwnerStays(s, a, i);
        assert Owner(next.tasks[i]);
      }
    }
  }

  /** In every run, whatever timed out, failed or was deleted on the way. */
  lemma {:induction false} RunsBacked(tasks: nat, record: Record, run: seq<Action>)
    ensures Backed(Run(Init(tasks, record), run))
  {
    hide Step;
    if run != [] {
      RunsBacked(tasks, record, run[..|run| - 1]);
      BackedAfter(Run(Init(tasks, record), run[..|run| - 1]), run[|run| - 1]);
    }
  }

  /** The downloader whose notifier is in the way returns first. */
  lemma PastTheOwner(s: State, t: nat) returns (i: nat, a: seq<Action>, b: seq<Action>)
    requires t < |s.tasks| && Backed(s) && !Clear(s, t)
    ensures StepsOf(a, i) && StepsOf(b, t) && |a| + |b| <= 22
    ensures var end := Run(s, a + b);
            t < |end.tasks| && end.tasks[t].Over? && end.record.Finished?
  {
    hide Step, Run, Distance, Promising, Plain;
    i :| 0 <= i < |s.tasks| && Owner(s.tasks[i]);
    a := OnItsOwn(s, i);
    StaysPut(s, a, i, t);
    var middle := Run(s, a);
    NotDone(s.tasks[t], middle.tasks[t], middle.record);
    b := OnItsOwn(middle, t);
    RunAppend(s, a, b);
    Distances(s.tasks[i], middle.tasks[t]);
  }

  lemma Distances(owner: Pc, other: Pc)
    ensures Owner(owner) ==> Distance(owner) <= 5
    ensures Distance(other) <= 17
  {
  }

  lemma NotDone(before: Pc, after: Pc, record: Record)
    requires Plain(after) == Plain(before) && !Owner(before) && !before.Over?
    ensures !Owner(after) && !after.Over? && Promising(after, record)
  {
  }

  /**
   Every run, whatever timed out, failed or was deleted in it, can be continued so
   that a given task returns: by at most 22 actions of that task and one
   downloader, none of which fails. A task that does not hold the claim then has
   the piece finished.
   */
  lemma NoneStuck(tasks: nat, record: Record, run: seq<Action>, t: nat)
    returns (i: nat, a: seq<Action>, b: seq<Action>)
    requires t < tasks
    ensures StepsOf(a, i) && StepsOf(b, t) && |a| + |b| <= 22
    ensures var s, end := Run(Init(tasks, record), run), Run(Init(tasks, record), run + (a + b));
            && t < |s.tasks| && t < |end.tasks| && end.tasks[t].Over?
            && (!Owner(s.tasks[t]) && !s.tasks[t].Over? ==> end.record.Finished?)
  {
    hide Step, Run, Distance, Promising, Plain, Backed;
    var s := Run(Init(tasks, record), run);
    RunSize(Init(tasks, record), run);
    RunsBacked(tasks, record, run);
    if Clear(s, t) {
      i, a := t, [];
      b := OnItsOwn(s, t);
      Distances(s.tasks[t], s.tasks[t]);
      if !Owner(s.tasks[t]) && !s.tasks[t].Over? {
        NotDone(s.tasks[t], s.tasks[t], s.record);
      }
      assert a + b == b;
    } else {
      i, a, b := PastTheOwner(s, t);
    }
    RunAppend(Init(tasks, record), run, a + b);
  }

  lemma {:induction false} RunSize(s: State, run: seq<Action>)
    ensures |Run(s, run).tasks| == |s.tasks|
  {
    hide Step;
    if run != [] {
      RunSize(s, run[..|run| - 1]);
      StepSize(Run(s, run[..|run| - 1]), run[|run| - 1]);
    }
  }

  /** A task that lost the claim to a downloader that has no record. */
  predicate Locked(s: State, t: nat) {
    && t < |s.tasks| && s.entry.Some? && s.record.Absent?
    && (s.tasks[t].Top? || s.tasks[t].Claiming? || s.tasks[t].Joining? || s.tasks[t].Waiting?)
  }

  lemma LockedAfter(s: State, a: Action, t: nat)
    requires Locked(s, t) && Acts(a, t)
    ensures Locked(Step(s, a), t)
  {
  }

  /**
   The downloader's part in this cannot be left out: the wait of a task that lost
   the claim has no timeout, so while the downloader has written no record the
   task's own actions, of whatever outcome, never bring it home.
   */
  lemma {:induction false} NotOnItsOwn(s: State, t: nat, run: seq<Action>)
    requires Locked(s, t) && forall n | 0 <= n < |run| :: Acts(run[n], t)
    ensures Locked(Run(s, run), t)
  {
    hide Step;
    if run != [] {
      NotOnItsOwn(s, t, run[..|run| - 1]);
      LockedAfter(Run(s, run[..|run| - 1]), run[|run| - 1], t);
    }
  }
}
