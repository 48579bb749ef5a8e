/** Whole runs of the download claim: who holds it and downloads when, and what becomes of a finished record. */
module ClaimRuns {
  import opened Wrappers
  import opened Claims

  function Run(s: State, run: seq<Action>): State {
    if run == [] then s else Step(Run(s, run[..|run| - 1]), run[|run| - 1])
  }

  /** The state before action `n` of the run. */
  function At(s: State, run: seq<Action>, n: nat): State
    requires n <= |run|
  {
    Run(s, run[..n])
  }

  lemma AtNext(s: State, run: seq<Action>, n: nat)
    requires n < |run|
    ensures At(s, run, n + 1) == Step(At(s, run, n), run[n])
  {
    hide Step;
    assert run[..n + 1][..n] == run[..n];
  }

  lemma AtStart(s: State, run: seq<Action>)
    ensures At(s, run, 0) == s
  {
    assert run[..0] == [];
  }

  /** Any number of tasks ask for the piece; whatever record an earlier process left is there. */
  function Init(tasks: nat, record: Record): State {
    State(None, 0, record, seq(tasks, _ => Top))
  }

  lemma StepSize(s: State, a: Action)
    ensures |Step(s, a).tasks| == |s.tasks|
  {
  }

  lemma {:induction false} AtSize(s: State, run: seq<Action>, n: nat)
    requires n <= |run|
    ensures |At(s, run, n).tasks| == |s.tasks|
  {
    hide Step;
    if n == 0 {
      AtStart(s, run);
    } else {
      AtSize(s, run, n - 1);
      AtNext(s, run, n - 1);
      StepSize(At(s, run, n - 1), run[n - 1]);
    }
  }

  // ---- orderly and quiet runs ----------------------------------------------------

  /** No waiter ever takes the notifier away from a downloader at work. */
  ghost predicate Orderly(s: State, run: seq<Action>) {
    run != [] ==>
      Orderly(s, run[..|run| - 1]) && !EarlyRelease(Run(s, run[..|run| - 1]), run[|run| - 1])
  }

  /** Orderly, no explicit delete, and every waiter's read-and-delete is one step. */
  ghost predicate Quiet(s: State, run: seq<Action>) {
    run != [] ==>
      var before, a := Run(s, run[..|run| - 1]), run[|run| - 1];
      && Quiet(s, run[..|run| - 1])
      && !EarlyRelease(before, a) && a.Go?
      && !(a.choice.Split? && a.task < |before.tasks| && before.tasks[a.task].Purge?)
  }

  /** The downloads of the piece that were committed. */
  function Commits(s: State, run: seq<Action>): nat {
    if run == [] then 0
    else
      var before, a := Run(s, run[..|run| - 1]), run[|run| - 1];
      Commits(s, run[..|run| - 1])
      + (if !before.record.Finished? && Step(before, a).record.Finished? then 1 else 0)
  }

  /** In every orderly run one task at a time owns the piece, and none but the owner finishes it. */
  lemma {:induction false} OrderlyRunsExclude(tasks: nat, record: Record, run: seq<Action>)
    requires Orderly(Init(tasks, record), run)
    ensures Exclusive(Run(Init(tasks, record), run))
    ensures Unfinished(Run(Init(tasks, record), run))
  {
    hide Step;
    if run != [] {
      OrderlyRunsExclude(tasks, record, run[..|run| - 1]);
      ExclusiveAfter(Run(Init(tasks, record), run[..|run| - 1]), run[|run| - 1]);
      UnfinishedAfter(Run(Init(tasks, record), run[..|run| - 1]), run[|run| - 1]);
    }
  }

  lemma {:induction false} RunsNeverLoseWakeups(tasks: nat, record: Record, run: seq<Action>)
    ensures NoLostWakeup(Run(Init(tasks, record), run))
  {
    hide Step;
    if run != [] {
      RunsNeverLoseWakeups(tasks, record, run[..|run| - 1]);
      WakeupAfter(Run(Init(tasks, record), run[..|run| - 1]), run[|run| - 1]);
    }
  }

  ghost predicate NoPurge(s: State) {
    forall i | 0 <= i < |s.tasks| :: !s.tasks[i].PurgeDelete?
  }

  lemma NoPurgeAfter(s: State, a: Action)
    requires NoPurge(s)
    requires a.Go? && !(a.choice.Split? && a.task < |s.tasks| && s.tasks[a.task].Purge?)
    ensures NoPurge(Step(s, a))
  {
  }

  lemma {:induction false} QuietRunsHold(tasks: nat, record: Record, run: seq<Action>)
    requires Quiet(Init(tasks, record), run)
    ensures var s := Run(Init(tasks, record), run);
            Exclusive(s) && Unfinished(s) && NoPurge(s)
  {
    hide Step;
    if run != [] {
      var before, a := Run(Init(tasks, record), run[..|run| - 1]), run[|run| - 1];
      QuietRunsHold(tasks, record, run[..|run| - 1]);
      ExclusiveAfter(before, a);
      UnfinishedAfter(before, a);
      NoPurgeAfter(before, a);
    }
  }

  /** In every quiet run the piece is downloaded at most once, never again once finished, and stays finished. */
  lemma {:induction false} DownloadedOnce(tasks: nat, record: Record, run: seq<Action>)
    requires Quiet(Init(tasks, record), run)
    ensures var s := Run(Init(tasks, record), run);
            Commits(Init(tasks, record), run) == if s.record.Finished? && !record.Finished? then 1 else 0
    ensures record.Finished? ==> Run(Init(tasks, record), run).record.Finished?
  {
    hide Step;
    if run != [] {
      var before, a := Run(Init(tasks, record), run[..|run| - 1]), run[|run| - 1];
      DownloadedOnce(tasks, record, run[..|run| - 1]);
      QuietRunsHold(tasks, record, run[..|run| - 1]);
      if before.record.Finished? {
        LostExactly(before, a);
      }
    }
  }

  // ---- when two tasks hold the claim at once -------------------------------------

  ghost predicate AtMostOne(s: State) {
    forall i, j | 0 <= i < |s.tasks| && 0 <= j < |s.tasks| && Owner(s.tasks[i]) && Owner(s.tasks[j]) :: i == j
  }

  ghost predicate NeverTwo(s: State, run: seq<Action>) {
    forall n | 0 <= n <= |run| :: AtMostOne(At(s, run, n))
  }

  /** The action wins a claim. */
  predicate Wins(s: State, a: Action) {
    a.Go? && a.task < |s.tasks| && s.tasks[a.task].Claiming? && s.entry.None?
  }

  /** The action ends the download of task `i`. */
  predicate Ends(s: State, a: Action, i: nat) {
    a.Go? && a.task == i && i < |s.tasks| && s.tasks[i].Release?
  }

  /** A waiter's timeout at `r` evicts downloader `i`, and a claim is won at `c` before `i` has ended. */
  ghost predicate Reclaimed(s: State, run: seq<Action>, r: nat, c: nat, i: nat) {
    && r < c < |run|
    && EarlyRelease(At(s, run, r), run[r])
    && i < |At(s, run, r).tasks| && Owner(At(s, run, r).tasks[i])
    && Wins(At(s, run, c), run[c])
    && forall n | r <= n < c :: !Ends(At(s, run, n), run[n], i)
  }

  lemma OwnerStays(s: State, a: Action, i: nat)
    requires i < |s.tasks| && Owner(s.tasks[i]) && !Ends(s, a, i)
    ensures Owner(Step(s, a).tasks[i])
  {
  }

  lemma {:induction false} OwnerStaysAlong(s: State, run: seq<Action>, r: nat, c: nat, i: nat)
    requires r <= c <= |run| && i < |At(s, run, r).tasks| && Owner(At(s, run, r).tasks[i])
    requires forall n | r <= n < c :: !Ends(At(s, run, n), run[n], i)
    ensures i < |At(s, run, c).tasks| && Owner(At(s, run, c).tasks[i])
    decreases c - r
  {
    hide Step, Owner, At, Ends;
    if r < c {
      OwnerStaysAlong(s, run, r, c - 1, i);
      AtNext(s, run, c - 1);
      StepSize(At(s, run, c - 1), run[c - 1]);
      OwnerStays(At(s, run, c - 1), run[c - 1], i);
    }
  }

  /** A second owner comes by exactly one kind of step: a claim won while another task is at work. */
  lemma AtMostOneAfter(s: State, a: Action)
    requires AtMostOne(s)
    ensures AtMostOne(Step(s, a)) <==> !(Wins(s, a) && HasOwner(s))
  {
    hide Local;
    var t := Step(s, a);
    if a.Go? && a.task < |s.tasks| {
      RemoveKeepsOwners(s);
      if Wins(s, a) {
        WinOwns(s, a);
        if HasOwner(s) {
          var i :| 0 <= i < |s.tasks| && Owner(s.tasks[i]);
          assert Owner(t.tasks[i]) && Owner(t.tasks[a.task]);
        }
      } else {
        NoNewOwner(s, a);
        assert forall j | 0 <= j < |s.tasks| && Owner(t.tasks[j]) :: Owner(s.tasks[j]);
      }
    }
  }

  lemma WinOwns(s: State, a: Action)
    requires Wins(s, a)
    ensures Step(s, a) == To(s.(entry := Some(s.next), next := s.next + 1), a.task, Owning)
  {
  }

  lemma NoNewOwner(s: State, a: Action)
    requires a.Go? && a.task < |s.tasks| && !Wins(s, a)
    ensures Owner(Local(s.entry, s.record, s.tasks[a.task], a.choice).1) ==> Owner(s.tasks[a.task])
  {
  }

  /** The action removes the notifier while downloader `i` is at work: a timeout, or the end of another download. */
  predicate Unpublishes(s: State, a: Action, i: nat) {
    && a.Go? && a.task < |s.tasks| && s.entry.Some?
    && (s.tasks[a.task].TimedOut? || (s.tasks[a.task].Release? && a.task != i))
  }

  /** In every run, a downloader without a published notifier lost it to such an action and has not ended since. */
  lemma {:induction false} WasUnpublished(s: State, run: seq<Action>, c: nat, i: nat) returns (r: nat)
    requires c <= |run| && forall j | 0 <= j < |s.tasks| :: !Owner(s.tasks[j])
    requires i < |At(s, run, c).tasks| && Owner(At(s, run, c).tasks[i]) && At(s, run, c).entry.None?
    ensures r < c && Unpublishes(At(s, run, r), run[r], i)
    ensures i < |At(s, run, r).tasks| && Owner(At(s, run, r).tasks[i])
    ensures forall n | r <= n < c :: !Ends(At(s, run, n), run[n], i)
    decreases c
  {
    hide Step, Owner, At, Local;
    AtStart(s, run);
    var before, a := At(s, run, c - 1), run[c - 1];
    AtNext(s, run, c - 1);
    Orphaned(before, a, i);
    if before.entry.None? {
      r := WasUnpublished(s, run, c - 1, i);
    } else {
      r := c - 1;
    }
  }

  /** A step after which `i` downloads unpublished: it did so before, or the step unpublished it. */
  lemma Orphaned(s: State, a: Action, i: nat)
    requires i < |Step(s, a).tasks| && Owner(Step(s, a).tasks[i]) && Step(s, a).entry.None?
    ensures i < |s.tasks| && Owner(s.tasks[i]) && !Ends(s, a, i)
    ensures s.entry.Some? ==> Unpublishes(s, a, i)
  {
    hide Local;
    StepSize(s, a);
    if a.Go? && a.task < |s.tasks| {
      RemoveKeepsOwners(s);
      if Wins(s, a) {
        WinOwns(s, a);
      } else {
        NoNewOwner(s, a);
      }
      ReleasedIsOver(s, a);
      assert Owner(s.tasks[i]);
    }
  }

  /** While there has been one holder at a time, it was a timeout that unpublished it. */
  lemma WasEvicted(s: State, run: seq<Action>, c: nat, i: nat) returns (r: nat)
    requires c <= |run| && (forall n | 0 <= n <= c :: AtMostOne(At(s, run, n)))
    requires forall j | 0 <= j < |s.tasks| :: !Owner(s.tasks[j])
    requires i < |At(s, run, c).tasks| && Owner(At(s, run, c).tasks[i]) && At(s, run, c).entry.None?
    ensures r < c && EarlyRelease(At(s, run, r), run[r])
    ensures i < |At(s, run, r).tasks| && Owner(At(s, run, r).tasks[i])
    ensures forall n | r <= n < c :: !Ends(At(s, run, n), run[n], i)
  {
    hide Step, At, Local;
    r := WasUnpublished(s, run, c, i);
    var t, a := At(s, run, r), run[r];
    assert AtMostOne(t);
    assert t.tasks[a.task].Release? ==> Owner(t.tasks[a.task]);
  }

  lemma ReleasedIsOver(s: State, a: Action)
    requires a.Go? && a.task < |s.tasks|
    ensures s.tasks[a.task].Release? ==> Step(s, a).tasks[a.task].Over? && Owner(s.tasks[a.task])
  {
  }

  /**
   No two tasks ever hold the claim at once, from winning it to releasing it, if
   and only if no claim is won between a waiter's early release and the release
   of the holder it evicted.
   */
  lemma NeverTwoExactly(tasks: nat, record: Record, run: seq<Action>)
    ensures NeverTwo(Init(tasks, record), run)
            <==> forall r: nat, c: nat, i: nat :: !Reclaimed(Init(tasks, record), run, r, c, i)
  {
    hide Step, Owner, At, Ends, EarlyRelease, Wins, AtMostOne;
    var s := Init(tasks, record);
    forall r: nat, c: nat, i: nat | Reclaimed(s, run, r, c, i) ensures !NeverTwo(s, run) {
      ReclaimedIsTwo(s, run, r, c, i);
    }
    if !NeverTwo(s, run) {
      var n := FirstTwo(tasks, record, run);
      var c, i := SecondClaim(tasks, record, run, n);
      var r := WasEvicted(s, run, c, i);
      assert Reclaimed(s, run, r, c, i);
    }
  }

  lemma ReclaimedIsTwo(s: State, run: seq<Action>, r: nat, c: nat, i: nat)
    requires Reclaimed(s, run, r, c, i)
    ensures !NeverTwo(s, run)
  {
    hide Step, At;
    OwnerStaysAlong(s, run, r, c, i);
    AtNext(s, run, c);
    if AtMostOne(At(s, run, c)) {
      AtMostOneAfter(At(s, run, c), run[c]);
      assert HasOwner(At(s, run, c));
    }
  }

  lemma StartsIdle(tasks: nat, record: Record, run: seq<Action>)
    ensures var s := Init(tasks, record);
            AtMostOne(At(s, run, 0)) && s.entry.None? && forall j | 0 <= j < |s.tasks| :: !Owner(s.tasks[j])
  {
    AtStart(Init(tasks, record), run);
  }

  /** The first state with two holders. */
  lemma FirstTwo(tasks: nat, record: Record, run: seq<Action>) returns (n: nat)
    requires !NeverTwo(Init(tasks, record), run)
    ensures 0 < n <= |run| && !AtMostOne(At(Init(tasks, record), run, n))
    ensures forall m | 0 <= m < n :: AtMostOne(At(Init(tasks, record), run, m))
  {
    hide At, AtMostOne;
    var s := Init(tasks, record);
    StartsIdle(tasks, record, run);
    n := 0;
    while n < |run| && AtMostOne(At(s, run, n))
      invariant n <= |run| && forall m | 0 <= m < n :: AtMostOne(At(s, run, m))
    {
      n := n + 1;
    }
  }

  /** It comes from a claim won while the first holder is unpublished. */
  lemma SecondClaim(tasks: nat, record: Record, run: seq<Action>, n: nat) returns (c: nat, i: nat)
    requires 0 < n <= |run| && !AtMostOne(At(Init(tasks, record), run, n))
    requires forall m | 0 <= m < n :: AtMostOne(At(Init(tasks, record), run, m))
    ensures c == n - 1 && Wins(At(Init(tasks, record), run, c), run[c])
    ensures var s := Init(tasks, record);
            && s.entry.None? && (forall j | 0 <= j < |s.tasks| :: !Owner(s.tasks[j]))
            && i < |At(s, run, c).tasks| && Owner(At(s, run, c).tasks[i]) && At(s, run, c).entry.None?
  {
    hide Step, At, AtMostOne;
    var s := Init(tasks, record);
    StartsIdle(tasks, record, run);
    c := n - 1;
    AtNext(s, run, c);
    AtMostOneAfter(At(s, run, c), run[c]);
    i :| 0 <= i < |At(s, run, c).tasks| && Owner(At(s, run, c).tasks[i]);
  }

  // ---- when two tasks download at once -------------------------------------------

  /** The task has started its download and not committed or given it up. */
  predicate AtWork(pc: Pc) {
    pc.Downloading? || pc.Committing?
  }

  ghost predicate OneAtWork(s: State) {
    forall i, j | 0 <= i < |s.tasks| && 0 <= j < |s.tasks| && AtWork(s.tasks[i]) && AtWork(s.tasks[j]) :: i == j
  }

  ghost predicate NeverBoth(s: State, run: seq<Action>) {
    forall n | 0 <= n <= |run| :: OneAtWork(At(s, run, n))
  }

  /** The action starts a download: the started record is written. */
  predicate Starts(s: State, a: Action) {
    a.Go? && a.task < |s.tasks| && s.tasks[a.task].Starting? && !a.choice.Break?
  }

  ghost predicate SomeAtWork(s: State) {
    exists i | 0 <= i < |s.tasks| :: AtWork(s.tasks[i])
  }

  lemma WorkAfter(s: State, a: Action, i: nat)
    requires i < |s.tasks| && i < |Step(s, a).tasks|
    ensures AtWork(Step(s, a).tasks[i]) ==> AtWork(s.tasks[i]) || (Starts(s, a) && a.task == i)
    ensures Starts(s, a) ==> (AtWork(Step(s, a).tasks[i]) <==> AtWork(s.tasks[i]) || a.task == i)
  {
  }

  lemma OneAtWorkAfter(s: State, a: Action)
    requires OneAtWork(s)
    ensures OneAtWork(Step(s, a)) <==> !(Starts(s, a) && SomeAtWork(s))
  {
    hide Step, AtWork;
    StepSize(s, a);
    forall i | 0 <= i < |s.tasks|
      ensures (AtWork(Step(s, a).tasks[i]) ==> AtWork(s.tasks[i]) || (Starts(s, a) && a.task == i))
              && (Starts(s, a) ==> (AtWork(Step(s, a).tasks[i]) <==> AtWork(s.tasks[i]) || a.task == i))
    {
      WorkAfter(s, a, i);
    }
    if Starts(s, a) && SomeAtWork(s) {
      var i :| 0 <= i < |s.tasks| && AtWork(s.tasks[i]);
      StartingIdle(s, a);
      assert AtWork(Step(s, a).tasks[i]) && AtWork(Step(s, a).tasks[a.task]);
    }
  }

  lemma StartingIdle(s: State, a: Action)
    requires Starts(s, a)
    ensures !AtWork(s.tasks[a.task])
  {
  }

  /** Action `n` starts a download while another is at work. */
  ghost predicate StartsBeside(s: State, run: seq<Action>, n: nat)
    requires n < |run|
  {
    Starts(At(s, run, n), run[n]) && SomeAtWork(At(s, run, n))
  }

  /** Two tasks never download at once if and only if no download is started while another is at work. */
  lemma NeverBothExactly(tasks: nat, record: Record, run: seq<Action>)
    ensures NeverBoth(Init(tasks, record), run)
            <==> forall n | 0 <= n < |run| :: !StartsBeside(Init(tasks, record), run, n)
  {
    hide Step, At, OneAtWork;
    var s := Init(tasks, record);
    if NeverBoth(s, run) {
      forall n | 0 <= n < |run| ensures !StartsBeside(s, run, n) {
        assert OneAtWork(At(s, run, n)) && OneAtWork(At(s, run, n + 1));
        AtNext(s, run, n);
        OneAtWorkAfter(At(s, run, n), run[n]);
      }
    }
    if forall n | 0 <= n < |run| :: !StartsBeside(s, run, n) {
      forall n | 0 <= n <= |run| ensures OneAtWork(At(s, run, n)) {
        OneAtWorkThrough(tasks, record, run, n);
      }
    }
  }

  lemma {:induction false} OneAtWorkThrough(tasks: nat, record: Record, run: seq<Action>, n: nat)
    requires n <= |run| && forall m | 0 <= m < n :: !StartsBeside(Init(tasks, record), run, m)
    ensures OneAtWork(At(Init(tasks, record), run, n))
  {
    hide Step, At, Starts, SomeAtWork;
    var s := Init(tasks, record);
    if n == 0 {
      AtStart(s, run);
    } else {
      OneAtWorkThrough(tasks, record, run, n - 1);
      AtNext(s, run, n - 1);
      assert !StartsBeside(s, run, n - 1);
      OneAtWorkAfter(At(s, run, n - 1), run[n - 1]);
    }
  }

  /** The downloads started in the run. */
  function StartCount(s: State, run: seq<Action>): nat {
    if run == [] then 0
    else StartCount(s, run[..|run| - 1]) + (if Starts(Run(s, run[..|run| - 1]), run[|run| - 1]) then 1 else 0)
  }

  /** A run that starts at most one download never has two. */
  lemma {:induction false} OneStart(tasks: nat, record: Record, run: seq<Action>)
    requires StartCount(Init(tasks, record), run) <= 1
    ensures NeverBoth(Init(tasks, record), run)
  {
    hide Step, At;
    var s := Init(tasks, record);
    forall n | 0 <= n < |run| ensures !StartsBeside(s, run, n) {
      StartsSoFar(s, run, n + 1);
      CountNext(s, run, n);
      if Starts(At(s, run, n), run[n]) {
        IdleBefore(tasks, record, run, n);
      }
    }
    NeverBothExactly(tasks, record, run);
  }

  lemma CountNext(s: State, run: seq<Action>, n: nat)
    requires n < |run|
    ensures StartCount(s, run[..n + 1]) == StartCount(s, run[..n]) + (if Starts(At(s, run, n), run[n]) then 1 else 0)
  {
    hide Run, Starts;
    assert run[..n + 1][..n] == run[..n];
  }

  lemma {:induction false} StartsSoFar(s: State, run: seq<Action>, n: nat)
    requires n <= |run|
    ensures StartCount(s, run[..n]) <= StartCount(s, run)
    decreases |run| - n
  {
    hide StartCount, Run;
    if n == |run| {
      assert run[..n] == run;
    } else {
      StartsSoFar(s, run, n + 1);
      CountNext(s, run, n);
    }
  }

  /** Before the first start nobody is at work. */
  lemma {:induction false} IdleBefore(tasks: nat, record: Record, run: seq<Action>, n: nat)
    requires n <= |run| && StartCount(Init(tasks, record), run[..n]) == 0
    ensures !SomeAtWork(At(Init(tasks, record), run, n))
  {
    hide Step, At, AtWork, StartCount;
    var s := Init(tasks, record);
    if n == 0 {
      AtStart(s, run);
      IdleAtFirst(tasks, record);
    } else {
      CountNext(s, run, n - 1);
      IdleBefore(tasks, record, run, n - 1);
      AtNext(s, run, n - 1);
      var before, a := At(s, run, n - 1), run[n - 1];
      StepSize(before, a);
      forall i | 0 <= i < |before.tasks| ensures !AtWork(Step(before, a).tasks[i]) {
        WorkAfter(before, a, i);
      }
    }
  }

  lemma IdleAtFirst(tasks: nat, record: Record)
    ensures !SomeAtWork(Init(tasks, record))
  {
  }

  /** Every such start comes after a claim was won behind an evicted holder's back. */
  lemma StartAfterReclaim(tasks: nat, record: Record, run: seq<Action>, n: nat) returns (r: nat, c: nat, i: nat)
    requires n < |run| && StartsBeside(Init(tasks, record), run, n)
    ensures Reclaimed(Init(tasks, record), run, r, c, i) && c < n
  {
    hide Step, At, Reclaimed, AtMostOne;
    var s, prefix := Init(tasks, record), run[..n];
    TwoHolders(At(s, run, n), run[n]);
    AtPrefix(s, run, n, n);
    assert !NeverTwo(s, prefix);
    NeverTwoExactly(tasks, record, prefix);
    r, c, i :| Reclaimed(s, prefix, r, c, i);
    ReclaimedLonger(s, run, n, r, c, i);
  }

  lemma TwoHolders(s: State, a: Action)
    requires Starts(s, a) && SomeAtWork(s)
    ensures !AtMostOne(s)
  {
    var i :| 0 <= i < |s.tasks| && AtWork(s.tasks[i]);
    assert Owner(s.tasks[i]) && Owner(s.tasks[a.task]);
  }

  lemma AtPrefix(s: State, run: seq<Action>, n: nat, m: nat)
    requires m <= n <= |run|
    ensures At(s, run[..n], m) == At(s, run, m)
  {
    assert run[..n][..m] == run[..m];
  }

  lemma ReclaimedLonger(s: State, run: seq<Action>, n: nat, r: nat, c: nat, i: nat)
    requires n <= |run| && Reclaimed(s, run[..n], r, c, i)
    ensures Reclaimed(s, run, r, c, i) && c < n
  {
    hide At, Wins, Ends, EarlyRelease;
    forall m | 0 <= m <= n ensures At(s, run[..n], m) == At(s, run, m) {
      AtPrefix(s, run, n, m);
    }
  }

  // ---- how many hold the claim at once -------------------------------------------

  function Holders(tasks: seq<Pc>): nat {
    if tasks == [] then 0
    else Holders(tasks[..|tasks| - 1]) + (if Owner(tasks[|tasks| - 1]) then 1 else 0)
  }

  function One(b: bool): int {
    if b then 1 else 0
  }

  /** A timeout that removed a notifier: the downloader it belonged to goes on unpublished. */
  predicate Evicts(s: State, a: Action) {
    a.Go? && a.task < |s.tasks| && s.tasks[a.task].TimedOut? && s.entry.Some?
  }

  /** A holder that released and found no notifier to remove. */
  predicate EndsUnpublished(s: State, a: Action) {
    a.Go? && a.task < |s.tasks| && s.tasks[a.task].Release? && s.entry.None?
  }

  function Evictions(s: State, run: seq<Action>): int {
    if run == [] then 0
    else Evictions(s, run[..|run| - 1]) + One(Evicts(Run(s, run[..|run| - 1]), run[|run| - 1]))
  }

  function UnpublishedEnds(s: State, run: seq<Action>): int {
    if run == [] then 0
    else UnpublishedEnds(s, run[..|run| - 1]) + One(EndsUnpublished(Run(s, run[..|run| - 1]), run[|run| - 1]))
  }

  lemma {:induction false} HoldersUpdate(tasks: seq<Pc>, i: nat, pc: Pc)
    requires i < |tasks|
    ensures Holders(tasks[i := pc]) == Holders(tasks) - One(Owner(tasks[i])) + One(Owner(pc))
  {
    hide Owner;
    var last := |tasks| - 1;
    if i == last {
      assert tasks[i := pc][..last] == tasks[..last];
    } else {
      assert tasks[i := pc][..last] == tasks[..last][i := pc];
      HoldersUpdate(tasks[..last], i, pc);
    }
  }

  lemma {:induction false} HoldersSame(a: seq<Pc>, b: seq<Pc>)
    requires |a| == |b| && forall i | 0 <= i < |a| :: Owner(a[i]) <==> Owner(b[i])
    ensures Holders(a) == Holders(b)
  {
    hide Owner;
    if a != [] {
      var last := |a| - 1;
      assert forall i | 0 <= i < last :: a[..last][i] == a[i] && b[..last][i] == b[i];
      HoldersSame(a[..last], b[..last]);
    }
  }

  lemma HoldersAfter(s: State, a: Action)
    ensures Holders(Step(s, a).tasks) - One(Step(s, a).entry.Some?)
            == Holders(s.tasks) - One(s.entry.Some?) + One(Evicts(s, a)) - One(EndsUnpublished(s, a))
  {
    hide Local, Owner, Holders;
    if a.Go? && a.task < |s.tasks| {
      var pc, t := Local(s.entry, s.record, s.tasks[a.task], a.choice).1, Publish(s, s.tasks[a.task]);
      RemoveKeepsOwners(s);
      HoldersSame(s.tasks, t.tasks);
      HoldersUpdate(t.tasks, a.task, pc);
      RoleOf(s, a);
    }
  }

  /** Who is an owner before and after its own step. */
  lemma RoleOf(s: State, a: Action)
    requires a.Go? && a.task < |s.tasks|
    ensures var before, after := s.tasks[a.task], Local(s.entry, s.record, s.tasks[a.task], a.choice).1;
            if Wins(s, a) then !Owner(before) && Owner(after)
            else if before.Release? then Owner(before) && !Owner(after)
            else Owner(before) <==> Owner(after)
  {
  }

  /**
   Conservation: at any moment of any run, the tasks that hold the claim are the
   published one, if any, plus one for each timeout that removed a notifier,
   less one for each holder that has released without one.
   */
  lemma {:induction false} HoldersConserved(tasks: nat, record: Record, run: seq<Action>)
    ensures var s := Run(Init(tasks, record), run);
            Holders(s.tasks) == One(s.entry.Some?) + Evictions(Init(tasks, record), run) - UnpublishedEnds(Init(tasks, record), run)
  {
    hide Step, Evicts, EndsUnpublished;
    if run == [] {
      NoHolders(Init(tasks, record).tasks);
    } else {
      HoldersConserved(tasks, record, run[..|run| - 1]);
      HoldersAfter(Run(Init(tasks, record), run[..|run| - 1]), run[|run| - 1]);
    }
  }

  lemma {:induction false} NoHolders(tasks: seq<Pc>)
    requires forall i | 0 <= i < |tasks| :: !Owner(tasks[i])
    ensures Holders(tasks) == 0
  {
    if tasks != [] {
      NoHolders(tasks[..|tasks| - 1]);
    }
  }

  /** An evicted downloader that ends removes the notifier of the one that took over, which is then unpublished too. */
  lemma EvictedEnds(s: State, i: nat, j: nat, c: Choice)
    requires i < |s.tasks| && j < |s.tasks| && i != j && s.tasks[i].Release? && Owner(s.tasks[j])
    ensures var t := Step(s, Go(i, c));
            t.entry.None? && Owner(t.tasks[j]) && t.tasks[i].Over?
  {
    RemoveKeepsOwners(s);
  }

  // ---- when a finished record is lost --------------------------------------------

  /** Record finished before action `j` and not after it. */
  predicate Loses(s: State, run: seq<Action>, j: nat)
    requires j < |run|
  {
    At(s, run, j).record.Finished? && !At(s, run, j + 1).record.Finished?
  }

  ghost predicate NeverLoses(s: State, run: seq<Action>) {
    forall j | 0 <= j < |run| :: !Loses(s, run, j)
  }

  /** The action is a read of task `t` that finds the piece unfinished and arms it. */
  predicate Checks(s: State, a: Action, t: nat) {
    && a.Go? && a.task == t < |s.tasks| && !s.record.Finished?
    && (s.tasks[t].Purge? || s.tasks[t].Failing? || s.tasks[t].Owning?) && Armed(Step(s, a).tasks[t])
  }

  predicate Acts(a: Action, t: nat) {
    a.Go? && a.task == t
  }

  /** The action commits a download. */
  predicate Commit(s: State, a: Action) {
    a.Go? && a.task < |s.tasks| && s.tasks[a.task].Committing? && !a.choice.Break?
  }

  /**
   A task reads an unfinished record at `i`, another commits at `k`, and at `j`,
   its next action, the first carries out its write over the finished record.
   */
  ghost predicate Overtaken(s: State, run: seq<Action>, i: nat, k: nat, j: nat) {
    && i < k < j < |run| && run[j].Go? && !run[j].choice.Break?
    && Checks(At(s, run, i), run[i], run[j].task)
    && (forall n | i < n < j :: !Acts(run[n], run[j].task))
    && Commit(At(s, run, k), run[k])
    && forall n | k < n <= j :: At(s, run, n).record.Finished?
  }

  lemma Arming(s: State, a: Action, t: nat)
    requires t < |s.tasks| && t < |Step(s, a).tasks| && Armed(Step(s, a).tasks[t])
    ensures Acts(a, t) ==> Checks(s, a, t)
    ensures !Acts(a, t) ==> s.tasks[t] == Step(s, a).tasks[t]
  {
    if !Acts(a, t) && a.Go? && a.task < |s.tasks| {
      hide Local;
      assert RemoveAndNotify(s).tasks[t] == if s.entry.Some? then WakeOne(s.tasks[t], s.entry.value) else s.tasks[t];
    }
  }

  lemma StaysArmed(s: State, a: Action, t: nat)
    requires t < |s.tasks| && Armed(s.tasks[t]) && !Acts(a, t)
    ensures Step(s, a).tasks[t] == s.tasks[t]
  {
    hide Local;
  }

  lemma CheckKeepsRecord(s: State, a: Action, t: nat)
    requires Checks(s, a, t)
    ensures Step(s, a).record == s.record
  {
  }

  lemma OnlyCommitsFinish(s: State, a: Action)
    requires !s.record.Finished? && Step(s, a).record.Finished?
    ensures Commit(s, a)
  {
  }

  /** An armed task read an unfinished record and has not acted since. */
  lemma {:induction false} ArmedSince(tasks: nat, record: Record, run: seq<Action>, j: nat, t: nat) returns (i: nat)
    requires j <= |run| && t < |At(Init(tasks, record), run, j).tasks| && Armed(At(Init(tasks, record), run, j).tasks[t])
    ensures i < j && Checks(At(Init(tasks, record), run, i), run[i], t)
    ensures forall n | i < n < j :: !Acts(run[n], t)
    decreases j
  {
    hide Step, At, Checks;
    var s := Init(tasks, record);
    AtStart(s, run);
    assert j > 0;
    var before, a := At(s, run, j - 1), run[j - 1];
    AtNext(s, run, j - 1);
    StepSize(before, a);
    Arming(before, a, t);
    if Acts(a, t) {
      i := j - 1;
    } else {
      i := ArmedSince(tasks, record, run, j - 1, t);
    }
  }

  /** Between an unfinished and a later finished record there is a last commit. */
  lemma {:induction false} LastCommit(s: State, run: seq<Action>, m: nat, j: nat) returns (k: nat)
    requires m < j <= |run| && !At(s, run, m).record.Finished? && At(s, run, j).record.Finished?
    ensures m <= k < j && Commit(At(s, run, k), run[k])
    ensures forall n | k < n <= j :: At(s, run, n).record.Finished?
    decreases j
  {
    hide Step, At, Commit;
    AtNext(s, run, j - 1);
    if At(s, run, j - 1).record.Finished? {
      k := LastCommit(s, run, m, j - 1);
    } else {
      k := j - 1;
      OnlyCommitsFinish(At(s, run, k), run[k]);
    }
  }

  lemma OvertakenLoses(s: State, run: seq<Action>, i: nat, k: nat, j: nat)
    requires Overtaken(s, run, i, k, j)
    ensures Loses(s, run, j)
  {
    hide Step, At, Commit;
    var t := run[j].task;
    ArmedUntil(s, run, i, j, t);
    AtNext(s, run, j);
    LostExactly(At(s, run, j), run[j]);
  }

  lemma {:induction false} ArmedUntil(s: State, run: seq<Action>, i: nat, j: nat, t: nat)
    requires i < j <= |run| && Checks(At(s, run, i), run[i], t) && forall n | i < n < j :: !Acts(run[n], t)
    ensures t < |At(s, run, j).tasks| && Armed(At(s, run, j).tasks[t])
    decreases j
  {
    hide Step, At, Armed;
    AtNext(s, run, j - 1);
    StepSize(At(s, run, j - 1), run[j - 1]);
    if j > i + 1 {
      ArmedUntil(s, run, i, j - 1, t);
      StaysArmed(At(s, run, j - 1), run[j - 1], t);
    }
  }

  /** A finished record is lost at `j` exactly by an explicit delete or by a task that was overtaken. */
  lemma LossExactly(tasks: nat, record: Record, run: seq<Action>, j: nat)
    requires j < |run| && At(Init(tasks, record), run, j).record.Finished?
    ensures Loses(Init(tasks, record), run, j)
            <==> run[j].Delete? || exists i: nat, k: nat :: Overtaken(Init(tasks, record), run, i, k, j)
  {
    hide Step, At, Commit, Checks, Acts;
    var s := Init(tasks, record);
    AtNext(s, run, j);
    LostExactly(At(s, run, j), run[j]);
    if Loses(s, run, j) && !run[j].Delete? {
      var t := run[j].task;
      var i := ArmedSince(tasks, record, run, j, t);
      var k := CommitBetween(s, run, i, j, t);
      assert Overtaken(s, run, i, k, j);
    }
    forall i: nat, k: nat | Overtaken(s, run, i, k, j) ensures Loses(s, run, j) {
      OvertakenLoses(s, run, i, k, j);
    }
  }

  lemma CommitBetween(s: State, run: seq<Action>, i: nat, j: nat, t: nat) returns (k: nat)
    requires i < j <= |run| && Checks(At(s, run, i), run[i], t) && At(s, run, j).record.Finished?
    ensures i < k < j && Commit(At(s, run, k), run[k])
    ensures forall n | k < n <= j :: At(s, run, n).record.Finished?
  {
    hide Step, At, Commit, Armed;
    AtNext(s, run, i);
    CheckKeepsRecord(At(s, run, i), run[i], t);
    k := LastCommit(s, run, i + 1, j);
  }

  /** So a run never loses a finished record if and only if none is deleted explicitly and no task is overtaken. */
  lemma NeverLosesExactly(tasks: nat, record: Record, run: seq<Action>)
    ensures NeverLoses(Init(tasks, record), run)
            <==> forall j | 0 <= j < |run| && At(Init(tasks, record), run, j).record.Finished? ::
                   !run[j].Delete? && forall i: nat, k: nat :: !Overtaken(Init(tasks, record), run, i, k, j)
  {
    hide At, Overtaken;
    forall j | 0 <= j < |run| && At(Init(tasks, record), run, j).record.Finished?
      ensures Loses(Init(tasks, record), run, j)
              <==> run[j].Delete? || exists i: nat, k: nat :: Overtaken(Init(tasks, record), run, i, k, j)
    {
      LossExactly(tasks, record, run, j);
    }
  }
}
