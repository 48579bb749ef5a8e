/** Runs of the download claim that break what its comments promise. */
module ClaimWitnesses {
  import opened Wrappers
  import opened Claims
  import opened ClaimRuns

  /** No explicit delete, and every read-and-delete in one step. */
  predicate Undivided(run: seq<Action>) {
    forall n | 0 <= n < |run| :: run[n].Go? && !run[n].choice.Split?
  }

  lemma NoAction(s: State) returns (run: seq<Action>)
    ensures run == [] && Run(s, run) == s && StartCount(s, run) == 0
  {
    run := [];
  }

  /** One more action of a run. */
  lemma Extend(s: State, run: seq<Action>, a: Action) returns (longer: seq<Action>)
    ensures longer == run + [a] && Run(s, longer) == Step(Run(s, run), a)
    ensures StartCount(s, longer) == StartCount(s, run) + (if Starts(Run(s, run), a) then 1 else 0)
  {
    hide Step, Starts;
    longer := run + [a];
    assert longer[..|longer| - 1] == run;
  }

  /** Two steps of one task. */
  lemma Advance(s: State, run: seq<Action>, task: nat, a: Choice, b: Choice) returns (longer: seq<Action>)
    ensures longer == run + [Go(task, a)] + [Go(task, b)]
    ensures Run(s, longer) == Step(Step(Run(s, run), Go(task, a)), Go(task, b))
    ensures StartCount(s, longer) == StartCount(s, run) + (if Starts(Run(s, run), Go(task, a)) then 1 else 0)
                                     + (if Starts(Step(Run(s, run), Go(task, a)), Go(task, b)) then 1 else 0)
  {
    hide Step, Run, Starts, StartCount;
    longer := Extend(s, run, Go(task, a));
    longer := Extend(s, longer, Go(task, b));
  }

  /** The next state of three tasks, spelled out. */
  function Next(t: State, i: nat, c: Choice): State
    requires |t.tasks| == 3 && i < 3
  {
    var pc := t.tasks[i];
    var (record, next) := Local(t.entry, t.record, pc, c);
    var wins, removes := pc.Claiming? && t.entry.None?, (pc.Release? || pc.TimedOut?) && t.entry.Some?;
    var id := if removes then t.entry.value else 0;
    State(if wins then Some(t.next) else if removes then None else t.entry, if wins then t.next + 1 else t.next, record,
          [if i == 0 then next else if removes then WakeOne(t.tasks[0], id) else t.tasks[0],
           if i == 1 then next else if removes then WakeOne(t.tasks[1], id) else t.tasks[1],
           if i == 2 then next else if removes then WakeOne(t.tasks[2], id) else t.tasks[2]])
  }

  lemma StepNext(t: State, i: nat, c: Choice)
    requires |t.tasks| == 3 && i < 3
    ensures Step(t, Go(i, c)) == Next(t, i, c)
  {
    hide Local, WakeOne;
    assert Step(t, Go(i, c)).tasks == Next(t, i, c).tasks;
  }

  lemma Extend3(run: seq<Action>, i: nat, c: Choice) returns (longer: seq<Action>)
    requires |Run(Init(3, Absent), run).tasks| == 3 && i < 3
    ensures longer == run + [Go(i, c)] && Run(Init(3, Absent), longer) == Next(Run(Init(3, Absent), run), i, c)
    ensures StartCount(Init(3, Absent), longer)
            == StartCount(Init(3, Absent), run) + (if Starts(Run(Init(3, Absent), run), Go(i, c)) then 1 else 0)
  {
    hide Run, Step, Next, Starts, StartCount;
    longer := Extend(Init(3, Absent), run, Go(i, c));
    StepNext(Run(Init(3, Absent), run), i, c);
  }

  lemma Advance3(run: seq<Action>, i: nat, a: Choice, b: Choice) returns (longer: seq<Action>)
    requires |Run(Init(3, Absent), run).tasks| == 3 && i < 3
    ensures longer == run + [Go(i, a)] + [Go(i, b)]
    ensures var t := Run(Init(3, Absent), run);
            && Run(Init(3, Absent), longer) == Next(Next(t, i, a), i, b)
            && StartCount(Init(3, Absent), longer)
               == StartCount(Init(3, Absent), run) + (if Starts(t, Go(i, a)) then 1 else 0)
                  + (if Starts(Next(t, i, a), Go(i, b)) then 1 else 0)
  {
    hide Run, Step, Starts, StartCount;
    longer := Extend3(run, i, a);
    longer := Extend3(longer, i, b);
  }

  /** The first of three tasks downloads. */
  lemma FirstDownloads() returns (run: seq<Action>)
    ensures Run(Init(3, Absent), run) == State(Some(0), 1, Started, [Downloading, Top, Top]) && Undivided(run)
    ensures StartCount(Init(3, Absent), run) == 1
  {
    hide Run, StartCount;
    var s := Init(3, Absent);
    run := NoAction(s);
    assert s.tasks == [Top, Top, Top];
    run := Extend3(run, 0, Normal);
    assert Run(s, run) == State(None, 0, Absent, [Claiming, Top, Top]);
    run := Extend3(run, 0, Normal);
    assert Run(s, run) == State(Some(0), 1, Absent, [Owning, Top, Top]);
    run := Extend3(run, 0, Normal);
    assert Run(s, run) == State(Some(0), 1, Absent, [Starting, Top, Top]);
    run := Extend3(run, 0, Normal);
  }

  /** The second sleeps on its notifier. */
  lemma WaiterAsleep() returns (run: seq<Action>)
    ensures Run(Init(3, Absent), run) == State(Some(0), 1, Started, [Downloading, Sleep(Hook(0, true, false)), Top])
    ensures Undivided(run) && StartCount(Init(3, Absent), run) == 1
  {
    hide Run, StartCount;
    var s := Init(3, Absent);
    run := FirstDownloads();
    run := Advance3(run, 1, Normal, Normal);      // finds the notifier
    assert Run(s, run) == State(Some(0), 1, Started, [Downloading, Hooking(0), Top]);
    run := Advance3(run, 1, Normal, Normal);      // registers, re-reads, sleeps
  }

  /** The waiter times out; its purge is carried out, or fails and is only logged; it removes the notifier and claims. */
  lemma WaiterClaims(purge: Choice) returns (run: seq<Action>)
    requires purge in {Normal, Break}
    ensures Run(Init(3, Absent), run)
            == State(Some(1), 2, if purge.Normal? then Absent else Started, [Downloading, Owning, Top])
    ensures Undivided(run)
  {
    hide Run, Starts, StartCount;
    var s := Init(3, Absent);
    run := WaiterAsleep();
    run := Extend3(run, 1, Timeout);
    assert Run(s, run) == State(Some(0), 1, Started, [Downloading, Purge(true), Top]);
    run := Extend3(run, 1, purge);
    var left := if purge.Normal? then Absent else Started;
    assert Run(s, run) == State(Some(0), 1, left, [Downloading, TimedOut, Top]);
    run := Extend3(run, 1, Normal);
    assert Run(s, run) == State(None, 1, left, [Downloading, Claiming, Top]);
    run := Extend3(run, 1, Normal);
  }

  /** A waiter's timeout is enough for two concurrent downloads of one piece. */
  lemma TwoDownloadersReachable() returns (run: seq<Action>)
    ensures Run(Init(3, Absent), run) == State(Some(1), 2, Started, [Downloading, Downloading, Top]) && Undivided(run)
  {
    hide Run, Starts, StartCount;
    var s := Init(3, Absent);
    run := WaiterClaims(Normal);
    run := Advance3(run, 1, Normal, Normal);
  }

  /** The evicted downloader's end unpublishes the second, and a third task claims without any further timeout. */
  lemma ThirdDownloaderReachable() returns (run: seq<Action>)
    ensures Run(Init(3, Absent), run).tasks == [Over, Downloading, Owning] && Undivided(run)
  {
    hide Run, Starts, StartCount;
    var s := Init(3, Absent);
    run := TwoDownloadersReachable();
    run := Extend3(run, 0, Break);                  // fails
    assert Run(s, run) == State(Some(1), 2, Started, [Failing, Downloading, Top]);
    run := Extend3(run, 0, Normal);                 // cleans up
    assert Run(s, run) == State(Some(1), 2, Absent, [Release, Downloading, Top]);
    run := Extend3(run, 0, Normal);                 // removes the other's notifier
    assert Run(s, run) == State(None, 2, Absent, [Over, Downloading, Top]);
    run := Extend3(run, 2, Normal);                 // finds nothing
    assert Run(s, run) == State(None, 2, Absent, [Over, Downloading, Claiming]);
    run := Extend3(run, 2, Normal);                 // claims
  }

  /** A downloader that finds its record commits it. */
  lemma CommitSteps(s: State, i: nat)
    requires i < |s.tasks| && s.tasks[i].Downloading? && !s.record.Absent?
    ensures !Starts(s, Go(i, Normal)) && !Starts(Step(s, Go(i, Normal)), Go(i, Normal))
    ensures Step(Step(s, Go(i, Normal)), Go(i, Normal)) == s.(record := Finished, tasks := s.tasks[i := Release])
  {
    assert s.tasks[i := Committing][i := Release] == s.tasks[i := Release];
  }

  /** The first downloader commits. */
  lemma FirstCommits(run: seq<Action>, t: State) returns (longer: seq<Action>)
    requires Run(Init(3, Absent), run) == t && |t.tasks| == 3 && t.tasks[0].Downloading? && t.record.Started?
    ensures Run(Init(3, Absent), longer) == State(t.entry, t.next, Finished, [Release, t.tasks[1], t.tasks[2]])
    ensures longer == run + [Go(0, Normal)] + [Go(0, Normal)]
    ensures StartCount(Init(3, Absent), longer) == StartCount(Init(3, Absent), run)
  {
    hide Run, Step, StartCount;
    longer := Advance(Init(3, Absent), run, 0, Normal, Normal);
    CommitSteps(t, 0);
    assert t.tasks[0 := Release] == [Release, t.tasks[1], t.tasks[2]];
  }

  /** A waiter whose read and delete come apart erases the record its downloader has just finished. */
  lemma PurgeErasesReachable() returns (run: seq<Action>, a: Action)
    ensures Run(Init(3, Absent), run).record.Finished? && Step(Run(Init(3, Absent), run), a).record.Absent? && a.Go?
  {
    hide Run, Starts, StartCount;
    var s := Init(3, Absent);
    run := WaiterAsleep();
    run := Advance3(run, 1, Timeout, Split);      // has read an unfinished record
    assert Run(s, run) == State(Some(0), 1, Started, [Downloading, PurgeDelete(true), Top]);
    run := FirstCommits(run, Run(s, run));
    a := Go(1, Normal);
  }

  /** A second downloader writes its started record over the finished one; nothing was deleted and nothing came apart. */
  lemma RestartErasesReachable() returns (run: seq<Action>, a: Action)
    ensures Run(Init(3, Absent), run).record.Finished? && Step(Run(Init(3, Absent), run), a).record.Started?
    ensures Undivided(run + [a])
  {
    hide Run, Starts, StartCount;
    var s := Init(3, Absent);
    run := WaiterClaims(Break);
    run := Extend3(run, 1, Normal);           // re-reads an unfinished record
    assert Run(s, run) == State(Some(1), 2, Started, [Downloading, Starting, Top]);
    run := FirstCommits(run, Run(s, run));
    a := Go(1, Normal);
  }

  /** A second downloader that fails erases the record the first has finished. */
  lemma FailureErasesReachable() returns (run: seq<Action>, a: Action)
    ensures Run(Init(3, Absent), run) == State(Some(1), 2, Finished, [Release, FailDelete, Top]) && a == Go(1, Normal)
    ensures Step(Run(Init(3, Absent), run), a).record.Absent?
  {
    hide Run, Starts, StartCount;
    var s := Init(3, Absent);
    run := TwoDownloadersReachable();
    run := Advance3(run, 1, Break, Split);        // fails, has read an unfinished record
    assert Run(s, run) == State(Some(1), 2, Started, [Downloading, FailDelete, Top]);
    run := FirstCommits(run, Run(s, run));
    a := Go(1, Normal);
  }

  /** The first task commits; it has still to release the claim. */
  lemma CommittedFirst() returns (run: seq<Action>)
    ensures Run(Init(3, Absent), run) == State(Some(0), 1, Finished, [Release, Sleep(Hook(0, true, false)), Top])
    ensures StartCount(Init(3, Absent), run) == 1
  {
    hide Run, StartCount;
    var s := Init(3, Absent);
    run := WaiterAsleep();
    var t := Run(s, run);
    run := FirstCommits(run, t);
  }

  /**
   Two tasks hold the claim and never download at once: a waiter times out while
   the downloader, done, has still to release, claims and finds the piece finished.
   */
  lemma HarmlessReclaim() returns (run: seq<Action>)
    ensures Run(Init(3, Absent), run) == State(Some(1), 2, Finished, [Release, Release, Top])
    ensures !NeverTwo(Init(3, Absent), run) && NeverBoth(Init(3, Absent), run)
  {
    hide Run, NeverBoth, NeverTwo, StartCount;
    var s := Init(3, Absent);
    run := CommittedFirst();
    run := Extend3(run, 1, Timeout);                // gives up
    assert Run(s, run) == State(Some(0), 1, Finished, [Release, Purge(true), Top]);
    run := Extend3(run, 1, Normal);                 // its purge keeps the record
    assert Run(s, run) == State(Some(0), 1, Finished, [Release, TimedOut, Top]);
    run := Extend3(run, 1, Normal);                 // removes the notifier
    assert Run(s, run) == State(None, 1, Finished, [Release, Claiming, Top]);
    run := Extend3(run, 1, Normal);                 // claims
    assert Run(s, run) == State(Some(1), 2, Finished, [Release, Owning, Top]);
    run := Extend3(run, 1, Normal);                 // finds the piece finished
    TwoAtEnd(s, run);
    OneStart(3, Absent, run);
  }

  lemma TwoAtEnd(s: State, run: seq<Action>)
    requires Run(s, run).tasks == [Release, Release, Top]
    ensures !NeverTwo(s, run)
  {
    hide Run;
    assert run[..|run|] == run;
    assert Owner(Run(s, run).tasks[0]) && Owner(Run(s, run).tasks[1]);
    assert !AtMostOne(At(s, run, |run|));
  }

  // ---- and runs that go well -------------------------------------------------------

  /** The waiter is woken by the release, finds no notifier and returns the finished piece. */
  lemma WaiterReturns() returns (run: seq<Action>)
    ensures Run(Init(3, Absent), run) == State(None, 1, Finished, [Over, Over, Top])
  {
    hide Run, Starts, StartCount;
    var s := Init(3, Absent);
    run := CommittedFirst();
    run := Extend3(run, 0, Normal);
    assert Run(s, run) == State(None, 1, Finished, [Over, Sleep(Hook(0, true, true)), Top]);
    run := Advance3(run, 1, Normal, Normal);
    assert Run(s, run) == State(None, 1, Finished, [Over, Missing(0), Top]);
    run := Extend3(run, 1, Normal);
  }

  /** All actions are undisturbed steps of the only task. */
  predicate Alone(run: seq<Action>) {
    forall n | 0 <= n < |run| :: run[n] == Go(0, Normal)
  }

  /** The next state of a task that is alone. */
  function NextAlone(t: State): State
    requires |t.tasks| == 1
  {
    var pc := t.tasks[0];
    var (record, next) := Local(t.entry, t.record, pc, Normal);
    if pc.Claiming? && t.entry.None? then State(Some(t.next), t.next + 1, record, [next])
    else State(if pc.Release? || pc.TimedOut? then None else t.entry, t.next, record, [next])
  }

  lemma StepAlone(t: State)
    requires |t.tasks| == 1
    ensures Step(t, Go(0, Normal)) == NextAlone(t)
  {
    hide Local;
    assert Step(t, Go(0, Normal)).tasks == NextAlone(t).tasks;
  }

  lemma OneStep(record: Record, run: seq<Action>) returns (longer: seq<Action>)
    requires Alone(run) && |Run(Init(1, record), run).tasks| == 1
    ensures Alone(longer) && Run(Init(1, record), longer) == NextAlone(Run(Init(1, record), run))
  {
    hide Run, Step, NextAlone;
    longer := Extend(Init(1, record), run, Go(0, Normal));
    StepAlone(Run(Init(1, record), run));
  }

  /** From the claim on, a task that is alone downloads the piece and returns. */
  lemma ClaimerFinishes(record: Record, run: seq<Action>) returns (longer: seq<Action>)
    requires Run(Init(1, record), run) == State(None, 0, Absent, [Claiming]) && Alone(run)
    ensures Run(Init(1, record), longer) == State(None, 1, Finished, [Over]) && Alone(longer)
  {
    hide Run, Alone;
    longer := OneStep(record, run);
    assert Run(Init(1, record), longer) == State(Some(0), 1, Absent, [Owning]);
    longer := OneStep(record, longer);
    assert Run(Init(1, record), longer) == State(Some(0), 1, Absent, [Starting]);
    longer := OneStep(record, longer);
    assert Run(Init(1, record), longer) == State(Some(0), 1, Started, [Downloading]);
    longer := OneStep(record, longer);
    assert Run(Init(1, record), longer) == State(Some(0), 1, Started, [Committing]);
    longer := OneStep(record, longer);
    assert Run(Init(1, record), longer) == State(Some(0), 1, Finished, [Release]);
    longer := OneStep(record, longer);
  }

  /** A started record that an earlier process left is looked into twice more, purged and claimed. */
  lemma StaleIsClaimed() returns (run: seq<Action>)
    ensures Run(Init(1, Started), run) == State(None, 0, Absent, [Claiming]) && Alone(run)
  {
    hide Run;
    run := NoAction(Init(1, Started));
    assert Init(1, Started).tasks == [Top];
    run := OneStep(Started, run);
    assert Run(Init(1, Started), run) == State(None, 0, Started, [Look]);
    run := OneStep(Started, run);
    assert Run(Init(1, Started), run) == State(None, 0, Started, [Missing(0)]);
    run := OneStep(Started, run);
    assert Run(Init(1, Started), run) == State(None, 0, Started, [Missing(1)]);
    run := OneStep(Started, run);
    assert Run(Init(1, Started), run) == State(None, 0, Started, [Missing(2)]);
    run := OneStep(Started, run);
    assert Run(Init(1, Started), run) == State(None, 0, Started, [Missing(3)]);
    run := OneStep(Started, run);
    assert Run(Init(1, Started), run) == State(None, 0, Started, [Purge(false)]);
    run := OneStep(Started, run);
  }

  /** Whatever record is found, a task that is alone and undisturbed ends with the piece finished. */
  lemma AloneFinishes(record: Record) returns (run: seq<Action>)
    ensures Alone(run) && Run(Init(1, record), run).record.Finished? && Run(Init(1, record), run).tasks == [Over]
  {
    hide Run;
    match record {
      case Started =>
        run := StaleIsClaimed();
        run := ClaimerFinishes(record, run);
      case Absent =>
        run := NoAction(Init(1, Absent));
        assert Init(1, Absent).tasks == [Top];
        run := OneStep(record, run);
        run := ClaimerFinishes(record, run);
      case Finished =>
        run := NoAction(Init(1, Finished));
        assert Init(1, Finished).tasks == [Top];
        run := OneStep(record, run);
    }
  }
}
