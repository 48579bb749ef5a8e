/**
 The download claim of one piece: tasks race to become its downloader, the
 losers wait on the winner's notifier, and the piece record is the truth.
 */
module Claims {
  import opened Wrappers

  /** The stored metadata of the piece. */
  datatype Record = Absent | Started | Finished

  /** A registered wait on notifier `id`; `live` if the notifier was still published at registration. */
  datatype Hook = Hook(id: nat, live: bool, woken: bool)

  /** Where a task stands in `download_piece_started`, `wait_for_piece_finished` and the calls that end a download. */
  datatype Pc =
    | Top                       // read the record
    | Look                      // fetch the notifier
    | Hooking(id: nat)          // register on the fetched notifier
    | Recheck(hook: Hook)       // read the record again
    | Sleep(hook: Hook)         // notified, fallback interval or timeout
    | Missing(round: nat)       // no notifier: re-read record and notifier, twice
    | Purge(timedOut: bool)     // wait_for_piece_finished_failed, its read
    | PurgeDelete(timedOut: bool)  // and its delete, when they are not one step
    | TimedOut                  // remove the notifier of a download waited for too long
    | Claiming
    | Joining(id: nat)          // lost the claim: register on the winner's notifier
    | Waiting(hook: Hook)
    | Owning                    // won the claim: re-read the record
    | Starting                  // write the started record
    | Downloading               // the download, then the read of download_piece_finished
    | Committing                // and its write
    | Failing                   // download_piece_failed, its read
    | FailDelete                // and its delete
    | Release                   // remove the notifier and wake the waiters
    | Over

  /** What the environment decides for a step: an error, a timer, or that a read and its delete come apart. */
  datatype Choice = Normal | Fallback | Timeout | Split | Break

  datatype Action = Go(task: nat, choice: Choice) | Delete

  datatype State = State(entry: Option<nat>, next: nat, record: Record, tasks: seq<Pc>)

  predicate Owner(pc: Pc) {
    pc in {Owning, Starting, Downloading, Committing, Failing, FailDelete, Release}
  }

  predicate Hooked(pc: Pc) {
    pc.Recheck? || pc.Sleep? || pc.Waiting?
  }

  function WakeOne(pc: Pc, id: nat): Pc {
    if Hooked(pc) && pc.hook.id == id && pc.hook.live then pc.(hook := pc.hook.(woken := true)) else pc
  }

  /** `remove_and_notify`. */
  function RemoveAndNotify(s: State): State {
    match s.entry
    case None => s
    case Some(id) => s.(entry := None, tasks := seq(|s.tasks|, i requires 0 <= i < |s.tasks| => WakeOne(s.tasks[i], id)))
  }

  function To(s: State, i: nat, pc: Pc): State
    requires i < |s.tasks|
  {
    s.(tasks := s.tasks[i := pc])
  }

  /** After reading the record: unreadable or gone, finished, or still being downloaded. */
  function OnRecord(record: Record, c: Choice, started: Pc): Pc {
    if c.Break? then Claiming
    else
      match record
      case Absent => Claiming
      case Finished => Over
      case Started => started
  }

  function AfterPurge(timedOut: bool): Pc {
    if timedOut then TimedOut else Claiming
  }

  /** A purge or failure cleanup as one step: a finished record is kept, any other erased; its errors are not acted on. */
  function Cleanup(record: Record, c: Choice, split: Pc, then': Pc): (Record, Pc) {
    if record.Finished? || c.Break? then (record, then')
    else if c.Split? then (record, split)
    else (Absent, then')
  }

  /** The piece record and the task's place after its step. */
  function Local(entry: Option<nat>, record: Record, pc: Pc, c: Choice): (Record, Pc) {
    match pc
    case Top => (record, OnRecord(record, c, Look))
    case Look => (record, if entry.Some? then Hooking(entry.value) else Missing(0))
    case Hooking(id) => (record, Recheck(Hook(id, entry == Some(id), false)))
    case Recheck(hook) => (record, OnRecord(record, c, Sleep(hook)))
    case Sleep(hook) => (record, if c.Timeout? then Purge(true) else if c.Fallback? || hook.woken then Look else pc)
    case Missing(round) =>
      (record, if round % 2 == 0 then OnRecord(record, c, Missing(round + 1))
               else if entry.Some? then Look
               else if round == 1 then Missing(2) else Purge(false))
    case Purge(timedOut) => Cleanup(record, c, PurgeDelete(timedOut), AfterPurge(timedOut))
    case PurgeDelete(timedOut) => (if c.Break? then record else Absent, AfterPurge(timedOut))
    case TimedOut => (record, Claiming)
    case Claiming => (record, if entry.Some? then Joining(entry.value) else Owning)
    case Joining(id) => (record, Waiting(Hook(id, entry == Some(id), false)))
    case Waiting(hook) => (record, if c.Fallback? || hook.woken then Top else pc)
    case Owning => (record, if c.Break? || record.Finished? then Release else Starting)
    case Starting => if c.Break? then (record, Release) else (Started, Downloading)
    case Downloading => (record, if c.Break? || record.Absent? then Failing else Committing)
    case Committing => if c.Break? then (record, Failing) else (Finished, Release)
    case Failing => Cleanup(record, c, FailDelete, Release)
    case FailDelete => (if c.Break? then record else Absent, Release)
    case Release => (record, Over)
    case Over => (record, Over)
  }

  /** What the step does to the notifier: a claim publishes one, a release and a timeout remove it. */
  function Publish(s: State, pc: Pc): (t: State)
    ensures |t.tasks| == |s.tasks|
  {
    if pc.Claiming? && s.entry.None? then s.(entry := Some(s.next), next := s.next + 1)
    else if pc.Release? || pc.TimedOut? then RemoveAndNotify(s)
    else s
  }

  function Step(s: State, a: Action): State {
    if a.Delete? then s.(record := Absent)
    else if a.task >= |s.tasks| then s
    else
      var (record, pc) := Local(s.entry, s.record, s.tasks[a.task], a.choice);
      To(Publish(s, s.tasks[a.task]).(record := record), a.task, pc)
  }

  ghost predicate HasOwner(s: State) {
    exists i | 0 <= i < |s.tasks| :: Owner(s.tasks[i])
  }

  /** At most one downloader, and the notifier is published exactly while there is one. */
  ghost predicate Exclusive(s: State) {
    && (forall i, j | 0 <= i < |s.tasks| && 0 <= j < |s.tasks| && Owner(s.tasks[i]) && Owner(s.tasks[j]) :: i == j)
    && (s.entry.Some? <==> HasOwner(s))
  }

  /** A waiter that timed out takes the notifier away from a downloader that is still at work. */
  ghost predicate EarlyRelease(s: State, a: Action) {
    a.Go? && a.task < |s.tasks| && s.tasks[a.task].TimedOut? && HasOwner(s)
  }

  lemma RemoveKeepsOwners(s: State)
    ensures var t := RemoveAndNotify(s);
            |t.tasks| == |s.tasks| && forall i | 0 <= i < |s.tasks| :: Owner(t.tasks[i]) <==> Owner(s.tasks[i])
  {
  }

  ghost predicate SameOwners(s: State, t: State) {
    |t.tasks| == |s.tasks| && forall j | 0 <= j < |s.tasks| :: Owner(t.tasks[j]) <==> Owner(s.tasks[j])
  }

  lemma SameOwnersExclusive(s: State, t: State)
    requires Exclusive(s) && SameOwners(s, t)
    ensures HasOwner(t) <==> HasOwner(s)
    ensures Exclusive(t) <==> (t.entry.Some? <==> s.entry.Some?)
  {
    if HasOwner(s) {
      var i :| 0 <= i < |s.tasks| && Owner(s.tasks[i]);
      assert Owner(t.tasks[i]);
    }
  }

  /** Exactly a claim, a release and a timeout change who owns the piece or what is published. */
  predicate ChangesRole(s: State, i: nat)
    requires i < |s.tasks|
  {
    (s.tasks[i].Claiming? && s.entry.None?) || s.tasks[i].Release? || s.tasks[i].TimedOut?
  }

  lemma LocalKeepsRole(entry: Option<nat>, record: Record, pc: Pc, c: Choice)
    requires !(pc.Claiming? && entry.None?) && !pc.Release? && !pc.TimedOut?
    ensures Owner(Local(entry, record, pc, c).1) <==> Owner(pc)
  {
  }

  lemma OtherStepsKeepRoles(s: State, i: nat, c: Choice)
    requires i < |s.tasks| && !ChangesRole(s, i)
    ensures SameOwners(s, Step(s, Go(i, c))) && Step(s, Go(i, c)).entry == s.entry
  {
    hide Local, Owner;
    LocalKeepsRole(s.entry, s.record, s.tasks[i], c);
  }

  /** Mutual exclusion is kept by every step but one, and that one always breaks it. */
  lemma ExclusiveAfter(s: State, a: Action)
    requires Exclusive(s)
    ensures Exclusive(Step(s, a)) <==> !EarlyRelease(s, a)
  {
    var t := Step(s, a);
    if a.Delete? || a.task >= |s.tasks| {
      SameOwnersExclusive(s, t);
    } else if !ChangesRole(s, a.task) {
      OtherStepsKeepRoles(s, a.task, a.choice);
      SameOwnersExclusive(s, t);
    } else if s.tasks[a.task].TimedOut? {
      RemoveKeepsOwners(s);
      SameOwnersExclusive(s, t);
    } else if s.tasks[a.task].Release? {
      RemoveKeepsOwners(s);
      assert Owner(s.tasks[a.task]);
      assert forall j | 0 <= j < |t.tasks| :: !Owner(t.tasks[j]);
    } else {
      assert t.tasks[a.task] == Owning && Owner(t.tasks[a.task]);
      assert forall j | 0 <= j < |t.tasks| && j != a.task :: t.tasks[j] == s.tasks[j];
    }
  }

  /** An early release leaves the piece to be claimed a second time. */
  lemma SecondOwner(s: State, a: Action, claimer: nat, c: Choice)
    requires Exclusive(s) && EarlyRelease(s, a)
    requires claimer < |s.tasks| && Step(s, a).tasks[claimer].Claiming?
    ensures var t := Step(Step(s, a), Go(claimer, c));
            Owner(t.tasks[claimer]) && exists i | 0 <= i < |t.tasks| && i != claimer :: Owner(t.tasks[i])
  {
    var i :| 0 <= i < |s.tasks| && Owner(s.tasks[i]);
    RemoveKeepsOwners(s);
    var t := Step(Step(s, a), Go(claimer, c));
    assert Owner(t.tasks[i]);
  }

  /** A waiter registered in time and not woken waits on the notifier that is published now. */
  ghost predicate NoLostWakeup(s: State) {
    && (s.entry.Some? ==> s.entry.value < s.next)
    && (forall i | 0 <= i < |s.tasks| :: IdsIssued(s.tasks[i], s.next))
    && (forall i | 0 <= i < |s.tasks| :: Attentive(s.tasks[i], s.entry))
  }

  predicate IdsIssued(pc: Pc, next: nat) {
    && (Hooked(pc) ==> pc.hook.id < next)
    && (pc.Hooking? || pc.Joining? ==> pc.id < next)
  }

  predicate Attentive(pc: Pc, entry: Option<nat>) {
    Hooked(pc) && pc.hook.live && !pc.hook.woken ==> entry == Some(pc.hook.id)
  }

  lemma RemoveWakes(s: State)
    requires NoLostWakeup(s)
    ensures NoLostWakeup(RemoveAndNotify(s)) && RemoveAndNotify(s).entry.None?
  {
  }

  lemma MoveKeeps(s: State, i: nat, pc: Pc)
    requires NoLostWakeup(s) && i < |s.tasks| && IdsIssued(pc, s.next) && Attentive(pc, s.entry)
    ensures NoLostWakeup(To(s, i, pc))
  {
  }

  lemma PublishKeeps(s: State, pc: Pc)
    requires NoLostWakeup(s)
    ensures NoLostWakeup(Publish(s, pc))
  {
    RemoveWakes(s);
  }

  lemma LocalAttentive(entry: Option<nat>, record: Record, pc: Pc, c: Choice, next: nat)
    requires (entry.Some? ==> entry.value < next) && IdsIssued(pc, next) && Attentive(pc, entry)
    ensures var pc' := Local(entry, record, pc, c).1;
            IdsIssued(pc', next) && Attentive(pc', entry)
  {
  }

  /** Where the notifier changes the task waits for nothing afterwards. */
  lemma PublishersDoNotWait(s: State, i: nat, c: Choice)
    requires i < |s.tasks| && ChangesRole(s, i)
    ensures var pc := Local(s.entry, s.record, s.tasks[i], c).1;
            !Hooked(pc) && !pc.Hooking? && !pc.Joining?
  {
  }

  /** Every step, timeouts included: removing a notifier wakes whoever waits on it. */
  lemma WakeupAfter(s: State, a: Action)
    requires NoLostWakeup(s)
    ensures NoLostWakeup(Step(s, a))
  {
    hide Local;
    if a.Go? && a.task < |s.tasks| {
      var (record, pc) := Local(s.entry, s.record, s.tasks[a.task], a.choice);
      PublishKeeps(s, s.tasks[a.task]);
      if ChangesRole(s, a.task) {
        PublishersDoNotWait(s, a.task, a.choice);
      } else {
        assert IdsIssued(s.tasks[a.task], s.next) && Attentive(s.tasks[a.task], s.entry);
        LocalAttentive(s.entry, s.record, s.tasks[a.task], a.choice, s.next);
      }
      var t := Publish(s, s.tasks[a.task]);
      assert NoLostWakeup(t.(record := record));
      MoveKeeps(t.(record := record), a.task, pc);
    }
  }

  /** Only the downloader finishes a piece, so while it has not, nobody has. */
  ghost predicate Unfinished(s: State) {
    forall i | 0 <= i < |s.tasks| ::
      s.tasks[i] in {Starting, Downloading, Committing, Failing, FailDelete} ==> !s.record.Finished?
  }

  lemma UnfinishedAfter(s: State, a: Action)
    requires Exclusive(s) && Unfinished(s)
    ensures Unfinished(Step(s, a))
  {
    if a.Go? && a.task < |s.tasks| {
      var t, i := Step(s, a), a.task;
      RemoveKeepsOwners(s);
      if s.tasks[i].Committing? {
        assert Owner(s.tasks[i]);
        assert forall j | 0 <= j < |s.tasks| && j != i :: !Owner(s.tasks[j]);
      }
    }
  }

  /** About to write the record on the strength of an earlier read. */
  predicate Armed(pc: Pc) {
    pc.PurgeDelete? || pc.FailDelete? || pc.Starting?
  }

  /** The task's step carries out the write it was armed for. */
  predicate Fires(s: State, a: Action) {
    a.Go? && a.task < |s.tasks| && Armed(s.tasks[a.task]) && !a.choice.Break?
  }

  /** In every state, a finished record is lost exactly by an explicit delete or such a write. */
  lemma LostExactly(s: State, a: Action)
    requires s.record.Finished?
    ensures !Step(s, a).record.Finished? <==> a.Delete? || Fires(s, a)
  {
  }
}
