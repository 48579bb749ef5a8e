/**
 Task metadata and upload accounting: ordinary tasks count uploads in memory
 and merge the counts when a task is read, cache tasks count them in the store.
 */
module Uploads {
  import opened Wrappers

  const I64_MIN: int := -0x8000_0000_0000_0000
  const I64_MAX: int := 0x7FFF_FFFF_FFFF_FFFF

  datatype Task = Task(id: string, pieceLength: Option<nat>, contentLength: Option<nat>,
                       uploading: int, uploaded: nat, updatedAt: nat, createdAt: nat,
                       prefetchedAt: Option<nat>, failedAt: Option<nat>, finishedAt: Option<nat>)

  datatype Stats = Stats(uploading: int, uploaded: nat)

  function NewTask(id: string, now: nat): Task {
    Task(id, None, None, 0, 0, now, now, None, None, None)
  }

  /** What a run of metadata calls did that matters for the counts of a task. */
  datatype Event = Began(id: string) | Ended(id: string) | Aborted(id: string) | Recorded(id: string) | Removed(id: string)

  function Delta(e: Event): int {
    match e
    case Began(_) => 1
    case Ended(_) => -1
    case Aborted(_) => -1
    case _ => 0
  }

  predicate Exists(h: seq<Event>, id: string) {
    h != [] &&
    (if h[|h| - 1] == Recorded(id) then true
     else if h[|h| - 1] == Removed(id) then false
     else Exists(h[..|h| - 1], id))
  }

  /** started - finished - failed uploads of the task since it was last deleted. */
  function Uploading(h: seq<Event>, id: string): int {
    if h == [] then 0
    else
      var e, before := h[|h| - 1], h[..|h| - 1];
      if e.id != id then Uploading(before, id)
      else if e.Removed? then 0
      else Uploading(before, id) + Delta(e)
  }

  /** finished uploads of the task since it was last deleted. */
  function Uploaded(h: seq<Event>, id: string): nat {
    if h == [] then 0
    else
      var e, before := h[|h| - 1], h[..|h| - 1];
      if e.id != id then Uploaded(before, id)
      else if e.Removed? then 0
      else Uploaded(before, id) + (if e.Ended? then 1 else 0)
  }

  lemma {:induction false} UploadingBound(h: seq<Event>, id: string)
    ensures -|h| <= Uploading(h, id) <= |h| && Uploaded(h, id) <= |h|
  {
    if h != [] {
      UploadingBound(h[..|h| - 1], id);
    }
  }

  /** The counts after one more event. */
  lemma Snoc(h: seq<Event>, e: Event, id: string)
    ensures Uploading(h + [e], id) == if e.id != id then Uploading(h, id) else if e.Removed? then 0 else Uploading(h, id) + Delta(e)
    ensures Uploaded(h + [e], id) == if e.id != id then Uploaded(h, id) else if e.Removed? then 0 else Uploaded(h, id) + (if e.Ended? then 1 else 0)
    ensures Exists(h + [e], id) == if e == Recorded(id) then true else if e == Removed(id) then false else Exists(h, id)
  {
    assert (h + [e])[..|h|] == h;
  }

  function SaturatingDecrement(n: int): int {
    if n <= I64_MIN then I64_MIN else n - 1
  }

  class Metadata {
    var tasks: map<string, Task>
    var uploadStats: map<string, Stats>
    ghost var history: seq<Event>

    /**
     The accounting law: a stored task never carries counts, and the in-memory
     counts are those of the calls since the task was last deleted.
     */
    ghost predicate Valid()
      reads this
    {
      && (forall id :: id in tasks <==> Exists(history, id))
      && (forall id | id in tasks :: tasks[id].id == id && tasks[id].uploading == 0 && tasks[id].uploaded == 0)
      && (forall id :: Counts(uploadStats, id) == Stats(Uploading(history, id), Uploaded(history, id)))
    }

    constructor ()
      ensures Valid() && tasks == map[] && uploadStats == map[] && history == []
    {
      tasks, uploadStats, history := map[], map[], [];
    }

    /** Puts a task record, as every lifecycle call does. */
    method Put(id: string, task: Task)
      requires Valid() && task.id == id && task.uploading == 0 && task.uploaded == 0
      modifies this
      ensures Valid() && history == old(history) + [Recorded(id)]
      ensures tasks == old(tasks)[id := task] && uploadStats == old(uploadStats)
    {
      forall other {
        Snoc(history, Recorded(id), other);
      }
      tasks := tasks[id := task];
      history := history + [Recorded(id)];
    }

    method PrepareDownloadTask(id: string, now: nat) returns (task: Task, reused: bool)
      requires Valid()
      modifies this
      ensures Valid() && uploadStats == old(uploadStats)
      ensures reused <==> id in old(tasks) && Reusable(old(tasks)[id])
      ensures task == if id !in old(tasks) then NewTask(id, now)
                      else if reused then old(tasks)[id]
                      else old(tasks)[id].(updatedAt := now, failedAt := None)
      ensures tasks == if reused then old(tasks) else old(tasks)[id := task]
      ensures id in old(tasks) ==> tasks[id] == After(old(tasks)[id], Prepare, now)
      ensures history == if reused then old(history) else old(history) + [Recorded(id)]
    {
      if id in tasks {
        task := tasks[id];
        if task.contentLength.Some? && task.pieceLength.Some? && task.failedAt.None? {
          return task, true;
        }
        task := task.(updatedAt := now, failedAt := None);
      } else {
        task := NewTask(id, now);
      }
      Put(id, task);
      reused := false;
    }

    method DownloadTaskStarted(id: string, pieceLength: nat, contentLength: nat, now: nat) returns (task: Task)
      requires Valid()
      modifies this
      ensures Valid() && uploadStats == old(uploadStats)
      ensures var base := if id in old(tasks) then old(tasks)[id].(updatedAt := now, failedAt := None) else NewTask(id, now);
              task == base.(contentLength := Some(contentLength), pieceLength := Some(pieceLength))
      ensures tasks == old(tasks)[id := task] && history == old(history) + [Recorded(id)]
      ensures id in old(tasks) ==> task == After(old(tasks)[id], Start(pieceLength, contentLength), now)
    {
      task := if id in tasks then tasks[id].(updatedAt := now, failedAt := None) else NewTask(id, now);
      task := task.(contentLength := Some(contentLength), pieceLength := Some(pieceLength));
      Put(id, task);
    }

    /** The calls that need an existing task: finished, failed, prefetch started, prefetch failed. */
    method Update(id: string, change: Change, now: nat) returns (task: Option<Task>)
      requires Valid()
      modifies this
      ensures Valid() && uploadStats == old(uploadStats)
      ensures task.Some? <==> id in old(tasks) && (change.PrefetchStarted? ==> old(tasks)[id].prefetchedAt.None?)
      ensures task.Some? ==> task.value == Changed(old(tasks)[id], change, now)
      ensures tasks == if task.Some? then old(tasks)[id := task.value] else old(tasks)
      ensures id in old(tasks) ==> tasks[id] == After(old(tasks)[id], Apply(change), now)
      ensures history == if task.Some? then old(history) + [Recorded(id)] else old(history)
    {
      if id !in tasks {
        return None;
      }
      var t := tasks[id];
      match change {
        case DownloadFinished => t := t.(updatedAt := now, failedAt := None, finishedAt := Some(now));
        case DownloadFailed => t := t.(updatedAt := now, failedAt := Some(now));
        case PrefetchStarted =>
          if t.prefetchedAt.Some? {
            return None;
          }
          t := t.(updatedAt := now, prefetchedAt := Some(now), failedAt := None);
        case PrefetchFailed => t := t.(updatedAt := now, prefetchedAt := None, failedAt := Some(now));
      }
      Put(id, t);
      task := Some(t);
    }

    /** Counts one upload event in memory, whether or not the task is stored. */
    method Upload(e: Event)
      requires Valid() && (e.Began? || e.Ended? || e.Aborted?)
      requires |history| < I64_MAX
      modifies this
      ensures Valid() && history == old(history) + [e] && tasks == old(tasks)
    {
      forall other {
        Snoc(history, e, other);
      }
      UploadingBound(history, e.id);
      var stats := Counts(uploadStats, e.id);
      match e {
        case Began(_) => stats := stats.(uploading := stats.uploading + 1);
        case Ended(_) => stats := Stats(SaturatingDecrement(stats.uploading), stats.uploaded + 1);
        case Aborted(_) => stats := stats.(uploading := SaturatingDecrement(stats.uploading));
      }
      uploadStats := uploadStats[e.id := stats];
      history := history + [e];
    }

    /** The merged view; reading changes nothing. */
    method GetTask(id: string) returns (task: Option<Task>)
      requires Valid()
      ensures task.Some? <==> Exists(history, id)
      ensures task.Some? ==>
                id in tasks
                && task.value == tasks[id].(uploading := Uploading(history, id), uploaded := Uploaded(history, id))
    {
      if id !in tasks {
        return None;
      }
      var t := tasks[id];
      assert Counts(uploadStats, id) == Stats(Uploading(history, id), Uploaded(history, id));
      if t.id in uploadStats {
        var stats := uploadStats[t.id];
        t := t.(uploading := stats.uploading, uploaded := t.uploaded + stats.uploaded);
      }
      return Some(t);
    }

    method DeleteTask(id: string)
      requires Valid()
      modifies this
      ensures Valid() && history == old(history) + [Removed(id)]
      ensures tasks == old(tasks) - {id} && uploadStats == old(uploadStats) - {id}
    {
      forall other {
        Snoc(history, Removed(id), other);
      }
      uploadStats := uploadStats - {id};
      tasks := tasks - {id};
      history := history + [Removed(id)];
    }
  }

  function Counts(stats: map<string, Stats>, id: string): Stats {
    if id in stats then stats[id] else Stats(0, 0)
  }

  predicate Reusable(t: Task) {
    t.contentLength.Some? && t.pieceLength.Some? && t.failedAt.None?
  }

  datatype Change = DownloadFinished | DownloadFailed | PrefetchStarted | PrefetchFailed

  function Changed(t: Task, change: Change, now: nat): Task {
    match change
    case DownloadFinished => t.(updatedAt := now, failedAt := None, finishedAt := Some(now))
    case DownloadFailed => t.(updatedAt := now, failedAt := Some(now))
    case PrefetchStarted => t.(updatedAt := now, prefetchedAt := Some(now), failedAt := None)
    case PrefetchFailed => t.(updatedAt := now, prefetchedAt := None, failedAt := Some(now))
  }

  // ---- cache tasks: counts kept in the store ------------------------------------

  predicate IsUpload(e: Event) {
    e.Began? || e.Ended? || e.Aborted?
  }

  /** The counts of the events that came while the task was stored, or (`stored` false) while it was not. */
  function CountsWhile(h: seq<Event>, id: string, stored: bool): Stats {
    if h == [] then Stats(0, 0)
    else
      var e, before := h[|h| - 1], h[..|h| - 1];
      var c := CountsWhile(before, id, stored);
      if e.id != id then c
      else if e.Removed? then Stats(0, 0)
      else if Exists(before, id) != stored then c
      else Stats(c.uploading + Delta(e), c.uploaded + (if e.Ended? then 1 else 0))
  }

  lemma SnocWhile(h: seq<Event>, e: Event, id: string, stored: bool)
    ensures Exists(h + [e], id) == if e == Recorded(id) then true else if e == Removed(id) then false else Exists(h, id)
    ensures var c := CountsWhile(h, id, stored);
            CountsWhile(h + [e], id, stored)
            == if e.id != id then c
               else if e.Removed? then Stats(0, 0)
               else if Exists(h, id) != stored then c
               else Stats(c.uploading + Delta(e), c.uploaded + (if e.Ended? then 1 else 0))
  {
    assert (h + [e])[..|h|] == h;
  }

  /** Neither count exceeds the number of calls, so 64 bits are left only after 2^63 of them. */
  lemma {:induction false} CountsBound(h: seq<Event>, id: string, stored: bool)
    ensures var c := CountsWhile(h, id, stored);
            -|h| <= c.uploading <= |h| && c.uploaded <= |h|
  {
    hide Exists;
    if h != [] {
      CountsBound(h[..|h| - 1], id, stored);
    }
  }

  /** A task that is not stored has no stored counts. */
  lemma {:induction false} NothingStored(h: seq<Event>, id: string)
    requires !Exists(h, id)
    ensures CountsWhile(h, id, true) == Stats(0, 0)
  {
    if h != [] {
      var e, before := h[|h| - 1], h[..|h| - 1];
      if e != Removed(id) {
        NothingStored(before, id);
      }
    }
  }

  /** Cache tasks: an upload of an unknown task is an error and leaves no trace. */
  class CacheMetadata {
    var tasks: map<string, Task>
    ghost var history: seq<Event>

    ghost predicate Valid()
      reads this
    {
      && (forall id :: id in tasks <==> Exists(history, id))
      && (forall id | id in tasks ::
            Stats(tasks[id].uploading, tasks[id].uploaded) == CountsWhile(history, id, true))
    }

    constructor ()
      ensures Valid() && tasks == map[] && history == []
    {
      tasks, history := map[], [];
    }

    method DownloadCacheTaskStarted(id: string, pieceLength: nat, contentLength: nat, now: nat) returns (task: Task)
      requires Valid()
      modifies this
      ensures Valid() && history == old(history) + [Recorded(id)]
      ensures var base := if id in old(tasks) then old(tasks)[id].(updatedAt := now, failedAt := None) else NewTask(id, now);
              task == base.(contentLength := Some(contentLength), pieceLength := Some(pieceLength))
      ensures tasks == old(tasks)[id := task]
    {
      task := if id in tasks then tasks[id].(updatedAt := now, failedAt := None) else NewTask(id, now);
      task := task.(contentLength := Some(contentLength), pieceLength := Some(pieceLength));
      if id !in tasks {
        NothingStored(history, id);
      }
      forall other {
        SnocWhile(history, Recorded(id), other, true);
      }
      tasks := tasks[id := task];
      history := history + [Recorded(id)];
    }

    /** Counts one upload event in the stored record, within 64 bits for the first 2^63 events; None is TaskNotFound. */
    method UploadCacheTask(e: Event, now: nat) returns (task: Option<Task>)
      requires Valid() && IsUpload(e)
      modifies this
      ensures task.Some? && |history| <= I64_MAX ==>
                I64_MIN <= task.value.uploading <= I64_MAX && task.value.uploaded <= I64_MAX
      ensures Valid() && history == old(history) + [e]
      ensures task.Some? <==> e.id in old(tasks)
      ensures tasks == if task.Some? then old(tasks)[e.id := task.value] else old(tasks)
      ensures task.Some? ==>
                task.value == old(tasks)[e.id].(
                                uploading := CountsWhile(history, e.id, true).uploading,
                                uploaded := CountsWhile(history, e.id, true).uploaded,
                                updatedAt := now)
    {
      forall other {
        SnocWhile(history, e, other, true);
      }
      history := history + [e];
      CountsBound(history, e.id, true);
      if e.id !in tasks {
        return None;
      }
      var t := tasks[e.id].(updatedAt := now);
      match e {
        case Began(_) => t := t.(uploading := t.uploading + 1);
        case Ended(_) => t := t.(uploading := t.uploading - 1, uploaded := t.uploaded + 1);
        case Aborted(_) => t := t.(uploading := t.uploading - 1);
      }
      tasks := tasks[e.id := t];
      return Some(t);
    }

    method DeleteCacheTask(id: string)
      requires Valid()
      modifies this
      ensures Valid() && history == old(history) + [Removed(id)] && tasks == old(tasks) - {id}
    {
      forall other {
        SnocWhile(history, Removed(id), other, true);
      }
      tasks := tasks - {id};
      history := history + [Removed(id)];
    }
  }

  /** The in-memory counts are the stored counts plus those of the uploads that came before the record. */
  lemma {:induction false} SchemesDifferByEarlyUploads(h: seq<Event>, id: string)
    ensures Uploading(h, id) == CountsWhile(h, id, true).uploading + CountsWhile(h, id, false).uploading
    ensures Uploaded(h, id) == CountsWhile(h, id, true).uploaded + CountsWhile(h, id, false).uploaded
  {
    if h != [] {
      SchemesDifferByEarlyUploads(h[..|h| - 1], id);
    }
  }

  /** So the two schemes show the same counts exactly when the early uploads cancel out. */
  lemma SchemesAgreeExactly(h: seq<Event>, id: string)
    ensures Stats(Uploading(h, id), Uploaded(h, id)) == CountsWhile(h, id, true)
            <==> CountsWhile(h, id, false) == Stats(0, 0)
  {
    SchemesDifferByEarlyUploads(h, id);
  }

  /** Since the last delete, uploads of the task came only while it was stored. */
  predicate Ordered(h: seq<Event>, id: string) {
    h == [] || h[|h| - 1] == Removed(id) ||
    ((h[|h| - 1].id == id && IsUpload(h[|h| - 1]) ==> Exists(h[..|h| - 1], id)) && Ordered(h[..|h| - 1], id))
  }

  lemma {:induction false} OrderedSchemesAgree(h: seq<Event>, id: string)
    requires Ordered(h, id)
    ensures Stats(Uploading(h, id), Uploaded(h, id)) == CountsWhile(h, id, true)
  {
    if h != [] && h[|h| - 1] != Removed(id) {
      OrderedSchemesAgree(h[..|h| - 1], id);
    }
  }

  /** An upload counted before the task was recorded shows in the merged view and not in the stored one. */
  lemma EarlyUploadShows(id: string)
    ensures var h := [Began(id), Recorded(id)];
            Stats(Uploading(h, id), Uploaded(h, id)) == Stats(1, 0) && CountsWhile(h, id, true) == Stats(0, 0)
  {
    var none: seq<Event> := [];
    Snoc(none, Began(id), id);
    Snoc([Began(id)], Recorded(id), id);
    SnocWhile(none, Began(id), id, true);
    SnocWhile([Began(id)], Recorded(id), id, true);
    assert none + [Began(id)] == [Began(id)] && [Began(id)] + [Recorded(id)] == [Began(id), Recorded(id)];
  }

  // ---- what the counts count -------------------------------------------------------

  /** The task was last deleted just before event `k`, or never if `k` is 0. */
  predicate SinceDelete(h: seq<Event>, id: string, k: nat) {
    k <= |h| && (k == 0 || h[k - 1] == Removed(id)) && Removed(id) !in h[k..]
  }

  lemma SinceShorter(h: seq<Event>, id: string, k: nat)
    requires SinceDelete(h, id, k) && k < |h|
    ensures h[|h| - 1] != Removed(id) && SinceDelete(h[..|h| - 1], id, k)
    ensures h[k..] == h[..|h| - 1][k..] + [h[|h| - 1]]
  {
    assert h[k..][|h| - 1 - k] == h[|h| - 1];
    assert forall e | e in h[..|h| - 1][k..] :: e in h[k..];
  }

  /** A task is stored exactly if it was recorded and not deleted since. */
  lemma {:induction false} ExistsMeans(h: seq<Event>, id: string, k: nat)
    requires SinceDelete(h, id, k)
    ensures Exists(h, id) <==> Recorded(id) in h[k..]
  {
    if k < |h| {
      SinceShorter(h, id, k);
      ExistsMeans(h[..|h| - 1], id, k);
    } else if k > 0 {
      assert h[|h| - 1] == Removed(id);
    }
  }

  /** The merged view: uploads started less those finished and failed, and those finished, since the last delete. */
  lemma {:induction false} CountsMean(h: seq<Event>, id: string, k: nat)
    requires SinceDelete(h, id, k)
    ensures var t := multiset(h[k..]);
            && Uploading(h, id) == t[Began(id)] as int - t[Ended(id)] as int - t[Aborted(id)] as int
            && Uploaded(h, id) == t[Ended(id)]
  {
    if k < |h| {
      SinceShorter(h, id, k);
      CountsMean(h[..|h| - 1], id, k);
    } else if k > 0 {
      assert h[|h| - 1] == Removed(id) && h[k..] == [];
    } else {
      assert h[k..] == [];
    }
  }

  /** The events since `k` that came while the task was stored, or (`stored` false) while it was not. */
  function While(h: seq<Event>, id: string, stored: bool, k: nat): seq<Event>
    requires k <= |h|
  {
    if k == |h| then []
    else
      var before := h[..|h| - 1];
      While(before, id, stored, k) + (if Exists(before, id) == stored then [h[|h| - 1]] else [])
  }

  /** The places since `k` where `e` happened while the task was (not) stored. */
  function Places(h: seq<Event>, id: string, stored: bool, k: nat, e: Event): set<nat>
    requires k <= |h|
  {
    set j: nat | k <= j < |h| && h[j] == e && Exists(h[..j], id) == stored
  }

  lemma PlacesNext(h: seq<Event>, id: string, stored: bool, k: nat, e: Event)
    requires k < |h|
    ensures var last := |h| - 1;
            Places(h, id, stored, k, e)
            == Places(h[..last], id, stored, k, e) + (if h[last] == e && Exists(h[..last], id) == stored then {last} else {})
  {
    hide Exists;
    var before, last := h[..|h| - 1], |h| - 1;
    forall j: nat | k <= j < last ensures before[..j] == h[..j] {
    }
  }

  /** So an event is among them once for each of its places. */
  lemma {:induction false} WhileMeans(h: seq<Event>, id: string, stored: bool, k: nat, e: Event)
    requires k <= |h|
    ensures multiset(While(h, id, stored, k))[e] == |Places(h, id, stored, k, e)|
  {
    hide Exists, Places;
    if k == |h| {
      NoPlaces(h, id, stored, e);
    } else {
      WhileMeans(h[..|h| - 1], id, stored, k, e);
      PlacesNext(h, id, stored, k, e);
      PlacesBound(h[..|h| - 1], id, stored, k, e);
    }
  }

  lemma NoPlaces(h: seq<Event>, id: string, stored: bool, e: Event)
    ensures Places(h, id, stored, |h|, e) == {}
  {
  }

  lemma PlacesBound(h: seq<Event>, id: string, stored: bool, k: nat, e: Event)
    requires k <= |h|
    ensures |h| !in Places(h, id, stored, k, e)
  {
  }

  lemma WhileNext(h: seq<Event>, id: string, stored: bool, k: nat)
    requires k < |h|
    ensures var before := h[..|h| - 1];
            var t := While(before, id, stored, k);
            While(h, id, stored, k) == if Exists(before, id) == stored then t + [h[|h| - 1]] else t
  {
    hide Exists;
    var t := While(h[..|h| - 1], id, stored, k);
    assert t + [] == t;
  }

  lemma OneMore(t: seq<Event>, e: Event, x: Event)
    ensures multiset(t + [e])[x] == multiset(t)[x] + (if e == x then 1 else 0)
  {
  }

  /** The stored counts: the same of the events that came while the task was stored. */
  lemma {:induction false} CountsWhileMean(h: seq<Event>, id: string, stored: bool, k: nat)
    requires SinceDelete(h, id, k)
    ensures var t := multiset(While(h, id, stored, k));
            && CountsWhile(h, id, stored).uploading == t[Began(id)] as int - t[Ended(id)] as int - t[Aborted(id)] as int
            && CountsWhile(h, id, stored).uploaded == t[Ended(id)]
  {
    hide Exists;
    if k < |h| {
      SinceShorter(h, id, k);
      var before, e := h[..|h| - 1], h[|h| - 1];
      var t := While(before, id, stored, k);
      CountsWhileMean(before, id, stored, k);
      OneMore(t, e, Began(id));
      OneMore(t, e, Ended(id));
      OneMore(t, e, Aborted(id));
      hide While;
      assert While(h, id, stored, k) == if Exists(before, id) == stored then t + [e] else t by {
        WhileNext(h, id, stored, k);
      }
    } else if k > 0 {
      assert h[|h| - 1] == Removed(id);
    }
  }

  // ---- when a task is reused -------------------------------------------------------

  /** A lifecycle call on an existing task. */
  datatype Call = Prepare | Start(pieceLength: nat, contentLength: nat) | Apply(change: Change)

  /** The stored task after the call; a prefetch of a prefetched task is refused and changes nothing. */
  function After(t: Task, call: Call, now: nat): Task {
    match call
    case Prepare => if Reusable(t) then t else t.(updatedAt := now, failedAt := None)
    case Start(pieceLength, contentLength) =>
      t.(updatedAt := now, failedAt := None, contentLength := Some(contentLength), pieceLength := Some(pieceLength))
    case Apply(change) => if change.PrefetchStarted? && t.prefetchedAt.Some? then t else Changed(t, change, now)
  }

  function Life(t: Task, calls: seq<Call>, now: nat): Task {
    if calls == [] then t else After(Life(t, calls[..|calls| - 1], now), calls[|calls| - 1], now)
  }

  predicate Fails(call: Call) {
    call.Apply? && (call.change.DownloadFailed? || call.change.PrefetchFailed?)
  }

  /** The call was refused: the task is being prefetched already. */
  predicate Refused(t: Task, call: Call) {
    call.Apply? && call.change.PrefetchStarted? && t.prefetchedAt.Some?
  }

  /** The last call that was not refused is a failure. */
  predicate LastFailed(t: Task, calls: seq<Call>, now: nat) {
    calls != [] &&
    var before, call := calls[..|calls| - 1], calls[|calls| - 1];
    if Refused(Life(t, before, now), call) then LastFailed(t, before, now) else Fails(call)
  }

  /**
   A new task is reused exactly if some call has given it its lengths and the
   last call that took effect is not a failure.
   */
  lemma {:induction false} ReusedExactly(id: string, created: nat, calls: seq<Call>, now: nat)
    ensures Reusable(Life(NewTask(id, created), calls, now))
            <==> (exists i | 0 <= i < |calls| :: calls[i].Start?) && !LastFailed(NewTask(id, created), calls, now)
    ensures var t := Life(NewTask(id, created), calls, now);
            && (t.failedAt.Some? <==> LastFailed(NewTask(id, created), calls, now))
            && (t.contentLength.Some? <==> t.pieceLength.Some?)
            && (t.contentLength.Some? <==> exists i | 0 <= i < |calls| :: calls[i].Start?)
  {
    if calls != [] {
      var before, call := calls[..|calls| - 1], calls[|calls| - 1];
      ReusedExactly(id, created, before, now);
      StartedBefore(calls);
    }
  }

  lemma StartedBefore(calls: seq<Call>)
    requires calls != []
    ensures var before := calls[..|calls| - 1];
            (exists i | 0 <= i < |calls| :: calls[i].Start?)
            <==> calls[|calls| - 1].Start? || exists i | 0 <= i < |before| :: before[i].Start?
  {
    var before := calls[..|calls| - 1];
    assert forall i | 0 <= i < |before| :: before[i] == calls[i];
  }

  /** A failed task is prepared anew once; the next preparation reuses it although nothing was downloaded since. */
  lemma SecondPrepareReuses(id: string, created: nat, now: nat)
    ensures var t := Life(NewTask(id, created), [Start(1, 1), Apply(DownloadFailed)], now);
            !Reusable(t) && Reusable(After(t, Prepare, now))
  {
    var calls := [Start(1, 1), Apply(DownloadFailed)];
    assert calls[..1] == [Start(1, 1)] && [Start(1, 1)][..0] == [];
    assert Life(NewTask(id, created), [], now) == NewTask(id, created);
    assert Life(NewTask(id, created), [Start(1, 1)], now) == After(NewTask(id, created), Start(1, 1), now);
  }
}
