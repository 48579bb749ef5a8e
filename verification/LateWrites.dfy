/** A write left running by a failed download lands on the retry's piece. */
module LateWrites {
  import opened Bytes
  import opened PieceFile
  import opened VectoredWrite
  import opened BackgroundWrite
  import opened PieceWriters
  import opened Wrappers

  /**
   The late write on the writers themselves: a download receives one wrong byte
   and fails, its retry reports success, and then the first download's write
   lands, unless the blocking thread had taken it before that download returned.
   */
  method LateWriteHappens() returns (retried: Response, early: bool, before: seq<byte>, after: seq<byte>)
    ensures retried.Written? && before == [1, 2]
    ensures !early ==> after == [9, 2]
  {
    hide Honoured, Wrote, Clean, LeftRunning, Splice;
    var failed, job := FailedDownload();
    early := job.done > 0;
    before, retried := Retry();
    var then' := failed.dev;
    var io := job.Join(failed);
    if !early {
      LateLog(job.from, then', failed.dev, job.done, job.status.Finished?);
    }
    after := Apply(before, failed.dev.log[|then'.log|..]);
  }

  /** The download whose input fails after one byte leaves the write of that byte running. */
  method FailedDownload() returns (disk: Disk, job: Job)
    ensures fresh(disk) && fresh(job) && fresh(job.staging)
    ensures job.from.script == [] && job.data == [9] && job.at == 0
    ensures job.Intact() && job.Consistent(disk.dev)
  {
    hide Wrote, Clean, Concat;
    disk := new Disk([]);
    var source := new Source([9], true);
    var pool := new BufferPool();
    var timer := new Timer(None);
    var r, detached := WriteRange(disk, 0, 2, 1, source, pool, timer);
    InputMustFail(disk.dev, r);
    job := detached;
    LeftByte(disk.dev, job);
  }

  /** With a kernel that never refuses and no timeout, only the input's failure is left. */
  lemma InputMustFail(e: Device, r: Response)
    requires Honoured(Device([], []), e, 0, 2, [9], r) && r != Rejected(Cancelled)
    requires r.Rejected? ==> !r.error.LengthMismatch?
    ensures r == Rejected(SourceFailed)
  {
    assert Consumed(Device([], []), e) == [];
  }

  lemma LeftByte(e: Device, job: Job)
    requires LeftRunning(e, job, Device([], []), 0, 2, [9])
    ensures job.from.script == [] && job.data == [9] && job.at == 0 && job.Intact() && job.Consistent(e)
  {
    EmptyConcat(job.staging.chunks);
    assert job.staging.chunks[0] != [];
    assert [9][0..1] == [9];
  }

  lemma LateLog(from: Device, then': Device, e: Device, done: nat, finished: bool)
    requires from.script == [] && done <= 1 && LogExtends(then', e)
    requires Wrote(from, then', 0, [9][..0]) && Wrote(from, e, 0, [9][..done])
    requires if finished then done == 1 else !Clean(Consumed(from, e))
    ensures Apply([1, 2], e.log[|then'.log|..]) == [9, 2]
  {
    assert Consumed(from, e) == [];
    assert [9][..1] == [9] && [9][..1][0..] == [9];
    WroteSince(from, then', e, 0, [9][..0], [9][..done]);
    ConsecutiveSplices([1, 2], e.log[|then'.log|..], 0);
  }

  /** The retry receives the right bytes. */
  method Retry() returns (file: seq<byte>, r: Response)
    ensures r.Written? && file == [1, 2]
  {
    hide Honoured, LeftRunning;
    var disk := new Disk([]);
    var source := new Source([1, 2], false);
    var pool := new BufferPool();
    var timer := new Timer(None);
    var detached;
    r, detached := WriteRange(disk, 0, 2, 1, source, pool, timer);
    RetrySucceeds(disk.dev, r);
    file := Apply([], disk.dev.log);
  }

  lemma RetrySucceeds(e: Device, r: Response)
    requires Honoured(Device([], []), e, 0, 2, [1, 2], r) && r != Rejected(Cancelled)
    ensures r.Written? && Apply([], e.log) == [1, 2]
  {
    assert Consumed(Device([], []), e) == [];
    assert [1, 2][..2] == [1, 2];
    WroteSplices(Device([], []), e, 0, [1, 2], []);
    assert e.log[0..] == e.log;
  }
}
