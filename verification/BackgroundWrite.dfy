/**
 The positional write a piece writer leaves running on the blocking thread pool
 while it receives the next bytes.
 */
module BackgroundWrite {
  import opened Bytes
  import opened PieceFile
  import opened VectoredWrite

  /** A staging buffer (one chunk) or a staged batch of chunks, recycled between writes. */
  class Staging {
    var chunks: seq<seq<byte>>

    constructor ()
      ensures chunks == []
    {
      chunks := [];
    }
  }

  predicate NoEmptyChunk(chunks: seq<seq<byte>>) {
    forall i | 0 <= i < |chunks| :: chunks[i] != []
  }

  datatype Status = Running | Finished | Broken(error: IoError)

  /**
   One spawned write. It owns its staging until it is joined and reads it call
   by call, so a staging changed under it would change what reaches the file.
   */
  class Job {
    const staging: Staging
    const at: nat
    ghost const data: seq<byte>
    ghost const from: Device
    var done: nat
    var status: Status

    constructor (staging: Staging, at: nat, ghost from: Device)
      requires staging.chunks != [] && NoEmptyChunk(staging.chunks)
      requires at + |Concat(staging.chunks)| <= U64_MAX
      ensures this.staging == staging && this.at == at && this.from == from
      ensures data == Concat(staging.chunks) && done == 0 && status == Running
    {
      this.staging, this.at, this.from := staging, at, from;
      data := Concat(staging.chunks);
      done, status := 0, Running;
    }

    /** The staging still holds the bytes handed over. */
    ghost predicate Intact()
      reads staging
    {
      && staging.chunks != [] && NoEmptyChunk(staging.chunks)
      && Concat(staging.chunks) == data
      && at + |data| <= U64_MAX
    }

    /** Since the spawn the file took exactly the first `done` bytes of the job. */
    ghost predicate Consistent(dev: Device)
      reads this
    {
      && done <= |data|
      && Wrote(from, dev, at, data[..done])
      && match status
         case Running => Clean(Consumed(from, dev))
         case Finished => done == |data| && Clean(Consumed(from, dev))
         case Broken(_) => !Clean(Consumed(from, dev))
    }

    /** One `pwritev` of the running write. */
    method Step(disk: Disk)
      requires Intact() && Consistent(disk.dev) && status.Running?
      modifies this, disk
      ensures Consistent(disk.dev) && LogExtends(old(disk.dev), disk.dev)
    {
      hide Wrote, Positional, Concat, Advance, Clean;
      var rest := Advance(staging.chunks, done);
      RestOfJob(staging.chunks, done);
      if rest == [] {
        status := Finished;
        return;
      }
      CallExtends(from, disk.dev, at, staging.chunks, done);
      var answer := disk.Pwritev(Submitted(rest), at + done);
      match answer {
        case Interrupt =>
        case Fault =>
          status := Broken(KernelFault);
        case Accept(n) =>
          if n == 0 {
            status := Broken(WriteZero);
          } else {
            done := done + n;
          }
      }
    }

    /** Whatever the blocking thread does between two actions of the receiving task. */
    method Background(disk: Disk)
      requires Intact() && Consistent(disk.dev)
      modifies this, disk
      ensures Consistent(disk.dev) && LogExtends(old(disk.dev), disk.dev)
    {
      hide Wrote, Clean;
      var calls: nat := *;
      while calls > 0 && status.Running?
        invariant Intact() && Consistent(disk.dev) && LogExtends(old(disk.dev), disk.dev)
        decreases calls
      {
        Step(disk);
        calls := calls - 1;
      }
    }

    /** Waits for the write and takes its result. */
    method Join(disk: Disk) returns (r: IoResult)
      requires Intact() && Consistent(disk.dev)
      modifies this, disk
      ensures Consistent(disk.dev) && !status.Running? && LogExtends(old(disk.dev), disk.dev)
      ensures r == if status.Finished? then Done else Failed(status.error)
    {
      hide Wrote, Concat, Advance, Clean, Drive;
      match status {
        case Finished => return Done;
        case Broken(error) => return Failed(error);
        case Running =>
          var before := disk.dev;
          var rest := Advance(staging.chunks, done);
          RestOfJob(staging.chunks, done);
          DriveExtends(from, before, at, staging.chunks, done);
          r := WriteAllCursor(disk, rest, at + done);
          done := done + Progress(before, disk.dev);
          status := if r.Done? then Finished else Broken(r.error);
      }
    }
  }

  /** The part of a job that is left: empty exactly when every byte is written. */
  lemma RestOfJob(chunks: seq<seq<byte>>, done: nat)
    requires done <= |Concat(chunks)|
    ensures Concat(Advance(chunks, done)) == Concat(chunks)[done..]
    ensures Advance(chunks, done) == [] <==> done == |Concat(chunks)|
    ensures !Stuck(Advance(chunks, done))
  {
    NeverStuckAgain(chunks, done);
    var rest := Advance(chunks, done);
    if rest != [] {
      EmptyConcat(rest);
    }
  }

  /** One more call keeps the file at a prefix of the job, and faults are recorded. */
  lemma CallExtends(from: Device, dev: Device, at: nat, chunks: seq<seq<byte>>, done: nat)
    requires done < |Concat(chunks)|
    requires Wrote(from, dev, at, Concat(chunks)[..done]) && Clean(Consumed(from, dev))
    ensures var (e, answer) := Positional(dev, Concat(Submitted(Advance(chunks, done))), at + done);
            var n := if answer.Accept? then answer.n else 0;
            && done + n <= |Concat(chunks)|
            && Wrote(from, e, at, Concat(chunks)[..done + n])
            && |e.script| <= |from.script|
            && (Clean(Consumed(from, e)) <==> answer.Interrupt? || n != 0)
  {
    hide Wrote, Concat, Advance;
    var data, rest := Concat(chunks), Advance(chunks, done);
    RestOfJob(chunks, done);
    var (e, answer) := Positional(dev, Concat(Submitted(rest)), at + done);
    CallWrites(dev, rest, at + done);
    EmptyConcat(Submitted(rest));
    var n: nat := if answer.Accept? then answer.n else 0;
    assert Concat(rest)[..0] == [];
    WroteThen(from, dev, e, at, data[..done], Concat(rest)[..n]);
    TakeTwice(data, done, n);
    WroteLength(from, dev, at, data[..done]);
    WroteLength(from, e, at, data[..done + n]);
    CleanAppend(Consumed(from, dev), Consumed(dev, e));
  }

  /** Running the rest of a job to its end. */
  lemma DriveExtends(from: Device, dev: Device, at: nat, chunks: seq<seq<byte>>, done: nat)
    requires done <= |Concat(chunks)| && at + |Concat(chunks)| <= U64_MAX
    requires Wrote(from, dev, at, Concat(chunks)[..done]) && Clean(Consumed(from, dev))
    ensures var (e, r) := Drive(dev, Advance(chunks, done), at + done);
            && LogExtends(dev, e)
            && var n := Progress(dev, e);
            && done + n <= |Concat(chunks)|
            && Wrote(from, e, at, Concat(chunks)[..done + n])
            && |e.script| <= |from.script|
            && (r.Done? <==> Clean(Consumed(from, e)))
            && (r.Done? ==> done + n == |Concat(chunks)|)
  {
    hide Wrote, Concat, Advance, Drive;
    var data, rest := Concat(chunks), Advance(chunks, done);
    RestOfJob(chunks, done);
    DriveWritesPrefix(dev, rest, at + done);
    var (e, r) := Drive(dev, rest, at + done);
    var n := Progress(dev, e);
    WroteThen(from, dev, e, at, data[..done], Concat(rest)[..n]);
    TakeTwice(data, done, n);
    WroteLength(from, e, at, data[..done + n]);
    CleanAppend(Consumed(from, dev), Consumed(dev, e));
  }
}
