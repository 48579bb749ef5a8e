/**
 The task file under many descriptors. Each descriptor keeps its own log; the
 kernel applies the accepted writes of all of them to one file, in the order it
 takes them.
 */
module SharedFile {
  import opened Bytes
  import opened PieceFile

  /** The file and, for each descriptor, the writes of its log still to come. */
  datatype System = System(file: seq<byte>, left: seq<seq<Pwrite>>)

  /** The kernel takes the next write of log `i`, if there is one. */
  function Step(s: System, i: nat): (r: System)
    ensures |r.left| == |s.left|
  {
    if i < |s.left| && s.left[i] != [] then
      System(Splice(s.file, s.left[i][0].offset, s.left[i][0].data), s.left[i := s.left[i][1..]])
    else s
  }

  function Run(s: System, schedule: seq<nat>): (r: System)
    ensures |r.left| == |s.left|
    decreases |schedule|
  {
    if schedule == [] then s else Run(Step(s, schedule[0]), schedule[1..])
  }

  lemma {:induction false} RunAppend(s: System, a: seq<nat>, b: seq<nat>)
    ensures Run(s, a + b) == Run(Run(s, a), b)
    decreases |a|
  {
    if a == [] {
      assert a + b == b;
    } else {
      assert (a + b)[1..] == a[1..] + b;
      RunAppend(Step(s, a[0]), a[1..], b);
    }
  }

  // ---- what the kernel sees ------------------------------------------------------

  /** A positional write through one of the descriptors, whoever issues it. */
  datatype Syscall = Syscall(descriptor: nat, data: seq<byte>, at: nat)

  datatype Kernel = Kernel(file: seq<byte>, devices: seq<Device>)

  /** The descriptor answers from its own script alone; the file takes what was accepted. */
  function Serve(k: Kernel, c: Syscall): (r: Kernel)
    ensures |r.devices| == |k.devices|
  {
    if c.descriptor >= |k.devices| then k
    else
      var (e, answer) := Positional(k.devices[c.descriptor], c.data, c.at);
      Kernel(if answer.Accept? then Splice(k.file, c.at, c.data[..answer.n]) else k.file,
             k.devices[c.descriptor := e])
  }

  function ServeAll(k: Kernel, calls: seq<Syscall>): (r: Kernel)
    ensures |r.devices| == |k.devices|
    decreases |calls|
  {
    if calls == [] then k else ServeAll(Serve(k, calls[0]), calls[1..])
  }

  /** Each descriptor's log will have grown to the one of `final`. */
  ghost predicate Reaches(k: Kernel, final: seq<Device>) {
    |k.devices| == |final| && forall i | 0 <= i < |final| :: LogExtends(k.devices[i], final[i])
  }

  /** The kernel's state as a system whose logs end at those of `final`. */
  ghost function View(k: Kernel, final: seq<Device>): (s: System)
    requires Reaches(k, final)
    ensures |s.left| == |final|
  {
    System(k.file, seq(|final|, i requires 0 <= i < |final| => final[i].log[|k.devices[i].log|..]))
  }

  lemma ReachesBefore(k: Kernel, c: Syscall, final: seq<Device>)
    requires Reaches(Serve(k, c), final)
    ensures Reaches(k, final)
  {
    hide Positional;
    forall i | 0 <= i < |final| ensures LogExtends(k.devices[i], final[i]) {
      assert LogExtends(Serve(k, c).devices[i], final[i]);
      if i == c.descriptor {
        ExtendsTwice(k.devices[i], Serve(k, c).devices[i], final[i]);
      }
    }
  }

  lemma ExtendsTwice(d: Device, e: Device, g: Device)
    requires LogExtends(d, e) && LogExtends(e, g)
    ensures LogExtends(d, g)
  {
    assert g.log[..|e.log|][..|d.log|] == g.log[..|d.log|];
  }

  /** Every call is one step of the calling descriptor's log, or changes neither file nor logs. */
  lemma ServeIsStep(k: Kernel, c: Syscall, final: seq<Device>)
    requires Reaches(Serve(k, c), final)
    ensures Reaches(k, final)
    ensures View(Serve(k, c), final) in {View(k, final), Step(View(k, final), c.descriptor)}
  {
    ReachesBefore(k, c, final);
    if c.descriptor < |k.devices| {
      var i := c.descriptor;
      var (e, answer) := Positional(k.devices[i], c.data, c.at);
      var before, after := View(k, final), View(Serve(k, c), final);
      if answer.Accept? {
        assert LogExtends(e, final[i]);
        assert before.left[i] == final[i].log[|k.devices[i].log|..];
        assert before.left[i][0] == final[i].log[|k.devices[i].log|] == final[i].log[..|e.log|][|k.devices[i].log|];
        assert before.left[i][0] == Pwrite(c.at, c.data[..answer.n]);
        assert before.left[i][1..] == final[i].log[|e.log|..];
        assert after.left == before.left[i := before.left[i][1..]];
      } else {
        assert after.left == before.left;
      }
    }
  }

  /** Whatever calls the descriptors' users make, the file is an interleaving of the descriptors' logs. */
  lemma {:induction false} KernelInterleaves(k: Kernel, calls: seq<Syscall>, final: seq<Device>) returns (schedule: seq<nat>)
    requires Reaches(ServeAll(k, calls), final)
    ensures Reaches(k, final) && Run(View(k, final), schedule) == View(ServeAll(k, calls), final)
    decreases |calls|
  {
    hide Serve, View;
    if calls == [] {
      schedule := [];
    } else {
      schedule := KernelInterleaves(Serve(k, calls[0]), calls[1..], final);
      ServeIsStep(k, calls[0], final);
      if View(Serve(k, calls[0]), final) != View(k, final) {
        var longer := [calls[0].descriptor] + schedule;
        assert longer[1..] == schedule;
        schedule := longer;
      }
    }
  }
}
