/**
 The task file as a piece writer sees it: a descriptor that takes positional
 writes and answers each with a count, an interrupt or an error. The file's
 bytes are not part of it, since no writer ever reads them; `Apply` says what a
 run of accepted writes makes of any file.
 */
module PieceFile {
  import opened Bytes

  /** The bytes of `f` after `d` is written at offset `off`; a hole reads as zeros. */
  function Splice(f: seq<byte>, off: nat, d: seq<byte>): (r: seq<byte>)
    ensures |r| == if d == [] then |f| else Max(|f|, off + |d|)
    ensures forall i | 0 <= i < |r| ::
              r[i] == if off <= i < off + |d| then d[i - off] else if i < |f| then f[i] else 0
  {
    var n: nat := if d == [] then |f| else Max(|f|, off + |d|);
    seq(n, i requires 0 <= i < n =>
          if off <= i < off + |d| then d[i - off] else if i < |f| then f[i] else 0)
  }

  lemma SpliceNothing(f: seq<byte>, off: nat)
    ensures Splice(f, off, []) == f
  {
  }

  lemma SpliceAppend(f: seq<byte>, off: nat, a: seq<byte>, b: seq<byte>)
    ensures Splice(Splice(f, off, a), off + |a|, b) == Splice(f, off, a + b)
  {
  }

  /** One accepted positional write. */
  datatype Pwrite = Pwrite(offset: nat, data: seq<byte>)

  /** The bytes of a run of writes, in the order they were accepted. */
  function Payload(log: seq<Pwrite>): seq<byte> {
    if log == [] then [] else Payload(log[..|log| - 1]) + log[|log| - 1].data
  }

  /** Each write of the run starts where the previous one ended, the first at `at`. */
  predicate Consecutive(log: seq<Pwrite>, at: nat) {
    log == [] ||
    (var init := log[..|log| - 1];
     Consecutive(init, at) && log[|log| - 1].offset == at + |Payload(init)|)
  }

  /** The file after the run of writes. */
  function Apply(f: seq<byte>, log: seq<Pwrite>): seq<byte> {
    if log == [] then f
    else
      var last := log[|log| - 1];
      Splice(Apply(f, log[..|log| - 1]), last.offset, last.data)
  }

  lemma SingleWrite(w: Pwrite)
    ensures Consecutive([w], w.offset) && Payload([w]) == w.data
  {
    var init := [w][..0];
    assert init == [] && Payload(init) == [];
  }

  lemma {:induction false} ConsecutiveAppend(a: seq<Pwrite>, b: seq<Pwrite>, at: nat)
    requires Consecutive(a, at) && Consecutive(b, at + |Payload(a)|)
    ensures Consecutive(a + b, at) && Payload(a + b) == Payload(a) + Payload(b)
  {
    if b == [] {
      assert a + b == a;
    } else {
      var init, last := b[..|b| - 1], b[|b| - 1];
      ConsecutiveAppend(a, init, at);
      assert (a + b)[..|a + b| - 1] == a + init && (a + b)[|a + b| - 1] == last;
      assert Payload(a + b) == (Payload(a) + Payload(init)) + last.data;
      JoinAssociates(Payload(a), Payload(init), last.data);
    }
  }

  lemma {:induction false} ApplyAppend(f: seq<byte>, a: seq<Pwrite>, b: seq<Pwrite>)
    ensures Apply(f, a + b) == Apply(Apply(f, a), b)
  {
    if b == [] {
      assert a + b == a;
    } else {
      ApplyAppend(f, a, b[..|b| - 1]);
      assert (a + b)[..|a + b| - 1] == a + b[..|b| - 1];
    }
  }

  /** A consecutive run of writes is one splice of all its bytes. */
  lemma {:induction false} ConsecutiveSplices(f: seq<byte>, log: seq<Pwrite>, at: nat)
    requires Consecutive(log, at)
    ensures Apply(f, log) == Splice(f, at, Payload(log))
  {
    if log == [] {
      SpliceNothing(f, at);
    } else {
      var init, last := log[..|log| - 1], log[|log| - 1];
      ConsecutiveSplices(f, init, at);
      SpliceAppend(f, at, Payload(init), last.data);
    }
  }

  /** The end of a consecutive run is a consecutive run of the remaining bytes. */
  lemma {:induction false} ConsecutiveRest(a: seq<Pwrite>, b: seq<Pwrite>, at: nat)
    requires Consecutive(a + b, at)
    ensures Consecutive(a, at) && Consecutive(b, at + |Payload(a)|) && Payload(a + b) == Payload(a) + Payload(b)
  {
    if b == [] {
      assert a + b == a;
    } else {
      var init, last := b[..|b| - 1], b[|b| - 1];
      assert (a + b)[..|a + b| - 1] == a + init && (a + b)[|a + b| - 1] == last;
      ConsecutiveRest(a, init, at);
      JoinAssociates(Payload(a), Payload(init), last.data);
    }
  }

  /** What the kernel answers to one positional write: a byte count, EINTR or an error. */
  datatype Outcome = Accept(n: nat) | Interrupt | Fault

  /** The writes accepted through the descriptor and the outcomes of the next ones. */
  datatype Device = Device(log: seq<Pwrite>, script: seq<Outcome>)

  predicate LogExtends(d: Device, e: Device) {
    |d.log| <= |e.log| && d.log == e.log[..|d.log|]
  }

  /** Between `d` and `e` exactly `data` was accepted, consecutively from `at`, and nothing else. */
  ghost predicate Wrote(d: Device, e: Device, at: nat, data: seq<byte>) {
    && LogExtends(d, e)
    && Consecutive(e.log[|d.log|..], at)
    && Payload(e.log[|d.log|..]) == data
    && |e.script| <= |d.script|
    && e.script == d.script[|d.script| - |e.script|..]
  }

  /** The number of bytes accepted between `d` and `e`. */
  function Progress(d: Device, e: Device): nat
    requires LogExtends(d, e)
  {
    |Payload(e.log[|d.log|..])|
  }

  lemma WroteLength(d: Device, e: Device, at: nat, data: seq<byte>)
    requires Wrote(d, e, at, data)
    ensures LogExtends(d, e) && Progress(d, e) == |data| && |e.script| <= |d.script|
  {
  }

  /** The outcomes consumed between `d` and `e`. */
  function Consumed(d: Device, e: Device): seq<Outcome>
    requires |e.script| <= |d.script|
  {
    d.script[..|d.script| - |e.script|]
  }

  lemma WroteNothing(d: Device, at: nat)
    ensures Wrote(d, d, at, [])
  {
  }

  /** So whatever the file holds, the run splices exactly `data` at `at` and changes nothing else. */
  lemma WroteSplices(d: Device, e: Device, at: nat, data: seq<byte>, file: seq<byte>)
    requires Wrote(d, e, at, data)
    ensures Apply(file, e.log[|d.log|..]) == Splice(file, at, data)
    ensures Apply(file, e.log) == Splice(Apply(file, d.log), at, data)
  {
    var run := e.log[|d.log|..];
    ConsecutiveSplices(file, run, at);
    ConsecutiveSplices(Apply(file, d.log), run, at);
    ApplyAppend(file, d.log, run);
    assert e.log == d.log + run;
  }

  lemma WroteThen(d: Device, e: Device, g: Device, at: nat, a: seq<byte>, b: seq<byte>)
    requires Wrote(d, e, at, a) && Wrote(e, g, at + |a|, b)
    ensures Wrote(d, g, at, a + b)
    ensures Consumed(d, g) == Consumed(d, e) + Consumed(e, g)
  {
    var x, y := e.log[|d.log|..], g.log[|e.log|..];
    assert g.log[|d.log|..] == x + y;
    ConsecutiveAppend(x, y, at);
  }

  /** What was accepted between two points of one run of writes. */
  lemma WroteSince(d: Device, e: Device, g: Device, at: nat, a: seq<byte>, b: seq<byte>)
    requires Wrote(d, e, at, a) && Wrote(d, g, at, b) && LogExtends(e, g)
    ensures |a| <= |b| && Consecutive(g.log[|e.log|..], at + |a|) && Payload(g.log[|e.log|..]) == b[|a|..]
  {
    var x, y := e.log[|d.log|..], g.log[|e.log|..];
    assert g.log[|d.log|..] == x + y;
    ConsecutiveRest(x, y, at);
  }

  /** One positional write of `data`: the next outcome decides how much is accepted. */
  function Positional(d: Device, data: seq<byte>, at: nat): (r: (Device, Outcome))
    ensures r.1.Accept? ==> r.1.n <= |data|
    ensures |r.0.script| == if d.script == [] then 0 else |d.script| - 1
    ensures LogExtends(d, r.0)
    ensures !r.1.Accept? ==> d.script != []
  {
    var answer := if d.script == [] then Accept(|data|) else d.script[0];
    var rest := if d.script == [] then [] else d.script[1..];
    if answer.Accept? then
      var n := Min(answer.n, |data|);
      (Device(d.log + [Pwrite(at, data[..n])], rest), Accept(n))
    else
      (d.(script := rest), answer)
  }

  /** A call that accepts `n` bytes writes the first `n`; any other answer writes nothing. */
  lemma PositionalWrites(d: Device, data: seq<byte>, at: nat)
    ensures var (e, answer) := Positional(d, data, at);
            Wrote(d, e, at, if answer.Accept? then data[..answer.n] else [])
  {
    var (e, answer) := Positional(d, data, at);
    if answer.Accept? {
      var w := Pwrite(at, data[..answer.n]);
      assert e.log[|d.log|..] == [w];
      SingleWrite(w);
    } else {
      assert e.log[|d.log|..] == [];
    }
  }

  /** One open descriptor of the task file. */
  class Disk {
    var dev: Device

    constructor (script: seq<Outcome>)
      ensures dev == Device([], script)
    {
      dev := Device([], script);
    }

    /** `pwritev`: at most IOV_MAX buffers are accepted by one call. */
    method Pwritev(buffers: seq<seq<byte>>, at: nat) returns (r: Outcome)
      requires |buffers| <= 1024
      modifies this
      ensures (dev, r) == Positional(old(dev), Concat(buffers), at)
    {
      var e := Positional(dev, Concat(buffers), at);
      dev, r := e.0, e.1;
    }
  }
}
