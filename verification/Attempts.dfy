/**
 Many attempts at the pieces of one file: they fail and are retried, run at the
 same time, and leave writes running. Exactly when does a written piece stand?
 */
module Attempts {
  import opened Bytes
  import opened PieceFile
  import opened SharedFile
  import opened PieceRanges

  /** `data` stands in the file at `offset`. */
  predicate InPlace(file: seq<byte>, offset: nat, data: seq<byte>) {
    data == [] || (offset + |data| <= |file| && file[offset..offset + |data|] == data)
  }

  predicate Within(w: Pwrite, p: Piece) {
    p.offset <= w.offset && w.offset + |w.data| <= p.offset + p.length
  }

  /** The bytes of a piece. */
  function Slice(content: seq<byte>, p: Piece): seq<byte>
    requires p.offset + p.length <= |content|
  {
    content[p.offset..p.offset + p.length]
  }

  /** The write puts back what the content has there anyway. */
  predicate Repeats(w: Pwrite, content: seq<byte>) {
    w.offset + |w.data| <= |content| && w.data == content[w.offset..w.offset + |w.data|]
  }

  /** All writes of the log lie inside the piece. */
  ghost predicate Confined(log: seq<Pwrite>, p: Piece) {
    forall k | 0 <= k < |log| :: Within(log[k], p)
  }

  /** The log writes the whole piece, from its first byte to its last. */
  ghost predicate Complete(log: seq<Pwrite>, p: Piece, content: seq<byte>) {
    p.offset + p.length <= |content| && Consecutive(log, p.offset) && Payload(log) == Slice(content, p)
  }

  /** Every log belongs to a piece of the tiling, `homes[a]`, and stays inside it. */
  ghost predicate Housed(left: seq<seq<Pwrite>>, homes: seq<nat>, pieces: seq<Piece>) {
    |left| == |homes| && forall a | 0 <= a < |homes| :: homes[a] < |pieces| && Confined(left[a], pieces[homes[a]])
  }

  /** The moment attempt `f` is about to write its piece completely, whatever the others have done and still do. */
  ghost predicate Scene(s: System, homes: seq<nat>, pieces: seq<Piece>, content: seq<byte>, f: nat) {
    && Tiling(pieces, 0, |content|) && Housed(s.left, homes, pieces)
    && f < |homes| && Complete(s.left[f], pieces[homes[f]], content)
  }

  /** Another attempt at the piece of attempt `f`. */
  predicate Rival(homes: seq<nat>, f: nat, a: nat) {
    f < |homes| && a < |homes| && a != f && homes[a] == homes[f]
  }

  ghost predicate AllRepeat(log: seq<Pwrite>, content: seq<byte>) {
    forall k | 0 <= k < |log| :: Repeats(log[k], content)
  }

  /** What the rivals have still to write repeats the content. */
  ghost predicate Tame(left: seq<seq<Pwrite>>, homes: seq<nat>, content: seq<byte>, f: nat)
    requires |left| == |homes|
  {
    forall a: nat | Rival(homes, f, a) :: AllRepeat(left[a], content)
  }

  // ---- the invariant -------------------------------------------------------------

  predicate IsRest(left: seq<Pwrite>, log: seq<Pwrite>) {
    |left| <= |log| && left == log[|log| - |left|..]
  }

  /** The bytes attempt `f`, whose whole log is `main`, has placed so far. */
  function Placed(s: System, main: seq<Pwrite>, f: nat): seq<byte>
    requires f < |s.left| && |s.left[f]| <= |main|
  {
    Payload(main[..|main| - |s.left[f]|])
  }

  ghost predicate Inv(s: System, main: seq<Pwrite>, homes: seq<nat>, pieces: seq<Piece>, content: seq<byte>, f: nat) {
    && Tiling(pieces, 0, |content|) && Housed(s.left, homes, pieces)
    && f < |homes| && Complete(main, pieces[homes[f]], content)
    && IsRest(s.left[f], main)
    && InPlace(s.file, pieces[homes[f]].offset, Placed(s, main, f))
    && Tame(s.left, homes, content, f)
  }

  lemma {:induction false} TilesDisjoint(pieces: seq<Piece>, from: nat, to: nat, i: nat, j: nat)
    requires Tiling(pieces, from, to) && i < j < |pieces|
    ensures pieces[i].offset + pieces[i].length <= pieces[j].offset
  {
    if i == 0 {
      TilingGrows(pieces[1..], from + pieces[0].length, to);
      assert pieces[j] == pieces[1..][j - 1];
    } else {
      TilesDisjoint(pieces[1..], from + pieces[0].length, to, i - 1, j - 1);
    }
  }

  /** Part of a consecutive run: its next write starts where the placed bytes end. */
  lemma {:induction false} ConsecutiveAt(log: seq<Pwrite>, at: nat, k: nat)
    requires Consecutive(log, at) && k < |log|
    ensures log[k].offset == at + |Payload(log[..k])|
    ensures Payload(log[..k + 1]) == Payload(log[..k]) + log[k].data
    ensures |Payload(log[..k + 1])| <= |Payload(log)|
  {
    assert log[..k + 1][..k] == log[..k];
    if k == |log| - 1 {
      assert log[..k + 1] == log;
    } else {
      var init := log[..|log| - 1];
      ConsecutiveAt(init, at, k);
      assert init[..k] == log[..k] && init[..k + 1] == log[..k + 1];
    }
  }

  /** The first writes of a run place a prefix of its bytes. */
  lemma PayloadPrefix(log: seq<Pwrite>, at: nat, k: nat)
    requires Consecutive(log, at) && k <= |log|
    ensures |Payload(log[..k])| <= |Payload(log)| && Payload(log[..k]) == Payload(log)[..|Payload(log[..k])|]
  {
    assert log == log[..k] + log[k..];
    ConsecutiveRest(log[..k], log[k..], at);
  }

  lemma PlaceNext(file: seq<byte>, offset: nat, data: seq<byte>, next: seq<byte>)
    requires InPlace(file, offset, data)
    ensures InPlace(Splice(file, offset + |data|, next), offset, data + next)
  {
    if data + next != [] && next != [] {
      var f := Splice(file, offset + |data|, next);
      assert f[offset..offset + |data + next|] == data + next;
    } else if next == [] {
      SpliceNothing(file, offset + |data|);
      assert data + next == data;
    }
  }

  lemma PlaceElsewhere(file: seq<byte>, offset: nat, data: seq<byte>, at: nat, other: seq<byte>)
    requires InPlace(file, offset, data)
    requires at + |other| <= offset || offset + |data| <= at || other == []
    ensures InPlace(Splice(file, at, other), offset, data)
  {
    if data != [] {
      var f := Splice(file, at, other);
      assert f[offset..offset + |data|] == file[offset..offset + |data|];
    }
  }

  lemma PlaceNothing(file: seq<byte>, offset: nat)
    ensures InPlace(file, offset, [])
  {
  }

  /** A write that repeats the content leaves every placed prefix of a piece as it is. */
  lemma RepeatHarmless(file: seq<byte>, content: seq<byte>, p: Piece, data: seq<byte>, w: Pwrite)
    requires p.offset + p.length <= |content| && Within(w, p) && Repeats(w, content)
    requires InPlace(file, p.offset, data) && |data| <= p.length && data == Slice(content, p)[..|data|]
    ensures InPlace(Splice(file, w.offset, w.data), p.offset, data)
  {
    if data != [] {
      var g := Splice(file, w.offset, w.data);
      var after, before := g[p.offset..p.offset + |data|], file[p.offset..p.offset + |data|];
      forall i | 0 <= i < |data| ensures after[i] == data[i] {
        assert after[i] == g[p.offset + i] && before[i] == file[p.offset + i];
        assert data[i] == content[p.offset + i];
      }
    }
  }

  /** The next write of a consecutive run, behind what it has placed. */
  lemma NextWrite(file: seq<byte>, main: seq<Pwrite>, offset: nat, n: nat)
    requires Consecutive(main, offset) && n < |main| && InPlace(file, offset, Payload(main[..n]))
    ensures InPlace(Splice(file, main[n].offset, main[n].data), offset, Payload(main[..n + 1]))
  {
    hide Splice, InPlace, Payload, Consecutive;
    ConsecutiveAt(main, offset, n);
    PlaceNext(file, offset, Payload(main[..n]), main[n].data);
  }

  /** The next write of attempt `f` itself. */
  lemma OwnWrite(s: System, main: seq<Pwrite>, homes: seq<nat>, pieces: seq<Piece>, content: seq<byte>, f: nat)
    requires Inv(s, main, homes, pieces, content, f) && s.left[f] != []
    ensures var t := Step(s, f);
            |t.left[f]| <= |main| && InPlace(t.file, pieces[homes[f]].offset, Placed(t, main, f))
  {
    hide Splice, InPlace, Payload, Consecutive, Tiling, Confined, Tame;
    NextWrite(s.file, main, pieces[homes[f]].offset, |main| - |s.left[f]|);
  }

  lemma HomeOf(left: seq<seq<Pwrite>>, homes: seq<nat>, pieces: seq<Piece>, a: nat)
    requires Housed(left, homes, pieces) && a < |homes|
    ensures homes[a] < |pieces| && (left[a] != [] ==> Within(left[a][0], pieces[homes[a]]))
  {
  }

  /** What attempt `f` has placed is a prefix of its piece. */
  lemma PlacedIsPrefix(s: System, main: seq<Pwrite>, homes: seq<nat>, pieces: seq<Piece>, content: seq<byte>, f: nat)
    requires Inv(s, main, homes, pieces, content, f)
    ensures var p, data := pieces[homes[f]], Placed(s, main, f);
            && p.offset + p.length <= |content| && p.length > 0
            && |data| <= p.length && data == Slice(content, p)[..|data|]
            && (s.left[f] == [] ==> data == Slice(content, p))
  {
    hide Tame, InPlace, Confined;
    TilingGrows(pieces, 0, |content|);
    PayloadPrefix(main, pieces[homes[f]].offset, |main| - |s.left[f]|);
    assert main[..|main|] == main;
  }

  /** A write of another attempt, at the same piece or elsewhere. */
  lemma OtherWrite(s: System, main: seq<Pwrite>, homes: seq<nat>, pieces: seq<Piece>, content: seq<byte>, f: nat, i: nat)
    requires Inv(s, main, homes, pieces, content, f) && i < |homes| && i != f && s.left[i] != []
    ensures InPlace(Step(s, i).file, pieces[homes[f]].offset, Placed(s, main, f))
  {
    hide InPlace, Splice, Payload, Consecutive, Placed, Repeats, Complete, Tiling, Confined;
    var p, data, w := pieces[homes[f]], Placed(s, main, f), s.left[i][0];
    PlacedIsPrefix(s, main, homes, pieces, content, f);
    HomeOf(s.left, homes, pieces, f);
    HomeOf(s.left, homes, pieces, i);
    if Rival(homes, f, i) {
      assert AllRepeat(s.left[i], content) && Repeats(w, content);
      RepeatHarmless(s.file, content, p, data, w);
    } else {
      OtherPieces(pieces, |content|, homes[f], homes[i]);
      PlaceElsewhere(s.file, p.offset, data, w.offset, w.data);
    }
  }

  lemma OtherPieces(pieces: seq<Piece>, size: nat, i: nat, j: nat)
    requires Tiling(pieces, 0, size) && i < |pieces| && j < |pieces| && i != j
    ensures pieces[j].offset + pieces[j].length <= pieces[i].offset || pieces[i].offset + pieces[i].length <= pieces[j].offset
  {
    if i < j {
      TilesDisjoint(pieces, 0, size, i, j);
    } else {
      TilesDisjoint(pieces, 0, size, j, i);
    }
  }

  lemma RestOfRest(left: seq<Pwrite>, log: seq<Pwrite>)
    requires IsRest(left, log)
    ensures left != [] ==> IsRest(left[1..], log)
  {
  }

  /** Taking the first write of a log away keeps where the logs live and whether the rivals repeat. */
  lemma FewerWrites(left: seq<seq<Pwrite>>, homes: seq<nat>, pieces: seq<Piece>, content: seq<byte>, f: nat, i: nat)
    requires i < |left| == |homes| && left[i] != []
    ensures Housed(left, homes, pieces) ==> Housed(left[i := left[i][1..]], homes, pieces)
    ensures Tame(left, homes, content, f) ==> Tame(left[i := left[i][1..]], homes, content, f)
  {
    hide Within, Repeats;
    var less := left[i := left[i][1..]];
    if Housed(left, homes, pieces) {
      forall a | 0 <= a < |homes| ensures homes[a] < |pieces| && Confined(less[a], pieces[homes[a]]) {
        assert Confined(left[a], pieces[homes[a]]);
      }
    }
    if Tame(left, homes, content, f) {
      forall a: nat | Rival(homes, f, a) ensures AllRepeat(less[a], content) {
        assert AllRepeat(left[a], content);
      }
    }
  }

  /** Serving any log, at any moment, keeps the invariant. */
  lemma StepKeeps(s: System, main: seq<Pwrite>, homes: seq<nat>, pieces: seq<Piece>, content: seq<byte>, f: nat, i: nat)
    requires Inv(s, main, homes, pieces, content, f)
    ensures Inv(Step(s, i), main, homes, pieces, content, f)
  {
    hide InPlace, Splice, Payload, Consecutive, Tiling, Tame, Confined, Complete;
    if i < |s.left| && s.left[i] != [] {
      FewerWrites(s.left, homes, pieces, content, f, i);
      RestOfRest(s.left[f], main);
      if i == f {
        OwnWrite(s, main, homes, pieces, content, f);
      } else {
        OtherWrite(s, main, homes, pieces, content, f, i);
        assert Placed(Step(s, i), main, f) == Placed(s, main, f);
      }
    }
  }

  lemma SceneInv(s: System, homes: seq<nat>, pieces: seq<Piece>, content: seq<byte>, f: nat)
    requires Scene(s, homes, pieces, content, f) && Tame(s.left, homes, content, f)
    ensures Inv(s, s.left[f], homes, pieces, content, f)
  {
    hide Tame, Confined, Complete, Tiling;
    assert s.left[f][0..] == s.left[f] && s.left[f][..0] == [];
  }

  lemma {:induction false} RunKeeps(s: System, main: seq<Pwrite>, homes: seq<nat>, pieces: seq<Piece>, content: seq<byte>,
                                    f: nat, schedule: seq<nat>)
    requires Inv(s, main, homes, pieces, content, f)
    ensures Inv(Run(s, schedule), main, homes, pieces, content, f)
    decreases |schedule|
  {
    hide Inv, Step;
    if schedule != [] {
      StepKeeps(s, main, homes, pieces, content, f, schedule[0]);
      RunKeeps(Step(s, schedule[0]), main, homes, pieces, content, f, schedule[1..]);
    }
  }

  /** Once attempt `f` is through, its piece is in the file. */
  lemma ThroughInPlace(s: System, main: seq<Pwrite>, homes: seq<nat>, pieces: seq<Piece>, content: seq<byte>, f: nat)
    requires Inv(s, main, homes, pieces, content, f) && s.left[f] == []
    ensures var p := pieces[homes[f]];
            p.offset + p.length <= |content| && InPlace(s.file, p.offset, Slice(content, p))
  {
    hide InPlace, Payload, Consecutive;
    PlacedIsPrefix(s, main, homes, pieces, content, f);
  }

  // ---- exactly when a written piece stands ---------------------------------------

  /** Whatever the schedule from here on, the piece of attempt `f` stands in the file once `f` is through. */
  ghost predicate AlwaysStands(s: System, homes: seq<nat>, pieces: seq<Piece>, content: seq<byte>, f: nat)
    requires Scene(s, homes, pieces, content, f)
  {
    var p := pieces[homes[f]];
    forall schedule: seq<nat> ::
      Run(s, schedule).left[f] == [] ==> InPlace(Run(s, schedule).file, p.offset, Slice(content, p))
  }

  /** A write inside a piece that stands leaves it standing exactly if it repeats the content. */
  lemma LateWrite(file: seq<byte>, content: seq<byte>, p: Piece, w: Pwrite)
    requires p.offset + p.length <= |content| && InPlace(file, p.offset, Slice(content, p)) && Within(w, p)
    ensures InPlace(Splice(file, w.offset, w.data), p.offset, Slice(content, p)) <==> Repeats(w, content)
  {
    var data := Slice(content, p);
    assert data[..|data|] == data;
    if Repeats(w, content) {
      RepeatHarmless(file, content, p, data, w);
    } else {
      var g := Splice(file, w.offset, w.data);
      var i :| 0 <= i < |w.data| && w.data[i] != content[w.offset + i];
      assert g[w.offset + i] == w.data[i];
      assert data[w.offset + i - p.offset] == content[w.offset + i];
      assert g[p.offset..p.offset + |data|][w.offset + i - p.offset] == g[w.offset + i];
    }
  }

  /** Serving one log `n` times. */
  function Again(i: nat, n: nat): seq<nat> {
    seq(n, _ => i)
  }

  /** Serving log `i` `n` times applies its next `n` writes and leaves the other logs alone. */
  lemma {:induction false} ServeAgain(s: System, i: nat, n: nat)
    requires i < |s.left| && n <= |s.left[i]|
    ensures var t := Run(s, Again(i, n));
            t.left == s.left[i := s.left[i][n..]] && t.file == Apply(s.file, s.left[i][..n])
    decreases n
  {
    var log := s.left[i];
    if n == 0 {
      assert log[0..] == log && log[..0] == [];
      assert s.left[i := log] == s.left;
    } else {
      var m, last := n - 1, log[n - 1];
      ServeAgain(s, i, m);
      assert Again(i, n) == Again(i, m) + [i];
      RunAppend(s, Again(i, m), [i]);
      var t := Run(s, Again(i, m));
      assert t.left[i] == log[m..] && log[m..][0] == last && log[m..][1..] == log[n..];
      assert Run(t, [i]) == Step(t, i) by {
        assert [i][1..] == [];
      }
      assert log[..n][..m] == log[..m] && log[..n][m] == last;
      assert s.left[i := log[m..]][i := log[n..]] == s.left[i := log[n..]];
    }
  }

  /** Serving on a log that holds a write which does not repeat the content breaks the piece. */
  lemma {:induction false} ServeUntilBroken(s: System, content: seq<byte>, p: Piece, a: nat, k: nat) returns (n: nat)
    requires p.offset + p.length <= |content| && a < |s.left| && k < |s.left[a]|
    requires InPlace(s.file, p.offset, Slice(content, p))
    requires (forall j | 0 <= j < |s.left[a]| :: Within(s.left[a][j], p)) && !Repeats(s.left[a][k], content)
    ensures !InPlace(Run(s, Again(a, n)).file, p.offset, Slice(content, p))
    ensures forall i | 0 <= i < |s.left| && i != a :: Run(s, Again(a, n)).left[i] == s.left[i]
    decreases |s.left[a]|
  {
    hide InPlace, Splice, Repeats;
    var w, t := s.left[a][0], Step(s, a);
    LateWrite(s.file, content, p, w);
    if !Repeats(w, content) {
      n := 1;
      assert Again(a, 1)[1..] == [];
    } else {
      var m := ServeUntilBroken(t, content, p, a, k - 1);
      n := m + 1;
      assert Again(a, n)[0] == a && Again(a, n)[1..] == Again(a, m);
    }
  }

  /** Attempt `f` goes first: its piece stands and everything else is still to come. */
  lemma FinishFirst(s: System, homes: seq<nat>, pieces: seq<Piece>, content: seq<byte>, f: nat)
    requires Scene(s, homes, pieces, content, f)
    ensures var t, p := Run(s, Again(f, |s.left[f]|)), pieces[homes[f]];
            t.left == s.left[f := []] && InPlace(t.file, p.offset, Slice(content, p))
  {
    hide InPlace, Splice, Confined;
    var main, p := s.left[f], pieces[homes[f]];
    ServeAgain(s, f, |main|);
    assert main[..|main|] == main && main[|main|..] == [];
    ConsecutiveSplices(s.file, main, p.offset);
    PlaceNothing(s.file, p.offset);
    PlaceNext(s.file, p.offset, [], Slice(content, p));
    assert [] + Slice(content, p) == Slice(content, p);
  }

  /** One write of a rival that does not repeat the content breaks the piece under some schedule. */
  lemma RivalBreaks(s: System, homes: seq<nat>, pieces: seq<Piece>, content: seq<byte>, f: nat, a: nat, k: nat)
    requires Scene(s, homes, pieces, content, f) && Rival(homes, f, a) && k < |s.left[a]|
    requires !Repeats(s.left[a][k], content)
    ensures !AlwaysStands(s, homes, pieces, content, f)
  {
    hide InPlace, Repeats, Run, Consecutive, Payload;
    var p, first := pieces[homes[f]], Again(f, |s.left[f]|);
    FinishFirst(s, homes, pieces, content, f);
    var t := Run(s, first);
    assert Confined(s.left[a], pieces[homes[a]]);
    var n := ServeUntilBroken(t, content, p, a, k);
    RunAppend(s, first, Again(a, n));
    assert Run(s, first + Again(a, n)).left[f] == [];
  }

  /**
   Exactly: from the moment attempt `f` is about to write its piece completely,
   the piece stands under every schedule if and only if each write the other
   attempts at it have still to make repeats the content.
   */
  lemma StandsExactly(s: System, homes: seq<nat>, pieces: seq<Piece>, content: seq<byte>, f: nat)
    requires Scene(s, homes, pieces, content, f)
    ensures AlwaysStands(s, homes, pieces, content, f) <==> Tame(s.left, homes, content, f)
  {
    hide InPlace, Repeats, Run, Complete, Confined, Inv, Tiling;
    if Tame(s.left, homes, content, f) {
      forall schedule: seq<nat> | Run(s, schedule).left[f] == []
        ensures var p := pieces[homes[f]];
                p.offset + p.length <= |content| && InPlace(Run(s, schedule).file, p.offset, Slice(content, p))
      {
        SceneInv(s, homes, pieces, content, f);
        RunKeeps(s, s.left[f], homes, pieces, content, f, schedule);
        ThroughInPlace(Run(s, schedule), s.left[f], homes, pieces, content, f);
      }
    } else {
      var a: nat :| Rival(homes, f, a) && !AllRepeat(s.left[a], content);
      var k :| 0 <= k < |s.left[a]| && !Repeats(s.left[a][k], content);
      RivalBreaks(s, homes, pieces, content, f, a, k);
    }
  }

  /** An earlier attempt at a piece of two bytes left a wrong one in flight; the retry is about to begin. */
  function Retrying(): System {
    System([], [[Pwrite(0, [9])], [Pwrite(0, [1, 2])]])
  }

  /** The wrong byte lands after the retry is through. */
  lemma LateWriteReachable()
    ensures Scene(Retrying(), [0, 0], [Piece(0, 0, 2)], [1, 2], 1)
    ensures Run(Retrying(), [1]) == System([1, 2], [[Pwrite(0, [9])], []])
    ensures Run(Retrying(), [1, 0]) == System([9, 2], [[], []])
  {
    hide Scene;
    RetryScene();
    hide Splice;
    var s := Retrying();
    RetryBytes();
    assert [Pwrite(0, [9])][1..] == [] && [Pwrite(0, [1, 2])][1..] == [];
    assert Step(s, 1) == System([1, 2], [[Pwrite(0, [9])], []]);
    assert Step(Step(s, 1), 0).left == [[], []];
    assert [1, 0][1..] == [0] && [0][1..] == [] && [1][1..] == [];
  }

  lemma RetryScene()
    ensures Scene(Retrying(), [0, 0], [Piece(0, 0, 2)], [1, 2], 1)
  {
    var pieces, content: seq<byte> := [Piece(0, 0, 2)], [1, 2];
    SingleWrite(Pwrite(0, [1, 2]));
    assert Slice(content, pieces[0]) == content;
    assert pieces[1..] == [];
  }

  lemma RetryBytes()
    ensures Splice([], 0, [1, 2]) == [1, 2] && Splice([1, 2], 0, [9]) == [9, 2]
  {
  }
}
