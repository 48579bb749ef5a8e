/** Piece records in the store: one flat key space, scanned by task-id prefix. */
module PieceStore {
  import opened Decimal
  import opened Wrappers

  datatype Piece = Piece(number: nat, offset: nat, length: nat, digest: string, parent: Option<string>, finished: bool)

  /** The task-id length the store's prefix extractor is configured for. */
  const TASK_ID_LENGTH: nat := 64

  /** `piece_id`. */
  function PieceId(task: string, number: nat): string {
    task + "-" + Print(number)
  }

  predicate HasPrefix(key: string, prefix: string) {
    |prefix| <= |key| && key[..|prefix|] == prefix
  }

  /** The last dash of a key ends its task id. */
  lemma LastDash(t: string, n: nat)
    ensures var key := PieceId(t, n);
            && |t| < |key| && key[|t|] == '-'
            && forall i | |t| < i < |key| :: key[i] != '-'
  {
    var key := PieceId(t, n);
    forall i | |t| < i < |key| ensures key[i] != '-' {
      assert key[i] == Print(n)[i - |t| - 1];
    }
  }

  /** No two pieces share a key, whatever the task ids look like. */
  lemma PieceIdInjective(t: string, n: nat, u: string, m: nat)
    requires PieceId(t, n) == PieceId(u, m)
    ensures t == u && n == m
  {
    LastDash(t, n);
    LastDash(u, m);
    var key := PieceId(t, n);
    assert t == key[..|t|] == u;
    assert Print(n) == key[|t| + 1..] == Print(m);
    PrintRoundTrip(n);
    PrintRoundTrip(m);
  }

  /** For task ids of one length the prefix scan of a task meets exactly the task's own keys. */
  lemma ScanMeetsOwnKeys(task: string, t: string, n: nat)
    requires |t| == |task|
    ensures HasPrefix(PieceId(t, n), task) <==> t == task
  {
    assert PieceId(t, n)[..|t|] == t;
  }

  /** With ids of several lengths it also meets the keys of every task id the scanned one begins. */
  lemma ScanMeetsLongerIds(task: string, t: string, n: nat)
    requires HasPrefix(t, task)
    ensures HasPrefix(PieceId(t, n), task)
  {
    assert PieceId(t, n)[..|task|] == t[..|task|];
  }

  ghost predicate KeyOf(key: string, p: Piece) {
    exists t: string :: |t| == TASK_ID_LENGTH && key == PieceId(t, p.number)
  }

  class Store {
    var pieces: map<string, Piece>

    ghost predicate Valid()
      reads this
    {
      forall key | key in pieces :: KeyOf(key, pieces[key])
    }

    constructor ()
      ensures Valid() && pieces == map[]
    {
      pieces := map[];
    }

    method DownloadPieceStarted(task: string, number: nat, offset: nat, length: nat) returns (p: Piece)
      requires Valid() && |task| == TASK_ID_LENGTH
      modifies this
      ensures Valid() && p == Piece(number, offset, length, "", None, false)
      ensures pieces == old(pieces)[PieceId(task, number) := p]
    {
      p := Piece(number, offset, length, "", None, false);
      var key := PieceId(task, number);
      assert KeyOf(key, p);
      pieces := pieces[key := p];
    }

    /** None is PieceNotFound. */
    method DownloadPieceFinished(key: string, offset: nat, length: nat, digest: string, parent: Option<string>)
      returns (p: Option<Piece>)
      requires Valid()
      modifies this
      ensures Valid()
      ensures p == if key in old(pieces) then Some(Piece(old(pieces)[key].number, offset, length, digest, parent, true)) else None
      ensures pieces == if p.Some? then old(pieces)[key := p.value] else old(pieces)
    {
      if key !in pieces {
        return None;
      }
      var q := pieces[key].(offset := offset, length := length, digest := digest, parent := parent, finished := true);
      assert KeyOf(key, pieces[key]);
      pieces := pieces[key := q];
      assert KeyOf(key, q);
      return Some(q);
    }

    /** A failed download, and a waiter that gave up, erase the record unless it is finished. */
    method DownloadPieceFailed(key: string)
      requires Valid()
      modifies this
      ensures Valid()
      ensures pieces == if key in old(pieces) && old(pieces)[key].finished then old(pieces) else old(pieces) - {key}
    {
      if key in pieces && pieces[key].finished {
        return;
      }
      pieces := pieces - {key};
    }

    /** Exactly the pieces stored for the task, each once. */
    method GetPieces(task: string) returns (r: seq<Piece>)
      requires Valid() && |task| == TASK_ID_LENGTH
      ensures forall n: nat :: PieceId(task, n) in pieces ==> pieces[PieceId(task, n)] in r
      ensures forall p :: p in r ==> PieceId(task, p.number) in pieces && pieces[PieceId(task, p.number)] == p
      ensures forall i, j | 0 <= i < j < |r| :: r[i].number != r[j].number
    {
      hide PieceId, HasPrefix, KeyOf;
      r := [];
      var keys := pieces.Keys;
      ghost var seen: set<string> := {};
      while keys != {}
        invariant keys <= pieces.Keys && seen == pieces.Keys - keys
        invariant forall n: nat :: PieceId(task, n) in seen ==> pieces[PieceId(task, n)] in r
        invariant forall p :: p in r ==> PieceId(task, p.number) in seen && pieces[PieceId(task, p.number)] == p
        invariant forall i, j | 0 <= i < j < |r| :: r[i].number != r[j].number
        decreases keys
      {
        var key :| key in keys;
        if HasPrefix(key, task) {
          OwnKey(key, pieces[key], task);
          assert forall i | 0 <= i < |r| :: r[i] in r;
          r := r + [pieces[key]];
        } else {
          forall n: nat ensures PieceId(task, n) != key {
            ScanMeetsOwnKeys(task, task, n);
          }
        }
        keys, seen := keys - {key}, seen + {key};
      }
    }

    /** Removes all pieces of the task and none of any other. */
    method DeletePieces(task: string)
      requires Valid() && |task| == TASK_ID_LENGTH
      modifies this
      ensures Valid()
      ensures forall t: string, n: nat | |t| == TASK_ID_LENGTH ::
                PieceId(t, n) in pieces <==> PieceId(t, n) in old(pieces) && t != task
      ensures forall key | key in pieces :: key in old(pieces) && pieces[key] == old(pieces)[key]
    {
      var doomed := set key | key in pieces && HasPrefix(key, task);
      forall t: string, n: nat | |t| == TASK_ID_LENGTH
        ensures HasPrefix(PieceId(t, n), task) <==> t == task
      {
        ScanMeetsOwnKeys(task, t, n);
      }
      pieces := pieces - doomed;
    }
  }

  /** A stored key with the task's prefix is the key of its own record. */
  lemma OwnKey(key: string, p: Piece, task: string)
    requires KeyOf(key, p) && |task| == TASK_ID_LENGTH && HasPrefix(key, task)
    ensures key == PieceId(task, p.number)
  {
    var t: string :| |t| == TASK_ID_LENGTH && key == PieceId(t, p.number);
    ScanMeetsOwnKeys(task, t, p.number);
  }
}
