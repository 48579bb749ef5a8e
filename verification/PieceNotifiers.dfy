/** The table of notifiers, tied piece by piece to the claim protocol. */
module PieceNotifiers {
  import opened Wrappers
  import opened Claims

  /** `tokio::sync::Notify`: the enabled waits on it, and those a `notify_waiters` has woken. */
  class Notify {
    ghost const id: nat
    var waiters: set<nat>
    var woken: set<nat>

    constructor (ghost id: nat)
      ensures this.id == id && waiters == {} && woken == {}
    {
      this.id := id;
      waiters, woken := {}, {};
    }

    method NotifyWaiters()
      modifies this
      ensures waiters == {} && woken == old(woken) + old(waiters)
    {
      waiters, woken := {}, woken + waiters;
    }
  }

  datatype Claim = Won | InFlight(notify: Notify)

  /** The task waits on notifier `id` and has still to be woken. */
  predicate Awaits(pc: Pc, id: nat) {
    Hooked(pc) && pc.hook == Hook(id, true, false)
  }

  class PieceNotifier {
    var notifiers: map<string, Notify>
    /** Every notifier ever published for a piece, by its id. */
    ghost var issued: map<string, seq<Notify>>

    constructor ()
      ensures notifiers == map[] && issued == map[]
    {
      notifiers, issued := map[], map[];
    }

    ghost function Issued(piece: string): seq<Notify>
      reads this
    {
      if piece in issued then issued[piece] else []
    }

    /** The notifier was published for the piece at some time. */
    ghost predicate Known(piece: string, notify: Notify)
      reads this
    {
      notify in Issued(piece)
    }

    /**
     The table holds for the piece what the protocol state says: the published
     notifier, who waits on it, and that an id stands for one notifier.
     */
    ghost predicate Shows(piece: string, s: State)
      reads this, set p | p in notifiers :: notifiers[p]
    {
      && s.next == |Issued(piece)| && (forall k | 0 <= k < s.next :: Issued(piece)[k].id == k)
      && (piece in notifiers <==> s.entry.Some?)
      && (piece in notifiers ==>
            var n := notifiers[piece];
            && Known(piece, n) && s.entry == Some(n.id)
            && forall i: nat :: i in n.waiters <==> i < |s.tasks| && Awaits(s.tasks[i], n.id))
    }

    /** A claim is the protocol's claiming step: exactly one claimer wins, every other gets the owner's notifier. */
    method ClaimPiece(piece: string, ghost s: State, ghost i: nat, ghost c: Choice) returns (r: Claim)
      requires Shows(piece, s) && NoLostWakeup(s) && i < |s.tasks| && s.tasks[i].Claiming?
      modifies this
      ensures Shows(piece, Step(s, Go(i, c)))
      ensures Step(s, Go(i, c)).tasks[i] == match r case Won => Owning case InFlight(notify) => Joining(notify.id)
      ensures r.InFlight? ==> Known(piece, r.notify)
      ensures r.Won? <==> piece !in old(notifiers)
      ensures r.Won? ==> piece in notifiers && fresh(notifiers[piece])
      ensures forall p | p != piece && p in old(notifiers) :: p in notifiers && notifiers[p] == old(notifiers)[p]
      ensures forall p, n: Notify | old(allocated(n)) && old(Known(p, n)) :: Known(p, n)
    {
      if piece in notifiers {
        return InFlight(notifiers[piece]);
      }
      var notify := new Notify(s.next);
      notifiers := notifiers[piece := notify];
      issued := issued[piece := Issued(piece) + [notify]];
      return Won;
    }

    /** Looking a notifier up tells a waiter what the protocol's look-up steps tell it. */
    method Get(piece: string, ghost s: State, ghost i: nat, ghost c: Choice) returns (r: Option<Notify>)
      requires Shows(piece, s) && i < |s.tasks|
      ensures s.tasks[i].Look? ==>
                && Shows(piece, Step(s, Go(i, c)))
                && Step(s, Go(i, c)).tasks[i] == match r case Some(notify) => Hooking(notify.id) case None => Missing(0)
      ensures s.tasks[i].Missing? && s.tasks[i].round % 2 == 1 ==>
                Shows(piece, Step(s, Go(i, c))) && (Step(s, Go(i, c)).tasks[i].Look? <==> r.Some?)
      ensures r.Some? ==> Known(piece, r.value)
    {
      return if piece in notifiers then Some(notifiers[piece]) else None;
    }

    /** A known notifier is the published one exactly if the protocol publishes its id. */
    lemma Identified(piece: string, notify: Notify, s: State)
      requires Shows(piece, s) && Known(piece, notify)
      ensures piece in notifiers && notifiers[piece] == notify <==> s.entry == Some(notify.id)
    {
      var all := Issued(piece);
      var k :| 0 <= k < |all| && all[k] == notify;
      if piece in notifiers {
        var m :| 0 <= m < |all| && all[m] == notifiers[piece];
      }
    }

    /** Enabling a wait on a notifier obtained earlier: it counts exactly if that notifier is still published. */
    method Enable(piece: string, notify: Notify, task: nat, ghost s: State, ghost c: Choice)
      requires Shows(piece, s) && Known(piece, notify)
      requires task < |s.tasks| && s.tasks[task] in {Hooking(notify.id), Joining(notify.id)}
      modifies notify
      ensures notify.waiters == old(notify.waiters) + {task} && notify.woken == old(notify.woken)
      ensures Shows(piece, Step(s, Go(task, c)))
    {
      Identified(piece, notify, s);
      notify.waiters := notify.waiters + {task};
    }

    /** A wait that ends without being woken is withdrawn. */
    method Withdraw(piece: string, notify: Notify, task: nat, ghost s: State, ghost c: Choice)
      requires Shows(piece, s) && Known(piece, notify)
      requires task < |s.tasks| && Hooked(s.tasks[task]) && s.tasks[task].hook.id == notify.id
      requires !Hooked(Step(s, Go(task, c)).tasks[task])
      modifies notify
      ensures notify.waiters == old(notify.waiters) - {task} && notify.woken == old(notify.woken)
      ensures Shows(piece, Step(s, Go(task, c)))
    {
      Identified(piece, notify, s);
      notify.waiters := notify.waiters - {task};
    }

    /** Removing is the protocol's release: unpublished, and woken is exactly who the protocol wakes. */
    method Remove(piece: string, ghost s: State, ghost i: nat, ghost c: Choice)
      requires Shows(piece, s) && i < |s.tasks| && (s.tasks[i].Release? || s.tasks[i].TimedOut?)
      modifies this`notifiers, if piece in notifiers then {notifiers[piece]} else {}
      ensures Shows(piece, Step(s, Go(i, c))) && notifiers == old(notifiers) - {piece}
      ensures piece in old(notifiers) ==>
                var notify := old(notifiers)[piece];
                && notify.waiters == {}
                && forall j: nat :: j in notify.woken <==>
                     j in old(notify.woken) || (j < |s.tasks| && Awaits(s.tasks[j], notify.id))
    {
      if piece in notifiers {
        var notify := notifiers[piece];
        notifiers := notifiers - {piece};
        notify.NotifyWaiters();
      }
    }
  }
}
