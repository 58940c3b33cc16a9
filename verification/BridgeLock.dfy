/**
 The task lock of the bridge: when it is right, and exactly when it is lost.
*/
module BridgeLock {
  import opened Wrappers
  import opened BridgeProtocol
  import opened Bridge

  ghost predicate Named(s: State, cat: Catalogue) {
    forall id :: id in s.pending ==> s.pending[id].command == cat(id) && cat(id).id == id
  }

  predicate PendingTask(s: State, id: string) { id in s.pending && IsTask(s.pending[id].command.cmd) }

  /**
   The lock is held exactly when one pending command is a task, there is never more
   than one such, and the lock carries its task id.
  */
  ghost predicate LockOk(s: State) {
    && (s.lock.Some? <==> exists id :: PendingTask(s, id))
    && (forall id :: PendingTask(s, id) ==> s.lock == s.pending[id].command.taskId && NonEmpty(s.lock))
    && (forall i, j :: PendingTask(s, i) && PendingTask(s, j) ==> i == j)
  }

  /** Everything but the pending table and the lock may change. */
  lemma LockUntouched(s: State, t: State)
    requires LockOk(s) && s.pending == t.pending && s.lock == t.lock
    ensures LockOk(t)
  {
    forall id
      ensures PendingTask(s, id) == PendingTask(t, id)
    {
    }
  }

  /** Letting go of a pending command, and of the lock if that command held it. */
  lemma LockAfterFinish(s: State, t: State, id: string)
    requires LockOk(s) && id in s.pending && t.pending == s.pending - {id}
    requires t.lock == if IsTask(s.pending[id].command.cmd) then None else s.lock
    ensures LockOk(t)
  {
    forall i
      ensures PendingTask(t, i) == (PendingTask(s, i) && i != id)
    {
    }
    if !IsTask(s.pending[id].command.cmd) && s.lock.Some? {
      var i :| PendingTask(s, i);
      assert PendingTask(t, i);
    }
  }

  /** Marking a pending command as acknowledged. */
  lemma LockAfterMark(s: State, t: State, id: string)
    requires LockOk(s) && id in s.pending && t.lock == s.lock
    requires t.pending == s.pending[id := Pending(s.pending[id].command, true, false)]
    ensures LockOk(t)
  {
    forall i
      ensures PendingTask(s, i) == PendingTask(t, i)
    {
    }
  }

  lemma AcceptedTask(s: State, now: int, fb: Feedback)
    requires fb.commandId in s.pending && fb.state == ROS_ACCEPTED && IsTask(s.pending[fb.commandId].command.cmd)
    ensures var t, id := OnFeedback(s, now, fb), fb.commandId;
      t.lock == s.lock && t.pending == s.pending[id := Pending(s.pending[id].command, true, false)]
  {
  }

  lemma AcceptedOther(s: State, now: int, fb: Feedback)
    requires fb.commandId in s.pending && fb.state == ROS_ACCEPTED && !IsTask(s.pending[fb.commandId].command.cmd)
    ensures OnFeedback(s, now, fb).lock == s.lock && OnFeedback(s, now, fb).pending == s.pending - {fb.commandId}
  {
  }

  lemma AcceptanceKeepsLock(s: State, now: int, fb: Feedback)
    requires LockOk(s) && fb.commandId in s.pending && fb.state == ROS_ACCEPTED
    ensures LockOk(OnFeedback(s, now, fb))
  {
    if IsTask(s.pending[fb.commandId].command.cmd) {
      AcceptedTask(s, now, fb);
      LockAfterMark(s, OnFeedback(s, now, fb), fb.commandId);
    } else {
      AcceptedOther(s, now, fb);
      LockAfterFinish(s, OnFeedback(s, now, fb), fb.commandId);
    }
  }

  /** What a feedback does to the pending table: at most its own entry is marked acked, or goes. */
  ghost predicate PendingMoves(s: State, t: State, id: string)
    requires id in s.pending
  {
    || t.pending == s.pending
    || t.pending == s.pending[id := s.pending[id].(acked := true, armed := false)]
    || t.pending == s.pending - {id}
  }

  lemma AcceptanceMovesPending(s: State, now: int, fb: Feedback)
    requires fb.commandId in s.pending && fb.state == ROS_ACCEPTED
    ensures PendingMoves(s, OnFeedback(s, now, fb), fb.commandId)
  {
    var id, p := fb.commandId, s.pending[fb.commandId];
    if !IsTask(p.command.cmd) {
      assert s.pending[id := Pending(p.command, true, false)] - {id} == s.pending - {id};
    }
  }

  lemma OtherFeedbackMovesPending(s: State, now: int, fb: Feedback)
    requires fb.commandId in s.pending && fb.state != ROS_ACCEPTED
    ensures PendingMoves(s, OnFeedback(s, now, fb), fb.commandId)
  {
  }

  lemma FeedbackKeepsNames(s: State, now: int, fb: Feedback, cat: Catalogue)
    requires Named(s, cat)
    ensures Named(OnFeedback(s, now, fb), cat)
  {
    if fb.commandId in s.pending {
      if fb.state == ROS_ACCEPTED {
        AcceptanceMovesPending(s, now, fb);
      } else {
        OtherFeedbackMovesPending(s, now, fb);
      }
    }
  }

  lemma FeedbackKeepsLock(s: State, now: int, fb: Feedback)
    requires LockOk(s)
    ensures LockOk(OnFeedback(s, now, fb))
  {
    if fb.commandId in s.pending {
      if fb.state == ROS_ACCEPTED {
        AcceptanceKeepsLock(s, now, fb);
      } else {
        OtherFeedbackKeepsLock(s, now, fb);
      }
    }
  }

  lemma OtherFeedbackKeepsLock(s: State, now: int, fb: Feedback)
    requires LockOk(s) && fb.commandId in s.pending && fb.state != ROS_ACCEPTED
    ensures LockOk(OnFeedback(s, now, fb))
  {
    var t := OnFeedback(s, now, fb);
    if t.pending == s.pending && t.lock == s.lock {
      LockUntouched(s, t);
    } else {
      LockAfterFinish(s, t, fb.commandId);
    }
  }

  lemma TimeoutKeepsLock(s: State, now: int, id: string)
    requires LockOk(s)
    ensures LockOk(OnTimeout(s, now, id))
  {
    if id in s.pending && !s.pending[id].acked {
      LockAfterFinish(s, OnTimeout(s, now, id), id);
    }
  }

  // --- exactly when the lock leaks ---------------------------------------------------------

  /**
   The one dangerous callback: a command goes out and takes over the pending entry of a
   task. That task held the lock, so the newcomer is no task, and nobody is left to let go.
  */
  predicate TakesOver(s: State, cfg: Config, boot: string, e: Event) {
    e.Receive? && e.delivered && HandsOver(s, cfg, boot, e.at, e.command) && PendingTask(s, e.command.id)
  }

  /** The lock is held, and no task is pending that could release it. */
  ghost predicate Leaked(s: State) { s.lock.Some? && forall id :: !PendingTask(s, id) }

  lemma WaitingKeepsLock(s: State, c: Command)
    requires LockOk(s) && !LockedOut(s, c) && !PendingTask(s, c.id)
    ensures LockOk(Waiting(s, c))
  {
    var t := Waiting(s, c);
    forall i
      ensures PendingTask(t, i) == (PendingTask(s, i) || (i == c.id && IsTask(c.cmd)))
    {
    }
    if IsTask(c.cmd) {
      assert PendingTask(t, c.id);
    }
  }

  lemma WaitingLeaks(s: State, c: Command)
    requires LockOk(s) && !LockedOut(s, c) && PendingTask(s, c.id)
    ensures Leaked(Waiting(s, c))
  {
    var t := Waiting(s, c);
    forall i
      ensures !PendingTask(t, i)
    {
      assert PendingTask(t, i) ==> i == c.id || PendingTask(s, i);
    }
  }

  lemma FeedbackKeepsLeak(s: State, now: int, fb: Feedback)
    requires Leaked(s)
    ensures Leaked(OnFeedback(s, now, fb)) && OnFeedback(s, now, fb).lock == s.lock
  {
    if fb.commandId in s.pending {
      assert !PendingTask(s, fb.commandId);
      if fb.state == ROS_ACCEPTED {
        AcceptanceMovesPending(s, now, fb);
      } else {
        OtherFeedbackMovesPending(s, now, fb);
      }
      SubsetHasNoTask(s, OnFeedback(s, now, fb));
    }
  }

  lemma SubsetHasNoTask(s: State, t: State)
    requires Leaked(s) && t.lock == s.lock
    requires forall id :: id in t.pending ==> id in s.pending && t.pending[id].command == s.pending[id].command
    ensures Leaked(t)
  {
    forall id
      ensures !PendingTask(t, id)
    {
      assert !PendingTask(s, id);
    }
  }

  lemma NonTaskKeepsLeak(s: State, c: Command)
    requires Leaked(s) && !IsTask(c.cmd)
    ensures Leaked(Waiting(s, c)) && Waiting(s, c).lock == s.lock
  {
    forall id
      ensures !PendingTask(Waiting(s, c), id)
    {
      assert !PendingTask(s, id);
    }
  }

  lemma SameTables(s: State, at: Reading, c: Command)
    ensures Known(s, at, c).pending == s.pending && Known(s, at, c).lock == s.lock
  {
  }

  lemma DeliveryExactly(s: State, cfg: Config, boot: string, at: Reading, c: Command)
    requires LockOk(s) && HandsOver(s, cfg, boot, at, c)
    ensures var t := OnCommand(s, cfg, boot, at, c, true); if PendingTask(s, c.id) then Leaked(t) else LockOk(t)
  {
    var known, fb := Known(s, at, c), StubFeedback(c, cfg.stubReply);
    SameTables(s, at, c);
    LockUntouched(s, known);
    assert PendingTask(known, c.id) == PendingTask(s, c.id);
    if PendingTask(s, c.id) {
      WaitingLeaks(known, c);
      FeedbackKeepsLeak(Waiting(known, c), at.registered, fb);
    } else {
      WaitingKeepsLock(known, c);
      FeedbackKeepsLock(Waiting(known, c), at.registered, fb);
    }
  }

  lemma ReceiptExactly(s: State, cfg: Config, boot: string, e: Event)
    requires LockOk(s) && e.Receive?
    ensures LockOk(Apply(s, cfg, boot, e)) || TakesOver(s, cfg, boot, e)
    ensures TakesOver(s, cfg, boot, e) ==> Leaked(Apply(s, cfg, boot, e))
  {
    var Receive(at, c, delivered) := e;
    if HandsOver(s, cfg, boot, at, c) && delivered {
      DeliveryExactly(s, cfg, boot, at, c);
    } else {
      SameTables(s, at, c);
      LockUntouched(s, Apply(s, cfg, boot, e));
    }
  }

  /** One callback, from a sound lock: sound again exactly if it was no take-over; otherwise the lock has leaked. */
  lemma StepExactly(s: State, cfg: Config, boot: string, e: Event)
    requires LockOk(s)
    ensures LockOk(Apply(s, cfg, boot, e)) <==> !TakesOver(s, cfg, boot, e)
    ensures TakesOver(s, cfg, boot, e) ==> Leaked(Apply(s, cfg, boot, e))
  {
    match e
    case Receive(at, c, delivered) => ReceiptExactly(s, cfg, boot, e);
    case Hear(now, fb) => FeedbackKeepsLock(s, now, fb);
    case Fire(now, id) => TimeoutKeepsLock(s, now, id);
  }

  /** A leaked lock is never released again, and no task command is handed over any more. */
  lemma LeakStays(s: State, cfg: Config, boot: string, e: Event)
    requires Leaked(s)
    ensures Leaked(Apply(s, cfg, boot, e)) && Apply(s, cfg, boot, e).lock == s.lock
    ensures e.Receive? && IsTask(e.command.cmd) ==> !HandsOver(s, cfg, boot, e.at, e.command)
  {
    match e
    case Receive(at, c, delivered) =>
      var known := Known(s, at, c);
      SameTables(s, at, c);
      SubsetHasNoTask(s, known);
      if HandsOver(s, cfg, boot, at, c) && delivered {
        NonTaskKeepsLeak(known, c);
        FeedbackKeepsLeak(Waiting(known, c), at.registered, StubFeedback(c, cfg.stubReply));
      } else {
        SubsetHasNoTask(s, Apply(s, cfg, boot, e));
      }
    case Hear(now, fb) => FeedbackKeepsLeak(s, now, fb);
    case Fire(now, id) =>
      assert !PendingTask(s, id);
      SubsetHasNoTask(s, OnTimeout(s, now, id));
  }

  ghost predicate TakenOver(cfg: Config, boot: string, events: seq<Event>) {
    exists i :: 0 <= i < |events| && TakesOver(Session(cfg, boot, events[..i]), cfg, boot, events[i])
  }

  /**
   Exactly when the lock is right after a session: when no command in it took over the
   pending entry of a task. After a take-over it has leaked.
  */
  lemma {:induction false} LockExactly(cfg: Config, boot: string, events: seq<Event>)
    ensures LockOk(Session(cfg, boot, events)) <==> !TakenOver(cfg, boot, events)
    ensures TakenOver(cfg, boot, events) ==> Leaked(Session(cfg, boot, events))
  {
    if events != [] {
      var n := |events| - 1;
      LockExactly(cfg, boot, events[..n]);
      TakenOverGrows(cfg, boot, events);
      if TakenOver(cfg, boot, events[..n]) {
        LeakStays(Session(cfg, boot, events[..n]), cfg, boot, events[n]);
      } else {
        StepExactly(Session(cfg, boot, events[..n]), cfg, boot, events[n]);
      }
      LeakedIsNotOk(Session(cfg, boot, events));
    }
  }

  lemma LeakedIsNotOk(s: State)
    ensures !(Leaked(s) && LockOk(s))
  {
  }

  lemma TakenOverGrows(cfg: Config, boot: string, events: seq<Event>)
    requires events != []
    ensures var n := |events| - 1;
      TakenOver(cfg, boot, events) <==>
        TakenOver(cfg, boot, events[..n]) || TakesOver(Session(cfg, boot, events[..n]), cfg, boot, events[n])
  {
    var n := |events| - 1;
    forall i | 0 <= i < n
      ensures events[..n][..i] == events[..i]
    {
    }
  }

  lemma LeakOutlasts(cfg: Config, boot: string, events: seq<Event>, e: Event)
    requires Leaked(Session(cfg, boot, events))
    ensures Leaked(Session(cfg, boot, events + [e]))
    ensures Session(cfg, boot, events + [e]).lock == Session(cfg, boot, events).lock
  {
    assert (events + [e])[..|events + [e]| - 1] == events;
    LeakStays(Session(cfg, boot, events), cfg, boot, e);
  }

  /** For ever: once leaked, the lock keeps its value in every continuation of the session. */
  lemma {:induction false} LeakIsPermanent(cfg: Config, boot: string, events: seq<Event>, later: seq<Event>)
    requires Leaked(Session(cfg, boot, events))
    ensures Leaked(Session(cfg, boot, events + later))
    ensures Session(cfg, boot, events + later).lock == Session(cfg, boot, events).lock
  {
    if later == [] {
      assert events + later == events;
    } else {
      var n := |later| - 1;
      LeakIsPermanent(cfg, boot, events, later[..n]);
      LeakOutlasts(cfg, boot, events + later[..n], later[n]);
      assert events + later[..n] + [later[n]] == events + later;
    }
  }

  // --- one id, one command -----------------------------------------------------------------

  lemma CommandKeepsNames(
    s: State, cfg: Config, boot: string, at: Reading, c: Command, delivered: bool, cat: Catalogue)
    requires Named(s, cat) && cat(c.id) == c
    ensures Named(OnCommand(s, cfg, boot, at, c, delivered), cat)
  {
    var known := Known(s, at, c);
    SameTables(s, at, c);
    if HandsOver(s, cfg, boot, at, c) && delivered {
      assert Named(Waiting(known, c), cat);
      FeedbackKeepsNames(Waiting(known, c), at.registered, StubFeedback(c, cfg.stubReply), cat);
    }
  }

  lemma {:induction false} AlwaysNamed(cfg: Config, boot: string, events: seq<Event>, cat: Catalogue)
    requires forall i :: 0 <= i < |events| ==> Follows(cat, events[i])
    ensures Named(Session(cfg, boot, events), cat)
  {
    if events != [] {
      var n := |events| - 1;
      AlwaysNamed(cfg, boot, events[..n], cat);
      var s := Session(cfg, boot, events[..n]);
      match events[n]
      case Receive(at, c, delivered) => CommandKeepsNames(s, cfg, boot, at, c, delivered, cat);
      case Hear(now, fb) => FeedbackKeepsNames(s, now, fb, cat);
      case Fire(now, id) =>
    }
  }

  /** The task lock is right after every callback of every session in which one id names one command. */
  lemma {:induction false} LockInvariant(cfg: Config, boot: string, events: seq<Event>, cat: Catalogue)
    requires forall i :: 0 <= i < |events| ==> Follows(cat, events[i])
    ensures LockOk(Session(cfg, boot, events)) && Named(Session(cfg, boot, events), cat)
  {
    AlwaysNamed(cfg, boot, events, cat);
    if events != [] {
      var n := |events| - 1;
      LockInvariant(cfg, boot, events[..n], cat);
      StepExactly(Session(cfg, boot, events[..n]), cfg, boot, events[n]);
      assert Follows(cat, events[n]);
    }
  }

  /**
   A take-over does happen when ids are reused: a task is accepted under an id, its record
   runs out after 300 s, and a stop command comes under the same id. Whatever the session
   goes on with, the lock stays held by nobody.
  */
  lemma ReusedIdLeaksLock(boot: string, task: Command, stop: Command, later: seq<Event>)
    requires task.id == stop.id && task.cmd == Patrol && stop.cmd == StopMotion
    requires ValidateReceived(task, boot, Config(false, Silent, {Patrol, StopMotion}), 0).None?
    requires ValidateReceived(stop, boot, Config(false, Silent, {Patrol, StopMotion}), DEDUP_TTL + 1).None?
    ensures var once := DEDUP_TTL + 1;
      var events := [
        Receive(Reading(0, 0, 0, 0), task, true), Hear(0, Feedback(task.id, ROS_ACCEPTED, None, None, None, None)),
        Receive(Reading(once, once, once, once), stop, true)];
      Leaked(Session(Config(false, Silent, {Patrol, StopMotion}), boot, events + later))
  {
    var cfg, once := Config(false, Silent, {Patrol, StopMotion}), DEDUP_TTL + 1;
    var heard := Hear(0, Feedback(task.id, ROS_ACCEPTED, None, None, None, None));
    var events :=
      [Receive(Reading(0, 0, 0, 0), task, true), heard, Receive(Reading(once, once, once, once), stop, true)];
    var first := [events[0]];
    assert first[..|first| - 1] == [] && Session(cfg, boot, []) == BOOTED;
    assert events[..2] == [events[0], heard] && events[..2][..1] == first;
    var s1 := Session(cfg, boot, first);
    assert s1 == Apply(BOOTED, cfg, boot, events[0]);
    var s2 := Session(cfg, boot, events[..2]);
    assert s2 == Apply(s1, cfg, boot, heard);
    assert s2.pending == map[task.id := Pending(task, true, false)] && s2.lock == task.taskId;
    assert TakesOver(s2, cfg, boot, events[2]);
    LockExactly(cfg, boot, events);
    LeakIsPermanent(cfg, boot, events, later);
  }
}
