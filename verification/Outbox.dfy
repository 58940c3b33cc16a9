/**
 The command outbox: one row per durable command, taken up by the dispatcher until it is
 published or has expired. Times are microseconds.
*/
module Outbox {
  import opened Wrappers

  const SECOND := 1_000_000
  const DEFAULT_TTL := 30 * SECOND

  datatype Status = PENDING | PUBLISHED | EXPIRED

  datatype Row = Row(
    schemaValid: bool, expiresAt: int, status: Status, attempts: nat, availableAt: int, publishedAt: Option<int>)

  /**
   One dispatcher cycle that finds the row: when it selects, checks the expiry and
   finishes; whether the broker confirmed the publish, and whether the transaction committed.
  */
  datatype Cycle = Cycle(picked: int, checked: int, done: int, confirmed: bool, committed: bool)

  datatype Outcome = Sent | TooLate | Failed

  /** publish_command gets as far as handing the message to the MQTT client, which may deliver it at any time. */
  predicate PassesChecks(schemaValid: bool, expiresAt: int, checked: int) { schemaValid && checked < expiresAt }

  /** publish_command: validation comes before the expiry check, the wait for the broker's confirmation last. */
  function PublishCommand(schemaValid: bool, expiresAt: int, checked: int, confirmed: bool): (o: Outcome)
    ensures o == Sent <==> PassesChecks(schemaValid, expiresAt, checked) && confirmed
  {
    if !schemaValid then Failed
    else if expiresAt <= checked then TooLate
    else if confirmed then Sent
    else Failed
  }

  function Pow2(n: nat): nat { if n == 0 then 1 else 2 * Pow2(n - 1) }

  /** The wait after the n-th failed attempt. */
  function Backoff(attempts: nat): int {
    var p := Pow2(if attempts < 5 then attempts else 5);
    (if p < 30 then p else 30) * SECOND
  }

  predicate Selected(row: Row, c: Cycle) { row.status == PENDING && row.availableAt <= c.picked }

  function OutcomeOf(row: Row, c: Cycle): Outcome {
    PublishCommand(row.schemaValid, row.expiresAt, c.checked, c.confirmed)
  }

  /** The row after a cycle; a rolled-back one leaves it as it was. */
  function After(row: Row, c: Cycle): Row {
    if !Selected(row, c) || !c.committed then row
    else
      match OutcomeOf(row, c)
      case Sent => row.(status := PUBLISHED, attempts := row.attempts + 1, publishedAt := Some(c.done))
      case TooLate => row.(status := EXPIRED)
      case Failed => row.(attempts := row.attempts + 1, availableAt := c.done + Backoff(row.attempts + 1))
  }

  datatype Lifecycle = QUEUED | CMD_PUBLISHED | CMD_EXPIRED

  class OutboxEvent {
    const schemaValid: bool
    const expiresAt: int
    const createdAt: int
    var status: Status
    var attempts: nat
    var availableAt: int
    var publishedAt: Option<int>
    /** The command row with this aggregate id. */
    var lifecycle: Lifecycle

    constructor (schemaValid: bool, expiresAt: int, now: int)
      ensures Value() == Row(schemaValid, expiresAt, PENDING, 0, now, None) && createdAt == now && InStep()
    {
      this.schemaValid, this.expiresAt, createdAt := schemaValid, expiresAt, now;
      status, attempts, availableAt, publishedAt, lifecycle := PENDING, 0, now, None, QUEUED;
    }

    ghost function Value(): Row
      reads this
    {
      Row(schemaValid, expiresAt, status, attempts, availableAt, publishedAt)
    }

    /** The command's lifecycle tells what became of the outbox row. */
    ghost predicate InStep()
      reads this
    {
      && (status == PUBLISHED <==> lifecycle == CMD_PUBLISHED)
      && (status == EXPIRED <==> lifecycle == CMD_EXPIRED)
    }

    /** The body of the transaction, for a row the query selected. */
    method Dispatch(c: Cycle)
      requires Selected(Value(), c) && InStep()
      modifies this
      ensures Value() == After(old(Value()), c) && InStep()
    {
      var before, wasAttempts, wasAvailable, wasPublished := status, attempts, availableAt, publishedAt;
      var wasLifecycle := lifecycle;
      match PublishCommand(schemaValid, expiresAt, c.checked, c.confirmed) {
        case Sent =>
          status, publishedAt, attempts := PUBLISHED, Some(c.done), attempts + 1;
          lifecycle := CMD_PUBLISHED;
        case TooLate =>
          status, lifecycle := EXPIRED, CMD_EXPIRED;
        case Failed =>
          attempts := attempts + 1;
          availableAt := c.done + Backoff(attempts);
      }
      if !c.committed {
        status, attempts, availableAt, publishedAt := before, wasAttempts, wasAvailable, wasPublished;
        lifecycle := wasLifecycle;
      }
    }
  }

  predicate Due(row: OutboxEvent, now: int)
    reads row
  {
    row.status == PENDING && row.availableAt <= now
  }

  /** The query: an oldest row that is due, if any is. */
  method SelectOldest(rows: seq<OutboxEvent>, now: int) returns (k: Option<nat>)
    ensures k.None? ==> forall i :: 0 <= i < |rows| ==> !Due(rows[i], now)
    ensures k.Some? ==> k.value < |rows| && Due(rows[k.value], now)
    ensures k.Some? ==>
      forall i :: 0 <= i < |rows| && Due(rows[i], now) ==> rows[k.value].createdAt <= rows[i].createdAt
  {
    k := None;
    for n := 0 to |rows|
      invariant k.None? ==> forall i :: 0 <= i < n ==> !Due(rows[i], now)
      invariant k.Some? ==> k.value < n && Due(rows[k.value], now)
      invariant k.Some? ==> forall i :: 0 <= i < n && Due(rows[i], now) ==> rows[k.value].createdAt <= rows[i].createdAt
    {
      if Due(rows[n], now) && (k.None? || rows[n].createdAt < rows[k.value].createdAt) {
        k := Some(n);
      }
    }
  }

  /** One turn of the outbox loop: the oldest due row takes its step, no other row changes. */
  method OutboxTurn(rows: seq<OutboxEvent>, c: Cycle) returns (k: Option<nat>)
    requires forall i :: 0 <= i < |rows| ==> rows[i].InStep()
    modifies rows
    ensures k.None? <==> forall i :: 0 <= i < |rows| ==> !old(Due(rows[i], c.picked))
    ensures k.Some? ==> k.value < |rows| && rows[k.value].Value() == After(old(rows[k.value].Value()), c)
    ensures k.Some? ==> old(Due(rows[k.value], c.picked))
    ensures forall i :: 0 <= i < |rows| && (k.None? || rows[i] != rows[k.value]) ==>
      rows[i].Value() == old(rows[i].Value())
    ensures forall i :: 0 <= i < |rows| ==> rows[i].InStep()
  {
    k := SelectOldest(rows, c.picked);
    if k.Some? {
      rows[k.value].Dispatch(c);
    }
  }

  // --- runs --------------------------------------------------------------------------------

  /** The row lock makes the cycles on one row follow one another, whoever runs them. */
  ghost predicate Clocked(run: seq<Cycle>, from: int) {
    && (forall i :: 0 <= i < |run| ==> from <= run[i].picked <= run[i].checked <= run[i].done)
    && (forall i, j :: 0 <= i < j < |run| ==> run[i].done <= run[j].picked)
  }

  function AfterAll(row: Row, run: seq<Cycle>): Row {
    if run == [] then row else After(AfterAll(row, run[..|run| - 1]), run[|run| - 1])
  }

  /** Cycle i attempted a publish that failed, and the failure was recorded. */
  predicate FailsAt(row: Row, run: seq<Cycle>, i: nat)
    requires i < |run|
  {
    var before := AfterAll(row, run[..i]);
    Selected(before, run[i]) && run[i].committed && OutcomeOf(before, run[i]) == Failed
  }

  function Failures(row: Row, run: seq<Cycle>): nat {
    if run == [] then 0
    else Failures(row, run[..|run| - 1]) + if FailsAt(row, run, |run| - 1) then 1 else 0
  }

  /** The sum of the first n waits. */
  function Waits(n: nat): int { if n == 0 then 0 else Waits(n - 1) + Backoff(n) }

  function New(schemaValid: bool, issued: int, ttl: int): Row {
    Row(schemaValid, issued + ttl, PENDING, 0, issued, None)
  }

  lemma PrefixClocked(run: seq<Cycle>, from: int, n: nat)
    requires Clocked(run, from) && n <= |run|
    ensures Clocked(run[..n], from)
  {
  }

  /** A pending row's attempts are its recorded failures, and it is due no earlier than all their waits. */
  lemma {:induction false} AttemptsAreFailures(schemaValid: bool, issued: int, ttl: int, run: seq<Cycle>)
    requires Clocked(run, issued)
    ensures var row := AfterAll(New(schemaValid, issued, ttl), run);
      && row.schemaValid == schemaValid && row.expiresAt == issued + ttl
      && row.attempts == Failures(New(schemaValid, issued, ttl), run) + (if row.status == PUBLISHED then 1 else 0)
      && (row.status == PENDING ==> row.availableAt >= issued + Waits(row.attempts))
  {
    if run != [] {
      var n := |run| - 1;
      PrefixClocked(run, issued, n);
      AttemptsAreFailures(schemaValid, issued, ttl, run[..n]);
    }
  }

  /** From one recorded failure to any later moment, all the waits in between have gone into the row. */
  lemma {:induction false} DueAfterFailure(row: Row, run: seq<Cycle>, from: int, i: nat, n: nat)
    requires Clocked(run, from) && i < n <= |run| && FailsAt(row, run, i)
    requires AfterAll(row, run[..n]).status == PENDING
    ensures AfterAll(row, run[..n]).availableAt
      >= run[i].done + Waits(AfterAll(row, run[..n]).attempts) - Waits(AfterAll(row, run[..i]).attempts)
    decreases n
  {
    assert run[..n][..n - 1] == run[..n - 1];
    if n > i + 1 {
      DueAfterFailure(row, run, from, i, n - 1);
      assert run[i].done <= run[n - 1].picked;
    }
  }

  /**
   Retry spacing: the k-th recorded failure (k - 1 attempts before it) comes no earlier
   than the first plus the waits between them.
  */
  lemma FailuresAreSpaced(schemaValid: bool, issued: int, ttl: int, run: seq<Cycle>, i: nat, j: nat)
    requires Clocked(run, issued) && i < j < |run|
    requires var row := New(schemaValid, issued, ttl); FailsAt(row, run, i) && FailsAt(row, run, j)
    requires Failures(New(schemaValid, issued, ttl), run[..i]) == 0
    ensures run[j].picked >= run[i].done + Waits(Failures(New(schemaValid, issued, ttl), run[..j]))
  {
    var row := New(schemaValid, issued, ttl);
    PrefixClocked(run, issued, i);
    PrefixClocked(run, issued, j);
    AttemptsAreFailures(schemaValid, issued, ttl, run[..i]);
    AttemptsAreFailures(schemaValid, issued, ttl, run[..j]);
    DueAfterFailure(row, run, issued, i, j);
  }

  /** With a valid payload, the last recorded failure still beat the expiry. */
  lemma {:induction false} FailuresFitLifetime(issued: int, ttl: int, run: seq<Cycle>)
    requires Clocked(run, issued)
    ensures var k := Failures(New(true, issued, ttl), run); k == 0 || Waits(k - 1) < ttl
  {
    if run != [] {
      var n := |run| - 1;
      PrefixClocked(run, issued, n);
      FailuresFitLifetime(issued, ttl, run[..n]);
      AttemptsAreFailures(true, issued, ttl, run[..n]);
    }
  }

  /** The run that fails as often as it can: each cycle the instant the row is due. */
  function Unlucky(issued: int, k: nat): seq<Cycle> {
    if k == 0 then []
    else
      var t := issued + Waits(k - 1);
      Unlucky(issued, k - 1) + [Cycle(t, t, t, false, true)]
  }

  lemma WaitsGrow(m: nat, n: nat)
    requires m <= n
    ensures Waits(m) <= Waits(n)
    decreases n - m
  {
    if m < n {
      WaitsGrow(m + 1, n);
    }
  }

  lemma {:induction false} UnluckyClocked(issued: int, k: nat)
    ensures |Unlucky(issued, k)| == k && Clocked(Unlucky(issued, k), issued)
    ensures forall i :: 0 <= i < k ==> Unlucky(issued, k)[i].done <= issued + Waits(k - 1)
  {
    if k > 0 {
      WaitsGrow(if k > 1 then k - 2 else 0, k - 1);
      WaitsGrow(0, k - 1);
      UnluckyClocked(issued, k - 1);
    }
  }

  lemma LastCycle(row: Row, run: seq<Cycle>, c: Cycle)
    ensures AfterAll(row, run + [c]) == After(AfterAll(row, run), c)
    ensures Failures(row, run + [c]) == Failures(row, run) + if FailsAt(row, run + [c], |run|) then 1 else 0
    ensures (run + [c])[..|run|] == run
  {
    assert (run + [c])[..|run + [c]| - 1] == run;
  }

  /** A cycle at the instant the row is due, still in time, and not confirmed. */
  lemma DueAndRefused(row: Row, c: Cycle)
    requires row.status == PENDING && row.schemaValid && row.availableAt <= c.picked
    requires c.checked < row.expiresAt && !c.confirmed && c.committed
    ensures Selected(row, c) && OutcomeOf(row, c) == Failed
    ensures After(row, c) == row.(attempts := row.attempts + 1, availableAt := c.done + Backoff(row.attempts + 1))
  {
  }

  lemma OneMoreFailure(row: Row, run: seq<Cycle>, c: Cycle)
    requires var due := AfterAll(row, run);
      due.status == PENDING && due.schemaValid && due.availableAt <= c.picked && c.checked < due.expiresAt
    requires !c.confirmed && c.committed
    ensures var due := AfterAll(row, run);
      AfterAll(row, run + [c]) == due.(attempts := due.attempts + 1, availableAt := c.done + Backoff(due.attempts + 1))
    ensures Failures(row, run + [c]) == Failures(row, run) + 1
  {
    LastCycle(row, run, c);
    DueAndRefused(AfterAll(row, run), c);
  }

  lemma {:induction false} FailsAgain(issued: int, ttl: int, k: nat)
    requires Waits(k) < ttl
    requires AfterAll(New(true, issued, ttl), Unlucky(issued, k))
      == Row(true, issued + ttl, PENDING, k, issued + Waits(k), None)
    ensures AfterAll(New(true, issued, ttl), Unlucky(issued, k + 1))
      == Row(true, issued + ttl, PENDING, k + 1, issued + Waits(k + 1), None)
    ensures Failures(New(true, issued, ttl), Unlucky(issued, k + 1))
      == Failures(New(true, issued, ttl), Unlucky(issued, k)) + 1
  {
    var t := issued + Waits(k);
    var c := Cycle(t, t, t, false, true);
    OneMoreFailure(New(true, issued, ttl), Unlucky(issued, k), c);
    assert Unlucky(issued, k + 1) == Unlucky(issued, k) + [c];
  }

  lemma {:induction false} UnluckyFails(issued: int, ttl: int, k: nat)
    requires k == 0 || Waits(k - 1) < ttl
    ensures AfterAll(New(true, issued, ttl), Unlucky(issued, k))
      == Row(true, issued + ttl, PENDING, k, issued + Waits(k), None)
    ensures Failures(New(true, issued, ttl), Unlucky(issued, k)) == k
  {
    if k > 0 {
      WaitsGrow(if k > 1 then k - 2 else 0, k - 1);
      UnluckyFails(issued, ttl, k - 1);
      FailsAgain(issued, ttl, k - 1);
    }
  }

  /** How many failed attempts a lifetime leaves room for, exactly. */
  lemma FailuresExactly(issued: int, ttl: int, k: nat)
    ensures (exists run :: Clocked(run, issued) && Failures(New(true, issued, ttl), run) == k)
      <==> (k == 0 || Waits(k - 1) < ttl)
  {
    if k == 0 || Waits(k - 1) < ttl {
      UnluckyClocked(issued, k);
      UnluckyFails(issued, ttl, k);
    }
    forall run | Clocked(run, issued)
      ensures var n := Failures(New(true, issued, ttl), run); n == 0 || Waits(n - 1) < ttl
    {
      FailuresFitLifetime(issued, ttl, run);
    }
  }

  /** The waits are 2, 4, 8 and 16 s and then 30 s each; this is their sum, in microseconds. */
  function SumOfWaits(n: nat): int {
    if n == 0 then 0
    else if n == 1 then 2_000_000
    else if n == 2 then 6_000_000
    else if n == 3 then 14_000_000
    else (n - 3) * 30_000_000
  }

  lemma {:induction false} WaitsInFull(n: nat)
    ensures Waits(n) == SumOfWaits(n)
  {
    if n > 0 {
      WaitsInFull(n - 1);
      assert Pow2(1) == 2 && Pow2(2) == 4 && Pow2(3) == 8 && Pow2(4) == 16 && Pow2(5) == 32;
    }
  }

  /** Failures in numbers: how many fit into a lifetime, and how far the k-th is from the first. */
  lemma {:induction false} FailuresInNumbers(issued: int, ttl: int, k: nat)
    ensures (exists run :: Clocked(run, issued) && Failures(New(true, issued, ttl), run) == k)
      <==> (k == 0 || SumOfWaits(k - 1) < ttl)
  {
    FailuresExactly(issued, ttl, k);
    if k > 0 {
      WaitsInFull(k - 1);
    }
  }

  /** The default 30 s: the waits are 2, 4, 8 and 16 s, so four failures and no fifth. */
  lemma DefaultAllowsFour(issued: int, k: nat)
    ensures (exists run :: Clocked(run, issued) && Failures(New(true, issued, DEFAULT_TTL), run) == k) <==> k <= 4
  {
    FailuresExactly(issued, DEFAULT_TTL, k);
    assert Pow2(1) == 2 && Pow2(2) == 4 && Pow2(3) == 8 && Pow2(4) == 16;
    assert Waits(1) == 2 * SECOND && Waits(2) == 6 * SECOND && Waits(3) == 14 * SECOND;
    assert Waits(4) == 30 * SECOND;
    WaitsGrow(if k <= 4 then 0 else 4, if k <= 4 then 4 else k - 1);
  }

  // --- how a row ends ----------------------------------------------------------------------

  /** Published and expired rows are never taken up again. */
  lemma {:induction false} EndedStays(row: Row, run: seq<Cycle>)
    requires row.status != PENDING
    ensures AfterAll(row, run) == row
  {
    if run != [] {
      EndedStays(row, run[..|run| - 1]);
    }
  }

  /** A pending row is due within 30 s of the last cycle (or of its creation). */
  lemma {:induction false} DueWithinThirty(schemaValid: bool, issued: int, ttl: int, run: seq<Cycle>)
    requires Clocked(run, issued)
    ensures AfterAll(New(schemaValid, issued, ttl), run).availableAt
      <= (if run == [] then issued else run[|run| - 1].done + 30 * SECOND)
  {
    if run != [] {
      var n := |run| - 1;
      PrefixClocked(run, issued, n);
      DueWithinThirty(schemaValid, issued, ttl, run[..n]);
      assert n > 0 ==> run[n - 1].done <= run[n].picked;
    }
  }

  /**
   Every valid row ends: after any run, a committed cycle 30 s later and past the expiry
   leaves it published or expired. An invalid payload is retried for ever.
  */
  lemma RowEndsExactlyIfValid(schemaValid: bool, issued: int, ttl: int, run: seq<Cycle>, last: Cycle)
    requires Clocked(run + [last], issued) && last.committed && last.picked >= issued + ttl
    requires run != [] ==> last.picked >= run[|run| - 1].done + 30 * SECOND
    ensures (AfterAll(New(schemaValid, issued, ttl), run + [last]).status != PENDING) <==> schemaValid
  {
    var all := run + [last];
    assert all[..|run|] == run;
    PrefixClocked(all, issued, |run|);
    DueWithinThirty(schemaValid, issued, ttl, run);
    AttemptsAreFailures(schemaValid, issued, ttl, run);
    if !schemaValid {
      InvalidStaysPending(issued, ttl, run);
    }
  }

  lemma {:induction false} InvalidStaysPending(issued: int, ttl: int, run: seq<Cycle>)
    ensures AfterAll(New(false, issued, ttl), run).status == PENDING
    ensures !AfterAll(New(false, issued, ttl), run).schemaValid
  {
    if run != [] {
      InvalidStaysPending(issued, ttl, run[..|run| - 1]);
    }
  }

  // --- how often the broker confirms -------------------------------------------------------

  predicate SendsAt(row: Row, run: seq<Cycle>, i: nat)
    requires i < |run|
  {
    var before := AfterAll(row, run[..i]);
    Selected(before, run[i]) && OutcomeOf(before, run[i]) == Sent
  }

  /** Cycle i handed the command to the MQTT client, confirmed or not, committed or not. */
  predicate HandsToClient(row: Row, run: seq<Cycle>, i: nat)
    requires i < |run|
  {
    var before := AfterAll(row, run[..i]);
    Selected(before, run[i]) && PassesChecks(before.schemaValid, before.expiresAt, run[i].checked)
  }

  function CommittedSends(row: Row, run: seq<Cycle>): nat {
    if run == [] then 0
    else
      var n := |run| - 1;
      CommittedSends(row, run[..n]) + if SendsAt(row, run, n) && run[n].committed then 1 else 0
  }

  /**
   A published row was confirmed by exactly one committed cycle, and every other confirmation
   was rolled back. Attempts that were not confirmed may reach the broker as well.
  */
  lemma {:induction false} OneCommittedSend(row: Row, run: seq<Cycle>)
    requires row.status == PENDING
    ensures CommittedSends(row, run) == if AfterAll(row, run).status == PUBLISHED then 1 else 0
  {
    if run != [] {
      OneCommittedSend(row, run[..|run| - 1]);
    }
  }

  /** And the row is dated with the end of that cycle. */
  lemma {:induction false} PublishedWhenSent(row: Row, run: seq<Cycle>)
    requires row.status == PENDING && AfterAll(row, run).status == PUBLISHED
    ensures exists i :: 0 <= i < |run| && SendsAt(row, run, i) && run[i].committed
                        && AfterAll(row, run).publishedAt == Some(run[i].done)
  {
    var n := |run| - 1;
    if AfterAll(row, run[..n]).status == PUBLISHED {
      PublishedWhenSent(row, run[..n]);
      var i :| 0 <= i < n && SendsAt(row, run[..n], i) && run[..n][i].committed
               && AfterAll(row, run[..n]).publishedAt == Some(run[..n][i].done);
      assert run[..n][..i] == run[..i];
      assert SendsAt(row, run, i);
    } else {
      assert SendsAt(row, run, n);
    }
  }

  /** An attempt that is not confirmed in 3 s is followed by another: the MQTT client is handed the command twice. */
  lemma UnconfirmedSendRepeats(issued: int)
    ensures var first := Cycle(issued, issued, issued + 3 * SECOND, false, true);
      var second := Cycle(issued + 5 * SECOND, issued + 5 * SECOND, issued + 5 * SECOND, true, true);
      var row := New(true, issued, DEFAULT_TTL);
      && Clocked([first, second], issued)
      && HandsToClient(row, [first, second], 0) && HandsToClient(row, [first, second], 1)
  {
    var first := Cycle(issued, issued, issued + 3 * SECOND, false, true);
    var second := Cycle(issued + 5 * SECOND, issued + 5 * SECOND, issued + 5 * SECOND, true, true);
    var run := [first, second];
    assert run[..0] == [] && run[..1] == [first] && run[..1][..0] == [];
    assert AfterAll(New(true, issued, DEFAULT_TTL), run[..1]) == After(New(true, issued, DEFAULT_TTL), first);
  }

  /** A confirmation that is rolled back is followed by another: the broker sees the command twice. */
  lemma RolledBackSendRepeats(issued: int)
    ensures var lost := Cycle(issued, issued, issued, true, false);
      var row := New(true, issued, DEFAULT_TTL);
      && Clocked([lost, lost.(committed := true)], issued)
      && SendsAt(row, [lost, lost.(committed := true)], 0) && SendsAt(row, [lost, lost.(committed := true)], 1)
  {
    var lost := Cycle(issued, issued, issued, true, false);
    var run := [lost, lost.(committed := true)];
    assert run[..0] == [] && run[..1] == [lost] && [lost][..0] == [];
    assert AfterAll(New(true, issued, DEFAULT_TTL), []) == New(true, issued, DEFAULT_TTL);
    assert AfterAll(New(true, issued, DEFAULT_TTL), run[..1]) == After(New(true, issued, DEFAULT_TTL), lost);
  }
}
