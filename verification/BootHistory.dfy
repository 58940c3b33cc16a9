/** Boot rows as a function of history: of the attempts of a vehicle that were heard. */
module BootHistory {
  import opened Wrappers
  import opened BootSessions

  /** The attempts that were let in and committed. */
  function Heard(attempts: seq<Attempt>): seq<Attempt> {
    if attempts == [] then []
    else
      var n := |attempts| - 1;
      var a := attempts[n];
      if a.commits && Admits(After(attempts[..n]), a.boot, a.kind) then Heard(attempts[..n]) + [a]
      else Heard(attempts[..n])
  }

  ghost predicate Mentions(heard: seq<Attempt>, b: BootId) { exists i :: 0 <= i < |heard| && heard[i].boot == b }

  /** The first and the last time the boot was heard. */
  ghost predicate Spans(heard: seq<Attempt>, b: BootId, first: nat, last: nat) {
    && first <= last < |heard| && heard[first].boot == b && heard[last].boot == b
    && (forall i :: 0 <= i < first ==> heard[i].boot != b)
    && (forall i :: last < i < |heard| ==> heard[i].boot != b)
  }

  /** Seen first and last when it was heard first and last, and over as soon as another boot was heard. */
  function SessionOf(heard: seq<Attempt>, first: nat, last: nat): Session
    requires first <= last < |heard|
  {
    Session(heard[first].received, heard[last].received,
      if last + 1 < |heard| then Some(heard[last + 1].received) else None)
  }

  function LastBoot(heard: seq<Attempt>): Option<BootId> {
    if heard == [] then None else Some(heard[|heard| - 1].boot)
  }

  /** The rows are those of the history. */
  ghost predicate RowsOf(v: Vehicle, heard: seq<Attempt>) {
    && v.bootId == LastBoot(heard)
    && (forall b :: b in v.sessions <==> Mentions(heard, b))
    && (forall b, first: nat, last: nat :: Spans(heard, b, first, last) ==>
         b in v.sessions && v.sessions[b] == SessionOf(heard, first, last))
  }

  lemma {:induction false} HasSpan(heard: seq<Attempt>, b: BootId) returns (first: nat, last: nat)
    requires Mentions(heard, b)
    ensures Spans(heard, b, first, last)
  {
    var n := |heard| - 1;
    if Mentions(heard[..n], b) {
      first, last := HasSpan(heard[..n], b);
      last := if heard[n].boot == b then n else last;
    } else {
      first, last := n, n;
      assert heard[n].boot == b;
    }
  }

  /** Which messages are let in: of the current boot any, of a boot never heard before only those that can begin one. */
  ghost predicate MayCome(heard: seq<Attempt>, boot: BootId, kind: Kind) {
    || LastBoot(heard) == Some(boot)
    || ((kind == Availability || kind == Heartbeat || kind == Capabilities) && !Mentions(heard, boot))
  }

  lemma {:induction false} AdmitsByHistory(v: Vehicle, heard: seq<Attempt>, boot: BootId, kind: Kind)
    requires RowsOf(v, heard)
    ensures Admits(v, boot, kind) <==> MayCome(heard, boot, kind)
  {
    if LastBoot(heard) != Some(boot) && Mentions(heard, boot) {
      var first, last := HasSpan(heard, boot);
      assert v.sessions[boot] == SessionOf(heard, first, last);
    }
  }

  lemma {:induction false} MentionsMore(heard: seq<Attempt>, a: Attempt, b: BootId)
    ensures Mentions(heard + [a], b) <==> Mentions(heard, b) || a.boot == b
  {
    assert (heard + [a])[|heard|] == a;
    if Mentions(heard, b) {
      var i :| 0 <= i < |heard| && heard[i].boot == b;
      assert (heard + [a])[i].boot == b;
    }
  }

  lemma {:induction false} OneSessionMore(
    v: Vehicle, heard: seq<Attempt>, a: Attempt, b: BootId, first: nat, last: nat)
    requires RowsOf(v, heard) && MayCome(heard, a.boot, a.kind) && (heard != [] ==> LastBoot(heard) != Some(""))
    requires Spans(heard + [a], b, first, last)
    ensures var v' := Admit(v, a.boot, a.received);
      b in v'.sessions && v'.sessions[b] == SessionOf(heard + [a], first, last)
  {
    var n, longer := |heard|, heard + [a];
    assert longer[n] == a && forall i :: 0 <= i < n ==> longer[i] == heard[i];
    if b != a.boot {
      assert last < n && Spans(heard, b, first, last);
    } else if n > 0 && heard[n - 1].boot == b {
      assert longer[n - 1].boot == b && longer[n].boot == b;
      assert last == n && first < n;
      assert forall i :: 0 <= i < first ==> longer[i].boot != b;
      assert Spans(heard, b, first, n - 1);
    } else {
      assert !Mentions(heard, b);
    }
  }

  /** In every history without empty boot ids, the rows are those of the attempts that were heard. */
  lemma {:induction false} RowsFollowHistory(attempts: seq<Attempt>)
    requires Named(attempts)
    ensures RowsOf(After(attempts), Heard(attempts))
    ensures forall i :: 0 <= i < |Heard(attempts)| ==> Heard(attempts)[i].boot != ""
  {
    if attempts != [] {
      var n := |attempts| - 1;
      var a, v, heard := attempts[n], After(attempts[..n]), Heard(attempts[..n]);
      RowsFollowHistory(attempts[..n]);
      AdmitsByHistory(v, heard, a.boot, a.kind);
      if a.commits && Admits(v, a.boot, a.kind) {
        RowsGrow(v, heard, a);
      }
    }
  }

  lemma {:induction false} RowsGrow(v: Vehicle, heard: seq<Attempt>, a: Attempt)
    requires RowsOf(v, heard) && MayCome(heard, a.boot, a.kind) && (heard != [] ==> LastBoot(heard) != Some(""))
    ensures RowsOf(Admit(v, a.boot, a.received), heard + [a])
  {
    var v' := Admit(v, a.boot, a.received);
    forall b
      ensures b in v'.sessions <==> Mentions(heard + [a], b)
    {
      MentionsMore(heard, a, b);
      if LastBoot(heard) == Some(b) {
        assert heard[|heard| - 1].boot == b;
      }
    }
    forall b, first: nat, last: nat | Spans(heard + [a], b, first, last)
      ensures b in v'.sessions && v'.sessions[b] == SessionOf(heard + [a], first, last)
    {
      OneSessionMore(v, heard, a, b, first, last);
    }
  }

  /** After any history a message is let in exactly if its boot is the one heard last, or begins a new one. */
  lemma AdmittedExactly(attempts: seq<Attempt>, boot: BootId, kind: Kind)
    requires Named(attempts)
    ensures Admits(After(attempts), boot, kind) <==> MayCome(Heard(attempts), boot, kind)
  {
    RowsFollowHistory(attempts);
    AdmitsByHistory(After(attempts), Heard(attempts), boot, kind);
  }
}
