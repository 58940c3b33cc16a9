/**
 Boot epochs of one vehicle: which boot id is current, and which sessions are over.
 A falsy boot id on the robot row, null or empty, counts as no boot at all.
*/
module BootSessions {
  import opened Wrappers

  type BootId = string

  datatype Kind =
    | Availability | Heartbeat | Capabilities | Location | Status | Sensor | Alarm | CommandAck | TaskStatus

  predicate Establishes(kind: Kind) { kind in {Availability, Heartbeat, Capabilities} }

  datatype Session = Session(firstSeen: int, lastSeen: int, ended: Option<int>)

  datatype Vehicle = Vehicle(bootId: Option<BootId>, sessions: map<BootId, Session>)

  predicate HasEnded(v: Vehicle, b: BootId) { b in v.sessions && v.sessions[b].ended.Some? }

  predicate HasBoot(v: Vehicle) { v.bootId.Some? && v.bootId.value != "" }

  /** Is a message of this boot and kind let in? */
  predicate Admits(v: Vehicle, boot: BootId, kind: Kind) {
    v.bootId == Some(boot) || (!HasEnded(v, boot) && Establishes(kind))
  }

  /** The vehicle after an admitted message. */
  function Admit(v: Vehicle, boot: BootId, received: int): Vehicle {
    var seen := if boot in v.sessions then v.sessions[boot] else Session(received, received, None);
    if v.bootId == Some(boot) then v.(sessions := v.sessions[boot := seen.(lastSeen := received)])
    else
      var kept :=
        if HasBoot(v) && v.bootId.value in v.sessions && v.sessions[v.bootId.value].ended.None?
        then v.sessions[v.bootId.value := v.sessions[v.bootId.value].(ended := Some(received))]
        else v.sessions;
      Vehicle(Some(boot), kept[boot := seen])
  }

  function Offer(v: Vehicle, boot: BootId, kind: Kind, received: int): Vehicle {
    if Admits(v, boot, kind) then Admit(v, boot, received) else v
  }

  /** The robot row with its session rows. */
  class RobotRow {
    var bootId: Option<BootId>
    var sessions: map<BootId, Session>

    function Value(): Vehicle
      reads this
    {
      Vehicle(bootId, sessions)
    }

    /** accept_boot_session */
    method AcceptBootSession(boot: BootId, kind: Kind, received: int) returns (accepted: bool)
      modifies this
      ensures accepted <==> old(Admits(Value(), boot, kind))
      ensures Value() == old(Offer(Value(), boot, kind, received))
    {
      if bootId == Some(boot) {
        if boot in sessions {
          sessions := sessions[boot := sessions[boot].(lastSeen := received)];
        } else {
          sessions := sessions[boot := Session(received, received, None)];
        }
        return true;
      }
      if boot in sessions && sessions[boot].ended.Some? {
        return false;
      }
      if kind !in {Availability, Heartbeat, Capabilities} {
        return false;
      }
      if bootId.Some? && bootId.value != "" {
        var current := bootId.value;
        if current in sessions && sessions[current].ended.None? {
          sessions := sessions[current := sessions[current].(ended := Some(received))];
        }
      }
      if boot !in sessions {
        sessions := sessions[boot := Session(received, received, None)];
      }
      bootId := Some(boot);
      return true;
    }
  }

  // --- epochs ------------------------------------------------------------------------------

  /** One attempt by a vehicle to be heard; a transaction that fails leaves the rows alone. */
  datatype Attempt = Attempt(boot: BootId, kind: Kind, received: int, commits: bool)

  const NEW_VEHICLE := Vehicle(None, map[])

  function Attempted(v: Vehicle, a: Attempt): Vehicle {
    if a.commits then Offer(v, a.boot, a.kind, a.received) else v
  }

  function After(attempts: seq<Attempt>): Vehicle {
    if attempts == [] then NEW_VEHICLE
    else Attempted(After(attempts[..|attempts| - 1]), attempts[|attempts| - 1])
  }

  ghost predicate Named(attempts: seq<Attempt>) {
    forall i :: 0 <= i < |attempts| ==> attempts[i].boot != ""
  }

  /** At most one open session, and it is the current boot's. */
  ghost predicate OneEpoch(v: Vehicle) {
    && (v.bootId.Some? ==> v.bootId.value != "" && v.bootId.value in v.sessions && !HasEnded(v, v.bootId.value))
    && (forall b :: b in v.sessions && !HasEnded(v, b) ==> v.bootId == Some(b))
  }

  lemma OfferKeepsEpoch(v: Vehicle, boot: BootId, kind: Kind, received: int)
    requires OneEpoch(v) && boot != ""
    ensures var v' := Offer(v, boot, kind, received);
      && OneEpoch(v')
      && (forall b :: HasEnded(v, b) ==> HasEnded(v', b))
      && (v.bootId.Some? && v'.bootId != v.bootId ==> HasEnded(v', v.bootId.value))
  {
  }

  /** Each vehicle has at most one open boot session at any time, the current boot's. */
  lemma {:induction false} AlwaysOneEpoch(attempts: seq<Attempt>)
    requires Named(attempts)
    ensures OneEpoch(After(attempts))
  {
    if attempts != [] {
      var n := |attempts| - 1;
      var a := attempts[n];
      AlwaysOneEpoch(attempts[..n]);
      OfferKeepsEpoch(After(attempts[..n]), a.boot, a.kind, a.received);
    }
  }

  lemma {:induction false} EndedStaysEnded(attempts: seq<Attempt>, i: nat, b: BootId)
    requires Named(attempts) && i <= |attempts| && HasEnded(After(attempts[..i]), b)
    ensures HasEnded(After(attempts), b)
    decreases |attempts|
  {
    if i == |attempts| {
      assert attempts[..i] == attempts;
    } else {
      var n := |attempts| - 1;
      assert attempts[..n][..i] == attempts[..i];
      EndedStaysEnded(attempts[..n], i, b);
      AlwaysOneEpoch(attempts[..n]);
      OfferKeepsEpoch(After(attempts[..n]), attempts[n].boot, attempts[n].kind, attempts[n].received);
    }
  }

  /** A boot that was current and no longer is, is over. */
  lemma {:induction false} ReplacedIsEnded(attempts: seq<Attempt>, i: nat, b: BootId)
    requires Named(attempts) && i <= |attempts|
    requires After(attempts[..i]).bootId == Some(b) && After(attempts).bootId != Some(b)
    ensures HasEnded(After(attempts), b)
    decreases |attempts|
  {
    var n := |attempts| - 1;
    assert attempts[..|attempts|] == attempts;
    assert attempts[..n][..i] == attempts[..i];
    AlwaysOneEpoch(attempts[..n]);
    OfferKeepsEpoch(After(attempts[..n]), attempts[n].boot, attempts[n].kind, attempts[n].received);
    if After(attempts[..n]).bootId != Some(b) {
      ReplacedIsEnded(attempts[..n], i, b);
    }
  }

  /** No boot id comes back after having been replaced, nor is any message of it admitted. */
  ghost predicate NeverRecurs(attempts: seq<Attempt>) {
    forall i, j, b, kind ::
      (0 <= i <= j <= |attempts| && After(attempts[..i]).bootId == Some(b) && After(attempts[..j]).bootId != Some(b))
      ==> !Admits(After(attempts), b, kind)
  }

  lemma BootsNeverRecur(attempts: seq<Attempt>)
    requires Named(attempts)
    ensures NeverRecurs(attempts)
  {
    AlwaysOneEpoch(attempts);
    forall i, j, b, kind | 0 <= i <= j <= |attempts| && After(attempts[..i]).bootId == Some(b)
      && After(attempts[..j]).bootId != Some(b)
      ensures !Admits(After(attempts), b, kind)
    {
      assert attempts[..j][..i] == attempts[..i];
      ReplacedIsEnded(attempts[..j], i, b);
      EndedStaysEnded(attempts, j, b);
    }
  }

  /** If the boot is the same at two moments, it was the same throughout. */
  lemma SameBootThroughout(attempts: seq<Attempt>, i: nat, k: nat, b: BootId)
    requires Named(attempts) && i <= k <= |attempts|
    requires After(attempts[..i]).bootId == Some(b) && After(attempts).bootId == Some(b)
    ensures After(attempts[..k]).bootId == Some(b)
  {
    AlwaysOneEpoch(attempts);
    if After(attempts[..k]).bootId != Some(b) {
      assert attempts[..k][..i] == attempts[..i];
      ReplacedIsEnded(attempts[..k], i, b);
      EndedStaysEnded(attempts, k, b);
    }
  }

  /**
   The empty boot id does recur: the robot row treats it as no boot, so its session
   is never closed. A vehicle says "", then "b", then "" again, and is heard each time.
  */
  lemma EmptyBootRecurs(b: BootId)
    requires b != ""
    ensures var attempts := [Attempt("", Availability, 1, true), Attempt(b, Availability, 2, true)];
      !NeverRecurs(attempts)
  {
    var attempts := [Attempt("", Availability, 1, true), Attempt(b, Availability, 2, true)];
    assert attempts[..1] == [attempts[0]] && attempts[..1][..0] == [] && attempts[..2] == attempts;
    assert After([]) == NEW_VEHICLE;
    var v1 := After(attempts[..1]);
    assert v1.bootId == Some("") && "" in v1.sessions && !HasEnded(v1, "");
    var v2 := After(attempts[..2]);
    assert v2 == Attempted(v1, attempts[1]);
    assert v2.bootId == Some(b) && !HasEnded(v2, "");
    assert Admits(After(attempts), "", Availability);
  }

  ghost predicate From(attempts: seq<Attempt>, ids: set<BootId>) {
    forall i :: 0 <= i < |attempts| ==> attempts[i].boot in ids
  }

  predicate Open(v: Vehicle, b: BootId) { b in v.sessions && !HasEnded(v, b) }

  ghost predicate OneOpen(v: Vehicle) { forall a, b :: Open(v, a) && Open(v, b) ==> a == b }

  /** The session of an empty boot id stays open beside that of the boot that replaces it. */
  lemma EmptyBootStaysOpen(b: BootId)
    requires b != ""
    ensures var v := After([Attempt("", Availability, 1, true), Attempt(b, Availability, 2, true)]);
      v.bootId == Some(b) && Open(v, "") && Open(v, b)
  {
    var attempts := [Attempt("", Availability, 1, true), Attempt(b, Availability, 2, true)];
    assert attempts[..1] == [attempts[0]] && attempts[..1][..0] == [];
    assert After([]) == NEW_VEHICLE;
    var v1 := After(attempts[..1]);
    assert v1.bootId == Some("") && Open(v1, "");
    assert After(attempts) == Attempted(v1, attempts[1]);
  }

  lemma {:induction false} SessionsComeFrom(attempts: seq<Attempt>, ids: set<BootId>)
    requires From(attempts, ids)
    ensures forall b :: b in After(attempts).sessions ==> b in ids
    ensures After(attempts).bootId.Some? ==> After(attempts).bootId.value in ids
  {
    if attempts != [] {
      SessionsComeFrom(attempts[..|attempts| - 1], ids);
    }
  }

  /**
   Exactly when no vehicle ever has two sessions open at once, over all runs: the vehicles do
   not use the empty boot id, or no other.
  */
  lemma OneOpenExactly(ids: set<BootId>)
    ensures (forall attempts :: From(attempts, ids) ==> OneOpen(After(attempts)))
      <==> ("" !in ids || forall b :: b in ids ==> b == "")
  {
    if "" in ids {
      if b :| b in ids && b != "" {
        var attempts := [Attempt("", Availability, 1, true), Attempt(b, Availability, 2, true)];
        EmptyBootStaysOpen(b);
        assert From(attempts, ids) && !OneOpen(After(attempts));
      } else {
        forall attempts | From(attempts, ids)
          ensures OneOpen(After(attempts))
        {
          SessionsComeFrom(attempts, ids);
        }
      }
    } else {
      forall attempts | From(attempts, ids)
        ensures OneOpen(After(attempts))
      {
        AlwaysOneEpoch(attempts);
      }
    }
  }

  /** Exactly when boots never recur, over all runs: the vehicles do not use the empty id. */
  lemma NeverRecursExactly(ids: set<BootId>)
    requires exists b :: b in ids && b != ""
    ensures (forall attempts :: From(attempts, ids) ==> NeverRecurs(attempts)) <==> "" !in ids
  {
    if "" in ids {
      var b :| b in ids && b != "";
      EmptyBootRecurs(b);
      assert From([Attempt("", Availability, 1, true), Attempt(b, Availability, 2, true)], ids);
    } else {
      forall attempts | From(attempts, ids)
        ensures NeverRecurs(attempts)
      {
        BootsNeverRecur(attempts);
      }
    }
  }
}
