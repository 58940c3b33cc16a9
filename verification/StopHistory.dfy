/**
 The observation history a stop operation is judged by: one look at the vehicle
 per reconcile pass. Nothing here mentions the operation's row.
*/
module StopHistory {
  import opened Wrappers
  import opened StopTelemetry

  /** One pass's look: is the cached observation fresh, is it still, and which one is it. */
  datatype Look = Look(o: Observation, token: Option<int>)

  predicate Telling(l: Look) { l.o.recent && l.token.Some? }

  /** Look i shows a fresh observation newer than every fresh one shown before it. */
  ghost predicate NewAt(looks: seq<Look>, i: nat)
    requires i < |looks|
  {
    && Telling(looks[i])
    && forall j :: 0 <= j < i && Telling(looks[j]) ==> looks[j].token.value < looks[i].token.value
  }

  /** Nothing stale at j, and no new observation there unless it is one of those in e. */
  ghost predicate QuietAt(looks: seq<Look>, e: seq<nat>, j: nat)
    requires j < |looks|
  {
    looks[j].o.recent && (NewAt(looks, j) ==> j in e)
  }

  ghost predicate Ascending(e: seq<nat>) {
    forall i, j :: 0 <= i < j < |e| ==> e[i] < e[j]
  }

  /** New, fresh, stationary observations at the looks listed in e. */
  ghost predicate Frames(looks: seq<Look>, e: seq<nat>) {
    && Ascending(e)
    && forall i :: 0 <= i < |e| ==> e[i] < |looks| && NewAt(looks, e[i]) && looks[e[i]].o.stationary
  }

  /**
   Five new, fresh, stationary observations; between the first and the last of
   them nothing stale was read and no other new observation was shown.
  */
  ghost predicate FiveFrames(looks: seq<Look>, e: seq<nat>) {
    && |e| == 5 && Frames(looks, e)
    && forall j: nat :: e[0] < j < e[4] ==> QuietAt(looks, e, j)
  }

  /** The looks counted since the last reset. */
  ghost function Streak(looks: seq<Look>): seq<nat> {
    if looks == [] then []
    else
      var n := |looks| - 1;
      if !looks[n].o.recent then []
      else if !NewAt(looks, n) then Streak(looks[..n])
      else if looks[n].o.stationary then Streak(looks[..n]) + [n]
      else []
  }

  function Newest(looks: seq<Look>): Option<int> {
    if looks == [] then None
    else
      var n := |looks| - 1;
      var before := Newest(looks[..n]);
      if looks[n].o.recent && Newer(looks[n].token, before) then looks[n].token else before
  }

  lemma {:induction false} NewestIsGreatest(looks: seq<Look>, token: Option<int>)
    requires token.Some?
    ensures Newer(token, Newest(looks)) <==>
      forall j :: 0 <= j < |looks| && Telling(looks[j]) ==> looks[j].token.value < token.value
  {
    if looks != [] {
      var n := |looks| - 1;
      NewestIsGreatest(looks[..n], token);
      if Telling(looks[n]) {
        NewestIsGreatest(looks[..n], looks[n].token);
      }
    }
  }

  lemma NewAtPrefix(looks: seq<Look>, m: nat, i: nat)
    requires i < m <= |looks|
    ensures NewAt(looks[..m], i) == NewAt(looks, i)
  {
  }

  lemma FramesPrefix(looks: seq<Look>, m: nat, e: seq<nat>)
    requires m <= |looks| && Frames(looks[..m], e)
    ensures Frames(looks, e)
  {
    forall i | 0 <= i < |e|
      ensures NewAt(looks, e[i])
    {
      NewAtPrefix(looks, m, e[i]);
    }
  }

  lemma FiveFramesPrefix(looks: seq<Look>, m: nat, e: seq<nat>)
    requires m <= |looks| && FiveFrames(looks[..m], e)
    ensures FiveFrames(looks, e)
  {
    FramesPrefix(looks, m, e);
    forall j: nat | e[0] < j < e[4]
      ensures QuietAt(looks, e, j)
    {
      assert QuietAt(looks[..m], e, j);
      NewAtPrefix(looks, m, j);
    }
  }

  lemma {:induction false} StreakIsFrames(looks: seq<Look>)
    ensures Frames(looks, Streak(looks))
  {
    if looks != [] {
      var n := |looks| - 1;
      StreakIsFrames(looks[..n]);
      FramesPrefix(looks, n, Streak(looks[..n]));
    }
  }

  lemma {:induction false} StreakIsQuiet(looks: seq<Look>, j: nat)
    requires Streak(looks) != [] && Streak(looks)[0] < j < |looks|
    ensures QuietAt(looks, Streak(looks), j)
  {
    var n := |looks| - 1;
    StreakIsFrames(looks[..n]);
    if j < n && Streak(looks[..n]) != [] {
      StreakIsQuiet(looks[..n], j);
      NewAtPrefix(looks, n, j);
    }
  }

  /** Looks that are fresh but show nothing new leave the streak alone. */
  lemma {:induction false} StreakHolds(looks: seq<Look>, i: nat, m: nat)
    requires i <= m <= |looks|
    requires forall j: nat :: i <= j < m ==> looks[j].o.recent && !NewAt(looks, j)
    ensures Streak(looks[..m]) == Streak(looks[..i])
    decreases m - i
  {
    if i < m {
      StreakHolds(looks, i, m - 1);
      assert looks[..m][..m - 1] == looks[..m - 1];
      NewAtPrefix(looks, m, m - 1);
    }
  }

  /** The k-th of five frames makes the streak at least k + 1 long. */
  lemma {:induction false} StreakReaches(looks: seq<Look>, e: seq<nat>, k: nat)
    requires FiveFrames(looks, e) && k < 5
    ensures |Streak(looks[..e[k] + 1])| >= k + 1
  {
    var i := e[k];
    assert looks[..i + 1][..i] == looks[..i];
    NewAtPrefix(looks, i + 1, i);
    if k > 0 {
      StreakReaches(looks, e, k - 1);
      forall j: nat | e[k - 1] + 1 <= j < i
        ensures looks[j].o.recent && !NewAt(looks, j)
      {
        BetweenFrames(e, k, j);
        assert QuietAt(looks, e, j);
      }
      StreakHolds(looks, e[k - 1] + 1, i);
    }
  }

  lemma BetweenFrames(e: seq<nat>, k: nat, j: nat)
    requires Ascending(e) && |e| == 5 && 0 < k < 5 && e[k - 1] < j < e[k]
    ensures e[0] < j < e[4] && j !in e
  {
  }
}
