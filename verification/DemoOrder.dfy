/** In which order the cruise takes the 54 seeded slots: 27 to 19, 28 to 36, 45 to 37, 46 to 54, 18 to 1. */
module DemoOrders {
  import opened Wrappers
  import opened Routes
  import opened CruiseRoutes
  import opened DemoCruises

  ghost predicate OneEach(slots: seq<Slot>) {
    forall i, j :: 0 <= i < j < |slots| ==> slots[i].number != slots[j].number
  }

  predicate Numbered(slots: seq<Slot>, n: int) { exists i :: 0 <= i < |slots| && slots[i].number == n }

  /** The whole seeded car park, listed in any order. */
  ghost predicate WholeField(slots: seq<Slot>) {
    && (forall s :: s in slots ==> Seeded(s)) && OneEach(slots)
    && forall n :: 1 <= n <= 54 ==> Numbered(slots, n)
  }

  // --- sorting keeps the slots apart -------------------------------------------------------

  lemma {:induction false} PlaceKeepsApart(sorted: seq<Slot>, s: Slot)
    requires OneEach(sorted) && forall t :: t in sorted ==> t.number != s.number
    ensures OneEach(Place(sorted, s))
  {
    if sorted != [] {
      var n := |sorted| - 1;
      if Key(sorted[n]) > Key(s) {
        PlaceKeepsApart(sorted[..n], s);
        var front := Place(sorted[..n], s);
        forall i | 0 <= i < |front|
          ensures front[i].number != sorted[n].number
        {
          assert front[i] in multiset(front);
          assert front[i] in sorted[..n] || front[i] == s;
        }
      }
    }
  }

  lemma {:induction false} SortedKeepsApart(slots: seq<Slot>)
    requires OneEach(slots)
    ensures OneEach(Sorted(slots))
  {
    if slots != [] {
      var n := |slots| - 1;
      SortedKeepsApart(slots[..n]);
      forall t | t in Sorted(slots[..n])
        ensures t.number != slots[n].number
      {
        assert t in multiset(Sorted(slots[..n]));
        assert t in slots[..n];
      }
      PlaceKeepsApart(Sorted(slots[..n]), slots[n]);
    }
  }

  lemma {:induction false} GroupKeepsApart(slots: seq<Slot>, g: Group)
    requires OneEach(slots)
    ensures OneEach(InGroup(slots, g))
  {
    if slots != [] {
      var n := |slots| - 1;
      GroupKeepsApart(slots[..n], g);
      InGroupComesFrom(slots[..n], g);
      var front := InGroup(slots[..n], g);
      forall i | 0 <= i < |front|
        ensures front[i].number != slots[n].number
      {
        assert front[i] in front && front[i] in slots[..n];
      }
    }
  }

  // --- one group ---------------------------------------------------------------------------

  function Lowest(k: nat): int {
    if k == 0 then 19 else if k == 1 then 28 else if k == 2 then 37 else if k == 3 then 46 else 1
  }

  function Highest(k: nat): int { if k == 4 then 18 else Lowest(k) + 8 }

  /** The number of the i-th slot of group k. */
  function NumberIn(k: nat, i: int): int { if k == 1 || k == 3 then Lowest(k) + i else Highest(k) - i }

  /** How far along its group a number stands. */
  function PlaceIn(k: nat, n: int): int { if k == 1 || k == 3 then n - Lowest(k) else Highest(k) - n }

  lemma {:induction false} GroupIsAscending(slots: seq<Slot>, k: nat, i: nat, j: nat)
    requires k < 5 && WholeField(slots) && i < j < |OrderedGroup(slots, k)|
    ensures var g := OrderedGroup(slots, k);
      0 <= PlaceIn(k, g[i].number) < PlaceIn(k, g[j].number) <= Highest(k) - Lowest(k)
  {
    var g := OrderedGroup(slots, k);
    OrderedGroupComesFrom(slots, k);
    assert g[i] in g && g[j] in g;
    KeysInOrder(slots, k, i, j);
    GroupKeepsApart(slots, GroupAt(k));
    SortedKeepsApart(InGroup(slots, GroupAt(k)));
  }

  lemma {:induction false} GroupHasAll(slots: seq<Slot>, k: nat, n: int)
    requires k < 5 && WholeField(slots) && Lowest(k) <= n <= Highest(k)
    ensures Numbered(OrderedGroup(slots, k), n)
  {
    assert Numbered(slots, n);
    var i :| 0 <= i < |slots| && slots[i].number == n;
    var s := slots[i];
    assert s in slots && GroupOf(s) == GroupAt(k);
    GroupHoldsItsOwn(slots, GroupAt(k), s);
    assert s in multiset(OrderedGroup(slots, k));
    assert s in OrderedGroup(slots, k);
  }

  /** Strictly ascending numbers that take all values from 0 up to a bound are 0, 1, 2 and so on. */
  ghost predicate Fills(v: seq<int>, top: int) {
    && (forall i, j :: 0 <= i < j < |v| ==> v[i] < v[j])
    && (forall i :: 0 <= i < |v| ==> 0 <= v[i] <= top)
    && (forall x :: 0 <= x <= top ==> x in v)
  }

  lemma {:induction false} AtLeastIndex(v: seq<int>, top: int, i: nat)
    requires Fills(v, top) && i < |v|
    ensures v[i] >= i
  {
    if i > 0 {
      AtLeastIndex(v, top, i - 1);
    }
  }

  lemma {:induction false} FillsInOrder(v: seq<int>, top: int, i: nat)
    requires Fills(v, top) && i <= top
    ensures i < |v| && v[i] == i
  {
    assert i in v;
    var j :| 0 <= j < |v| && v[j] == i;
    AtLeastIndex(v, top, j);
    if j < i {
      FillsInOrder(v, top, j);
    }
  }

  lemma {:induction false} FillsExactly(v: seq<int>, top: int)
    requires Fills(v, top) && top >= 0
    ensures |v| == top + 1 && forall i :: 0 <= i < |v| ==> v[i] == i
  {
    FillsInOrder(v, top, top);
    AtLeastIndex(v, top, |v| - 1);
    forall i | 0 <= i < |v|
      ensures v[i] == i
    {
      FillsInOrder(v, top, i);
    }
  }

  lemma {:induction false} GroupFills(slots: seq<Slot>, k: nat) returns (v: seq<int>)
    requires k < 5 && WholeField(slots)
    ensures var g := OrderedGroup(slots, k);
      |v| == |g| && (forall i :: 0 <= i < |v| ==> v[i] == PlaceIn(k, g[i].number)) && Fills(v, Highest(k) - Lowest(k))
  {
    var g := OrderedGroup(slots, k);
    v := seq(|g|, i requires 0 <= i < |g| => PlaceIn(k, g[i].number));
    forall i, j | 0 <= i < j < |v|
      ensures v[i] < v[j]
    {
      GroupIsAscending(slots, k, i, j);
    }
    forall i | 0 <= i < |v|
      ensures 0 <= v[i] <= Highest(k) - Lowest(k)
    {
      OrderedGroupComesFrom(slots, k);
      assert g[i] in g;
    }
    forall x | 0 <= x <= Highest(k) - Lowest(k)
      ensures x in v
    {
      GroupHasAll(slots, k, NumberIn(k, x));
      var i :| 0 <= i < |g| && g[i].number == NumberIn(k, x);
      assert v[i] == x;
    }
  }

  ghost predicate IsGroup(g: seq<Slot>, k: nat) {
    |g| == Highest(k) - Lowest(k) + 1 && forall i :: 0 <= i < |g| ==> g[i].number == NumberIn(k, i)
  }

  lemma {:induction false} GroupOrder(slots: seq<Slot>, k: nat)
    requires k < 5 && WholeField(slots)
    ensures IsGroup(OrderedGroup(slots, k), k)
  {
    var v := GroupFills(slots, k);
    FillsExactly(v, Highest(k) - Lowest(k));
  }

  // --- all of them -------------------------------------------------------------------------

  /** The S of the cruise: down the first column, up the second, down the third, up the fourth, west along the top. */
  function NumberAt(i: int): int {
    if i < 9 then 27 - i
    else if i < 18 then 28 + (i - 9)
    else if i < 27 then 45 - (i - 18)
    else if i < 36 then 46 + (i - 27)
    else 18 - (i - 36)
  }

  lemma {:induction false} InARow(a: seq<Slot>, b: seq<Slot>, c: seq<Slot>, d: seq<Slot>, e: seq<Slot>)
    requires IsGroup(a, 0) && IsGroup(b, 1) && IsGroup(c, 2) && IsGroup(d, 3) && IsGroup(e, 4)
    ensures var all := a + b + c + d + e; |all| == 54 && forall i :: 0 <= i < 54 ==> all[i].number == NumberAt(i)
  {
    var all := a + b + c + d + e;
    forall i | 0 <= i < 54
      ensures all[i].number == NumberAt(i)
    {
      assert all[i] == if i < 9 then a[i] else if i < 18 then b[i - 9] else if i < 27 then c[i - 18]
        else if i < 36 then d[i - 27] else e[i - 36];
    }
  }

  lemma {:induction false} OrderedIsAll(slots: seq<Slot>)
    ensures OrderedSlots(slots) == OrderedGroup(slots, 0) + OrderedGroup(slots, 1) + OrderedGroup(slots, 2)
                                   + OrderedGroup(slots, 3) + OrderedGroup(slots, 4)
  {
    assert Ordered(slots, 0) + OrderedGroup(slots, 0) == OrderedGroup(slots, 0);
    assert Ordered(slots, 2) == Ordered(slots, 1) + OrderedGroup(slots, 1);
    assert Ordered(slots, 4) == Ordered(slots, 3) + OrderedGroup(slots, 3);
  }

  /** Over the whole car park every group has slots, and the cruise takes the 54 slots in just that order. */
  lemma {:induction false} CruiseOrder(slots: seq<Slot>)
    requires WholeField(slots)
    ensures SeededField(slots)
    ensures |OrderedSlots(slots)| == 54 && forall i :: 0 <= i < 54 ==> OrderedSlots(slots)[i].number == NumberAt(i)
  {
    forall k | 0 <= k < 5
      ensures IsGroup(OrderedGroup(slots, k), k) && OrderedGroup(slots, k) != []
    {
      GroupOrder(slots, k);
    }
    InARow(OrderedGroup(slots, 0), OrderedGroup(slots, 1), OrderedGroup(slots, 2), OrderedGroup(slots, 3),
      OrderedGroup(slots, 4));
    OrderedIsAll(slots);
  }

  /** The i-th inspection of the cruise is of that slot, says so, and is numbered i + 1. */
  lemma {:induction false} InspectionOrder(slots: seq<Slot>, i: nat)
    requires WholeField(slots) && i < 54
    ensures AllGroupsFilled(slots) && |Inspections(CruiseRoute(slots))| == 54
    ensures exists s :: s in slots && s.number == NumberAt(i) && Inspects(Inspections(CruiseRoute(slots))[i], s, i + 1)
  {
    CruiseOrder(slots);
    CruiseCovers(slots);
    var s := OrderedSlots(slots)[i];
    assert s in multiset(OrderedSlots(slots));
    assert s in slots;
    InspectionIsOnLane(s);
  }

  /** From its lane, facing along it, under its own code. */
  predicate Inspects(w: Waypoint, s: Slot, sequence: nat) {
    && w.kind == INSPECTION && w.slotCode == Some(s.code) && w.sequence == Some(sequence) && w.theta.Some?
    && InspectedFrom(Rank(GroupOf(s)), s.number, w.pos, w.theta.value)
    && (if s.number <= 18 then w.pos.x == s.pos.x else w.pos.y == s.pos.y)
  }
}
