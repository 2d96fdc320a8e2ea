/** Matching one incoming lot against the opposite side of the book
    (`Engine.counter_needs`, `Need.try_fill_against_counters`,
    `Need.should_fill`, `Need.fill` in matching/python/engine.py).

    The opposite side's lots are snapshotted once, sorted ascending by
    (resting price, arrival), and swept left to right; every lot of the
    snapshot is visited exactly once and nothing is rescanned. */
module CounterSweep {
  import opened Sorting
  import opened Orders

  /** One side of the book: order id to order. */
  type Side = map<OrderId, Order>

  /** A lot of the snapshot: the order it belongs to, that order's price
      and the lot's arrival. Its quantity is read from the book when the
      sweep reaches it. */
  datatype Slot = Slot(owner: OrderId, price: Price, arrival: int)

  /** The sort key `[price, arrival]`, compared lexicographically. */
  predicate SlotLe(x: Slot, y: Slot)
  {
    x.price < y.price || (x.price == y.price && x.arrival <= y.arrival)
  }

  predicate SlotLt(x: Slot, y: Slot)
  {
    x.price < y.price || (x.price == y.price && x.arrival < y.arrival)
  }

  /** The lots of order `o`, filed under key `k`. */
  function SlotsOf(k: OrderId, o: Order): (r: seq<Slot>)
    ensures |r| == |o.needs|
    ensures forall i :: 0 <= i < |r| ==> r[i] == Slot(k, o.price, o.needs[i].arrival)
  {
    seq(|o.needs|, i requires 0 <= i < |o.needs| => Slot(k, o.price, o.needs[i].arrival))
  }

  /** `x` names a lot that is on `side`. */
  ghost predicate HasSlot(side: Side, x: Slot)
  {
    x.owner in side && side[x.owner].price == x.price && x.arrival in Arrivals(side[x.owner].needs)
  }

  /** What the engine keeps true of each side: orders are filed under their
      own id, each order's lots are in arrival order, and no arrival number
      is shared by two orders. */
  ghost predicate WellFormedSide(side: Side)
  {
    && (forall k :: k in side ==> side[k].id == k && Ascending(side[k].needs))
    && (forall k1, k2 :: k1 in side && k2 in side && k1 != k2 ==> Arrivals(side[k1].needs) !! Arrivals(side[k2].needs))
  }

  /** `s` lists every lot of `side` once, ascending by (price, arrival). */
  ghost predicate IsSnapshot(s: seq<Slot>, side: Side)
  {
    && (forall x :: x in s <==> HasSlot(side, x))
    && (forall i, j :: 0 <= i < j < |s| ==> SlotLt(s[i], s[j]))
  }

  /** The lots of a side in some order of its keys (dictionary order). */
  ghost function Flatten(side: Side): (r: seq<Slot>)
    ensures forall x :: x in r <==> HasSlot(side, x)
    decreases |side|
  {
    if side == map[] then []
    else
      var k :| k in side;
      var rest := side - {k};
      assert |rest| < |side| by { assert rest.Keys == side.Keys - {k}; }
      var r := SlotsOf(k, side[k]) + Flatten(rest);
      assert forall x :: x in SlotsOf(k, side[k]) <==> x.owner == k && HasSlot(side, x) by {
        forall x ensures x in SlotsOf(k, side[k]) <==> x.owner == k && HasSlot(side, x) {
          if x.owner == k && HasSlot(side, x) {
            var n :| n in side[k].needs && n.arrival == x.arrival;
            var i :| 0 <= i < |side[k].needs| && side[k].needs[i] == n;
            assert SlotsOf(k, side[k])[i] == x;
          }
        }
      }
      r
  }

  /** `Engine.counter_needs` as the model sees it: the sorted lots of a side. */
  ghost function Snapshot(side: Side): seq<Slot>
  {
    SortBy(Flatten(side), SlotLe)
  }

  lemma SlotLeTotal()
    ensures TotalPreorder(SlotLe)
  {
  }

  lemma {:induction false} SlotsOfNoDup(k: OrderId, o: Order)
    requires Ascending(o.needs)
    ensures NoDup(SlotsOf(k, o))
  {
  }

  lemma {:induction false} FlattenNoDup(side: Side)
    requires WellFormedSide(side)
    ensures NoDup(Flatten(side))
    decreases |side|
  {
    if side != map[] {
      var k :| k in side && Flatten(side) == SlotsOf(k, side[k]) + Flatten(side - {k});
      var rest := side - {k};
      assert |rest| < |side| by { assert rest.Keys == side.Keys - {k}; }
      FlattenNoDup(rest);
      SlotsOfNoDup(k, side[k]);
      var a: seq<Slot>, b: seq<Slot> := SlotsOf(k, side[k]), Flatten(rest);
      forall i, j | 0 <= i < j < |a + b| ensures (a + b)[i] != (a + b)[j] {
        if i < |a| && j >= |a| {
          assert (a + b)[j] in b;
          assert (a + b)[j].owner in rest;
        }
      }
    }
  }

  /** Two lots with the same sort key on a well-formed side are the same lot. */
  lemma SlotKeysDistinct(side: Side, s: seq<Slot>)
    requires WellFormedSide(side)
    requires forall x :: x in s ==> HasSlot(side, x)
    ensures AntisymmetricOn(s, SlotLe)
  {
    forall x, y | x in s && y in s && SlotLe(x, y) && SlotLe(y, x) ensures x == y {
      assert HasSlot(side, x) && HasSlot(side, y);
    }
  }

  /** The snapshot lists every lot of the side exactly once, in strictly
      ascending (price, arrival) order. */
  lemma SnapshotIsSorted(side: Side)
    requires WellFormedSide(side)
    ensures IsSnapshot(Snapshot(side), side)
  {
    var f := Flatten(side);
    var s := Snapshot(side);
    SlotLeTotal();
    SortBySorted(f, SlotLe);
    FlattenNoDup(side);
    NoDupCount(f);
    NoDupCount(s);
    forall x ensures x in s <==> HasSlot(side, x) {
      MultisetMember(x, s, f);
    }
    SlotKeysDistinct(side, s);
    forall i, j | 0 <= i < j < |s| ensures SlotLt(s[i], s[j]) {
      assert SlotLe(s[i], s[j]);
    }
  }

  /** Whatever order a side's lots are collected in, sorting them gives
      the snapshot. */
  lemma SnapshotUnique(side: Side, s: seq<Slot>)
    requires WellFormedSide(side)
    requires IsSnapshot(s, side)
    ensures s == Snapshot(side)
  {
    var t := Snapshot(side);
    SnapshotIsSorted(side);
    assert NoDup(s) && NoDup(t);
    NoDupSameElements(s, t);
    assert Sorted(s, SlotLe) && Sorted(t, SlotLe);
    SlotKeysDistinct(side, s);
    SortedUnique(s, t, SlotLe);
  }

  /** The resting order `o` accepts `price` (`Dir.want_to_fill` from the
      resting side). */
  predicate Crosses(o: Order, price: Price)
  {
    o.dir.WantToFill(o.price, price)
  }

  /** `Need.should_fill`: both lots have something left and the resting
      order accepts the incoming order's price (`Need.in_price`). */
  predicate ShouldFill(resting: Order, restingQty: nat, incoming: Order, incomingQty: nat)
  {
    BestQuantity(restingQty, incomingQty) > 0 && Crosses(resting, incoming.price)
  }

  /** The sweep's state: the opposite side, the incoming order, the lot of
      it being matched, and the engine's fill log. */
  datatype Sweeping = Sweeping(side: Side, aggressor: Order, need: Need, fills: seq<Fill>)

  /** `Need.fill`: trade the smaller of the two quantities at the resting
      order's price, lower both lots by it, drop empty lots from both
      orders and log the fill. The incoming order holds just the lot being
      matched. */
  function FillAt(st: Sweeping, owner: OrderId, arrival: int): Sweeping
    requires owner in st.side
  {
    var o := st.side[owner];
    var q := BestQuantity(QtyAt(o.needs, arrival), st.need.quantity);
    var need := st.need.(quantity := st.need.quantity - q);
    Sweeping(
      st.side[owner := o.(needs := StripZeroNeeds(DecrementAt(o.needs, arrival, q)))],
      st.aggressor.(needs := StripZeroNeeds([need])),
      need,
      st.fills + [Fill(owner, st.aggressor.id, st.aggressor.dir, q, o.price)])
  }

  /** One iteration of `try_fill_against_counters`: the lot `x` of the
      snapshot, with the quantity it has now. */
  function Step(st: Sweeping, x: Slot): Sweeping
  {
    if x.owner in st.side
       && ShouldFill(st.side[x.owner], QtyAt(st.side[x.owner].needs, x.arrival), st.aggressor, st.need.quantity)
    then FillAt(st, x.owner, x.arrival)
    else st
  }

  /** The whole loop of `try_fill_against_counters` over a snapshot. */
  function Sweep(st: Sweeping, snap: seq<Slot>): Sweeping
    decreases |snap|
  {
    if snap == [] then st else Sweep(Step(st, snap[0]), snap[1..])
  }

  function FillTotal(fills: seq<Fill>): nat
  {
    if fills == [] then 0 else fills[0].quantity + FillTotal(fills[1..])
  }

  ghost predicate AllAscending(side: Side)
  {
    forall k :: k in side ==> Ascending(side[k].needs)
  }

  /** `side'` is `side` after some fills: the same orders at the same
      prices, each lot no larger than before, no lot added. */
  ghost predicate Shrinks(side: Side, side': Side)
  {
    && side'.Keys == side.Keys
    && forall k :: k in side ==>
         && side'[k].id == side[k].id && side'[k].dir == side[k].dir && side'[k].price == side[k].price
         && Ascending(side'[k].needs)
         && Arrivals(side'[k].needs) <= Arrivals(side[k].needs)
         && forall a :: QtyAt(side'[k].needs, a) <= QtyAt(side[k].needs, a)
  }

  /** A fill, seen from the two lots: it trades min(resting, incoming) > 0
      at the resting order's price; the resting lot and the incoming lot
      each drop by exactly that quantity, no other lot or order changes,
      and neither order keeps an empty lot. Without a fill nothing changes. */
  lemma StepFill(st: Sweeping, x: Slot)
    requires x.owner in st.side && Ascending(st.side[x.owner].needs)
    ensures var o := st.side[x.owner];
            var counter := QtyAt(o.needs, x.arrival);
            var st' := Step(st, x);
            if counter > 0 && st.need.quantity > 0 && Crosses(o, st.aggressor.price) then
              var q := Min(counter, st.need.quantity);
              && q > 0
              && st'.fills == st.fills + [Fill(x.owner, st.aggressor.id, st.aggressor.dir, q, o.price)]
              && st'.need == st.need.(quantity := st.need.quantity - q)
              && (forall a :: QtyAt(st'.side[x.owner].needs, a) == QtyAt(o.needs, a) - (if a == x.arrival then q else 0))
              && Sum(st'.side[x.owner].needs) == Sum(o.needs) - q
              && (forall n :: n in st'.side[x.owner].needs ==> n.quantity > 0)
              && (st'.aggressor.needs == [] <==> st'.need.quantity == 0)
              && st'.side == st.side[x.owner := st'.side[x.owner]]
              && st'.side[x.owner] == o.(needs := st'.side[x.owner].needs)
            else st' == st
  {
    var o := st.side[x.owner];
    var counter := QtyAt(o.needs, x.arrival);
    if counter > 0 && st.need.quantity > 0 && Crosses(o, st.aggressor.price) {
      var q := Min(counter, st.need.quantity);
      var lowered := DecrementAt(o.needs, x.arrival, q);
      forall a ensures QtyAt(StripZeroNeeds(lowered), a) == QtyAt(o.needs, a) - (if a == x.arrival then q else 0) {
        DecrementAtQty(o.needs, x.arrival, q, a);
        StripKeepsQty(lowered, a);
      }
      DecrementAtQty(o.needs, x.arrival, q, x.arrival);
    }
  }

  /** A fill leaves every order of the side in place at its price, with
      lots no larger than before. */
  lemma StepShrinks(st: Sweeping, x: Slot)
    requires AllAscending(st.side)
    ensures Shrinks(st.side, Step(st, x).side)
    ensures AllAscending(Step(st, x).side)
  {
    var st' := Step(st, x);
    if st' != st {
      var o := st.side[x.owner];
      var q := Min(QtyAt(o.needs, x.arrival), st.need.quantity);
      var lowered := DecrementAt(o.needs, x.arrival, q);
      DecrementAtQty(o.needs, x.arrival, q, x.arrival);
      StripAscending(lowered);
      forall a ensures QtyAt(st'.side[x.owner].needs, a) <= QtyAt(o.needs, a) {
        DecrementAtQty(o.needs, x.arrival, q, a);
        StripKeepsQty(lowered, a);
      }
    }
  }

  lemma ShrinksTransitive(s1: Side, s2: Side, s3: Side)
    requires Shrinks(s1, s2) && Shrinks(s2, s3)
    ensures Shrinks(s1, s3)
  {
    forall k | k in s1
      ensures forall a :: QtyAt(s3[k].needs, a) <= QtyAt(s1[k].needs, a)
    {
      forall a ensures QtyAt(s3[k].needs, a) <= QtyAt(s1[k].needs, a) {
        assert QtyAt(s3[k].needs, a) <= QtyAt(s2[k].needs, a);
      }
    }
  }

  /** The sweep only ever lowers lots of the opposite side: it adds and
      removes no order and changes no price. */
  lemma {:induction false} SweepShrinks(st: Sweeping, snap: seq<Slot>)
    requires AllAscending(st.side)
    ensures Shrinks(st.side, Sweep(st, snap).side)
    ensures AllAscending(Sweep(st, snap).side)
    decreases |snap|
  {
    if snap == [] {
      forall k | k in st.side ensures Arrivals(st.side[k].needs) <= Arrivals(st.side[k].needs) { }
    } else {
      var st1 := Step(st, snap[0]);
      StepShrinks(st, snap[0]);
      SweepShrinks(st1, snap[1..]);
      ShrinksTransitive(st.side, st1.side, Sweep(st1, snap[1..]).side);
    }
  }

  /** A side that only shrank is still well formed. */
  lemma ShrinksWellFormed(side: Side, side': Side)
    requires WellFormedSide(side) && Shrinks(side, side')
    ensures WellFormedSide(side')
  {
    forall k1, k2 | k1 in side' && k2 in side' && k1 != k2
      ensures Arrivals(side'[k1].needs) !! Arrivals(side'[k2].needs)
    {
      assert Arrivals(side[k1].needs) !! Arrivals(side[k2].needs);
    }
  }

  /** Whatever order the lots of a well-formed side are collected in,
      sorting them by (price, arrival) gives the snapshot. */
  lemma CollectedSnapshot(side: Side, flat: seq<Slot>)
    requires WellFormedSide(side)
    requires NoDup(flat)
    requires forall x :: x in flat <==> HasSlot(side, x)
    ensures SortBy(flat, SlotLe) == Snapshot(side)
  {
    var s := SortBy(flat, SlotLe);
    SlotLeTotal();
    SortBySorted(flat, SlotLe);
    NoDupCount(flat);
    NoDupCount(s);
    forall x ensures x in s <==> HasSlot(side, x) {
      MultisetMember(x, s, flat);
    }
    SlotKeysDistinct(side, s);
    forall i, j | 0 <= i < j < |s| ensures SlotLt(s[i], s[j]) {
      assert SlotLe(s[i], s[j]);
    }
    SnapshotUnique(side, s);
  }

  /** Conservation for one sweep: the incoming lot's quantity before the
      sweep is what is left of it plus the quantities of the fills the
      sweep appended; each of those fills is positive and names the
      incoming order; the log entries written before are untouched. The
      incoming order keeps its id, side, price and lot arrival, and once
      it has traded it holds its lot only while the lot is not empty. */
  lemma SweepConserves(st: Sweeping, snap: seq<Slot>)
    ensures var st' := Sweep(st, snap);
            && |st.fills| <= |st'.fills|
            && st'.fills[..|st.fills|] == st.fills
            && st.need.quantity == st'.need.quantity + FillTotal(st'.fills[|st.fills|..])
            && (forall i :: |st.fills| <= i < |st'.fills| ==>
                  st'.fills[i].quantity > 0 && st'.fills[i].inOrder == st.aggressor.id && st'.fills[i].inDir == st.aggressor.dir)
            && st'.need.arrival == st.need.arrival
            && st'.aggressor.id == st.aggressor.id && st'.aggressor.dir == st.aggressor.dir
            && st'.aggressor.price == st.aggressor.price
            && (|st'.fills| == |st.fills| ==> st'.aggressor == st.aggressor && st'.need == st.need)
            && (|st'.fills| > |st.fills| ==> st'.aggressor.needs == StripZeroNeeds([st'.need]))
  {
    SweepLog(st, snap);
    SweepIncoming(st, snap);
  }

  /** One step either changes nothing or appends one positive fill of the
      incoming order, taken off its lot. */
  lemma StepConserves(st: Sweeping, x: Slot)
    ensures var st1 := Step(st, x);
            || st1 == st
            || (&& st1.fills == st.fills + [st1.fills[|st.fills|]]
                && st1.fills[|st.fills|].quantity > 0
                && st1.fills[|st.fills|].inOrder == st.aggressor.id && st1.fills[|st.fills|].inDir == st.aggressor.dir
                && x.owner in st.side && st1.fills[|st.fills|].bookOrder == x.owner
                && st1.fills[|st.fills|].price == st.side[x.owner].price
                && st.need.quantity == st1.need.quantity + st1.fills[|st.fills|].quantity
                && st1.need.arrival == st.need.arrival
                && st1.aggressor.id == st.aggressor.id && st1.aggressor.dir == st.aggressor.dir
                && st1.aggressor.price == st.aggressor.price
                && st1.aggressor.needs == StripZeroNeeds([st1.need]))
  {
  }

  /** The fill log of a sweep: the old entries, then positive fills of
      the incoming order that add up to what its lot lost. */
  lemma SweepLog(st: Sweeping, snap: seq<Slot>)
    ensures var st' := Sweep(st, snap);
            && |st.fills| <= |st'.fills|
            && st'.fills[..|st.fills|] == st.fills
            && st.need.quantity == st'.need.quantity + FillTotal(st'.fills[|st.fills|..])
            && (forall i :: |st.fills| <= i < |st'.fills| ==>
                  st'.fills[i].quantity > 0 && st'.fills[i].inOrder == st.aggressor.id && st'.fills[i].inDir == st.aggressor.dir)
  {
    SweepAppends(st, snap);
    SweepTotal(st, snap);
  }

  /** A sweep only appends fills of the incoming order, each positive. */
  lemma {:induction false} SweepAppends(st: Sweeping, snap: seq<Slot>)
    ensures var st' := Sweep(st, snap);
            && |st.fills| <= |st'.fills|
            && st'.fills[..|st.fills|] == st.fills
            && (forall i :: |st.fills| <= i < |st'.fills| ==>
                  st'.fills[i].quantity > 0 && st'.fills[i].inOrder == st.aggressor.id && st'.fills[i].inDir == st.aggressor.dir)
    decreases |snap|
  {
    if snap != [] {
      var st1 := Step(st, snap[0]);
      var st' := Sweep(st1, snap[1..]);
      assert Sweep(st, snap) == st';
      StepConserves(st, snap[0]);
      SweepAppends(st1, snap[1..]);
      if st1 != st {
        assert st'.fills[..|st.fills|] == st'.fills[..|st1.fills|][..|st.fills|];
      }
    }
  }

  /** What the appended fills trade is what the incoming lot lost. */
  lemma {:induction false} SweepTotal(st: Sweeping, snap: seq<Slot>)
    ensures var st' := Sweep(st, snap);
            && |st.fills| <= |st'.fills|
            && st.need.quantity == st'.need.quantity + FillTotal(st'.fills[|st.fills|..])
    decreases |snap|
  {
    if snap != [] {
      var st1 := Step(st, snap[0]);
      var st' := Sweep(st1, snap[1..]);
      assert Sweep(st, snap) == st';
      StepConserves(st, snap[0]);
      SweepTotal(st1, snap[1..]);
      if st1 != st {
        SweepAppends(st1, snap[1..]);
        var f := st1.fills[|st.fills|];
        assert st'.fills[|st.fills|] == f;
        assert st'.fills[|st.fills|..] == [f] + st'.fills[|st1.fills|..];
      }
    } else {
      assert st.fills[|st.fills|..] == [];
    }
  }

  /** The incoming order through a sweep: same id, side, price and lot
      arrival; untouched without fills, holding only its non-empty lot
      after one. */
  lemma {:induction false} SweepIncoming(st: Sweeping, snap: seq<Slot>)
    ensures var st' := Sweep(st, snap);
            && |st.fills| <= |st'.fills|
            && st'.need.arrival == st.need.arrival
            && st'.aggressor.id == st.aggressor.id && st'.aggressor.dir == st.aggressor.dir
            && st'.aggressor.price == st.aggressor.price
            && (|st'.fills| == |st.fills| ==> st'.aggressor == st.aggressor && st'.need == st.need)
            && (|st'.fills| > |st.fills| ==> st'.aggressor.needs == StripZeroNeeds([st'.need]))
    decreases |snap|
  {
    if snap != [] {
      var st1 := Step(st, snap[0]);
      StepConserves(st, snap[0]);
      SweepIncoming(st1, snap[1..]);
    }
  }

  /** `k`'s lot with arrival `a` has something left and its order accepts
      `price`: an incoming order at `price` with quantity left would trade
      with it. */
  ghost predicate Crossing(side: Side, k: OrderId, a: int, price: Price)
  {
    k in side && QtyAt(side[k].needs, a) > 0 && Crosses(side[k], price)
  }

  /** The incoming lot's quantity never grows during a sweep. */
  lemma {:induction false} SweepNeedShrinks(st: Sweeping, snap: seq<Slot>)
    ensures Sweep(st, snap).need.quantity <= st.need.quantity
    decreases |snap|
  {
    if snap != [] {
      SweepNeedShrinks(Step(st, snap[0]), snap[1..]);
    }
  }

  /** Price priority is exhaustive: when the snapshot lists every lot that
      crosses the incoming price, the sweep ends with the incoming lot
      used up or with no crossing lot left on the opposite side. */
  lemma {:induction false} SweepClearsCrossing(st: Sweeping, snap: seq<Slot>)
    requires AllAscending(st.side)
    requires forall k, a :: Crossing(st.side, k, a, st.aggressor.price) ==> Slot(k, st.side[k].price, a) in snap
    ensures var st' := Sweep(st, snap);
            st'.need.quantity == 0 || forall k, a :: !Crossing(st'.side, k, a, st.aggressor.price)
    decreases |snap|
  {
    var p := st.aggressor.price;
    if snap != [] {
      var x := snap[0];
      var st1 := Step(st, x);
      StepShrinks(st, x);
      if st1.need.quantity == 0 {
        SweepNeedShrinks(st1, snap[1..]);
      } else {
        assert st1.aggressor.price == p;
        forall k, a | Crossing(st1.side, k, a, p) ensures Slot(k, st1.side[k].price, a) in snap[1..] {
          assert QtyAt(st1.side[k].needs, a) <= QtyAt(st.side[k].needs, a);
          assert Crossing(st.side, k, a, p);
          if Slot(k, st.side[k].price, a) == x {
            StepFill(st, x);
          }
        }
        SweepClearsCrossing(st1, snap[1..]);
      }
    }
  }

  /** Every fill the sweep appends trades with a lot of the snapshot, at
      the price the snapshot records for it. */
  lemma {:induction false} SweepFillsFromSnapshot(st: Sweeping, snap: seq<Slot>)
    requires AllAscending(st.side)
    requires forall x :: x in snap && x.owner in st.side ==> st.side[x.owner].price == x.price
    ensures var st' := Sweep(st, snap);
            && |st.fills| <= |st'.fills|
            && (forall i :: |st.fills| <= i < |st'.fills| ==>
                  exists j :: 0 <= j < |snap| && snap[j].owner == st'.fills[i].bookOrder && snap[j].price == st'.fills[i].price)
    decreases |snap|
  {
    if snap != [] {
      var x := snap[0];
      var st1 := Step(st, x);
      var st' := Sweep(st1, snap[1..]);
      assert Sweep(st, snap) == st';
      StepConserves(st, x);
      StepShrinks(st, x);
      SweepFillsFromSnapshot(st1, snap[1..]);
      SweepAppends(st1, snap[1..]);
      forall i | |st.fills| <= i < |st'.fills|
        ensures exists j :: 0 <= j < |snap| && snap[j].owner == st'.fills[i].bookOrder && snap[j].price == st'.fills[i].price
      {
        if i < |st1.fills| {
          assert st'.fills[i] == st1.fills[i];
          assert snap[0].owner == st'.fills[i].bookOrder && snap[0].price == st'.fills[i].price;
        } else {
          var j :| 0 <= j < |snap[1..]| && snap[1..][j].owner == st'.fills[i].bookOrder && snap[1..][j].price == st'.fills[i].price;
          assert snap[j + 1] == snap[1..][j];
        }
      }
    }
  }

  /** When every lot of the snapshot is priced at least `p`, so is every
      fill the sweep appends. */
  lemma SweepFillsAbove(st: Sweeping, snap: seq<Slot>, p: Price)
    requires AllAscending(st.side)
    requires forall x :: x in snap && x.owner in st.side ==> st.side[x.owner].price == x.price
    requires forall x :: x in snap ==> p <= x.price
    ensures var st' := Sweep(st, snap);
            forall i :: |st.fills| <= i < |st'.fills| ==> p <= st'.fills[i].price
  {
    SweepFillsFromSnapshot(st, snap);
    var st' := Sweep(st, snap);
    forall i | |st.fills| <= i < |st'.fills| ensures p <= st'.fills[i].price {
      var j :| 0 <= j < |snap| && snap[j].owner == st'.fills[i].bookOrder && snap[j].price == st'.fills[i].price;
      assert snap[j] in snap;
    }
  }

  /** The rest of a snapshot ascending by price is ascending, and priced
      at least as its first lot. */
  lemma PricesAscendingTail(snap: seq<Slot>)
    requires snap != []
    requires forall i, j :: 0 <= i < j < |snap| ==> snap[i].price <= snap[j].price
    ensures forall i, j :: 0 <= i < j < |snap[1..]| ==> snap[1..][i].price <= snap[1..][j].price
    ensures forall y :: y in snap[1..] ==> snap[0].price <= y.price
  {
    var rest := snap[1..];
    forall i, j | 0 <= i < j < |rest| ensures rest[i].price <= rest[j].price {
      assert rest[i] == snap[i + 1] && rest[j] == snap[j + 1];
    }
    forall y | y in rest ensures snap[0].price <= y.price {
      var k :| 0 <= k < |rest| && rest[k] == y;
      assert snap[k + 1] == y;
    }
  }

  /** When the snapshot is ascending by price, so are the prices of the
      fills the sweep appends: the incoming order meets the cheapest
      crossing lots first, whichever side it is on. */
  lemma {:induction false} SweepFillPricesAscending(st: Sweeping, snap: seq<Slot>)
    requires AllAscending(st.side)
    requires forall x :: x in snap && x.owner in st.side ==> st.side[x.owner].price == x.price
    requires forall i, j :: 0 <= i < j < |snap| ==> snap[i].price <= snap[j].price
    ensures var st' := Sweep(st, snap);
            forall i, j :: |st.fills| <= i < j < |st'.fills| ==> st'.fills[i].price <= st'.fills[j].price
    decreases |snap|
  {
    if snap != [] {
      var x := snap[0];
      var rest := snap[1..];
      var st1 := Step(st, x);
      var st' := Sweep(st1, rest);
      assert Sweep(st, snap) == st';
      StepConserves(st, x);
      StepShrinks(st, x);
      PricesAscendingTail(snap);
      SweepFillPricesAscending(st1, rest);
      SweepAppends(st1, rest);
      if st1 != st {
        SweepFillsAbove(st1, rest, x.price);
      }
      forall i, j | |st.fills| <= i < j < |st'.fills| ensures st'.fills[i].price <= st'.fills[j].price {
        if i < |st1.fills| {
          assert x in snap && st'.fills[i] == st1.fills[i];
        }
      }
    }
  }

  /** Every lot on the side has something left. */
  ghost predicate AllPositive(side: Side)
  {
    forall k, n :: k in side && n in side[k].needs ==> n.quantity > 0
  }

  /** Fills strip the lots they empty, so a side without empty lots keeps
      none. */
  lemma {:induction false} SweepKeepsPositive(st: Sweeping, snap: seq<Slot>)
    requires AllPositive(st.side)
    ensures AllPositive(Sweep(st, snap).side)
    decreases |snap|
  {
    if snap != [] {
      SweepKeepsPositive(Step(st, snap[0]), snap[1..]);
    }
  }

  /** The snapshot lists every lot that crosses a given price. */
  lemma SnapshotCoversCrossing(side: Side, price: Price)
    requires WellFormedSide(side)
    ensures forall k, a :: Crossing(side, k, a, price) ==> Slot(k, side[k].price, a) in Snapshot(side)
  {
    SnapshotIsSorted(side);
    forall k, a | Crossing(side, k, a, price) ensures Slot(k, side[k].price, a) in Snapshot(side) {
      if a !in Arrivals(side[k].needs) {
        QtyAtAbsent(side[k].needs, a);
      }
      assert HasSlot(side, Slot(k, side[k].price, a));
    }
  }

  /** The slots `SlotsOf` lists for key `k` are exactly the lots of the
      order filed under `k`. */
  lemma SlotsOfMembers(side: Side, k: OrderId)
    requires k in side
    ensures forall x :: x in SlotsOf(k, side[k]) <==> x.owner == k && HasSlot(side, x)
  {
    forall x: Slot | x.owner == k && HasSlot(side, x) ensures x in SlotsOf(k, side[k]) {
      var n :| n in side[k].needs && n.arrival == x.arrival;
      var i :| 0 <= i < |side[k].needs| && side[k].needs[i] == n;
      assert SlotsOf(k, side[k])[i] == x;
    }
  }
}
