/** The engine object of matching/python/engine.py: the book, the fill log
    and the arrival counter as fields that its methods update. Every
    method is proved to do what the functions of `Commands` and
    `CounterSweep` say. */
module Matching {
  import opened Wrappers
  import opened Sorting
  import opened Orders
  import opened CounterSweep
  import opened Commands

  predicate PriceLe(a: Order, b: Order)
  {
    a.price <= b.price
  }

  lemma PriceLeTotal()
    ensures TotalPreorder(PriceLe)
  {
  }

  /** `Engine.prioritized`: the orders ascending by price. */
  function Prioritized(orders: seq<Order>): (r: seq<Order>)
    ensures multiset(r) == multiset(orders)
    ensures Sorted(r, PriceLe)
  {
    PriceLeTotal();
    SortBySorted(orders, PriceLe);
    SortBy(orders, PriceLe)
  }

  /** Every order is filed under its own id. */
  lemma FiledById(s: State, d: Dir)
    requires Inv(s)
    ensures forall k :: k in s.orders.Get(d) ==> s.orders.Get(d)[k].id == k
  {
    assert SideShape(s.orders.Get(d), d, s.orderArrival);
  }

  class Engine {
    var orders: Book
    var fills: seq<Fill>
    var orderArrival: int

    ghost function Model(): State
      reads this
    {
      State(orders, fills, orderArrival)
    }

    ghost predicate Valid()
      reads this
    {
      Inv(Model())
    }

    constructor()
      ensures Model() == Initial && Valid()
    {
      orders := Book(map[], map[]);
      fills := [];
      orderArrival := 0;
    }

    /** `Engine.strip_empty_orders`: each side loses the orders without
        lots. */
    method StripEmptyOrders()
      modifies this
      ensures orders == old(orders).Compact()
      ensures fills == old(fills) && orderArrival == old(orderArrival)
    {
      var dirs := [Buy, Sell];
      for i := 0 to |dirs|
        invariant fills == old(fills) && orderArrival == old(orderArrival)
        invariant forall j :: 0 <= j < i ==> orders.Get(dirs[j]) == CompactSide(old(orders).Get(dirs[j]))
        invariant forall j :: i <= j < |dirs| ==> orders.Get(dirs[j]) == old(orders).Get(dirs[j])
      {
        var d := dirs[i];
        var side := StripSide(orders.Get(d));
        orders := orders.With(d, side);
      }
      assert dirs[0] == Buy && dirs[1] == Sell;
      assert orders.buys == CompactSide(old(orders).buys) && orders.sells == CompactSide(old(orders).sells);
    }

    /** The loop of `Engine.strip_empty_orders` over one side: every order
        without lots is deleted, every other order stays. */
    static method StripSide(side: Side) returns (r: Side)
      ensures r == CompactSide(side)
    {
      r := side;
      var remaining := side.Keys;
      while remaining != {}
        invariant remaining <= side.Keys
        invariant r == map k | k in side && (k in remaining || side[k].needs != []) :: side[k]
        decreases |remaining|
      {
        var k :| k in remaining;
        if r[k].needs == [] {
          r := r - {k};
        }
        remaining := remaining - {k};
      }
    }

    /** `Engine.counter_needs`: every lot of the side opposite `d`, ascending
        by (price, arrival). */
    method CounterNeeds(d: Dir) returns (r: seq<Slot>)
      requires WellFormedSide(orders.Get(d.OtherSide()))
      ensures IsSnapshot(r, orders.Get(d.OtherSide()))
      ensures r == Snapshot(orders.Get(d.OtherSide()))
    {
      var counters := orders.Get(d.OtherSide());
      var flat: seq<Slot> := [];
      var remaining := counters.Keys;
      while remaining != {}
        invariant remaining <= counters.Keys
        invariant NoDup(flat)
        invariant forall x :: x in flat <==> x.owner !in remaining && HasSlot(counters, x)
        decreases |remaining|
      {
        var k :| k in remaining;
        var lots := SlotsOf(k, counters[k]);
        SlotsOfMembers(counters, k);
        SlotsOfNoDup(k, counters[k]);
        forall i, j | 0 <= i < j < |flat + lots| ensures (flat + lots)[i] != (flat + lots)[j] {
          if i < |flat| && j >= |flat| {
            assert (flat + lots)[i] in flat && (flat + lots)[j] in lots;
          }
        }
        flat := flat + lots;
        remaining := remaining - {k};
      }
      CollectedSnapshot(counters, flat);
      r := SortBy(flat, SlotLe);
      SnapshotIsSorted(counters);
    }

    /** `Need.fill` with the resting lot `x`: returns the fill, updates the
        resting order in the book, and hands back the incoming order and
        its lot as the fill left them. */
    method FillNeed(x: Slot, aggressor: Order, need: Need) returns (f: Fill, aggressor': Order, need': Need)
      requires x.owner in orders.Get(aggressor.dir.OtherSide())
      modifies this
      ensures var st := FillAt(Sweeping(old(orders).Get(aggressor.dir.OtherSide()), aggressor, need, old(fills)), x.owner, x.arrival);
              && orders == old(orders).With(aggressor.dir.OtherSide(), st.side)
              && old(fills) + [f] == st.fills
              && aggressor' == st.aggressor && need' == st.need
      ensures fills == old(fills) && orderArrival == old(orderArrival)
    {
      var od := aggressor.dir.OtherSide();
      var side := orders.Get(od);
      var o := side[x.owner];
      var q := BestQuantity(QtyAt(o.needs, x.arrival), need.quantity);
      f := Fill(x.owner, aggressor.id, aggressor.dir, q, o.price);
      need' := need.(quantity := need.quantity - q);
      aggressor' := aggressor.(needs := StripZeroNeeds([need']));
      orders := orders.With(od, side[x.owner := o.(needs := StripZeroNeeds(DecrementAt(o.needs, x.arrival, q)))]);
    }

    /** `Need.try_fill_against_counters`: sweeps the snapshot once, filling
        whenever `should_fill` holds. It always reports no fill. */
    method TryFillAgainstCounters(aggressor: Order, need: Need) returns (result: bool, aggressor': Order, need': Need)
      requires WellFormedSide(orders.Get(aggressor.dir.OtherSide()))
      modifies this
      ensures !result
      ensures var od := aggressor.dir.OtherSide();
              var st := Sweep(Sweeping(old(orders).Get(od), aggressor, need, old(fills)), Snapshot(old(orders).Get(od)));
              && orders == old(orders).With(od, st.side) && fills == st.fills
              && aggressor' == st.aggressor && need' == st.need
      ensures orderArrival == old(orderArrival)
    {
      result := false;
      var counters := CounterNeeds(aggressor.dir);
      aggressor', need' := SweepCounters(counters, aggressor, need);
    }

    /** The loop of `Need.try_fill_against_counters` over the snapshot
        `counters`, one lot at a time. */
    method SweepCounters(counters: seq<Slot>, aggressor: Order, need: Need) returns (aggressor': Order, need': Need)
      modifies this
      ensures var od := aggressor.dir.OtherSide();
              var st := Sweep(Sweeping(old(orders).Get(od), aggressor, need, old(fills)), counters);
              && orders == old(orders).With(od, st.side) && fills == st.fills
              && aggressor' == st.aggressor && need' == st.need
      ensures orderArrival == old(orderArrival)
    {
      var od := aggressor.dir.OtherSide();
      ghost var start := Sweeping(orders.Get(od), aggressor, need, fills);
      aggressor', need' := aggressor, need;
      var didFill := false;
      for i := 0 to |counters|
        invariant orders.Get(aggressor.dir) == old(orders).Get(aggressor.dir) && orderArrival == old(orderArrival)
        invariant aggressor'.dir == aggressor.dir
        invariant Sweep(start, counters) == Sweep(Sweeping(orders.Get(od), aggressor', need', fills), counters[i..])
      {
        assert counters[i..] == [counters[i]] + counters[i + 1..];
        var filled;
        filled, aggressor', need' := TryFillOne(counters[i], aggressor', need');
        didFill := didFill || filled;
      }
      OtherSideKept(old(orders), orders, od);
    }

    /** One pass of the loop in `Need.try_fill_against_counters`: fills
        against the snapshot lot `x` when `should_fill` holds for it now. */
    method TryFillOne(x: Slot, aggressor: Order, need: Need) returns (filled: bool, aggressor': Order, need': Need)
      modifies this
      ensures var od := aggressor.dir.OtherSide();
              && orders.Get(aggressor.dir) == old(orders).Get(aggressor.dir)
              && Sweeping(orders.Get(od), aggressor', need', fills) == Step(Sweeping(old(orders).Get(od), aggressor, need, old(fills)), x)
      ensures aggressor'.dir == aggressor.dir && orderArrival == old(orderArrival)
    {
      var side := orders.Get(aggressor.dir.OtherSide());
      aggressor', need' := aggressor, need;
      filled := x.owner in side && ShouldFill(side[x.owner], QtyAt(side[x.owner].needs, x.arrival), aggressor, need.quantity);
      if filled {
        var f;
        f, aggressor', need' := FillNeed(x, aggressor, need);
        fills := fills + [f];
      }
    }

    /** `Engine.add_to_book`: files the order on its side under its id. */
    method AddToBook(o: Order)
      modifies this
      ensures orders == old(orders).With(o.dir, old(orders).Get(o.dir)[o.id := o])
      ensures fills == old(fills) && orderArrival == old(orderArrival)
    {
      orders := orders.With(o.dir, orders.Get(o.dir)[o.id := o]);
    }

    /** `Order.process` for a new order, built with the current arrival:
        sweep until no fill is reported (once, since none ever is), file,
        compact. Returns the order as it ends up. */
    method ProcessNew(id: OrderId, dir: Dir, quantity: nat, price: Price) returns (placed: Order)
      requires Valid()
      modifies this
      ensures Model() == NewResult(old(Model()), id, dir, quantity, price)
      ensures placed == NewSweep(old(Model()), id, dir, quantity, price).aggressor
    {
      var order := Order(id, dir, price, []);
      order := AddNeed(order, orderArrival, quantity);
      assert order == Incoming(Model(), id, dir, quantity, price);
      assert WellFormedSide(orders.Get(dir.OtherSide())) by {
        if dir == Buy { } else { }
      }
      var again := true;
      while again
        invariant again ==> Model() == old(Model()) && order == Incoming(Model(), id, dir, quantity, price)
        invariant !again ==>
                    var st := NewSweep(old(Model()), id, dir, quantity, price);
                    && orders == old(orders).With(dir.OtherSide(), st.side) && fills == st.fills
                    && orderArrival == old(orderArrival) && order == st.aggressor
        decreases again
      {
        var need := order.needs[0];
        var didFill;
        didFill, order, need := TryFillAgainstCounters(order, need);
        again := order.needs != [] && didFill;
      }
      ghost var counters := old(orders).Get(dir.OtherSide());
      ghost var incoming := Incoming(old(Model()), id, dir, quantity, price);
      SweepConserves(Sweeping(counters, incoming, incoming.needs[0], old(fills)), Snapshot(counters));
      ghost var swept := orders;
      AddToBook(order);
      assert orders == swept.With(dir, swept.Get(dir)[id := order]);
      StripEmptyOrders();
      placed := order;
    }

    /** `Engine.remove_matching`: drops the id from each side. */
    method RemoveMatching(id: OrderId)
      modifies this
      ensures orders == Commands.RemoveMatching(old(orders), id)
      ensures fills == old(fills) && orderArrival == old(orderArrival)
    {
      var dirs := [Buy, Sell];
      for i := 0 to |dirs|
        invariant fills == old(fills) && orderArrival == old(orderArrival)
        invariant forall j :: 0 <= j < i ==> orders.Get(dirs[j]) == old(orders).Get(dirs[j]) - {id}
        invariant forall j :: i <= j < |dirs| ==> orders.Get(dirs[j]) == old(orders).Get(dirs[j])
      {
        var d := dirs[i];
        orders := orders.With(d, orders.Get(d) - {id});
      }
      assert dirs[0] == Buy && dirs[1] == Sell;
      assert orders.buys == old(orders).buys - {id} && orders.sells == old(orders).sells - {id};
    }

    /** `Engine.matching`: the first side, buys then sells, holding the id. */
    method Matching(id: OrderId) returns (r: Option<Order>)
      ensures r == Commands.Matching(orders, id)
    {
      var dirs := [Buy, Sell];
      assert dirs[0] == Buy && dirs[1] == Sell;
      r := None;
      var i := 0;
      while i < |dirs| && r.None?
        invariant 0 <= i <= |dirs|
        invariant r.None? ==> forall j :: 0 <= j < i ==> id !in orders.Get(dirs[j])
        invariant r.Some? ==> 0 < i && id in orders.Get(dirs[i - 1]) && r.value == orders.Get(dirs[i - 1])[id]
                              && forall j :: 0 <= j < i - 1 ==> id !in orders.Get(dirs[j])
      {
        var side := orders.Get(dirs[i]);
        if id in side {
          r := Some(side[id]);
        }
        i := i + 1;
      }
    }

    /** `Modify.process` with the current arrival: resize the order found,
        drop its empty lots, compact. An unknown id fails and changes
        nothing. */
    method ProcessModify(id: OrderId, newQuantity: int) returns (r: Result<Option<Order>, EngineError>)
      requires Valid()
      modifies this
      ensures var m := ModifyResult(old(Model()), id, newQuantity);
              && (m.Success? ==> r == Success(None) && Model() == m.value)
              && (m.Failure? ==> r == Failure(m.error) && Model() == old(Model()))
    {
      var matching := Matching(id);
      if matching.None? {
        return Failure(UnknownOrder(id));
      }
      var o := matching.value;
      ghost var d := SideOf(orders, id);
      assert o.dir == d && Ascending(o.needs) by {
        if d == Buy { } else { }
      }
      var total := Sum(o.needs);
      if newQuantity < total {
        o := DecrementNeedsBackward(o, newQuantity);
      } else if newQuantity > total {
        o := AddNeed(o, orderArrival, newQuantity - total);
      }
      o := o.(needs := StripZeroNeeds(o.needs));
      orders := orders.With(o.dir, orders.Get(o.dir)[id := o]);
      StripEmptyOrders();
      r := Success(None);
    }

    /** `Engine.add_order_s` on a parsed command: take the next arrival
        number, then run the command. */
    method Submit(c: Command) returns (r: Result<Option<Order>, EngineError>)
      requires Valid()
      modifies this
      ensures Model() == Apply(old(Model()), c)
      ensures r == Outcome(old(Model()), c)
      ensures Valid()
    {
      orderArrival := orderArrival + 1;
      match c {
        case New(id, dir, quantity, price) =>
          var placed := ProcessNew(id, dir, quantity, price);
          r := Success(Some(placed));
        case Cancel(id) =>
          RemoveMatching(id);
          r := Success(None);
        case Modify(id, newQuantity) =>
          r := ProcessModify(id, newQuantity);
      }
      ApplyKeepsInv(old(Model()), c);
    }

    /** `Engine.dir_orders`: the orders resting on side `d`, in some order. */
    method DirOrders(d: Dir) returns (r: seq<Order>)
      requires Valid()
      ensures forall o :: o in r <==> o in orders.Get(d).Values
      ensures |r| == |orders.Get(d)|
      ensures NoDup(r)
    {
      FiledById(Model(), d);
      r := SideValues(orders.Get(d));
    }

    /** The values of a side, one per key, in whatever order the keys are
        taken. */
    static method SideValues(side: Side) returns (r: seq<Order>)
      requires forall k :: k in side ==> side[k].id == k
      ensures forall o :: o in r <==> o in side.Values
      ensures |r| == |side|
      ensures NoDup(r)
    {
      r := [];
      var remaining := side.Keys;
      ghost var done: set<OrderId> := {};
      while remaining != {}
        invariant remaining !! done && remaining + done == side.Keys
        invariant |r| == |done|
        invariant forall o :: o in r <==> exists k :: k in done && side[k] == o
        invariant forall i :: 0 <= i < |r| ==> r[i].id in done
        invariant NoDup(r)
        decreases |remaining|
      {
        var k :| k in remaining;
        NoDupAppend(r, side[k]);
        r := r + [side[k]];
        remaining := remaining - {k};
        done := done + {k};
      }
      assert done == side.Keys;
    }

    /** `Engine.buys`: the resting buy orders, ascending by price. */
    method Buys() returns (r: seq<Order>)
      requires Valid()
      ensures forall o :: o in r <==> o in orders.buys.Values
      ensures |r| == |orders.buys|
      ensures NoDup(r)
      ensures Sorted(r, PriceLe)
    {
      var all := DirOrders(Buy);
      r := Prioritized(all);
      assert forall o :: o in r <==> o in multiset(r);
      assert forall o :: o in all <==> o in multiset(all);
      NoDupCount(all);
      NoDupCount(r);
    }

    /** `Engine.sells`: the resting sell orders, ascending by price. */
    method Sells() returns (r: seq<Order>)
      requires Valid()
      ensures forall o :: o in r <==> o in orders.sells.Values
      ensures |r| == |orders.sells|
      ensures NoDup(r)
      ensures Sorted(r, PriceLe)
    {
      var all := DirOrders(Sell);
      r := Prioritized(all);
      assert forall o :: o in r <==> o in multiset(r);
      assert forall o :: o in all <==> o in multiset(all);
      NoDupCount(all);
      NoDupCount(r);
    }
  }
}
