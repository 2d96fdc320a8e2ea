/** What the engine of matching/python/engine.py does with each command,
    stated on values: the book (`Engine.orders`), the fill log
    (`Engine.fills`) and the arrival counter (`Engine.order_arrival`).
    The class `Matching.Engine` is proved to follow these functions; the
    lemmas here say what they promise. */
module Commands {
  import opened Wrappers
  import opened Orders
  import opened CounterSweep

  /** `Engine.orders`: the resting orders of each side, by id. */
  datatype Book = Book(buys: Side, sells: Side) {

    function Get(d: Dir): Side
    {
      if d == Buy then buys else sells
    }

    function With(d: Dir, side: Side): (r: Book)
      ensures r.Get(d) == side && r.Get(d.OtherSide()) == Get(d.OtherSide())
    {
      if d == Buy then Book(side, sells) else Book(buys, side)
    }

    /** `Engine.strip_empty_orders`, on both sides. */
    function Compact(): Book
    {
      Book(CompactSide(buys), CompactSide(sells))
    }
  }

  /** A book whose side opposite `d` is unchanged is the old book with a
      new side `d`. */
  lemma OtherSideKept(b: Book, b': Book, d: Dir)
    requires b'.Get(d.OtherSide()) == b.Get(d.OtherSide())
    ensures b' == b.With(d, b'.Get(d))
  {
  }

  /** Drops the orders that have no lot left; the others stay as they are. */
  function CompactSide(side: Side): (r: Side)
    ensures forall k :: k in r <==> k in side && side[k].needs != []
    ensures forall k :: k in r ==> r[k] == side[k]
  {
    map k | k in side && side[k].needs != [] :: side[k]
  }

  datatype State = State(orders: Book, fills: seq<Fill>, orderArrival: int)

  /** The three commands `Engine.order` parses, with the quantity of a new
      order already read as a natural number. */
  datatype Command =
    | New(id: OrderId, dir: Dir, quantity: nat, price: Price)
    | Cancel(id: OrderId)
    | Modify(id: OrderId, newQuantity: int)

  /** A Modify of an id that is on neither side raises in the source. */
  datatype EngineError = UnknownOrder(id: OrderId)

  /** `Engine.__init__`. */
  const Initial := State(Book(map[], map[]), [], 0)

  /** `Engine.remove_matching`: the id leaves both sides. */
  function RemoveMatching(b: Book, id: OrderId): (r: Book)
    ensures id !in r.buys && id !in r.sells
    ensures forall k :: k != id ==> (k in r.buys <==> k in b.buys) && (k in r.sells <==> k in b.sells)
    ensures forall k :: k in r.buys ==> r.buys[k] == b.buys[k]
    ensures forall k :: k in r.sells ==> r.sells[k] == b.sells[k]
  {
    Book(b.buys - {id}, b.sells - {id})
  }

  /** `Engine.matching`: the order with that id, looked up on the buy side
      first. */
  function Matching(b: Book, id: OrderId): (r: Option<Order>)
    ensures r.Some? <==> id in b.buys || id in b.sells
    ensures r.Some? && id in b.buys ==> r.value == b.buys[id]
    ensures r.Some? && id !in b.buys ==> r.value == b.sells[id]
  {
    if id in b.buys then Some(b.buys[id])
    else if id in b.sells then Some(b.sells[id])
    else None
  }

  /** The side `Matching` finds `id` on. */
  function SideOf(b: Book, id: OrderId): Dir
  {
    if id in b.buys then Buy else Sell
  }

  /** What `Modify.process` does to the order it found: shrink it with
      `decrement_needs_backward`, or grow it by a lot stamped `arrival`,
      then drop the empty lots. */
  function Resize(o: Order, target: int, arrival: int): Order
  {
    var total := Sum(o.needs);
    var resized :=
      if target < total then o.(needs := DecrementBackward(o.needs, target))
      else if target > total then AddNeed(o, arrival, target - total)
      else o;
    resized.(needs := StripZeroNeeds(resized.needs))
  }

  /** The order `Engine.order` builds for a New command: one lot, stamped
      with the command's arrival. */
  function Incoming(s: State, id: OrderId, dir: Dir, quantity: nat, price: Price): Order
  {
    Order(id, dir, price, [Need(s.orderArrival, quantity)])
  }

  /** `Order.process` up to the insertion: the incoming order's only lot
      sweeps the snapshot of the opposite side. */
  ghost function NewSweep(s: State, id: OrderId, dir: Dir, quantity: nat, price: Price): Sweeping
  {
    var o := Incoming(s, id, dir, quantity, price);
    var counters := s.orders.Get(dir.OtherSide());
    Sweep(Sweeping(counters, o, o.needs[0], s.fills), Snapshot(counters))
  }

  /** `Order.process` for a command that got arrival `s.orderArrival`:
      sweep, file the incoming order (`Engine.add_to_book`), compact. */
  ghost function NewResult(s: State, id: OrderId, dir: Dir, quantity: nat, price: Price): State
  {
    var st := NewSweep(s, id, dir, quantity, price);
    var swept := s.orders.With(dir.OtherSide(), st.side);
    State(swept.With(dir, swept.Get(dir)[id := st.aggressor]).Compact(), st.fills, s.orderArrival)
  }

  /** `Modify.process` for a command that got arrival `s.orderArrival`. */
  function ModifyResult(s: State, id: OrderId, target: int): Result<State, EngineError>
  {
    match Matching(s.orders, id)
    case None => Failure(UnknownOrder(id))
    case Some(o) =>
      var d := SideOf(s.orders, id);
      var resized := s.orders.With(d, s.orders.Get(d)[id := Resize(o, target, s.orderArrival)]);
      Success(s.(orders := resized.Compact()))
  }

  /** `Engine.add_order_s`: every command takes the next arrival number,
      then runs. A failing Modify leaves only the counter moved. */
  ghost function Apply(s: State, c: Command): State
  {
    var s1 := s.(orderArrival := s.orderArrival + 1);
    match c
    case New(id, dir, quantity, price) => NewResult(s1, id, dir, quantity, price)
    case Cancel(id) => s1.(orders := RemoveMatching(s1.orders, id))
    case Modify(id, target) =>
      match ModifyResult(s1, id, target)
      case Success(s2) => s2
      case Failure(_) => s1
  }

  /** What `Engine.add` hands back: the processed order for a New (its
      lots as the sweep left them), nothing for the others, or the error
      of a Modify of an unknown id. */
  ghost function Outcome(s: State, c: Command): Result<Option<Order>, EngineError>
  {
    var s1 := s.(orderArrival := s.orderArrival + 1);
    match c
    case New(id, dir, quantity, price) => Success(Some(NewSweep(s1, id, dir, quantity, price).aggressor))
    case Cancel(_) => Success(None)
    case Modify(id, target) =>
      match ModifyResult(s1, id, target)
      case Success(_) => Success(None)
      case Failure(e) => Failure(e)
  }

  /** What the engine keeps true of one side: well formed, every order on
      its own side, no order without lots, and no arrival later than the
      counter. */
  ghost predicate SideShape(side: Side, d: Dir, arrival: int)
  {
    && WellFormedSide(side)
    && forall k :: k in side ==>
         && side[k].dir == d
         && forall b :: b in Arrivals(side[k].needs) ==> b <= arrival
  }

  ghost predicate NonEmpty(side: Side)
  {
    forall k :: k in side ==> side[k].needs != []
  }

  ghost predicate Inv(s: State)
  {
    && SideShape(s.orders.buys, Buy, s.orderArrival) && NonEmpty(s.orders.buys)
    && SideShape(s.orders.sells, Sell, s.orderArrival) && NonEmpty(s.orders.sells)
  }

  /** Every command moves the counter by one and only appends to the log. */
  lemma ApplyAppendsOnly(s: State, c: Command)
    ensures Apply(s, c).orderArrival == s.orderArrival + 1
    ensures |s.fills| <= |Apply(s, c).fills| && Apply(s, c).fills[..|s.fills|] == s.fills
  {
    if c.New? {
      var s1 := s.(orderArrival := s.orderArrival + 1);
      var o := Incoming(s1, c.id, c.dir, c.quantity, c.price);
      var counters := s1.orders.Get(c.dir.OtherSide());
      SweepConserves(Sweeping(counters, o, o.needs[0], s1.fills), Snapshot(counters));
    }
  }

  /** Compaction leaves a well-shaped side well shaped and without empty
      orders. */
  lemma CompactShape(side: Side, d: Dir, a: int)
    requires SideShape(side, d, a)
    ensures SideShape(CompactSide(side), d, a) && NonEmpty(CompactSide(side))
  {
  }

  /** Filing an order under its id keeps a side well shaped when the
      order's lots are not shared with the side's other orders. */
  lemma FileShape(side: Side, d: Dir, a: int, o: Order)
    requires SideShape(side, d, a)
    requires o.dir == d && Ascending(o.needs)
    requires forall b :: b in Arrivals(o.needs) ==> b <= a
    requires forall k :: k in side && k != o.id ==> Arrivals(side[k].needs) !! Arrivals(o.needs)
    ensures SideShape(side[o.id := o], d, a)
  {
  }

  /** `Resize` keeps the order's identity and its lots in arrival order,
      and brings in no arrival but the command's own. */
  lemma ResizeShape(o: Order, target: int, arrival: int)
    requires Ascending(o.needs)
    requires forall b :: b in Arrivals(o.needs) ==> b < arrival
    ensures var r := Resize(o, target, arrival);
            && r.id == o.id && r.dir == o.dir && r.price == o.price
            && Ascending(r.needs)
            && Arrivals(r.needs) <= Arrivals(o.needs) + {arrival}
  {
    var total := Sum(o.needs);
    if target < total {
      var lowered := DecrementBackward(o.needs, target);
      DecrementBackwardArrivals(o.needs, target);
      assert Arrivals(lowered) == Arrivals(o.needs) by {
        forall b | b in Arrivals(lowered) ensures b in Arrivals(o.needs) {
          var i :| 0 <= i < |lowered| && lowered[i].arrival == b;
          assert o.needs[i] in o.needs;
        }
        forall b | b in Arrivals(o.needs) ensures b in Arrivals(lowered) {
          var i :| 0 <= i < |o.needs| && o.needs[i].arrival == b;
          assert lowered[i] in lowered;
        }
      }
      StripAscending(lowered);
    } else if target > total {
      var grown := AddNeed(o, arrival, target - total);
      assert forall n :: n in o.needs ==> n.arrival in Arrivals(o.needs);
      assert Arrivals(grown.needs) == Arrivals(o.needs) + {arrival} by {
        assert grown.needs == o.needs + [Need(arrival, target - total)];
      }
      StripAscending(grown.needs);
    } else {
      StripAscending(o.needs);
    }
  }

  /** The side a sweep ran over keeps its shape. */
  lemma SweptShape(st: Sweeping, snap: seq<Slot>, d: Dir, a: int)
    requires SideShape(st.side, d, a)
    ensures SideShape(Sweep(st, snap).side, d, a)
  {
    SweepShrinks(st, snap);
    ShrinksWellFormed(st.side, Sweep(st, snap).side);
  }

  /** After its sweep, the incoming order still holds at most its one lot. */
  lemma SweptAggressor(st: Sweeping, snap: seq<Slot>)
    requires st.aggressor.needs == [st.need]
    ensures var aggr := Sweep(st, snap).aggressor;
            && aggr.id == st.aggressor.id && aggr.dir == st.aggressor.dir
            && Ascending(aggr.needs) && Arrivals(aggr.needs) <= {st.need.arrival}
  {
    SweepConserves(st, snap);
    var st' := Sweep(st, snap);
    if |st'.fills| > |st.fills| {
      assert forall n :: n in st'.aggressor.needs ==> n == st'.need;
    }
  }

  /** Both sides of a book that satisfies the invariant, named by direction. */
  lemma InvSides(s: State, d: Dir)
    requires Inv(s)
    ensures SideShape(s.orders.Get(d), d, s.orderArrival)
    ensures SideShape(s.orders.Get(d.OtherSide()), d.OtherSide(), s.orderArrival)
  {
  }

  /** A side shaped for one arrival is shaped for every later one. */
  lemma ShapeLater(side: Side, d: Dir, a: int, a': int)
    requires SideShape(side, d, a) && a <= a'
    ensures SideShape(side, d, a')
  {
  }

  /** Filing `o` under its id, where `o` holds only lots of the order it
      replaces (if any) and a lot of the new arrival `a`, keeps a side
      that predates `a` well shaped. */
  lemma FileLater(side: Side, d: Dir, a: int, o: Order)
    requires SideShape(side, d, a - 1)
    requires o.dir == d && Ascending(o.needs)
    requires Arrivals(o.needs) <= (if o.id in side then Arrivals(side[o.id].needs) else {}) + {a}
    ensures SideShape(side[o.id := o], d, a)
  {
    ShapeLater(side, d, a - 1, a);
    forall k | k in side && k != o.id
      ensures Arrivals(side[k].needs) !! Arrivals(o.needs)
    {
      assert a !in Arrivals(side[k].needs);
      if o.id in side {
        assert Arrivals(side[k].needs) !! Arrivals(side[o.id].needs);
      }
    }
    FileShape(side, d, a, o);
  }

  lemma NewKeepsInv(s: State, id: OrderId, dir: Dir, quantity: nat, price: Price)
    requires Inv(s)
    ensures Inv(Apply(s, New(id, dir, quantity, price)))
  {
    var s1 := s.(orderArrival := s.orderArrival + 1);
    var a := s1.orderArrival;
    var other := dir.OtherSide();
    InvSides(s, dir);
    var o := Incoming(s1, id, dir, quantity, price);
    var counters := s1.orders.Get(other);
    ShapeLater(counters, other, a - 1, a);
    var snap := Snapshot(counters);
    var st0 := Sweeping(counters, o, o.needs[0], s1.fills);
    var st := Sweep(st0, snap);
    SweptShape(st0, snap, other, a);
    SweptAggressor(st0, snap);
    var aggr := st.aggressor;
    var own := s1.orders.Get(dir);
    FileLater(own, dir, a, aggr);
    var swept := s1.orders.With(other, st.side);
    var filed := swept.With(dir, swept.Get(dir)[id := aggr]);
    assert filed.Get(dir) == own[id := aggr];
    CompactInv(filed, dir, st.fills, a);
    ApplyNew(s, id, dir, quantity, price);
    assert NewResult(s1, id, dir, quantity, price) == State(filed.Compact(), st.fills, a);
  }

  /** A book whose two sides are well shaped satisfies the invariant once
      compacted. */
  lemma CompactInv(b: Book, d: Dir, fills: seq<Fill>, a: int)
    requires SideShape(b.Get(d), d, a) && SideShape(b.Get(d.OtherSide()), d.OtherSide(), a)
    ensures Inv(State(b.Compact(), fills, a))
  {
    CompactShape(b.buys, Buy, a);
    CompactShape(b.sells, Sell, a);
  }

  lemma ModifyKeepsInv(s: State, id: OrderId, target: int)
    requires Inv(s)
    ensures Inv(Apply(s, Modify(id, target)))
  {
    var s1 := s.(orderArrival := s.orderArrival + 1);
    var a := s1.orderArrival;
    ApplyModify(s, id, target);
    if id in s.orders.buys || id in s.orders.sells {
      var d := SideOf(s.orders, id);
      InvSides(s, d);
      var side := s.orders.Get(d);
      var o := side[id];
      ResizeShape(o, target, a);
      var o' := Resize(o, target, a);
      FileLater(side, d, a, o');
      ShapeLater(s.orders.Get(d.OtherSide()), d.OtherSide(), a - 1, a);
      var resized := s.orders.With(d, side[id := o']);
      ModifyFound(s1, id, target);
      CompactInv(resized, d, s.fills, a);
      assert Apply(s, Modify(id, target)) == State(resized.Compact(), s.fills, a);
    } else {
      assert Matching(s1.orders, id) == None;
    }
  }

  /** The engine's invariant holds from the start and after every command. */
  lemma ApplyKeepsInv(s: State, c: Command)
    requires Inv(s)
    ensures Inv(Apply(s, c))
  {
    match c
    case New(id, dir, quantity, price) => NewKeepsInv(s, id, dir, quantity, price);
    case Cancel(id) =>
    case Modify(id, target) => ModifyKeepsInv(s, id, target);
  }

  /** A New command's quantity is what its order keeps plus what the fills
      it caused traded; those fills are positive and name the new order
      as the incoming one. The order rests on its side exactly when it
      kept a lot: a positive order that traded in full is not filed,
      while an order for nothing stays with its empty-quantity lot. */
  lemma NewConserves(s: State, id: OrderId, dir: Dir, quantity: nat, price: Price)
    ensures var s' := Apply(s, New(id, dir, quantity, price));
            var placed := Outcome(s, New(id, dir, quantity, price)).value.value;
            && |s.fills| <= |s'.fills|
            && quantity == Sum(placed.needs) + FillTotal(s'.fills[|s.fills|..])
            && (forall i :: |s.fills| <= i < |s'.fills| ==>
                  s'.fills[i].quantity > 0 && s'.fills[i].inOrder == id && s'.fills[i].inDir == dir)
            && placed.id == id && placed.dir == dir && placed.price == price
            && (placed.needs == [] <==> quantity > 0 && Sum(placed.needs) == 0)
            && (id in s'.orders.Get(dir) <==> placed.needs != [])
            && (id in s'.orders.Get(dir) ==> s'.orders.Get(dir)[id] == placed)
  {
    var s1 := s.(orderArrival := s.orderArrival + 1);
    var st := NewSweep(s1, id, dir, quantity, price);
    ApplyNew(s, id, dir, quantity, price);
    OutcomeNew(s, id, dir, quantity, price);
    NewBook(s, id, dir, quantity, price);
    NewSweepConserves(s1, id, dir, quantity, price);
    assert dir.OtherSide().OtherSide() == dir;
    assert Apply(s, New(id, dir, quantity, price)).orders.Get(dir) == CompactSide(s.orders.Get(dir)[id := st.aggressor]);
  }

  /** What a New hands back is the incoming order as its sweep left it. */
  lemma OutcomeNew(s: State, id: OrderId, dir: Dir, quantity: nat, price: Price)
    ensures Outcome(s, New(id, dir, quantity, price))
            == Success(Some(NewSweep(s.(orderArrival := s.orderArrival + 1), id, dir, quantity, price).aggressor))
  {
  }

  /** The sweep of a New: the quantity is what the incoming order keeps
      plus what the new fills traded, each fill positive and naming the
      incoming order; its lot is dropped only when used up by a fill. */
  lemma NewSweepConserves(s: State, id: OrderId, dir: Dir, quantity: nat, price: Price)
    ensures var st := NewSweep(s, id, dir, quantity, price);
            var aggr := st.aggressor;
            && |s.fills| <= |st.fills|
            && quantity == Sum(aggr.needs) + FillTotal(st.fills[|s.fills|..])
            && (forall i :: |s.fills| <= i < |st.fills| ==>
                  st.fills[i].quantity > 0 && st.fills[i].inOrder == id && st.fills[i].inDir == dir)
            && aggr.id == id && aggr.dir == dir && aggr.price == price
            && (aggr.needs == [] <==> quantity > 0 && Sum(aggr.needs) == 0)
  {
    var o := Incoming(s, id, dir, quantity, price);
    var counters := s.orders.Get(dir.OtherSide());
    var st0 := Sweeping(counters, o, o.needs[0], s.fills);
    var st := Sweep(st0, Snapshot(counters));
    SweepConserves(st0, Snapshot(counters));
    if |st.fills| > |s.fills| {
      assert Sum(st.aggressor.needs) == Sum([st.need]) == st.need.quantity;
      if st.need.quantity == 0 {
        assert st.aggressor.needs == [];
        var added := st.fills[|s.fills|..];
        assert added[0].quantity > 0;
      } else {
        assert st.need in st.aggressor.needs;
      }
    } else {
      assert Sum(st.aggressor.needs) == Sum([Need(s.orderArrival, quantity)]) == quantity;
    }
  }

  /** Every resting buy is priced below every resting sell. */
  ghost predicate Uncrossed(b: Book)
  {
    forall kb, ks :: kb in b.buys && ks in b.sells ==> b.buys[kb].price < b.sells[ks].price
  }

  /** Every order of `side'` is on `side` at the same price. */
  ghost predicate PricesWithin(side': Side, side: Side)
  {
    forall k :: k in side' ==> k in side && side'[k].price == side[k].price
  }

  lemma UncrossedWithin(b: Book, b': Book)
    requires Uncrossed(b)
    requires PricesWithin(b'.buys, b.buys) && PricesWithin(b'.sells, b.sells)
    ensures Uncrossed(b')
  {
  }

  /** An incoming order with quantity left after its sweep faces no order
      on the other side that accepts its price. */
  lemma NewClearsCrossing(s: State, id: OrderId, dir: Dir, quantity: nat, price: Price)
    requires SideShape(s.orders.Get(dir.OtherSide()), dir.OtherSide(), s.orderArrival)
    requires AllPositive(s.orders.Get(dir.OtherSide()))
    ensures var st := NewSweep(s, id, dir, quantity, price);
            && AllPositive(st.side)
            && Shrinks(s.orders.Get(dir.OtherSide()), st.side)
            && (st.need.quantity == 0 ||
                forall k :: k in st.side && st.side[k].needs != [] ==> !Crosses(st.side[k], price))
  {
    var o := Incoming(s, id, dir, quantity, price);
    var counters := s.orders.Get(dir.OtherSide());
    var snap := Snapshot(counters);
    var st0 := Sweeping(counters, o, o.needs[0], s.fills);
    var st := Sweep(st0, snap);
    SnapshotCoversCrossing(counters, price);
    SweepClearsCrossing(st0, snap);
    SweepKeepsPositive(st0, snap);
    SweepShrinks(st0, snap);
    if st.need.quantity != 0 {
      assert st0.aggressor.price == price;
      assert forall k, a :: !Crossing(st.side, k, a, price);
      forall k | k in st.side && st.side[k].needs != [] ensures !Crosses(st.side[k], price) {
        var n := st.side[k].needs[0];
        assert n in st.side[k].needs && n.quantity > 0;
        QtyAtMember(st.side[k].needs, n);
        assert !Crossing(st.side, k, n.arrival, price);
      }
    }
  }

  /** Replacing the two sides of an uncrossed book keeps it uncrossed when
      the orders kept are at their old prices and the one order `id` that
      may be new faces no opposite order accepting its price. */
  lemma RefiledUncrossed(b: Book, dir: Dir, own': Side, other': Side, id: OrderId, price: Price)
    requires Uncrossed(b)
    requires PricesWithin(other', b.Get(dir.OtherSide()))
    requires forall k :: k in own' && k != id ==> k in b.Get(dir) && own'[k].price == b.Get(dir)[k].price
    requires id in own' ==> own'[id].price == price && forall k :: k in other' ==> !Crosses(other'[k], price)
    requires forall k :: k in other' ==> other'[k].dir == dir.OtherSide()
    ensures Uncrossed(b.With(dir, own').With(dir.OtherSide(), other'))
  {
    var b' := b.With(dir, own').With(dir.OtherSide(), other');
    if dir == Buy {
      assert b'.buys == own' && b'.sells == other';
      forall kb, ks | kb in own' && ks in other' ensures own'[kb].price < other'[ks].price {
        if kb != id {
          assert kb in b.buys && ks in b.sells;
        }
      }
    } else {
      assert b'.sells == own' && b'.buys == other';
      forall kb, ks | kb in other' && ks in own' ensures other'[kb].price < own'[ks].price {
        if ks != id {
          assert kb in b.buys && ks in b.sells;
        }
      }
    }
  }

  /** The book after a New: each side compacted, the opposite side as the
      sweep left it, the incoming order filed on its own side. */
  lemma NewBook(s: State, id: OrderId, dir: Dir, quantity: nat, price: Price)
    ensures var s1 := s.(orderArrival := s.orderArrival + 1);
            var st := NewSweep(s1, id, dir, quantity, price);
            Apply(s, New(id, dir, quantity, price)).orders
            == s.orders.With(dir, CompactSide(s.orders.Get(dir)[id := st.aggressor]))
                       .With(dir.OtherSide(), CompactSide(st.side))
  {
    var s1 := s.(orderArrival := s.orderArrival + 1);
    var st := NewSweep(s1, id, dir, quantity, price);
    var swept := s1.orders.With(dir.OtherSide(), st.side);
    var filed := swept.With(dir, swept.Get(dir)[id := st.aggressor]);
    ApplyNew(s, id, dir, quantity, price);
    assert NewResult(s1, id, dir, quantity, price).orders == filed.Compact();
    if dir == Buy {
      assert filed == Book(s.orders.buys[id := st.aggressor], st.side);
    } else {
      assert filed == Book(st.side, s.orders.sells[id := st.aggressor]);
    }
  }

  /** The two sides after a New of positive quantity, as
      `RefiledUncrossed` needs them. */
  lemma NewSides(s: State, id: OrderId, dir: Dir, quantity: nat, price: Price)
    requires Inv(s) && AllPositive(s.orders.buys) && AllPositive(s.orders.sells)
    requires quantity > 0
    ensures var s1 := s.(orderArrival := s.orderArrival + 1);
            var st := NewSweep(s1, id, dir, quantity, price);
            var own' := CompactSide(s.orders.Get(dir)[id := st.aggressor]);
            var other' := CompactSide(st.side);
            && AllPositive(own') && AllPositive(other')
            && PricesWithin(other', s.orders.Get(dir.OtherSide()))
            && (forall k :: k in own' && k != id ==> k in s.orders.Get(dir) && own'[k].price == s.orders.Get(dir)[k].price)
            && (id in own' ==> own'[id].price == price && forall k :: k in other' ==> !Crosses(other'[k], price))
            && (forall k :: k in other' ==> other'[k].dir == dir.OtherSide())
  {
    var s1 := s.(orderArrival := s.orderArrival + 1);
    var other := dir.OtherSide();
    var counters := s1.orders.Get(other);
    var own := s1.orders.Get(dir);
    var st := NewSweep(s1, id, dir, quantity, price);
    assert SideShape(counters, other, s1.orderArrival);
    NewClearsCrossing(s1, id, dir, quantity, price);
    var aggr := st.aggressor;
    SweepConserves(Sweeping(counters, Incoming(s1, id, dir, quantity, price), Need(s1.orderArrival, quantity), s1.fills), Snapshot(counters));
    assert AllPositive(own[id := aggr]);
    assert aggr.needs != [] ==> st.need.quantity > 0 by {
      if aggr.needs != [] && |st.fills| > |s1.fills| {
        assert aggr.needs[0] in StripZeroNeeds([st.need]);
      }
    }
  }

  /** For a New of positive quantity on a book without empty lots: the book
      stays uncrossed and keeps no empty lot. */
  lemma NewKeepsUncrossed(s: State, id: OrderId, dir: Dir, quantity: nat, price: Price)
    requires Inv(s) && AllPositive(s.orders.buys) && AllPositive(s.orders.sells)
    requires Uncrossed(s.orders)
    requires quantity > 0
    ensures var s' := Apply(s, New(id, dir, quantity, price));
            AllPositive(s'.orders.buys) && AllPositive(s'.orders.sells) && Uncrossed(s'.orders)
  {
    var s1 := s.(orderArrival := s.orderArrival + 1);
    var st := NewSweep(s1, id, dir, quantity, price);
    var own' := CompactSide(s.orders.Get(dir)[id := st.aggressor]);
    var other' := CompactSide(st.side);
    NewBook(s, id, dir, quantity, price);
    NewSides(s, id, dir, quantity, price);
    RefiledUncrossed(s.orders, dir, own', other', id, price);
    var b' := s.orders.With(dir, own').With(dir.OtherSide(), other');
    assert AllPositive(b'.buys) && AllPositive(b'.sells) by {
      if dir == Buy { } else { }
    }
  }

  /** Cancel takes the id off both sides and touches nothing else; an
      unknown id leaves the book as it was, and cancelling twice is
      cancelling once. */
  lemma CancelRemoves(s: State, id: OrderId)
    ensures var s' := Apply(s, Cancel(id));
            && id !in s'.orders.buys && id !in s'.orders.sells
            && (forall d: Dir, k :: k != id ==> (k in s'.orders.Get(d) <==> k in s.orders.Get(d)))
            && (forall d: Dir, k :: k in s'.orders.Get(d) ==> s'.orders.Get(d)[k] == s.orders.Get(d)[k])
            && s'.fills == s.fills
            && (id !in s.orders.buys && id !in s.orders.sells ==> s'.orders == s.orders)
            && Apply(s', Cancel(id)).orders == s'.orders
  {
  }

  /** A Modify fails exactly when the id is on neither side, and then only
      the arrival counter has moved. */
  lemma ModifyUnknown(s: State, id: OrderId, target: int)
    ensures Outcome(s, Modify(id, target)).Failure? <==> id !in s.orders.buys && id !in s.orders.sells
    ensures Outcome(s, Modify(id, target)).Failure? ==>
              Outcome(s, Modify(id, target)).error == UnknownOrder(id)
              && Apply(s, Modify(id, target)) == s.(orderArrival := s.orderArrival + 1)
  {
  }

  /** The book after a Modify of an order that exists. */
  lemma ModifyBook(s: State, id: OrderId, target: int)
    requires id in s.orders.buys || id in s.orders.sells
    ensures var d := SideOf(s.orders, id);
            var o := s.orders.Get(d)[id];
            Apply(s, Modify(id, target)).orders
            == s.orders.With(d, CompactSide(s.orders.Get(d)[id := Resize(o, target, s.orderArrival + 1)]))
                       .With(d.OtherSide(), CompactSide(s.orders.Get(d.OtherSide())))
  {
    var d := SideOf(s.orders, id);
    var o := s.orders.Get(d)[id];
    ApplyModify(s, id, target);
    ModifyFound(s.(orderArrival := s.orderArrival + 1), id, target);
    CompactWith(s.orders, d, s.orders.Get(d)[id := Resize(o, target, s.orderArrival + 1)]);
  }

  /** A New takes the next arrival, then runs `NewResult`. */
  lemma ApplyNew(s: State, id: OrderId, dir: Dir, quantity: nat, price: Price)
    ensures Apply(s, New(id, dir, quantity, price)) == NewResult(s.(orderArrival := s.orderArrival + 1), id, dir, quantity, price)
  {
  }

  /** A Modify takes the next arrival, then applies `ModifyResult`; a
      failure keeps only the moved counter. */
  lemma ApplyModify(s: State, id: OrderId, target: int)
    ensures var s1 := s.(orderArrival := s.orderArrival + 1);
            Apply(s, Modify(id, target))
            == match ModifyResult(s1, id, target) case Success(s2) => s2 case Failure(_) => s1
  {
  }

  /** A Modify of a known id refiles the resized order on its side and
      compacts the book. */
  lemma ModifyFound(s: State, id: OrderId, target: int)
    requires id in s.orders.buys || id in s.orders.sells
    ensures var d := SideOf(s.orders, id);
            var o := s.orders.Get(d)[id];
            && ModifyResult(s, id, target).Success?
            && ModifyResult(s, id, target).value
               == s.(orders := s.orders.With(d, s.orders.Get(d)[id := Resize(o, target, s.orderArrival)]).Compact())
  {
  }

  /** Compacting a book after replacing side `d` compacts each side on its own. */
  lemma CompactWith(b: Book, d: Dir, side: Side)
    ensures b.With(d, side).Compact() == b.With(d, CompactSide(side)).With(d.OtherSide(), CompactSide(b.Get(d.OtherSide())))
  {
    if d == Buy { } else { }
  }

  /** `Resize` to more than the order holds adds one lot with the
      difference under the command's arrival and leaves the other lots. */
  lemma ResizeUp(o: Order, target: int, a: int)
    requires Ascending(o.needs)
    requires forall b :: b in Arrivals(o.needs) ==> b < a
    requires target > Sum(o.needs)
    ensures var r := Resize(o, target, a);
            && r.needs != []
            && Sum(r.needs) == target
            && QtyAt(r.needs, a) == target - Sum(o.needs)
            && forall b :: b != a ==> QtyAt(r.needs, b) == QtyAt(o.needs, b)
  {
    var grown := AddNeed(o, a, target - Sum(o.needs));
    assert grown.needs == o.needs + [Need(a, target - Sum(o.needs))];
    assert a !in Arrivals(o.needs);
    assert forall n :: n in o.needs ==> n.arrival in Arrivals(o.needs);
    var r := Resize(o, target, a);
    assert r == grown.(needs := StripZeroNeeds(grown.needs));
    forall b ensures QtyAt(r.needs, b) == QtyAt(grown.needs, b) {
      StripKeepsQty(grown.needs, b);
    }
    forall b | b != a ensures QtyAt(grown.needs, b) == QtyAt(o.needs, b) {
      QtyAtAppend(o.needs, Need(a, target - Sum(o.needs)), b);
    }
    QtyAtAppend(o.needs, Need(a, target - Sum(o.needs)), a);
    QtyAtAbsent(o.needs, a);
    assert QtyAt(r.needs, a) == QtyAt(grown.needs, a) == target - Sum(o.needs);
  }

  /** `Resize` below the quantity of an order with one lot sets that lot
      to the target, or empties the order when the target is not positive. */
  lemma ResizeDownSingle(o: Order, target: int, a: int)
    requires |o.needs| == 1
    requires target < Sum(o.needs)
    ensures Resize(o, target, a).needs == if target > 0 then [Need(o.needs[0].arrival, target)] else []
  {
    assert o.needs == [] + [o.needs[0]];
    DecrementBackwardLast([], o.needs[0], target);
  }

  /** Modify up: the order gets one more lot, stamped with the command's
      arrival and holding the difference, so its total is the target; its
      other lots keep their quantities, and the new lot is the newest on
      its side, behind every other lot at that price. */
  lemma ModifyUp(s: State, id: OrderId, target: int)
    requires Inv(s)
    requires id in s.orders.buys || id in s.orders.sells
    requires target > Sum(Matching(s.orders, id).value.needs)
    ensures var d := SideOf(s.orders, id);
            var o := s.orders.Get(d)[id];
            var a := s.orderArrival + 1;
            var side' := Apply(s, Modify(id, target)).orders.Get(d);
            && id in side'
            && side'[id].id == id && side'[id].dir == o.dir && side'[id].price == o.price
            && Sum(side'[id].needs) == target
            && QtyAt(side'[id].needs, a) == target - Sum(o.needs)
            && (forall b :: b != a ==> QtyAt(side'[id].needs, b) == QtyAt(o.needs, b))
            && (forall x :: HasSlot(side', x) && x.price == o.price && x.arrival != a ==> SlotLt(x, Slot(id, o.price, a)))
  {
    var d := SideOf(s.orders, id);
    var side := s.orders.Get(d);
    var o := side[id];
    var a := s.orderArrival + 1;
    InvSides(s, d);
    ModifyBook(s, id, target);
    assert d.OtherSide().OtherSide() == d;
    assert Apply(s, Modify(id, target)).orders.Get(d) == CompactSide(side[id := Resize(o, target, a)]);
    RefiledUp(side, d, a, o, target);
  }

  /** The side of an order grown by Modify, after compaction. */
  lemma RefiledUp(side: Side, d: Dir, a: int, o: Order, target: int)
    requires SideShape(side, d, a - 1) && o.id in side && side[o.id] == o
    requires target > Sum(o.needs)
    ensures var side' := CompactSide(side[o.id := Resize(o, target, a)]);
            && o.id in side'
            && side'[o.id].id == o.id && side'[o.id].dir == o.dir && side'[o.id].price == o.price
            && Sum(side'[o.id].needs) == target
            && QtyAt(side'[o.id].needs, a) == target - Sum(o.needs)
            && (forall b :: b != a ==> QtyAt(side'[o.id].needs, b) == QtyAt(o.needs, b))
            && (forall x :: HasSlot(side', x) && x.price == o.price && x.arrival != a ==> SlotLt(x, Slot(o.id, o.price, a)))
  {
    var o' := Resize(o, target, a);
    ResizeUp(o, target, a);
    ResizeShape(o, target, a);
    RefiledNewest(side, d, a, o');
  }

  /** After refiling `o'`, whose lots are its old ones and one of the new
      arrival `a`, every other lot at its price is older than that lot. */
  lemma RefiledNewest(side: Side, d: Dir, a: int, o': Order)
    requires SideShape(side, d, a - 1) && o'.id in side
    requires Arrivals(o'.needs) <= Arrivals(side[o'.id].needs) + {a}
    ensures var side' := CompactSide(side[o'.id := o']);
            forall x :: HasSlot(side', x) && x.price == o'.price && x.arrival != a ==> SlotLt(x, Slot(o'.id, o'.price, a))
  {
    var side' := CompactSide(side[o'.id := o']);
    forall x | HasSlot(side', x) && x.price == o'.price && x.arrival != a ensures SlotLt(x, Slot(o'.id, o'.price, a)) {
      if x.owner != o'.id {
        assert x.arrival in Arrivals(side[x.owner].needs);
      } else {
        assert x.arrival in Arrivals(side[o'.id].needs);
      }
    }
  }

  /** Modify down of an order with one lot sets that lot to the target; a
      target of zero or less takes the order off the book. */
  lemma ModifyDownSingle(s: State, id: OrderId, target: int)
    requires id in s.orders.buys || id in s.orders.sells
    requires |Matching(s.orders, id).value.needs| == 1
    requires target < Sum(Matching(s.orders, id).value.needs)
    ensures var d := SideOf(s.orders, id);
            var o := s.orders.Get(d)[id];
            var side' := Apply(s, Modify(id, target)).orders.Get(d);
            if target > 0 then id in side' && side'[id] == o.(needs := [Need(o.needs[0].arrival, target)])
            else id !in side'
  {
    var d := SideOf(s.orders, id);
    var o := s.orders.Get(d)[id];
    ResizeDownSingle(o, target, s.orderArrival + 1);
    ModifyBook(s, id, target);
  }

  /** `decrement_needs_backward` is handed the target total, not the amount
      to take off, so on an order with two lots of 5 a Modify to 8 grows
      the lots to 11 and 8 instead of shrinking the order. */
  lemma ModifyDownTwoLots()
    ensures Resize(Order("A", Sell, 10, [Need(1, 5), Need(2, 5)]), 8, 3).needs == [Need(1, 11), Need(2, 8)]
  {
    var needs := [Need(1, 5), Need(2, 5)];
    assert needs == [Need(1, 5)] + [Need(2, 5)];
    DecrementBackwardLast([Need(1, 5)], Need(2, 5), 8);
    assert [Need(1, 5)] == [] + [Need(1, 5)];
    DecrementBackwardLast([], Need(1, 5), 11);
  }

  lemma ModifyKeepsUncrossed(s: State, id: OrderId, target: int)
    requires Inv(s) && AllPositive(s.orders.buys) && AllPositive(s.orders.sells)
    requires Uncrossed(s.orders)
    ensures var s' := Apply(s, Modify(id, target));
            AllPositive(s'.orders.buys) && AllPositive(s'.orders.sells) && Uncrossed(s'.orders)
  {
    if id in s.orders.buys || id in s.orders.sells {
      var d := SideOf(s.orders, id);
      var side := s.orders.Get(d);
      var o := side[id];
      var o' := Resize(o, target, s.orderArrival + 1);
      ModifyBook(s, id, target);
      var own' := CompactSide(side[id := o']);
      var other' := CompactSide(s.orders.Get(d.OtherSide()));
      assert AllPositive(own') && PricesWithin(own', side);
      var b' := s.orders.With(d, own').With(d.OtherSide(), other');
      if d == Buy {
        assert b'.buys == own' && b'.sells == other';
      } else {
        assert b'.sells == own' && b'.buys == other';
      }
      UncrossedWithin(s.orders, b');
    }
  }

  /** The book is uncrossed and holds no empty lot from the start and after
      every command, as long as new orders ask for a positive quantity. */
  lemma ApplyKeepsUncrossed(s: State, c: Command)
    requires Inv(s) && AllPositive(s.orders.buys) && AllPositive(s.orders.sells)
    requires Uncrossed(s.orders)
    requires c.New? ==> c.quantity > 0
    ensures var s' := Apply(s, c);
            Inv(s') && AllPositive(s'.orders.buys) && AllPositive(s'.orders.sells) && Uncrossed(s'.orders)
  {
    ApplyKeepsInv(s, c);
    match c
    case New(id, dir, quantity, price) => NewKeepsUncrossed(s, id, dir, quantity, price);
    case Cancel(id) =>
      var s' := Apply(s, c);
      UncrossedWithin(s.orders, s'.orders);
    case Modify(id, target) => ModifyKeepsUncrossed(s, id, target);
  }

  lemma InitialInv()
    ensures Inv(Initial) && AllPositive(Initial.orders.buys) && AllPositive(Initial.orders.sells)
    ensures Uncrossed(Initial.orders)
  {
  }

  /** With nothing on the opposite side there is nothing to sweep: a New
      rests whole on its side, filed under its id, and the log is kept. */
  lemma NewAgainstEmptySide(s: State, id: OrderId, dir: Dir, quantity: nat, price: Price)
    requires s.orders.Get(dir.OtherSide()) == map[]
    requires NonEmpty(s.orders.Get(dir)) && quantity > 0
    ensures NewResult(s, id, dir, quantity, price)
            == State(s.orders.With(dir, s.orders.Get(dir)[id := Incoming(s, id, dir, quantity, price)]), s.fills, s.orderArrival)
  {
    var o := Incoming(s, id, dir, quantity, price);
    var empty: Side := map[];
    assert Flatten(empty) == [];
    assert Snapshot(empty) == [];
    assert NewSweep(s, id, dir, quantity, price) == Sweeping(empty, o, o.needs[0], s.fills);
    assert s.orders.With(dir.OtherSide(), empty) == s.orders by {
      if dir == Buy { assert dir.OtherSide() == Sell; } else { assert dir.OtherSide() == Buy; }
    }
    var b := s.orders.With(dir, s.orders.Get(dir)[id := o]);
    assert CompactSide(b.Get(dir)) == b.Get(dir);
    assert CompactSide(b.Get(dir.OtherSide())) == b.Get(dir.OtherSide());
    assert b.Compact() == b by {
      if dir == Buy { assert b.buys == b.Get(dir); } else { assert b.sells == b.Get(dir); }
    }
  }
}
