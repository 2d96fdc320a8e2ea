/** Command sequences of matching/python/test_engine.py replayed through
    `Commands.Apply` from the empty engine. Ids are the strings the tests'
    counter hands out; prices are in hundredths (10.0 is 1000, 99.5 is
    9950). */
module EngineTests {
  import opened Wrappers
  import opened Orders
  import opened CounterSweep
  import opened Commands

  /** The book after `SELL,1,10.0`, `SELL,3,10.0`, `SELL,5,10.0`: three
      resting sells of one lot each, stamped 1, 2 and 3, and no fill. */
  lemma ThreeSells()
    ensures Apply(Apply(Apply(Initial, New("1", Sell, 1, 1000)), New("2", Sell, 3, 1000)), New("3", Sell, 5, 1000)) == SellsBook()
  {
    var o1, o2, o3 := Order("1", Sell, 1000, [Need(1, 1)]), Order("2", Sell, 1000, [Need(2, 3)]), Order("3", Sell, 1000, [Need(3, 5)]);
    var s0 := Initial.(orderArrival := 1);
    NewAgainstEmptySide(s0, "1", Sell, 1, 1000);
    var s1 := State(Book(map[], map["1" := o1]), [], 1);
    assert Apply(Initial, New("1", Sell, 1, 1000)) == s1;
    NewAgainstEmptySide(s1.(orderArrival := 2), "2", Sell, 3, 1000);
    var s2 := State(Book(map[], map["1" := o1, "2" := o2]), [], 2);
    assert Apply(s1, New("2", Sell, 3, 1000)) == s2;
    NewAgainstEmptySide(s2.(orderArrival := 3), "3", Sell, 5, 1000);
    assert Apply(s2, New("3", Sell, 5, 1000)) == State(Book(map[], map["1" := o1, "2" := o2, "3" := o3]), [], 3);
  }

  /** Three resting sells at 10.0 of 1, 3 and 5, stamped 1, 2 and 3, and
      an empty log. */
  function SellsBook(): State
  {
    State(Book(map[], map["1" := Order("1", Sell, 1000, [Need(1, 1)]), "2" := Order("2", Sell, 1000, [Need(2, 3)]),
                          "3" := Order("3", Sell, 1000, [Need(3, 5)])]), [], 3)
  }

  /** `test_order_cancel`: cancelling the second sell leaves the lots 1
      and 5, and nothing traded. */
  lemma CancelScenario()
    ensures var s := Apply(Apply(Apply(Apply(Initial, New("1", Sell, 1, 1000)), New("2", Sell, 3, 1000)), New("3", Sell, 5, 1000)), Cancel("2"));
            s.orders == Book(map[], map["1" := Order("1", Sell, 1000, [Need(1, 1)]), "3" := Order("3", Sell, 1000, [Need(3, 5)])])
            && s.fills == []
  {
    ThreeSells();
    CancelSecondSell(SellsBook());
  }

  lemma CancelSecondSell(s: State)
    requires s == SellsBook()
    ensures Apply(s, Cancel("2")).orders
            == Book(map[], map["1" := Order("1", Sell, 1000, [Need(1, 1)]), "3" := Order("3", Sell, 1000, [Need(3, 5)])])
    ensures Apply(s, Cancel("2")).fills == []
  {
    assert s.orders.sells - {"2"} == map["1" := Order("1", Sell, 1000, [Need(1, 1)]), "3" := Order("3", Sell, 1000, [Need(3, 5)])];
  }

  /** `test_order_modify_quantity_down`: modifying the second sell down to
      2 leaves the lots 1, 2 and 5, each order keeping its arrival. */
  lemma ModifyDownScenario()
    ensures var s := Apply(Apply(Apply(Apply(Initial, New("1", Sell, 1, 1000)), New("2", Sell, 3, 1000)), New("3", Sell, 5, 1000)), Modify("2", 2));
            s.orders == Book(map[], map["1" := Order("1", Sell, 1000, [Need(1, 1)]),
                                        "2" := Order("2", Sell, 1000, [Need(2, 2)]),
                                        "3" := Order("3", Sell, 1000, [Need(3, 5)])])
            && s.fills == []
  {
    ThreeSells();
    ModifySecondSell(SellsBook());
  }

  /** The Modify itself: the second sell is found on the SELL side and
      refiled with one lot of 2. */
  lemma ModifySecondSell(s: State)
    requires s == SellsBook()
    ensures Apply(s, Modify("2", 2)).orders
            == Book(map[], map["1" := Order("1", Sell, 1000, [Need(1, 1)]),
                               "2" := Order("2", Sell, 1000, [Need(2, 2)]),
                               "3" := Order("3", Sell, 1000, [Need(3, 5)])])
    ensures Apply(s, Modify("2", 2)).fills == []
  {
    var s1 := s.(orderArrival := 4);
    ApplyModify(s, "2", 2);
    ModifyFound(s1, "2", 2);
    assert SideOf(s1.orders, "2") == Sell;
    ResizeSecondSell();
    var sells' := s.orders.sells["2" := Order("2", Sell, 1000, [Need(2, 2)])];
    assert s1.orders.With(Sell, sells') == Book(map[], sells');
    assert CompactSide(sells') == sells';
    assert CompactSide(map[]) == map[];
  }

  /** The second sell, one lot of 3, resized to 2 keeps one lot of 2. */
  lemma ResizeSecondSell()
    ensures Resize(Order("2", Sell, 1000, [Need(2, 3)]), 2, 4) == Order("2", Sell, 1000, [Need(2, 2)])
  {
    var needs := [Need(2, 3)];
    assert Sum(needs) == 3 by { assert needs[1..] == []; }
    DecrementBackwardLast([], Need(2, 3), 2);
    assert [] + [Need(2, 3)] == needs;
    var lowered := [Need(2, 2)];
    assert StripZeroNeeds(lowered) == lowered by { assert lowered[1..] == []; }
  }

  /** `test_add_orders_to_book`: `BUY,10,99.0` and `BUY,10,100.0` rest;
      `SELL,10,99.5` skips the buy at 99.0, trades all 10 with the buy at
      100.0 at that buy's price, and leaves one buy and no sell. */
  lemma CrossingSellScenario()
    ensures var s := Apply(Apply(Apply(Initial, New("1", Buy, 10, 9900)), New("2", Buy, 10, 10000)), New("3", Sell, 10, 9950));
            s.orders == Book(map["1" := Order("1", Buy, 9900, [Need(1, 10)])], map[])
            && s.fills == [Fill("2", "3", Sell, 10, 10000)]
  {
    TwoBuys();
    var s2 := State(Book(map["1" := Order("1", Buy, 9900, [Need(1, 10)]), "2" := Order("2", Buy, 10000, [Need(2, 10)])], map[]), [], 2);
    ApplyNew(s2, "3", Sell, 10, 9950);
    SellFiled(s2.(orderArrival := 3));
  }

  /** After its sweep the sell has no lot left, so it is not filed, and the
      emptied buy leaves the book. */
  lemma SellFiled(s: State)
    requires s == State(Book(map["1" := Order("1", Buy, 9900, [Need(1, 10)]), "2" := Order("2", Buy, 10000, [Need(2, 10)])], map[]), [], 3)
    ensures NewResult(s, "3", Sell, 10, 9950)
            == State(Book(map["1" := Order("1", Buy, 9900, [Need(1, 10)])], map[]), [Fill("2", "3", Sell, 10, 10000)], 3)
  {
    var o1, o2 := Order("1", Buy, 9900, [Need(1, 10)]), Order("2", Buy, 10000, [Need(2, 10)]);
    SellSweep(s);
    var st := NewSweep(s, "3", Sell, 10, 9950);
    var b := Book(map["1" := o1, "2" := o2.(needs := [])], map["3" := Order("3", Sell, 9950, [])]);
    assert NewResult(s, "3", Sell, 10, 9950) == State(b.Compact(), st.fills, 3);
    DropEmptied(b);
  }

  /** Compacting drops the emptied buy and the emptied sell. */
  lemma DropEmptied(b: Book)
    requires b == Book(map["1" := Order("1", Buy, 9900, [Need(1, 10)]), "2" := Order("2", Buy, 10000, [])],
                       map["3" := Order("3", Sell, 9950, [])])
    ensures b.Compact() == Book(map["1" := Order("1", Buy, 9900, [Need(1, 10)])], map[])
  {
    assert CompactSide(b.buys) == map["1" := Order("1", Buy, 9900, [Need(1, 10)])];
    assert CompactSide(b.sells) == map[];
  }

  /** The book after `BUY,10,99.0` and `BUY,10,100.0`: both rest whole. */
  lemma TwoBuys()
    ensures Apply(Apply(Initial, New("1", Buy, 10, 9900)), New("2", Buy, 10, 10000))
            == State(Book(map["1" := Order("1", Buy, 9900, [Need(1, 10)]), "2" := Order("2", Buy, 10000, [Need(2, 10)])], map[]), [], 2)
  {
    var o1 := Order("1", Buy, 9900, [Need(1, 10)]);
    NewAgainstEmptySide(Initial.(orderArrival := 1), "1", Buy, 10, 9900);
    var s1 := State(Book(map["1" := o1], map[]), [], 1);
    assert Apply(Initial, New("1", Buy, 10, 9900)) == s1;
    NewAgainstEmptySide(s1.(orderArrival := 2), "2", Buy, 10, 10000);
  }

  /** The sweep of `SELL,10,99.5` over the two buys: the snapshot takes
      the buy at 99.0 first, which does not cross, then fills the buy at
      100.0 completely. */
  lemma SellSweep(s: State)
    requires s == State(Book(map["1" := Order("1", Buy, 9900, [Need(1, 10)]), "2" := Order("2", Buy, 10000, [Need(2, 10)])], map[]), [], 3)
    ensures NewSweep(s, "3", Sell, 10, 9950)
            == Sweeping(map["1" := Order("1", Buy, 9900, [Need(1, 10)]), "2" := Order("2", Buy, 10000, [])],
                        Order("3", Sell, 9950, []), Need(3, 0), [Fill("2", "3", Sell, 10, 10000)])
  {
    var buys := s.orders.buys;
    var snap := [Slot("1", 9900, 1), Slot("2", 10000, 2)];
    TwoBuysSnapshot(buys);
    var st0 := Sweeping(buys, Order("3", Sell, 9950, [Need(3, 10)]), Need(3, 10), []);
    assert s.orders.Get(Sell.OtherSide()) == buys;
    assert NewSweep(s, "3", Sell, 10, 9950) == Sweep(st0, snap);
    SellSteps(st0);
    assert Sweep(st0, snap) == Sweep(Step(st0, snap[0]), snap[1..]);
    assert snap[1..] == [snap[1]];
  }

  /** The two buys' lots, ascending by price. */
  lemma TwoBuysSnapshot(buys: Side)
    requires buys == map["1" := Order("1", Buy, 9900, [Need(1, 10)]), "2" := Order("2", Buy, 10000, [Need(2, 10)])]
    ensures Snapshot(buys) == [Slot("1", 9900, 1), Slot("2", 10000, 2)]
  {
    var snap := [Slot("1", 9900, 1), Slot("2", 10000, 2)];
    assert Arrivals(buys["1"].needs) == {1} && Arrivals(buys["2"].needs) == {2};
    assert WellFormedSide(buys);
    assert IsSnapshot(snap, buys) by {
      forall x ensures x in snap <==> HasSlot(buys, x) {
        if HasSlot(buys, x) {
          assert x.owner == "1" || x.owner == "2";
        }
      }
    }
    SnapshotUnique(buys, snap);
  }

  /** The sell at 99.5 does not cross the buy at 99.0 and takes all 10 of
      the buy at 100.0, at 100.0. */
  lemma SellSteps(st0: Sweeping)
    requires st0 == Sweeping(map["1" := Order("1", Buy, 9900, [Need(1, 10)]), "2" := Order("2", Buy, 10000, [Need(2, 10)])],
                             Order("3", Sell, 9950, [Need(3, 10)]), Need(3, 10), [])
    ensures Step(st0, Slot("1", 9900, 1)) == st0
    ensures Sweep(st0, [Slot("2", 10000, 2)])
            == Sweeping(map["1" := Order("1", Buy, 9900, [Need(1, 10)]), "2" := Order("2", Buy, 10000, [])],
                        Order("3", Sell, 9950, []), Need(3, 0), [Fill("2", "3", Sell, 10, 10000)])
  {
    var lot := [Need(2, 10)];
    assert !Crosses(st0.side["1"], 9950);
    assert QtyAt(lot, 2) == 10;
    assert Crosses(st0.side["2"], 9950);
    assert DecrementAt(lot, 2, 10) == [Need(2, 0)];
    assert StripZeroNeeds([Need(2, 0)]) == [] by { assert [Need(2, 0)][1..] == []; }
    assert StripZeroNeeds([Need(3, 0)]) == [] by { assert [Need(3, 0)][1..] == []; }
    var st1 := FillAt(st0, "2", 2);
    assert Step(st0, Slot("2", 10000, 2)) == st1;
    assert Sweep(st0, [Slot("2", 10000, 2)]) == Sweep(st1, []);
  }
}
