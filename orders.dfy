/** The entities of the matching engine (matching/python/engine.py): sides,
    quantity lots ("needs"), orders and fills, with the helpers an order
    applies to its own lots. Orders and needs are values here; the engine
    keeps them in its books and replaces an order when one of its lots
    changes. */
module Orders {
  import opened Wrappers

  type OrderId = string

  /** Prices are compared and copied, never computed: integer ticks. */
  type Price = int

  datatype Dir = Buy | Sell {

    function OtherSide(): (r: Dir)
      ensures r != this
    {
      if this == Buy then Sell else Buy
    }

    /** Would an order on this side with limit `desired` trade at `actual`?
        A buyer pays at most its limit, a seller takes at least its limit. */
    predicate WantToFill(desired: Price, actual: Price)
    {
      if this == Buy then desired >= actual else desired <= actual
    }
  }

  /** Whether a buy and a sell can trade at each other's limit is the same
      question from either side, and a limit always accepts its own price. */
  lemma WantToFillMirror(d: Dir, desired: Price, actual: Price)
    ensures d.WantToFill(desired, actual) <==> d.OtherSide().WantToFill(actual, desired)
    ensures d.WantToFill(desired, desired)
  {
  }

  /** One lot of an order's quantity, stamped with the arrival number of
      the command that created it. */
  datatype Need = Need(arrival: int, quantity: nat)

  datatype Order = Order(id: OrderId, dir: Dir, price: Price, needs: seq<Need>)

  /** An executed trade: the resting order, the incoming order (and its
      side), the traded quantity and the price, which is the resting
      order's limit. */
  datatype Fill = Fill(bookOrder: OrderId, inOrder: OrderId, inDir: Dir, quantity: nat, price: Price) {

    /** The order that bought, as `Fill.__repr__` prints it. */
    function Buyer(): OrderId
    {
      if inDir == Buy then inOrder else bookOrder
    }

    function Seller(): OrderId
    {
      if inDir == Buy then bookOrder else inOrder
    }
  }

  /** `the(foos)`: the only element, or nothing when there is not exactly one. */
  function The<T>(s: seq<T>): (r: Option<T>)
    ensures r.Some? <==> |s| == 1
    ensures r.Some? ==> r.value in s
  {
    if |s| == 1 then Some(s[0]) else None
  }

  function Min(a: int, b: int): int
  {
    if a <= b then a else b
  }

  /** `Need.best_quantity`: what two lots can trade. */
  function BestQuantity(a: nat, b: nat): nat
  {
    Min(a, b)
  }

  /** The outstanding quantity of a list of lots. */
  function Sum(needs: seq<Need>): nat
  {
    if needs == [] then 0 else needs[0].quantity + Sum(needs[1..])
  }

  function Arrivals(needs: seq<Need>): set<int>
  {
    set n | n in needs :: n.arrival
  }

  /** Lots are kept in order of arrival, no two with the same number. */
  ghost predicate Ascending(needs: seq<Need>)
  {
    forall i, j :: 0 <= i < j < |needs| ==> needs[i].arrival < needs[j].arrival
  }

  /** The quantity of the lot with arrival `a`; a lot that is gone counts 0. */
  function QtyAt(needs: seq<Need>, a: int): nat
  {
    if needs == [] then 0
    else if needs[0].arrival == a then needs[0].quantity
    else QtyAt(needs[1..], a)
  }

  /** `Order.strip_zero_needs`: keeps the lots with a positive quantity, in
      order; the outstanding quantity is unchanged. */
  function StripZeroNeeds(needs: seq<Need>): (r: seq<Need>)
    ensures forall n :: n in r <==> n in needs && n.quantity > 0
    ensures Sum(r) == Sum(needs)
    ensures |r| <= |needs|
  {
    if needs == [] then []
    else
      var rest := StripZeroNeeds(needs[1..]);
      assert needs == [needs[0]] + needs[1..];
      if needs[0].quantity > 0 then
        assert ([needs[0]] + rest)[1..] == rest;
        [needs[0]] + rest
      else rest
  }

  lemma {:induction false} StripAscending(needs: seq<Need>)
    requires Ascending(needs)
    ensures Ascending(StripZeroNeeds(needs))
    ensures Arrivals(StripZeroNeeds(needs)) <= Arrivals(needs)
  {
    if needs != [] {
      AscendingTail(needs);
      StripAscending(needs[1..]);
      if needs[0].quantity > 0 {
        AscendingCons(needs[0], StripZeroNeeds(needs[1..]));
      }
    }
  }

  /** The lots after the oldest are in order and all newer than it. */
  lemma AscendingTail(needs: seq<Need>)
    requires Ascending(needs) && needs != []
    ensures Ascending(needs[1..])
    ensures forall n :: n in needs[1..] ==> needs[0].arrival < n.arrival
  {
    var tail := needs[1..];
    forall i, j | 0 <= i < j < |tail| ensures tail[i].arrival < tail[j].arrival {
      assert tail[i] == needs[i + 1] && tail[j] == needs[j + 1];
    }
    forall n | n in tail ensures needs[0].arrival < n.arrival {
      var k :| 0 <= k < |tail| && tail[k] == n;
      assert needs[k + 1] == n;
    }
  }

  /** A lot older than every lot of an ordered list goes in front of it. */
  lemma AscendingCons(n: Need, rest: seq<Need>)
    requires Ascending(rest)
    requires forall m :: m in rest ==> n.arrival < m.arrival
    ensures Ascending([n] + rest)
  {
    var r := [n] + rest;
    forall i, j | 0 <= i < j < |r| ensures r[i].arrival < r[j].arrival {
      if i == 0 {
        assert r[j] in rest;
      } else {
        assert r[i] == rest[i - 1] && r[j] == rest[j - 1];
      }
    }
  }

  /** Lowers the lot with arrival `a` by `d`, leaving the rest alone. */
  function DecrementAt(needs: seq<Need>, a: int, d: nat): (r: seq<Need>)
    requires d <= QtyAt(needs, a)
    ensures |r| == |needs|
    ensures forall i :: 0 <= i < |r| ==> r[i].arrival == needs[i].arrival
  {
    if needs == [] then []
    else if needs[0].arrival == a then [needs[0].(quantity := needs[0].quantity - d)] + needs[1..]
    else [needs[0]] + DecrementAt(needs[1..], a, d)
  }

  /** `Order.add_need`: a new lot at the back of the order. */
  function AddNeed(o: Order, arrival: int, quantity: nat): (r: Order)
    ensures r.id == o.id && r.dir == o.dir && r.price == o.price
    ensures Sum(r.needs) == Sum(o.needs) + quantity
    ensures QtyAt(r.needs, arrival) == QtyAt(o.needs, arrival) + (if arrival in Arrivals(o.needs) then 0 else quantity)
    ensures forall b :: b != arrival ==> QtyAt(r.needs, b) == QtyAt(o.needs, b)
    ensures Ascending(o.needs) && (forall n :: n in o.needs ==> n.arrival < arrival) ==> Ascending(r.needs)
  {
    SumAppend(o.needs, [Need(arrival, quantity)]);
    QtyAtAppend(o.needs, Need(arrival, quantity), arrival);
    assert forall b :: b != arrival ==> QtyAt(o.needs + [Need(arrival, quantity)], b) == QtyAt(o.needs, b) by {
      forall b | b != arrival {
        QtyAtAppend(o.needs, Need(arrival, quantity), b);
      }
    }
    o.(needs := o.needs + [Need(arrival, quantity)])
  }

  /** The body of `Order.decrement_needs_backward`, lot by lot from the
      newest: each visited lot is lowered by `min(q - t, q)`, where `t` is
      the running target, which is lowered by the same amount; the walk
      stops once `t <= 0`. */
  function DecrementBackward(needs: seq<Need>, target: int): (r: seq<Need>)
    ensures |r| == |needs|
  {
    if needs == [] then []
    else
      var last := needs[|needs| - 1];
      var decrement := Min(last.quantity - target, last.quantity);
      var lowered := last.(quantity := last.quantity - decrement);
      var rest := target - decrement;
      if rest <= 0 then needs[..|needs| - 1] + [lowered]
      else DecrementBackward(needs[..|needs| - 1], rest) + [lowered]
  }

  /** `Order.decrement_needs_backward(new_quantity)`: visits the lots newest
      arrival first (the lots are kept in arrival order, so that is back to
      front). */
  method DecrementNeedsBackward(o: Order, newQuantity: int) returns (r: Order)
    requires Ascending(o.needs)
    ensures r == o.(needs := DecrementBackward(o.needs, newQuantity))
  {
    var needs := o.needs;
    var target := newQuantity;
    var i := |needs|;
    assert needs[..i] == o.needs && needs[i..] == [];
    while i > 0
      invariant 0 <= i <= |needs| == |o.needs|
      invariant DecrementBackward(o.needs, newQuantity) == DecrementBackward(needs[..i], target) + needs[i..]
    {
      var n := needs[i - 1];
      var decrement := Min(n.quantity - target, n.quantity);
      ghost var prefix, suffix := needs[..i - 1], needs[i..];
      assert needs[..i] == prefix + [n];
      DecrementBackwardLast(prefix, n, target);
      var lowered := n.(quantity := n.quantity - decrement);
      needs := needs[i - 1 := lowered];
      target := target - decrement;
      i := i - 1;
      assert needs[..i] == prefix && needs[i..] == [lowered] + suffix;
      if target <= 0 {
        assert needs == prefix + [lowered] + suffix;
        break;
      }
      assert DecrementBackward(o.needs, newQuantity) == DecrementBackward(prefix, target) + [lowered] + suffix;
    }
    r := o.(needs := needs);
  }

  /** One step of `DecrementBackward`: the newest lot is handled first. */
  lemma DecrementBackwardLast(prefix: seq<Need>, n: Need, target: int)
    ensures var decrement := Min(n.quantity - target, n.quantity);
            var lowered := n.(quantity := n.quantity - decrement);
            DecrementBackward(prefix + [n], target)
            == if target - decrement <= 0 then prefix + [lowered]
               else DecrementBackward(prefix, target - decrement) + [lowered]
  {
    var s := prefix + [n];
    assert s[..|s| - 1] == prefix && s[|s| - 1] == n;
  }

  lemma {:induction false} SumAppend(a: seq<Need>, b: seq<Need>)
    ensures Sum(a + b) == Sum(a) + Sum(b)
  {
    if a == [] {
      assert a + b == b;
    } else {
      assert (a + b)[0] == a[0];
      assert (a + b)[1..] == a[1..] + b;
      SumAppend(a[1..], b);
    }
  }

  lemma {:induction false} QtyAtAppend(needs: seq<Need>, n: Need, a: int)
    ensures QtyAt(needs + [n], a) == QtyAt(needs, a) + (if n.arrival == a && a !in Arrivals(needs) then n.quantity else 0)
  {
    if needs == [] {
    } else {
      assert (needs + [n])[1..] == needs[1..] + [n];
      assert Arrivals(needs) == {needs[0].arrival} + Arrivals(needs[1..]);
      QtyAtAppend(needs[1..], n, a);
    }
  }

  /** A lot that is not there counts as empty. */
  lemma {:induction false} QtyAtAbsent(needs: seq<Need>, a: int)
    requires a !in Arrivals(needs)
    ensures QtyAt(needs, a) == 0
  {
    if needs != [] {
      assert Arrivals(needs[1..]) <= Arrivals(needs);
      QtyAtAbsent(needs[1..], a);
    }
  }

  /** Stripping the empty lots changes no lot's quantity. */
  lemma {:induction false} StripKeepsQty(needs: seq<Need>, a: int)
    requires Ascending(needs)
    ensures QtyAt(StripZeroNeeds(needs), a) == QtyAt(needs, a)
  {
    if needs != [] {
      StripKeepsQty(needs[1..], a);
      if needs[0].arrival == a && needs[0].quantity == 0 {
        assert a !in Arrivals(needs[1..]);
        QtyAtAbsent(needs[1..], a);
      }
    }
  }

  /** Lowering one lot by `d` lowers that lot's quantity, and only it, by `d`. */
  lemma DecrementAtQty(needs: seq<Need>, a: int, d: nat, b: int)
    requires Ascending(needs) && d <= QtyAt(needs, a)
    ensures QtyAt(DecrementAt(needs, a, d), b) == QtyAt(needs, b) - (if b == a then d else 0)
    ensures Sum(DecrementAt(needs, a, d)) == Sum(needs) - d
    ensures Ascending(DecrementAt(needs, a, d))
    ensures Arrivals(DecrementAt(needs, a, d)) == Arrivals(needs)
  {
    DecrementAtLot(needs, a, d, b);
    DecrementAtSum(needs, a, d);
    DecrementAtArrivals(needs, a, d);
  }

  lemma {:induction false} DecrementAtLot(needs: seq<Need>, a: int, d: nat, b: int)
    requires Ascending(needs) && d <= QtyAt(needs, a)
    ensures QtyAt(DecrementAt(needs, a, d), b) == QtyAt(needs, b) - (if b == a then d else 0)
  {
    if needs != [] {
      if needs[0].arrival == a {
        if b == a {
          assert a !in Arrivals(needs[1..]);
        }
      } else {
        DecrementAtLot(needs[1..], a, d, b);
      }
    }
  }

  lemma {:induction false} DecrementAtSum(needs: seq<Need>, a: int, d: nat)
    requires d <= QtyAt(needs, a)
    ensures Sum(DecrementAt(needs, a, d)) == Sum(needs) - d
  {
    if needs != [] && needs[0].arrival != a {
      DecrementAtSum(needs[1..], a, d);
    }
  }

  lemma DecrementAtArrivals(needs: seq<Need>, a: int, d: nat)
    requires d <= QtyAt(needs, a)
    ensures Ascending(needs) ==> Ascending(DecrementAt(needs, a, d))
    ensures Arrivals(DecrementAt(needs, a, d)) == Arrivals(needs)
  {
    var r := DecrementAt(needs, a, d);
    forall b | b in Arrivals(r) ensures b in Arrivals(needs) {
      var i :| 0 <= i < |r| && r[i].arrival == b;
      assert needs[i] in needs;
    }
    forall b | b in Arrivals(needs) ensures b in Arrivals(r) {
      var i :| 0 <= i < |needs| && needs[i].arrival == b;
      assert r[i] in r;
    }
  }

  /** On lots in arrival order, a lot's quantity is what `QtyAt` reads. */
  lemma {:induction false} QtyAtMember(needs: seq<Need>, n: Need)
    requires Ascending(needs) && n in needs
    ensures QtyAt(needs, n.arrival) == n.quantity
  {
    if needs[0] != n {
      assert n in needs[1..];
      QtyAtMember(needs[1..], n);
    }
  }

  /** `DecrementBackward` changes quantities only, never arrivals. */
  /** What the backward walk does to the lots: it visits a run of the
      newest lots, from position `k` on, and leaves every older lot as it
      was; the newest lot ends at the target, or at 0 when the target is
      not positive, and a target that is not positive stops the walk after
      that one lot. */
  lemma {:induction false} DecrementBackwardVisits(needs: seq<Need>, target: int) returns (k: nat)
    requires needs != []
    ensures k < |needs|
    ensures DecrementBackward(needs, target)[..k] == needs[..k]
    ensures DecrementBackward(needs, target)[|needs| - 1].quantity == if target > 0 then target else 0
    ensures target <= 0 ==> k == |needs| - 1
  {
    var last := needs[|needs| - 1];
    var decrement := Min(last.quantity - target, last.quantity);
    var prefix := needs[..|needs| - 1];
    var rest := target - decrement;
    var r := DecrementBackward(needs, target);
    if rest <= 0 {
      k := |needs| - 1;
      assert r[..k] == prefix;
    } else if prefix == [] {
      k := 0;
    } else {
      k := DecrementBackwardVisits(prefix, rest);
      assert r == DecrementBackward(prefix, rest) + [r[|needs| - 1]];
      assert r[..k] == DecrementBackward(prefix, rest)[..k];
      assert needs[..k] == prefix[..k];
    }
  }

  lemma {:induction false} DecrementBackwardArrivals(needs: seq<Need>, target: int)
    ensures forall i :: 0 <= i < |needs| ==> DecrementBackward(needs, target)[i].arrival == needs[i].arrival
  {
    if needs != [] {
      var last := needs[|needs| - 1];
      var decrement := Min(last.quantity - target, last.quantity);
      var prefix := needs[..|needs| - 1];
      DecrementBackwardArrivals(prefix, target - decrement);
    }
  }
}
