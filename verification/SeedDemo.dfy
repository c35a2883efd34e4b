/** The demo seed: padded codes and the per-customer order totals. */
module SeedDemo {
  import opened Options
  import opened Decimals
  import opened Sequences

  /** `code(prefix, index, width)` */
  function Code(prefix: string, index: nat, width: nat): string {
    prefix + PadStart(Decimal(index), width)
  }

  /** Codes of numbers that need the same number of places sort like the numbers. */
  lemma SameLengthSorts(prefix: string, i: nat, j: nat, width: nat)
    requires |PadStart(Decimal(i), width)| == |PadStart(Decimal(j), width)|
    ensures Less(Code(prefix, i, width), Code(prefix, j, width)) <==> i < j
    ensures Code(prefix, i, width) == Code(prefix, j, width) <==> i == j
  {
    var a, b := PadStart(Decimal(i), width), PadStart(Decimal(j), width);
    LessPrefix(prefix, a, b);
    ToNatPadDecimal(i, width);
    ToNatPadDecimal(j, width);
    LessIsSmaller(a, b);
    if prefix + a == prefix + b {
      assert a == (prefix + a)[|prefix|..] && b == (prefix + b)[|prefix|..];
    }
  }

  /** Codes of numbers that fit the width sort like the numbers. */
  lemma CodesSort(prefix: string, i: nat, j: nat, width: nat)
    requires i < Pow10(width) && j < Pow10(width)
    ensures Less(Code(prefix, i, width), Code(prefix, j, width)) <==> i < j
    ensures Code(prefix, i, width) == Code(prefix, j, width) <==> i == j
  {
    hide Less, Code;
    if width > 0 {
      DecimalLength(i, width);
      DecimalLength(j, width);
    } else {
      assert i == j == 0;
    }
    SameLengthSorts(prefix, i, j, width);
  }

  /** The codes 1 to n are in ascending order exactly as long as n fits the width. */
  lemma CodesAscend(prefix: string, n: nat, width: nat)
    requires width > 0
    ensures (forall i, j | 1 <= i < j <= n :: Less(Code(prefix, i, width), Code(prefix, j, width)))
            <==> n < Pow10(width)
  {
    if n < Pow10(width) {
      forall i, j | 1 <= i < j <= n ensures Less(Code(prefix, i, width), Code(prefix, j, width)) {
        CodesSort(prefix, i, j, width);
      }
    } else {
      Overflow(prefix, width);
      assert Pow10(width) >= 10;
      assert 1 <= Pow10(width) - 1 < Pow10(width) <= n;
    }
  }

  /** The first code that is one place too long sorts before the one it follows. */
  lemma Overflow(prefix: string, width: nat)
    requires width > 0
    ensures !Less(Code(prefix, Pow10(width) - 1, width), Code(prefix, Pow10(width), width))
    ensures Less(Code(prefix, Pow10(width), width), Code(prefix, Pow10(width) - 1, width))
  {
    var a, b := PadStart(Decimal(Pow10(width) - 1), width), PadStart(Decimal(Pow10(width)), width);
    hide Less, Decimal, Pow10;
    LastOfWidth(width);
    FirstTooLong(width);
    LessPrefix(prefix, a, b);
    LessPrefix(prefix, b, a);
    FirstDecides(a, b);
  }

  // ----- a list read back in code order

  /** The codes in the order in which they are generated. */
  function Codes(prefix: string, n: nat, width: nat): (cs: seq<string>)
    ensures |cs| == n && forall k :: 0 <= k < n ==> cs[k] == Code(prefix, k + 1, width)
  {
    seq(n, k requires 0 <= k < n => Code(prefix, k + 1, width))
  }

  /** Sorted by code: none comes behind a greater one. */
  ghost predicate InCodeOrder(cs: seq<string>) {
    forall i, j :: 0 <= i < j < |cs| ==> !Less(cs[j], cs[i])
  }

  lemma OrderedParts(s: seq<string>, c: string)
    requires InCodeOrder(s) && c in s
    ensures !Less(c, s[0]) && InCodeOrder(s[1..])
  {
    LessIrreflexive(c);
  }

  lemma {:induction false} OrderedUnique(s: seq<string>, t: seq<string>)
    requires InCodeOrder(s) && InCodeOrder(t) && multiset(s) == multiset(t)
    ensures s == t
  {
    hide InCodeOrder, Less;
    SameContents(s, t);
    if s == [] {
    } else {
      OrderedParts(s, t[0]);
      OrderedParts(t, s[0]);
      LessTotal(s[0], t[0]);
      WithoutFirst(s);
      WithoutFirst(t);
      OrderedUnique(s[1..], t[1..]);
      SameParts(s, t);
    }
  }

  /** Read back in code order, the codes 1 to n come in the order they were generated in exactly
      as long as n fits the width. */
  lemma GenerationOrder(prefix: string, n: nat, width: nat, read: seq<string>)
    requires width > 0
    requires InCodeOrder(read) && multiset(read) == multiset(Codes(prefix, n, width))
    ensures read == Codes(prefix, n, width) <==> n < Pow10(width)
  {
    hide Less, Code, Pow10;
    var codes := Codes(prefix, n, width);
    if n < Pow10(width) {
      CodesAscend(prefix, n, width);
      forall i, j | 0 <= i < j < n ensures !Less(codes[j], codes[i]) {
        assert Less(Code(prefix, i + 1, width), Code(prefix, j + 1, width));
        LessAsymmetric(codes[i], codes[j]);
      }
      OrderedUnique(read, codes);
    } else {
      Overflow(prefix, width);
      var p := Pow10(width);
      PowerOfTen(width);
      assert codes[p - 1] == Code(prefix, p, width) && codes[p - 2] == Code(prefix, p - 1, width);
    }
  }

  lemma PowerOfTen(width: nat)
    requires width > 0
    ensures Pow10(width) >= 10
  {
  }

  lemma FirstDecides(a: string, b: string)
    requires a != [] && b != [] && a[0] > b[0]
    ensures !Less(a, b) && Less(b, a)
  {
  }

  lemma {:induction false} LastOfWidth(width: nat)
    requires width > 0
    ensures |Decimal(Pow10(width) - 1)| == width && Decimal(Pow10(width) - 1)[0] == '9'
  {
    if width == 1 {
      assert Pow10(1) == 10 * Pow10(0);
    } else {
      LastOfWidth(width - 1);
      assert Pow10(width) == 10 * Pow10(width - 1) && Pow10(width - 1) >= 10 by {
        assert Pow10(width - 1) == 10 * Pow10(width - 2);
      }
      assert (Pow10(width) - 1) / 10 == Pow10(width - 1) - 1;
    }
  }

  lemma {:induction false} FirstTooLong(width: nat)
    ensures |Decimal(Pow10(width))| == width + 1 && Decimal(Pow10(width))[0] == '1'
  {
    if width == 0 {
    } else {
      FirstTooLong(width - 1);
      assert Pow10(width) / 10 == Pow10(width - 1);
    }
  }

  // ----- order totals

  /** `createdAt` as a time stamp; amounts in the smallest unit. */
  datatype Order = Order(customerId: Option<string>, totalAmount: Option<int>, createdAt: int)
  datatype Totals = Totals(totalOrders: nat, totalSpent: int, lastOrderAt: Option<int>)

  predicate HasCustomer(o: Order) {
    o.customerId.Some? && o.customerId.value != ""
  }

  function Amount(o: Order): int {
    if o.totalAmount.Some? then o.totalAmount.value else 0
  }

  /** The orders of one customer. */
  function OrdersOf(orders: seq<Order>, id: string): seq<Order> {
    if orders == [] then []
    else
      var last := |orders| - 1;
      OrdersOf(orders[..last], id) + (if HasCustomer(orders[last]) && orders[last].customerId.value == id then [orders[last]] else [])
  }

  function Spent(orders: seq<Order>): int {
    if orders == [] then 0 else Spent(orders[..|orders| - 1]) + Amount(orders[|orders| - 1])
  }

  ghost predicate IsLatest(orders: seq<Order>, latest: Option<int>) {
    match latest
    case None => orders == []
    case Some(at) => (forall k :: 0 <= k < |orders| ==> orders[k].createdAt <= at)
                     && exists k :: 0 <= k < |orders| && orders[k].createdAt == at
  }

  /** The entry is the count, the sum and the latest date of exactly these orders. */
  ghost predicate TotalsOf(t: Totals, orders: seq<Order>) {
    t.totalOrders == |orders| && t.totalSpent == Spent(orders) && IsLatest(orders, t.lastOrderAt)
  }

  ghost predicate Aggregates(m: map<string, Totals>, orders: seq<Order>) {
    && (forall id :: id in m <==> OrdersOf(orders, id) != [])
    && (forall id :: id in m ==> TotalsOf(m[id], OrdersOf(orders, id)))
  }

  lemma SpentSnoc(orders: seq<Order>, o: Order)
    ensures Spent(orders + [o]) == Spent(orders) + Amount(o)
  {
    assert (orders + [o])[..|orders|] == orders;
  }

  lemma LatestSnoc(orders: seq<Order>, latest: Option<int>, o: Order)
    requires IsLatest(orders, latest)
    ensures IsLatest(orders + [o], if latest.None? || o.createdAt > latest.value then Some(o.createdAt) else latest)
  {
    var all := orders + [o];
    assert all[|orders|] == o;
    if latest.Some? {
      var k :| 0 <= k < |orders| && orders[k].createdAt == latest.value;
      assert all[k].createdAt == latest.value;
    }
  }

  lemma OrdersOfSnoc(orders: seq<Order>, o: Order, id: string)
    ensures OrdersOf(orders + [o], id) ==
            if HasCustomer(o) && o.customerId.value == id then OrdersOf(orders, id) + [o] else OrdersOf(orders, id)
  {
    assert (orders + [o])[..|orders|] == orders;
  }

  function Updated(t: Totals, o: Order): Totals {
    Totals(t.totalOrders + 1, t.totalSpent + Amount(o),
           if t.lastOrderAt.None? || o.createdAt > t.lastOrderAt.value then Some(o.createdAt) else t.lastOrderAt)
  }

  lemma TotalsSnoc(t: Totals, orders: seq<Order>, o: Order)
    requires TotalsOf(t, orders)
    ensures TotalsOf(Updated(t, o), orders + [o])
  {
    SpentSnoc(orders, o);
    LatestSnoc(orders, t.lastOrderAt, o);
  }

  lemma AggregatesSnoc(m: map<string, Totals>, orders: seq<Order>, o: Order)
    requires Aggregates(m, orders)
    ensures Aggregates(if !HasCustomer(o) then m
                       else
                         var id := o.customerId.value;
                         m[id := Updated(if id in m then m[id] else Totals(0, 0, None), o)],
                       orders + [o])
  {
    hide TotalsOf, OrdersOf;
    forall id ensures OrdersOf(orders + [o], id) ==
              if HasCustomer(o) && o.customerId.value == id then OrdersOf(orders, id) + [o] else OrdersOf(orders, id)
    {
      OrdersOfSnoc(orders, o, id);
    }
    if HasCustomer(o) {
      var id := o.customerId.value;
      var t := if id in m then m[id] else Totals(0, 0, None);
      assert TotalsOf(t, OrdersOf(orders, id)) by {
        NoTotals();
      }
      TotalsSnoc(t, OrdersOf(orders, id), o);
    }
  }

  lemma NoTotals()
    ensures TotalsOf(Totals(0, 0, None), [])
  {
  }

  method AggregateOrders(orders: seq<Order>) returns (m: map<string, Totals>)
    ensures Aggregates(m, orders)
  {
    m := map[];
    hide OrdersOf;
    assert Aggregates(m, []) by {
      NoAggregates();
    }
    hide Aggregates;
    for k := 0 to |orders|
      invariant Aggregates(m, orders[..k])
    {
      var order := orders[k];
      AggregatesSnoc(m, orders[..k], order);
      assert orders[..k + 1] == orders[..k] + [order];
      if !HasCustomer(order) {
        continue;
      }
      var id := order.customerId.value;
      var current := if id in m then m[id] else Totals(0, 0, None);
      current := current.(totalOrders := current.totalOrders + 1);
      current := current.(totalSpent := current.totalSpent + Amount(order));
      if current.lastOrderAt.None? || order.createdAt > current.lastOrderAt.value {
        current := current.(lastOrderAt := Some(order.createdAt));
      }
      m := m[id := current];
    }
    assert orders[..|orders|] == orders;
  }

  lemma NoAggregates()
    ensures Aggregates(map[], [])
  {
  }

  // ----- the map accounts for every order

  function CountOver(m: map<string, Totals>, ids: seq<string>): int
    requires forall k :: 0 <= k < |ids| ==> ids[k] in m
  {
    if ids == [] then 0 else m[ids[0]].totalOrders + CountOver(m, ids[1..])
  }

  function SpentOver(m: map<string, Totals>, ids: seq<string>): int
    requires forall k :: 0 <= k < |ids| ==> ids[k] in m
  {
    if ids == [] then 0 else m[ids[0]].totalSpent + SpentOver(m, ids[1..])
  }

  function WithCustomer(orders: seq<Order>): seq<Order> {
    if orders == [] then []
    else
      var last := |orders| - 1;
      WithCustomer(orders[..last]) + (if HasCustomer(orders[last]) then [orders[last]] else [])
  }

  /** The orders of the listed customers, in total. */
  function CountListed(orders: seq<Order>, ids: seq<string>): int {
    if ids == [] then 0 else |OrdersOf(orders, ids[0])| + CountListed(orders, ids[1..])
  }

  function SpentListed(orders: seq<Order>, ids: seq<string>): int {
    if ids == [] then 0 else Spent(OrdersOf(orders, ids[0])) + SpentListed(orders, ids[1..])
  }

  lemma {:induction false} NoOrders(ids: seq<string>)
    ensures CountListed([], ids) == 0 && SpentListed([], ids) == 0
  {
    if ids == [] {
    } else {
      NoOrders(ids[1..]);
    }
  }

  /** One more order adds to exactly one of the listed customers, or to none. */
  lemma {:induction false} OneMoreOrder(orders: seq<Order>, o: Order, ids: seq<string>)
    requires forall i, j :: 0 <= i < j < |ids| ==> ids[i] != ids[j]
    ensures var listed := HasCustomer(o) && o.customerId.value in ids;
            && CountListed(orders + [o], ids) == CountListed(orders, ids) + (if listed then 1 else 0)
            && SpentListed(orders + [o], ids) == SpentListed(orders, ids) + (if listed then Amount(o) else 0)
  {
    if ids == [] {
    } else {
      OrdersOfSnoc(orders, o, ids[0]);
      assert ids == [ids[0]] + ids[1..];
      OneMoreOrder(orders, o, ids[1..]);
      SpentSnoc(OrdersOf(orders, ids[0]), o);
    }
  }

  lemma {:induction false} ListedAreAll(orders: seq<Order>, ids: seq<string>)
    requires forall i, j :: 0 <= i < j < |ids| ==> ids[i] != ids[j]
    requires forall k :: 0 <= k < |orders| && HasCustomer(orders[k]) ==> orders[k].customerId.value in ids
    ensures CountListed(orders, ids) == |WithCustomer(orders)|
    ensures SpentListed(orders, ids) == Spent(WithCustomer(orders))
    decreases |orders|
  {
    if orders == [] {
      NoOrders(ids);
    } else {
      var last := |orders| - 1;
      assert orders == orders[..last] + [orders[last]];
      ListedAreAll(orders[..last], ids);
      OneMoreOrder(orders[..last], orders[last], ids);
      SpentSnoc(WithCustomer(orders[..last]), orders[last]);
      assert WithCustomer(orders[..last]) + [] == WithCustomer(orders[..last]);
    }
  }

  lemma {:induction false} OverListed(m: map<string, Totals>, orders: seq<Order>, ids: seq<string>)
    requires Aggregates(m, orders) && forall k :: 0 <= k < |ids| ==> ids[k] in m
    ensures CountOver(m, ids) == CountListed(orders, ids) && SpentOver(m, ids) == SpentListed(orders, ids)
  {
    if ids == [] {
    } else {
      OverListed(m, orders, ids[1..]);
    }
  }

  lemma {:induction false} OrdersOfSome(orders: seq<Order>, k: nat)
    requires k < |orders| && HasCustomer(orders[k])
    ensures OrdersOf(orders, orders[k].customerId.value) != []
    decreases |orders|
  {
    if k == |orders| - 1 {
    } else {
      OrdersOfSome(orders[..|orders| - 1], k);
    }
  }

  /** Summed over the map's customers, in whatever order they are listed, counts and amounts
      are those of all orders that have a customer. */
  lemma AggregateIsComplete(m: map<string, Totals>, orders: seq<Order>, ids: seq<string>)
    requires Aggregates(m, orders)
    requires forall i, j :: 0 <= i < j < |ids| ==> ids[i] != ids[j]
    requires forall id :: id in m <==> id in ids
    ensures CountOver(m, ids) == |WithCustomer(orders)|
    ensures SpentOver(m, ids) == Spent(WithCustomer(orders))
  {
    OverListed(m, orders, ids);
    forall k | 0 <= k < |orders| && HasCustomer(orders[k]) ensures orders[k].customerId.value in ids {
      OrdersOfSome(orders, k);
    }
    ListedAreAll(orders, ids);
  }

  // ----- what codes and totals are, said without their definitions

  /** A code is its prefix and then a numeral of the number, at least as long as the width. */
  lemma CodeReads(prefix: string, index: nat, width: nat)
    ensures var c := Code(prefix, index, width);
            && prefix <= c && AllDigits(c[|prefix|..]) && ToNat(c[|prefix|..]) == index
            && |c| == |prefix| + (if |Decimal(index)| < width then width else |Decimal(index)|)
  {
    ToNatPadDecimal(index, width);
    assert Code(prefix, index, width)[|prefix|..] == PadStart(Decimal(index), width);
  }

  /** An order adds its amount, and nothing if it has none. */
  lemma SpentMeaning(orders: seq<Order>, customer: Option<string>, amount: int, at: int)
    ensures Spent([]) == 0
    ensures Spent(orders + [Order(customer, Some(amount), at)]) == Spent(orders) + amount
    ensures Spent(orders + [Order(customer, None, at)]) == Spent(orders)
  {
    SpentSnoc(orders, Order(customer, Some(amount), at));
    SpentSnoc(orders, Order(customer, None, at));
  }

  /** A customer's orders are all those with the customer's id, and the empty id counts as none. */
  lemma {:induction false} OrdersOfMeaning(orders: seq<Order>, id: string, o: Order)
    ensures multiset(OrdersOf(orders, id))[o] ==
            if o.customerId == Some(id) && id != "" then multiset(orders)[o] else 0
    ensures multiset(WithCustomer(orders))[o] ==
            if o.customerId != None && o.customerId != Some("") then multiset(orders)[o] else 0
  {
    if orders == [] {
    } else {
      hide OrdersOf, WithCustomer;
      var before, last := orders[..|orders| - 1], orders[|orders| - 1];
      InitAndLast(orders);
      OrdersOfMeaning(before, id, o);
      OrdersOfSnoc(before, last, id);
      WithCustomerSnoc(before, last);
    }
  }

  lemma WithCustomerSnoc(orders: seq<Order>, o: Order)
    ensures WithCustomer(orders + [o]) == WithCustomer(orders) + if HasCustomer(o) then [o] else []
  {
    assert (orders + [o])[..|orders|] == orders;
  }
}
