/** The order-book snapshot: an early-stopping, budgeted scan of order ids, and the two
    sides in price-time order. Every getter runs over one account state. */
module OrderBook {
  import opened Common
  import opened Wrappers
  import opened Json
  import opened Text
  import opened Numerals
  import opened Fields

  datatype OpenOrder = OpenOrder(
    orderId: nat, isBuy: bool, price: nat, ticks: nat, escrow: nat, note: string,
    tokenContract: string, deadline: nat, flags: nat, placedAt: nat)

  /** The outcome of `getOrder` for every id; a getter that fails has none. */
  type Book = nat -> Option<Value>

  const ZERO_ACCOUNT: string := Repeated('0', 64)

  const U64: nat := 0x1_0000_0000_0000_0000
  const U8: nat := 0x100

  function Note(o: Value): string {
    match StrField(Some(o), "note") case Some(note) => note case None => ""
  }

  predicate Live(o: Value) {
    Note(o) != "" && !EndsWith(Note(o), ZERO_ACCOUNT)
  }

  /** The fields of a live order. The last three are cut to their integer widths. */
  function ParseOrder(id: nat, o: Value): Result<OpenOrder, FieldError> {
    var isBuy := FieldBool(o, "isBuy");
    var price := FieldU128(o, "price");
    var ticks := FieldU128(o, "amount");
    var escrow := FieldU128(o, "escrow");
    var deadline := FieldU128(o, "deadline");
    var flags := FieldU128(o, "flags");
    var placedAt := FieldU128(o, "ts");
    if isBuy.Err? then Err(isBuy.error)
    else if price.Err? then Err(price.error)
    else if ticks.Err? then Err(ticks.error)
    else if escrow.Err? then Err(escrow.error)
    else if deadline.Err? then Err(deadline.error)
    else if flags.Err? then Err(flags.error)
    else if placedAt.Err? then Err(placedAt.error)
    else Ok(OpenOrder(id, isBuy.value, price.value, ticks.value, escrow.value, Note(o),
                      match StrField(Some(o), "tokenContract") case Some(t) => t case None => "",
                      deadline.value % U64, flags.value % U8, placedAt.value % U64))
  }

  /** What probing one id finds: an order, nothing, or a live order with a broken field. */
  function Probe(book: Book, id: nat): (r: Result<Option<OpenOrder>, FieldError>)
    ensures r.Ok? && r.value.Some? ==> r.value.value.orderId == id
  {
    match book(id)
    case None => Ok(None)
    case Some(o) =>
      if !Live(o) then Ok(None)
      else match ParseOrder(id, o)
           case Ok(order) => Ok(Some(order))
           case Err(error) => Err(error)
  }

  // ---- what the getter says of an order -------------------------------------

  /** The last 64 characters are zeros: no account. */
  predicate EndsInZeros(note: string) {
    |note| >= 64 && forall i :: |note| - 64 <= i < |note| ==> note[i] == '0'
  }

  predicate OwnedNote(note: string) {
    note != "" && !EndsInZeros(note)
  }

  lemma ZeroAccountIff(note: string)
    ensures EndsWith(note, ZERO_ACCOUNT) <==> EndsInZeros(note)
  {
    if |note| >= 64 {
      var tail := note[|note| - 64..];
      if EndsInZeros(note) {
        assert tail == ZERO_ACCOUNT;
      }
      if tail == ZERO_ACCOUNT {
        forall i | |note| - 64 <= i < |note|
          ensures note[i] == '0'
        {
          assert note[i] == tail[i - (|note| - 64)];
        }
      }
    }
  }

  /** The getter shows the order: its side as a bool, its numbers in any of the ways to write
      them, and its texts. Deadline, flags and placement time may be wider than they are kept. */
  ghost predicate Shows(v: Value, o: OpenOrder) {
    && v.Get("isBuy") == Some(Bool(o.isBuy))
    && NumberAt(v, "price", o.price) && NumberAt(v, "amount", o.ticks) && NumberAt(v, "escrow", o.escrow)
    && v.Get("note") == Some(Str(o.note))
    && (v.Get("tokenContract") == Some(Str(o.tokenContract)) ||
        (o.tokenContract == "" && StrField(Some(v), "tokenContract") == None))
    && CutNumberAt(v, "deadline", 0x1_0000_0000_0000_0000, o.deadline)
    && CutNumberAt(v, "flags", 0x100, o.flags)
    && CutNumberAt(v, "ts", 0x1_0000_0000_0000_0000, o.placedAt)
  }

  ghost predicate NumberAt(v: Value, name: string, n: nat) {
    SpelledAt(v, name, n) && n < U128_BOUND
  }

  ghost predicate CutNumberAt(v: Value, name: string, width: nat, n: nat)
    requires width > 0
  {
    exists wide: nat :: NumberAt(v, name, wide) && n == wide % width
  }

  lemma NumberIff(v: Value, name: string, n: nat)
    ensures FieldU128(v, name) == Ok(n) <==> NumberAt(v, name, n)
  {
    FieldIff(v, name, n);
  }

  lemma CutNumberIff(v: Value, name: string, width: nat, n: nat)
    requires width > 0
    ensures (FieldU128(v, name).Ok? && FieldU128(v, name).value % width == n) <==> CutNumberAt(v, name, width, n)
  {
    hide NumberAt, FieldU128;
    if FieldU128(v, name).Ok? {
      NumberIff(v, name, FieldU128(v, name).value);
    }
    forall wide: nat | NumberAt(v, name, wide)
      ensures FieldU128(v, name) == Ok(wide)
    {
      NumberIff(v, name, wide);
    }
  }

  lemma ParseOrderIff(id: nat, v: Value, o: OpenOrder)
    requires Note(v) != ""
    ensures ParseOrder(id, v) == Ok(o) <==> o.orderId == id && Shows(v, o)
  {
    NumberIff(v, "price", o.price);
    NumberIff(v, "amount", o.ticks);
    NumberIff(v, "escrow", o.escrow);
    CutNumberIff(v, "deadline", U64, o.deadline);
    CutNumberIff(v, "flags", U8, o.flags);
    CutNumberIff(v, "ts", U64, o.placedAt);
    hide FieldU128, NumberAt, CutNumberAt, Find;
  }

  /** Probing an id finds an order exactly when the getter answers, the note is of an account,
      and the order is what the getter shows. */
  lemma ProbeIff(book: Book, id: nat, o: OpenOrder)
    ensures Probe(book, id) == Ok(Some(o))
            <==> && o.orderId == id && book(id).Some? && Shows(book(id).value, o)
                 && OwnedNote(o.note)
  {
    if book(id).Some? {
      var v := book(id).value;
      ZeroAccountIff(Note(v));
      hide EndsInZeros, EndsWith;
      if Note(v) != "" {
        ParseOrderIff(id, v, o);
      }
      hide ParseOrder, Shows;
    }
  }

  /** It finds nothing exactly when the getter fails or shows no note of an account; what is
      left, a live order with a field that cannot be read, is an error. */
  lemma NothingIff(book: Book, id: nat)
    ensures Probe(book, id) == Ok(None)
            <==> book(id).None? || !exists note :: OwnedNote(note) && book(id).value.Get("note") == Some(Str(note))
  {
    if book(id).Some? {
      ZeroAccountIff(Note(book(id).value));
      hide EndsInZeros, EndsWith, ParseOrder;
    }
  }

  // ---- a book that is printed from its orders -------------------------------

  /** How the numbers of an order are printed. */
  datatype Style = Decimal | Hex(upper: bool)

  function NumberText(n: nat, style: Style): Value {
    match style
    case Decimal => Str(ShowNat(n))
    case Hex(upper) => Str("0x" + ShowHex(n, upper))
  }

  function OrderJson(o: OpenOrder, style: Style): Value {
    Obj([Field("amount", NumberText(o.ticks, style)), Field("deadline", NumberText(o.deadline, style)),
         Field("escrow", NumberText(o.escrow, style)), Field("flags", NumberText(o.flags, style)),
         Field("isBuy", Bool(o.isBuy)), Field("note", Str(o.note)), Field("price", NumberText(o.price, style)),
         Field("tokenContract", Str(o.tokenContract)), Field("ts", NumberText(o.placedAt, style))])
  }

  lemma PrintedNumber(n: nat, style: Style)
    ensures Spells(NumberText(n, style), n)
  {
    hide ShowNat, ShowHex, ValueOf, AllDigits, Spells;
    match style {
      case Decimal =>
        ShowNatReads(n);
        PlainNumeral("", ShowNat(n), n);
        assert "" + ShowNat(n) == ShowNat(n);
      case Hex(upper) =>
        ShowHexReads(n, upper);
        PlainNumeral("0x", ShowHex(n, upper), n);
    }
  }

  lemma PlainNumeral(prefix: string, digits: string, n: nat)
    requires IsNumeral(prefix, "", digits, n)
    ensures Spells(Str(prefix + digits), n)
  {
    AnyNumeral("", prefix, "", digits, "", n);
    assert prefix + digits == "" + (prefix + ("" + digits)) + "";
  }

  lemma AnyNumeral(pre: string, prefix: string, plus: string, digits: string, post: string, n: nat)
    requires AllSpace(pre) && AllSpace(post) && IsNumeral(prefix, plus, digits, n)
    ensures Spells(Str(pre + (prefix + (plus + digits)) + post), n)
  {
    hide IsNumeral, AllSpace;
  }

  predicate FitsWidths(o: OpenOrder) {
    && o.price < U128_BOUND && o.ticks < U128_BOUND && o.escrow < U128_BOUND
    && o.deadline < U64 && o.flags < U8 && o.placedAt < U64
  }

  lemma OrderFields(o: OpenOrder, style: Style)
    ensures var v := OrderJson(o, style);
            && v.Get("amount") == Some(NumberText(o.ticks, style))
            && v.Get("deadline") == Some(NumberText(o.deadline, style))
            && v.Get("escrow") == Some(NumberText(o.escrow, style))
            && v.Get("flags") == Some(NumberText(o.flags, style))
            && v.Get("isBuy") == Some(Bool(o.isBuy)) && v.Get("note") == Some(Str(o.note))
            && v.Get("price") == Some(NumberText(o.price, style))
            && v.Get("tokenContract") == Some(Str(o.tokenContract))
            && v.Get("ts") == Some(NumberText(o.placedAt, style))
  {
    hide Find, NumberText;
    var fields := OrderJson(o, style).fields;
    forall k | 0 <= k < |fields|
      ensures Find(fields, fields[k].key) == Some(fields[k].val)
    {
      FindAt(fields, k);
    }
    assert fields[0].key == "amount" && fields[1].key == "deadline" && fields[2].key == "escrow";
    assert fields[3].key == "flags" && fields[4].key == "isBuy" && fields[5].key == "note";
    assert fields[6].key == "price" && fields[7].key == "tokenContract" && fields[8].key == "ts";
  }

  lemma PrintedNumberAt(v: Value, name: string, n: nat, style: Style)
    requires v.Get(name) == Some(NumberText(n, style)) && n < U128_BOUND
    ensures NumberAt(v, name, n)
    ensures forall width: nat :: n < width ==> CutNumberAt(v, name, width, n)
  {
    PrintedNumber(n, style);
    hide NumberText, Spells;
  }

  lemma PrintedIsShown(o: OpenOrder, style: Style)
    requires FitsWidths(o)
    ensures Shows(OrderJson(o, style), o)
  {
    var v := OrderJson(o, style);
    OrderFields(o, style);
    hide OrderJson, NumberText, CutNumberAt, NumberAt, Find, Value.Get;
    PrintedNumberAt(v, "price", o.price, style);
    PrintedNumberAt(v, "amount", o.ticks, style);
    PrintedNumberAt(v, "escrow", o.escrow, style);
    PrintedNumberAt(v, "deadline", o.deadline, style);
    PrintedNumberAt(v, "flags", o.flags, style);
    PrintedNumberAt(v, "ts", o.placedAt, style);
  }

  /** The getters of a contract that holds these orders. */
  function BookOf(orders: map<nat, OpenOrder>, style: Style): Book {
    (id: nat) => if id in orders then Some(OrderJson(orders[id], style)) else None
  }

  predicate Storable(orders: map<nat, OpenOrder>) {
    forall id :: id in orders ==> orders[id].orderId == id && FitsWidths(orders[id])
  }

  /** Every order comes back from its printed form as itself, unless its note is of no account. */
  lemma PrintedOrderReads(orders: map<nat, OpenOrder>, style: Style, id: nat)
    requires Storable(orders)
    ensures Probe(BookOf(orders, style), id)
            == if id in orders && OwnedNote(orders[id].note) then Ok(Some(orders[id])) else Ok(None)
  {
    hide Probe, FitsWidths, Shows, EndsInZeros;
    var book := BookOf(orders, style);
    if id in orders {
      var o := orders[id];
      PrintedIsShown(o, style);
      ProbeIff(book, id, o);
      OrderFields(o, style);
      NothingIff(book, id);
    } else {
      NothingIff(book, id);
    }
  }

  predicate Readable(book: Book, n: nat) {
    forall id :: 1 <= id <= n ==> Probe(book, id).Ok?
  }

  /** The live orders among the ids 1..=n, in id order. */
  function Orders(book: Book, n: nat): seq<OpenOrder> {
    if n == 0 then []
    else Orders(book, n - 1) + match Probe(book, n) case Ok(Some(order)) => [order] case _ => []
  }

  /** One side of a run of orders. */
  function Side(orders: seq<OpenOrder>, buy: bool): seq<OpenOrder> {
    if orders == [] then []
    else
      var last := orders[|orders| - 1];
      Side(orders[..|orders| - 1], buy) + if last.isBuy == buy then [last] else []
  }

  lemma SideSnoc(orders: seq<OpenOrder>, last: OpenOrder, buy: bool)
    ensures Side(orders + [last], buy) == Side(orders, buy) + if last.isBuy == buy then [last] else []
  {
    assert (orders + [last])[..|orders|] == orders;
  }

  datatype Scan = Scan(bids: seq<OpenOrder>, asks: seq<OpenOrder>, found: nat, probed: nat)

  /** Probe ids from 1 until `orderCount` live orders are found, the last assigned id is
      reached, or `maxScan` ids were probed. A live order with a broken field fails the scan. */
  method ScanOrders(book: Book, orderCount: nat, nextOrderId: nat, maxScan: nat) returns (r: Result<Scan, FieldError>)
    ensures r.Ok? ==>
              && r.value.probed <= Min(nextOrderId, maxScan)
              && Readable(book, r.value.probed)
              && r.value.bids == Side(Orders(book, r.value.probed), true)
              && r.value.asks == Side(Orders(book, r.value.probed), false)
              && r.value.found == |Orders(book, r.value.probed)| <= orderCount
              && (r.value.found == orderCount || r.value.probed == Min(nextOrderId, maxScan))
    ensures r.Err? ==> exists id :: 1 <= id <= Min(nextOrderId, maxScan) && Probe(book, id) == Err(r.error)
                                    && |Orders(book, id - 1)| < orderCount
  {
    hide Probe, Side, Orders;
    var bids, asks: seq<OpenOrder> := [], [];
    var found, probed, id := 0, 0, 1;
    NoOrders();
    while found < orderCount && id <= nextOrderId && probed < maxScan
      invariant id == probed + 1 && probed <= Min(nextOrderId, maxScan)
      invariant Readable(book, probed)
      invariant bids == Side(Orders(book, probed), true)
      invariant asks == Side(Orders(book, probed), false)
      invariant found == |Orders(book, probed)| <= orderCount
    {
      probed := probed + 1;
      var probe := Probe(book, id);
      OrdersStep(book, id);
      if probe.Err? {
        return Err(probe.error);
      }
      if probe.value.Some? {
        var order := probe.value.value;
        SideSnoc(Orders(book, probed - 1), order, true);
        SideSnoc(Orders(book, probed - 1), order, false);
        found := found + 1;
        if order.isBuy {
          bids := bids + [order];
        } else {
          asks := asks + [order];
        }
      }
      id := id + 1;
    }
    r := Ok(Scan(bids, asks, found, probed));
  }

  lemma OrdersStep(book: Book, n: nat)
    requires n >= 1
    ensures Orders(book, n) == Orders(book, n - 1) + match Probe(book, n) case Ok(Some(order)) => [order] case _ => []
    ensures Probe(book, n) == Ok(None) ==> Orders(book, n) == Orders(book, n - 1)
  {
    hide Probe;
    assert Orders(book, n - 1) + [] == Orders(book, n - 1);
  }

  lemma NoOrders()
    ensures Side([], true) == [] && Side([], false) == []
    ensures forall book :: Orders(book, 0) == []
  {
  }

  // ---- what stopping early can lose -----------------------------------------

  lemma {:induction false} OrdersGrow(book: Book, n: nat, m: nat)
    requires n <= m
    ensures Orders(book, n) <= Orders(book, m)
  {
    hide Probe;
    if n < m {
      OrdersGrow(book, n, m - 1);
    }
  }

  ghost predicate Ascending(orders: seq<OpenOrder>) {
    forall i, j :: 0 <= i < j < |orders| ==> orders[i].orderId < orders[j].orderId
  }

  ghost predicate AllProbed(orders: seq<OpenOrder>, book: Book, n: nat) {
    forall i :: 0 <= i < |orders| ==>
      1 <= orders[i].orderId <= n && Probe(book, orders[i].orderId) == Ok(Some(orders[i]))
  }

  /** Ids are those probed and strictly ascending, so every live order is there once. */
  lemma {:induction false} OrdersAscend(book: Book, n: nat)
    ensures Ascending(Orders(book, n)) && AllProbed(Orders(book, n), book, n)
  {
    hide Probe;
    if n > 0 {
      OrdersAscend(book, n - 1);
      OrdersStep(book, n);
      hide Orders;
      assert AllProbed(Orders(book, n), book, n);
    }
  }

  lemma {:induction false} LiveOrderIsThere(book: Book, n: nat, id: nat)
    requires 1 <= id <= n && Probe(book, id).Ok? && Probe(book, id).value.Some?
    ensures Probe(book, id).value.value in Orders(book, n)
  {
    hide Probe;
    if id < n {
      LiveOrderIsThere(book, n - 1, id);
    }
  }

  lemma {:induction false} SideMembers(orders: seq<OpenOrder>, buy: bool)
    ensures forall o :: o in Side(orders, buy) <==> o in orders && o.isBuy == buy
    ensures |Side(orders, true)| + |Side(orders, false)| == |orders|
  {
    if orders != [] {
      var before, last := orders[..|orders| - 1], orders[|orders| - 1];
      SideMembers(before, buy);
      SideSnoc(before, last, buy);
      SideSnoc(before, last, true);
      SideSnoc(before, last, false);
      hide Side;
      assert orders == before + [last];
      assert forall o :: o in orders <==> o in before || o == last;
    }
  }

  /** When the book's counter is right, stopping at `orderCount` finds loses nothing: a scan
      that is not truncated has the live orders of all ids, however early it stopped. */
  lemma EarlyStopIsComplete(book: Book, orderCount: nat, nextOrderId: nat, probed: nat)
    requires |Orders(book, nextOrderId)| == orderCount
    requires probed <= nextOrderId && |Orders(book, probed)| == orderCount
    ensures Orders(book, probed) == Orders(book, nextOrderId)
  {
    OrdersGrow(book, probed, nextOrderId);
  }

  predicate HasOrder(book: Book, id: nat) {
    Probe(book, id).Ok? && Probe(book, id).value.Some?
  }

  /** More ids have more live orders exactly when one of the further ids is live. */
  lemma {:induction false} MissedIff(book: Book, n: nat, m: nat)
    requires n <= m
    ensures |Orders(book, n)| <= |Orders(book, m)|
    ensures |Orders(book, n)| < |Orders(book, m)| <==> exists id :: n < id <= m && HasOrder(book, id)
  {
    hide Probe;
    if n < m {
      MissedIff(book, n, m - 1);
      OrdersStep(book, m);
      hide Orders;
      assert |Orders(book, m)| == |Orders(book, m - 1)| + if HasOrder(book, m) then 1 else 0;
      hide HasOrder;
      if |Orders(book, n)| < |Orders(book, m - 1)| {
        var id :| n < id <= m - 1 && HasOrder(book, id);
      } else {
        assert forall id :: n < id <= m && HasOrder(book, id) ==> id == m;
      }
    }
  }

  /** A scan is truncated exactly when the ids within the budget hold too few live orders. */
  lemma TruncatedIff(book: Book, orderCount: nat, limit: nat, probed: nat)
    requires probed <= limit && |Orders(book, probed)| <= orderCount
    requires |Orders(book, probed)| == orderCount || probed == limit
    ensures |Orders(book, probed)| < orderCount <==> |Orders(book, limit)| < orderCount
  {
    OrdersGrow(book, probed, limit);
  }

  // ---- price-time order -----------------------------------------------------

  /** `a` is not behind `b`: better price first, then earlier placement. */
  predicate NotBehind(a: OpenOrder, b: OpenOrder, buy: bool) {
    if a.price != b.price then (if buy then a.price > b.price else a.price < b.price)
    else a.placedAt <= b.placedAt
  }

  function Insert(o: OpenOrder, sorted: seq<OpenOrder>, buy: bool): seq<OpenOrder> {
    if sorted == [] || NotBehind(o, sorted[0], buy) then [o] + sorted
    else [sorted[0]] + Insert(o, sorted[1..], buy)
  }

  /** A stable sort by price and placement time. */
  function Sorted(orders: seq<OpenOrder>, buy: bool): seq<OpenOrder> {
    if orders == [] then [] else Insert(orders[0], Sorted(orders[1..], buy), buy)
  }

  /** `a` comes strictly before `b`: price, then placement time, then id. */
  predicate Before(a: OpenOrder, b: OpenOrder, buy: bool) {
    if a.price != b.price then (if buy then a.price > b.price else a.price < b.price)
    else if a.placedAt != b.placedAt then a.placedAt < b.placedAt
    else a.orderId < b.orderId
  }

  ghost predicate PriceTimeOrdered(orders: seq<OpenOrder>, buy: bool) {
    forall i, j :: 0 <= i < j < |orders| ==> Before(orders[i], orders[j], buy)
  }

  lemma {:induction false} InsertMembers(o: OpenOrder, sorted: seq<OpenOrder>, buy: bool)
    ensures multiset(Insert(o, sorted, buy)) == multiset{o} + multiset(sorted)
  {
    if sorted != [] && !NotBehind(o, sorted[0], buy) {
      InsertMembers(o, sorted[1..], buy);
      assert sorted == [sorted[0]] + sorted[1..];
    }
  }

  lemma OrderedCons(o: OpenOrder, rest: seq<OpenOrder>, buy: bool)
    requires PriceTimeOrdered(rest, buy)
    requires forall j :: 0 <= j < |rest| ==> Before(o, rest[j], buy)
    ensures PriceTimeOrdered([o] + rest, buy)
  {
    hide Before;
  }

  lemma FrontBefore(o: OpenOrder, sorted: seq<OpenOrder>, buy: bool)
    requires PriceTimeOrdered(sorted, buy)
    requires forall i :: 0 <= i < |sorted| ==> o.orderId < sorted[i].orderId
    requires sorted == [] || NotBehind(o, sorted[0], buy)
    ensures forall j :: 0 <= j < |sorted| ==> Before(o, sorted[j], buy)
  {
    forall j | 0 <= j < |sorted|
      ensures Before(o, sorted[j], buy)
    {
      if j > 0 {
        assert Before(sorted[0], sorted[j], buy);
      }
    }
  }

  /** Inserting an order with a smaller id than all others keeps ties in id order. */
  lemma {:induction false} InsertOrdered(o: OpenOrder, sorted: seq<OpenOrder>, buy: bool)
    requires PriceTimeOrdered(sorted, buy)
    requires forall i :: 0 <= i < |sorted| ==> o.orderId < sorted[i].orderId
    ensures PriceTimeOrdered(Insert(o, sorted, buy), buy)
  {
    if sorted == [] || NotBehind(o, sorted[0], buy) {
      FrontBefore(o, sorted, buy);
      OrderedCons(o, sorted, buy);
    } else {
      InsertOrdered(o, sorted[1..], buy);
      InsertMembers(o, sorted[1..], buy);
      var rest := Insert(o, sorted[1..], buy);
      forall j | 0 <= j < |rest|
        ensures Before(sorted[0], rest[j], buy)
      {
        assert rest[j] in multiset(rest);
        assert rest[j] == o || rest[j] in sorted[1..];
      }
      OrderedCons(sorted[0], rest, buy);
    }
  }

  /** A side scanned in id order comes out in (price, placement time, id) order, a
      permutation of what went in. */
  lemma {:induction false} SortedIsPriceTime(orders: seq<OpenOrder>, buy: bool)
    requires Ascending(orders)
    ensures multiset(Sorted(orders, buy)) == multiset(orders)
    ensures PriceTimeOrdered(Sorted(orders, buy), buy)
  {
    if orders != [] {
      var rest := Sorted(orders[1..], buy);
      SortedIsPriceTime(orders[1..], buy);
      InsertMembers(orders[0], rest, buy);
      assert orders == [orders[0]] + orders[1..];
      forall i | 0 <= i < |rest|
        ensures orders[0].orderId < rest[i].orderId
      {
        assert rest[i] in multiset(rest);
        assert rest[i] in orders[1..];
      }
      InsertOrdered(orders[0], rest, buy);
    }
  }

  /** The order leaves no choice: any arrangement of the same orders that is in price-time
      order is the same sequence, whatever sort produced it. */
  lemma {:induction false} PriceTimeUnique(a: seq<OpenOrder>, b: seq<OpenOrder>, buy: bool)
    requires PriceTimeOrdered(a, buy) && PriceTimeOrdered(b, buy) && multiset(a) == multiset(b)
    ensures a == b
    decreases |a|
  {
    assert |a| == |multiset(a)| == |multiset(b)| == |b|;
    if a != [] {
      FirstIsFirst(a, b, buy);
      assert a == [a[0]] + a[1..] && b == [b[0]] + b[1..];
      assert multiset(a[1..]) == multiset(a) - multiset{a[0]};
      assert multiset(b[1..]) == multiset(b) - multiset{b[0]};
      PriceTimeUnique(a[1..], b[1..], buy);
    }
  }

  lemma BeforeOneWay(a: OpenOrder, b: OpenOrder, buy: bool)
    ensures !(Before(a, b, buy) && Before(b, a, buy))
  {
  }

  lemma FirstIsFirst(a: seq<OpenOrder>, b: seq<OpenOrder>, buy: bool)
    requires PriceTimeOrdered(a, buy) && PriceTimeOrdered(b, buy)
    requires multiset(a) == multiset(b) && a != [] && b != []
    ensures a[0] == b[0]
  {
    assert a[0] in multiset(b) && b[0] in multiset(a);
    var i :| 0 <= i < |b| && b[i] == a[0];
    var j :| 0 <= j < |a| && a[j] == b[0];
    if i > 0 && j > 0 {
      BeforeOneWay(a[0], b[0], buy);
      assert false;
    }
  }

  lemma {:induction false} SideAscends(orders: seq<OpenOrder>, buy: bool)
    requires Ascending(orders)
    ensures Ascending(Side(orders, buy))
  {
    if orders != [] {
      var before := orders[..|orders| - 1];
      SideAscends(before, buy);
      SideMembers(before, buy);
      forall i | 0 <= i < |Side(before, buy)|
        ensures Side(before, buy)[i].orderId < orders[|orders| - 1].orderId
      {
        assert Side(before, buy)[i] in before;
      }
    }
  }

  // ---- the snapshot ---------------------------------------------------------

  datatype Snapshot = Snapshot(bids: seq<OpenOrder>, asks: seq<OpenOrder>, truncated: bool)

  /** A side of the snapshot: the live orders of that side among the ids 1..=n, in order. */
  ghost predicate IsSide(side: seq<OpenOrder>, book: Book, n: nat, buy: bool) {
    && PriceTimeOrdered(side, buy)
    && multiset(side) == multiset(Side(Orders(book, n), buy))
  }

  /** A side holds an order exactly when one of the ids is live with it and it is on that side. */
  lemma SideIsExact(side: seq<OpenOrder>, book: Book, n: nat, buy: bool, o: OpenOrder)
    requires IsSide(side, book, n, buy)
    ensures o in side <==> 1 <= o.orderId <= n && Probe(book, o.orderId) == Ok(Some(o)) && o.isBuy == buy
    ensures forall i, j :: 0 <= i < j < |side| ==> side[i] != side[j]
  {
    hide Orders, Probe, Side;
    SideMembers(Orders(book, n), buy);
    OrdersAscend(book, n);
    assert o in side <==> o in multiset(side);
    if 1 <= o.orderId <= n && Probe(book, o.orderId) == Ok(Some(o)) {
      LiveOrderIsThere(book, n, o.orderId);
    }
    assert o in Side(Orders(book, n), buy) <==> o in multiset(Side(Orders(book, n), buy));
    forall i, j | 0 <= i < j < |side|
      ensures side[i] != side[j]
    {
      assert Before(side[i], side[j], buy);
    }
  }

  lemma SideSorted(book: Book, n: nat, buy: bool)
    ensures IsSide(Sorted(Side(Orders(book, n), buy), buy), book, n, buy)
  {
    hide Orders, Probe, Sorted, Side;
    OrdersAscend(book, n);
    SideAscends(Orders(book, n), buy);
    SortedIsPriceTime(Side(Orders(book, n), buy), buy);
  }

  /** The snapshot has the live orders of the ids it got to; it says `truncated` exactly when
      the ids within the budget hold fewer than `orderCount` of them; and if the counter is
      right, exactly when some live order was not probed, so that otherwise it has them all. */
  method FetchOrderBook(book: Book, orderCount: nat, nextOrderId: nat, maxScan: nat)
    returns (r: Result<Snapshot, FieldError>, ghost probed: nat)
    ensures r.Ok? ==>
              && probed <= Min(nextOrderId, maxScan)
              && IsSide(r.value.bids, book, probed, true)
              && IsSide(r.value.asks, book, probed, false)
              && (r.value.truncated <==> |Orders(book, Min(nextOrderId, maxScan))| < orderCount)
    ensures r.Ok? && |Orders(book, nextOrderId)| == orderCount ==>
              (r.value.truncated <==> exists id :: probed < id <= nextOrderId && HasOrder(book, id))
    ensures r.Ok? && !r.value.truncated && |Orders(book, nextOrderId)| == orderCount ==>
              && IsSide(r.value.bids, book, nextOrderId, true)
              && IsSide(r.value.asks, book, nextOrderId, false)
    ensures r.Err? ==> exists id :: 1 <= id <= Min(nextOrderId, maxScan) && Probe(book, id) == Err(r.error)
  {
    hide Orders, Probe, Sorted, Side, IsSide, Readable, HasOrder;
    probed := 0;
    var scan := ScanOrders(book, orderCount, nextOrderId, maxScan);
    if scan.Err? {
      return Err(scan.error), probed;
    }
    probed := scan.value.probed;
    var truncated := scan.value.found < orderCount;
    TruncatedIff(book, orderCount, Min(nextOrderId, maxScan), probed);
    MissedIff(book, probed, nextOrderId);
    SideSorted(book, probed, true);
    SideSorted(book, probed, false);
    if !truncated && |Orders(book, nextOrderId)| == orderCount {
      EarlyStopIsComplete(book, orderCount, nextOrderId, probed);
      SideSorted(book, nextOrderId, true);
      SideSorted(book, nextOrderId, false);
    }
    r := Ok(Snapshot(Sorted(scan.value.bids, true), Sorted(scan.value.asks, false), truncated));
  }

  /** A snapshot of a contract's orders never fails, and a side of it has exactly the orders
      of that side with an id up to the last one probed and a note of an account. */
  method FetchStoredOrders(orders: map<nat, OpenOrder>, style: Style, orderCount: nat, nextOrderId: nat, maxScan: nat)
    returns (r: Result<Snapshot, FieldError>, ghost probed: nat)
    requires Storable(orders)
    ensures r.Ok? && probed <= Min(nextOrderId, maxScan)
    ensures forall o :: o in r.value.bids + r.value.asks ==> o.orderId in orders && orders[o.orderId] == o
    ensures forall id :: id in orders ==>
              var o := orders[id];
              && (o in r.value.bids <==> 1 <= id <= probed && OwnedNote(o.note) && o.isBuy)
              && (o in r.value.asks <==> 1 <= id <= probed && OwnedNote(o.note) && !o.isBuy)
    ensures PriceTimeOrdered(r.value.bids, true) && PriceTimeOrdered(r.value.asks, false)
  {
    hide Probe, OwnedNote, BookOf, Orders, HasOrder;
    var book := BookOf(orders, style);
    r, probed := FetchOrderBook(book, orderCount, nextOrderId, maxScan);
    forall id: nat
      ensures Probe(book, id)
              == if id in orders && OwnedNote(orders[id].note) then Ok(Some(orders[id])) else Ok(None)
    {
      PrintedOrderReads(orders, style, id);
    }
    forall o
      ensures o in r.value.bids <==> 1 <= o.orderId <= probed && Probe(book, o.orderId) == Ok(Some(o)) && o.isBuy
      ensures o in r.value.asks <==> 1 <= o.orderId <= probed && Probe(book, o.orderId) == Ok(Some(o)) && !o.isBuy
    {
      SideIsExact(r.value.bids, book, probed, true, o);
      SideIsExact(r.value.asks, book, probed, false, o);
    }
  }
}
