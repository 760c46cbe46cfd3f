/** The restaurant engine: menu, stockroom and transaction log as one immutable state, with
    the availability check, the order/substitution algorithm and the profit-gated donation
    and restock decisions as pure transitions. */
module Engine {
  import opened Chains
  import opened Strings
  import opened Stock
  import opened Menu
  import opened Transactions

  datatype Restaurant = Restaurant(menu: Menu, stock: Table, log: seq<Txn>)

  /** What loading establishes and every operation keeps: parallel menu arrays, dishes
      stamped with their category, and every stock node in its id's bucket. */
  predicate Loaded(r: Restaurant) {
    MenuShape(r.menu) && CategoriesConsistent(r.menu) && BucketInvariant(r.stock)
  }

  /** Builds the engine from already-parsed feeds: the stock table, then the menu, then a
      pricing pass; the log starts empty. */
  function Load(size: nat, stockRecs: seq<Ingredient>, menuRecs: seq<CategoryRecord>): (r: Restaurant)
    requires size > 0 || |stockRecs| == 0
    requires forall k :: 0 <= k < |stockRecs| ==> stockRecs[k].id >= 0
    ensures |r.stock| == size && |r.menu.categories| == |menuRecs| && MenuShape(r.menu) && r.log == []
  {
    var t := CreateStockHashTable(size, stockRecs);
    Restaurant(UpdatePriceAndProfit(t, LoadMenu(menuRecs)), t, [])
  }

  lemma LoadEstablishesInvariants(size: nat, stockRecs: seq<Ingredient>, menuRecs: seq<CategoryRecord>)
    requires size > 0 || |stockRecs| == 0
    requires forall k :: 0 <= k < |stockRecs| ==> stockRecs[k].id >= 0
    ensures Loaded(Load(size, stockRecs, menuRecs)) && Load(size, stockRecs, menuRecs).log == []
    ensures Profit(Load(size, stockRecs, menuRecs).log) == 0.0
  {
    if size > 0 {
      CreateStockHashTableBuckets(size, stockRecs);
    }
    LoadMenuReversesDishes(menuRecs);
    PricingKeepsStructure(CreateStockHashTable(size, stockRecs), LoadMenu(menuRecs));
  }

  /** `list` is `feed` re-priced against `t`: the same dishes in the same order, each with
      profit a fifth of its cost in `t` and price its cost plus that profit. */
  predicate PricedFrom(t: Table, feed: seq<Dish>, list: seq<Dish>) {
    && |list| == |feed|
    && forall j :: 0 <= j < |list| ==>
         && list[j].name == feed[j].name && list[j].category == feed[j].category
         && list[j].ids == feed[j].ids
         && list[j].profit == Cost(t, feed[j].ids) / 5.0
         && list[j].price == Cost(t, feed[j].ids) + list[j].profit
  }

  /** What initialization builds: each bucket holds the stock records hashing to it, newest
      first; the categories are the menu records' names in feed order; and each category's
      list is its dishes in reverse feed order, priced against the loaded stock table. */
  lemma LoadContents(size: nat, stockRecs: seq<Ingredient>, menuRecs: seq<CategoryRecord>)
    requires size > 0 || |stockRecs| == 0
    requires forall k :: 0 <= k < |stockRecs| ==> stockRecs[k].id >= 0
    ensures var r := Load(size, stockRecs, menuRecs);
      forall b :: 0 <= b < size ==> r.stock[b] == Reverse(InBucket(stockRecs, size, b))
    ensures var r := Load(size, stockRecs, menuRecs);
      forall i :: 0 <= i < |menuRecs| ==>
        && r.menu.categories[i] == menuRecs[i].name
        && PricedFrom(r.stock, Reverse(FeedDishes(menuRecs[i].name, menuRecs[i].dishes)), r.menu.lists[i])
  {
    if size > 0 {
      CreateStockHashTableBuckets(size, stockRecs);
    }
    LoadMenuReversesDishes(menuRecs);
  }

  /* ---------------- availability ---------------- */

  /** `checkDishAvailability(name, n)` does not crash: the dish resolves and so do all its
      ingredient ids. */
  predicate Checkable(m: Menu, t: Table, name: string) {
    FindDish(m, name).Some? && IdsResolve(t, At(m.lists, FindDish(m, name).value).ids)
  }

  /** Every id has a stock level of at least `n`; the loop visits all ids, in order. */
  function AllStocked(t: Table, ids: seq<int>, n: int): bool
    requires IdsResolve(t, ids)
    decreases |ids|
  {
    if |ids| == 0 then true else Level(t, ids[0]) >= n && AllStocked(t, ids[1..], n)
  }

  lemma {:induction false} AllStockedSpec(t: Table, ids: seq<int>, n: int)
    requires IdsResolve(t, ids)
    ensures AllStocked(t, ids, n) <==> forall k :: 0 <= k < |ids| ==> Level(t, ids[k]) >= n
    decreases |ids|
  {
    if |ids| > 0 {
      AllStockedSpec(t, ids[1..], n);
      assert forall k :: 1 <= k < |ids| ==> ids[k] == ids[1..][k - 1];
    }
  }

  /** `checkDishAvailability(name, n)`: re-resolves the dish by name and asks whether each of
      its ingredient occurrences has at least `n` in stock (vacuously true with no ids). */
  function CheckDishAvailability(m: Menu, t: Table, name: string, n: int): (r: bool)
    requires Checkable(m, t, name)
    ensures |At(m.lists, FindDish(m, name).value).ids| == 0 ==> r
  {
    AllStocked(t, At(m.lists, FindDish(m, name).value).ids, n)
  }

  /** The check answers yes exactly when every ingredient occurrence of the dish found by
      `name` has at least `n` in stock. */
  lemma CheckDishAvailabilitySpec(m: Menu, t: Table, name: string, n: int)
    requires Checkable(m, t, name)
    ensures var d := At(m.lists, FindDish(m, name).value);
      CheckDishAvailability(m, t, name, n) <==> forall k :: 0 <= k < |d.ids| ==> Level(t, d.ids[k]) >= n
  {
    AllStockedSpec(t, At(m.lists, FindDish(m, name).value).ids, n);
  }

  /** With unique dish names the check by name is the check of the node itself. */
  lemma CheckDishAvailabilityOfNode(m: Menu, t: Table, p: Pos, n: int)
    requires UniqueDishNames(m) && ValidPos(m.lists, p) && IdsResolve(t, At(m.lists, p).ids)
    ensures Checkable(m, t, At(m.lists, p).name)
    ensures CheckDishAvailability(m, t, At(m.lists, p).name, n) == AllStocked(t, At(m.lists, p).ids, n)
  {
    FindDishOfOwnName(m, p);
  }

  /** A walk over `todo` that checks each dish in turn and stops at the first available one
      does not crash: every dish it reaches is checkable. Dishes after the first available
      one are never looked at. */
  predicate ScanDefined(m: Menu, t: Table, todo: seq<Dish>, q: int)
    decreases |todo|
  {
    || |todo| == 0
    || (&& Checkable(m, t, todo[0].name)
        && (CheckDishAvailability(m, t, todo[0].name, q) || ScanDefined(m, t, todo[1..], q)))
  }

  /* ---------------- debits ---------------- */

  /** `updateStock(null, id, -q)` for each id in order: an id occurring twice is debited twice. */
  function DebitAll(t: Table, ids: seq<int>, q: int): (r: Table)
    ensures |r| == |t|
    decreases |ids|
  {
    if |ids| == 0 then t else DebitAll(UpdateStock(t, None, ids[0], -q), ids[1..], q)
  }

  /** Debiting only moves stock levels. */
  lemma {:induction false} DebitAllKeepsIngredients(t: Table, ids: seq<int>, q: int)
    ensures SameIngredients(t, DebitAll(t, ids, q))
    decreases |ids|
  {
    if |ids| > 0 {
      UpdateStockSpec(t, None, ids[0], -q);
      DebitAllKeepsIngredients(UpdateStock(t, None, ids[0], -q), ids[1..], q);
    }
  }

  /** How many of `ids` a lookup by id sends to node `p` (the sentinel -1 is skipped). */
  function Hits(t: Table, ids: seq<int>, p: Pos): nat
    decreases |ids|
  {
    if |ids| == 0 then 0
    else (if ids[0] != -1 && FindById(t, ids[0]) == Some(p) then 1 else 0) + Hits(t, ids[1..], p)
  }

  lemma {:induction false} HitsStable(t: Table, r: Table, ids: seq<int>, p: Pos)
    requires SameIngredients(t, r)
    ensures Hits(r, ids, p) == Hits(t, ids, p)
    decreases |ids|
  {
    if |ids| > 0 {
      LookupsStable(t, r, ids[0], "");
      HitsStable(t, r, ids[1..], p);
    }
  }

  /** One debit step seen from node `(b, j)`: it moves by `-q` when the id resolves to it. */
  lemma DebitStepAt(t: Table, id: int, q: int, b: nat, j: nat)
    requires b < |t| && j < |t[b]|
    ensures var t1 := UpdateStock(t, None, id, -q);
      && b < |t1| && j < |t1[b]|
      && t1[b][j] == if id != -1 && FindById(t, id) == Some(Pos(b, j))
                     then t[b][j].(stockLevel := t[b][j].stockLevel - q) else t[b][j]
  {
    UpdateStockSpec(t, None, id, -q);
  }

  /** Each node loses `q` per id that resolves to it; nothing else about any node changes. */
  lemma {:induction false} DebitAllEffect(t: Table, ids: seq<int>, q: int, b: nat, j: nat)
    requires b < |t| && j < |t[b]|
    ensures b < |DebitAll(t, ids, q)| && j < |DebitAll(t, ids, q)[b]|
    ensures DebitAll(t, ids, q)[b][j] ==
      t[b][j].(stockLevel := t[b][j].stockLevel - q * Hits(t, ids, Pos(b, j)))
    decreases |ids|
  {
    if |ids| > 0 {
      var t1 := UpdateStock(t, None, ids[0], -q);
      DebitStepAt(t, ids[0], q, b, j);
      DebitAllEffect(t1, ids[1..], q, b, j);
      assert Hits(t1, ids[1..], Pos(b, j)) == Hits(t, ids[1..], Pos(b, j)) by {
        UpdateStockSpec(t, None, ids[0], -q);
        HitsStable(t, t1, ids[1..], Pos(b, j));
      }
      DebitsAdd(t[b][j], t1[b][j], DebitAll(t1, ids[1..], q)[b][j], q,
                ids[0] != -1 && FindById(t, ids[0]) == Some(Pos(b, j)), Hits(t, ids[1..], Pos(b, j)));
    }
  }

  /** A debit of `q` (or none) followed by `h` more debits of `q` is `1 + h` (or `h`) debits. */
  lemma DebitsAdd(n0: Ingredient, n1: Ingredient, n2: Ingredient, q: int, hit: bool, h: nat)
    requires n1 == if hit then n0.(stockLevel := n0.stockLevel - q) else n0
    requires n2 == n1.(stockLevel := n1.stockLevel - q * h)
    ensures n2 == n0.(stockLevel := n0.stockLevel - q * ((if hit then 1 else 0) + h))
  {
    assert q * (1 + h) == q + q * h;
  }

  /** When node `p` is the one its id resolves to, the ids hitting it are exactly the
      occurrences of its id. */
  lemma {:induction false} HitsCountsOccurrences(t: Table, ids: seq<int>, p: Pos)
    requires ValidPos(t, p) && At(t, p).id != -1 && FindById(t, At(t, p).id) == Some(p)
    ensures Hits(t, ids, p) == multiset(ids)[At(t, p).id]
    decreases |ids|
  {
    if |ids| > 0 {
      HitsCountsOccurrences(t, ids[1..], p);
      assert ids == [ids[0]] + ids[1..];
    }
  }

  /** A node shadowed by an earlier node with the same id is never debited. */
  lemma {:induction false} HitsOfShadowedNode(t: Table, ids: seq<int>, p: Pos)
    requires ValidPos(t, p) && FindById(t, At(t, p).id) != Some(p)
    ensures Hits(t, ids, p) == 0
    decreases |ids|
  {
    if |ids| > 0 {
      HitsOfShadowedNode(t, ids[1..], p);
    }
  }

  /* ---------------- ordering ---------------- */

  function FailedOrder(d: Dish, q: int): Txn {
    Txn(OrderTxn, d.name, q, 0.0, false)
  }

  function ServedOrder(subject: string, d: Dish, q: int): Txn {
    Txn(OrderTxn, subject, q, Times(d.profit, q), true)
  }

  /** The failure entries a walk over `ds` logs when nothing is available, in order. */
  function Failures(ds: seq<Dish>, q: int): (r: seq<Txn>)
    ensures |r| == |ds|
    decreases |ds|
  {
    if |ds| == 0 then [] else [FailedOrder(ds[0], q)] + Failures(ds[1..], q)
  }

  /** Entry `k` is the failure of dish `k`, which earns nothing: failures never move the
      day's profit. */
  lemma {:induction false} FailuresSpec(ds: seq<Dish>, q: int)
    ensures forall k :: 0 <= k < |ds| ==> Failures(ds, q)[k] == FailedOrder(ds[k], q)
    ensures Profit(Failures(ds, q)) == 0.0
    decreases |ds|
  {
    if |ds| > 0 {
      FailuresSpec(ds[1..], q);
      assert forall k :: 1 <= k < |ds| ==> ds[k] == ds[1..][k - 1];
    }
  }

  /** Logging the first dish's failure and then those of the rest is logging them all. */
  lemma FailuresAfterFirst(log: seq<Txn>, todo: seq<Dish>, q: int)
    requires |todo| > 0
    ensures AddTransactionNode(log, FailedOrder(todo[0], q)) + Failures(todo[1..], q) ==
      log + Failures(todo, q)
  {
    assert Failures(todo, q) == [FailedOrder(todo[0], q)] + Failures(todo[1..], q);
  }

  /** Serving `d`: a success entry under `subject`, then every ingredient occurrence debited. */
  function Serve(r: Restaurant, subject: string, d: Dish, q: int): Restaurant {
    Restaurant(r.menu, DebitAll(r.stock, d.ids, q), AddTransactionNode(r.log, ServedOrder(subject, d, q)))
  }

  /** One of the two loops of `order`: walks `todo`, logs a failure for each unavailable dish
      and serves the first available one, which ends the walk (second component true). */
  function Scan(r: Restaurant, todo: seq<Dish>, q: int): (res: (Restaurant, bool))
    requires ScanDefined(r.menu, r.stock, todo, q)
    ensures res.0.menu == r.menu
    ensures !res.1 ==> res.0.stock == r.stock && res.0.log == r.log + Failures(todo, q)
    ensures res.1 ==> |res.0.log| > |r.log|
    decreases |todo|
  {
    if |todo| == 0 then (r, false)
    else if CheckDishAvailability(r.menu, r.stock, todo[0].name, q) then
      (Serve(r, todo[0].name, todo[0], q), true)
    else
      FailuresAfterFirst(r.log, todo, q);
      Scan(Restaurant(r.menu, r.stock, AddTransactionNode(r.log, FailedOrder(todo[0], q))), todo[1..], q)
  }

  /** What the first loop of `order` walks: the requested node and the rest of its list. */
  function FromRequested(m: Menu, o: Pos): seq<Dish>
    requires ValidPos(m.lists, o)
  {
    m.lists[o.row][o.col..]
  }

  /** What the second loop walks: the list of the category found by the requested dish's
      category name, from its head up to, not including, the requested node (Java compares
      node references), or to its end when that list is another one. */
  function UpToRequested(m: Menu, o: Pos): seq<Dish>
    requires MenuShape(m) && ValidPos(m.lists, o)
  {
    var c := FindCategoryIndex(m.categories, At(m.lists, o).category);
    var head := m.lists[c];
    head[..if c == o.row then o.col else |head|]
  }

  /** `order(name, q)` does not crash: the requested dish can be checked and, when it is not
      available, so can every dish the first loop reaches and, if that loop serves nothing,
      every dish the second loop reaches. */
  predicate CanOrder(r: Restaurant, name: string, q: int) {
    && MenuShape(r.menu)
    && Checkable(r.menu, r.stock, name)
    && (|| CheckDishAvailability(r.menu, r.stock, name, q)
        || var o := FindDish(r.menu, name).value;
           && ScanDefined(r.menu, r.stock, FromRequested(r.menu, o), q)
           && (|| Scan(r, FromRequested(r.menu, o), q).1
               || ScanDefined(r.menu, r.stock, UpToRequested(r.menu, o), q)))
  }

  /** `order(name, q)`. If the requested dish is available it is served, logged under the
      caller's `name`. Otherwise the first loop walks from the requested node to the end of
      its list, and the second from the head of the list of the category found by name up to,
      not including, the requested node (or to the end when that is another list). */
  function Order(r: Restaurant, name: string, q: int): (r': Restaurant)
    requires CanOrder(r, name, q)
    ensures r'.menu == r.menu
    ensures |r'.log| > |r.log|
  {
    var o := FindDish(r.menu, name).value;
    var d := At(r.menu.lists, o);
    if CheckDishAvailability(r.menu, r.stock, name, q) then Serve(r, name, d, q)
    else
      var first := Scan(r, FromRequested(r.menu, o), q);
      if first.1 then first.0
      else Scan(first.0, UpToRequested(r.menu, o), q).0
  }

  /** An available requested dish is served whatever the rest of its category holds: the
      dishes no loop reaches, including ones with ingredient ids missing from the stockroom,
      do not stand in the way of the order. */
  lemma OrderOfAvailableDish(r: Restaurant, name: string, q: int)
    requires MenuShape(r.menu) && Checkable(r.menu, r.stock, name)
    requires CheckDishAvailability(r.menu, r.stock, name, q)
    ensures CanOrder(r, name, q)
    ensures Order(r, name, q) == Serve(r, name, At(r.menu.lists, FindDish(r.menu, name).value), q)
  {
  }

  /** An example: a category lists "A" (ingredient 0, in stock) and "B" (ingredient 7, which
      the stockroom does not hold). Checking "B" would crash, yet an order of "A" is served
      directly and never reaches "B". */
  lemma OrderServesBesideUnresolvableDish()
    ensures var a := Dish("A", "Mains", [0], 0.0, 0.0);
      var b := Dish("B", "Mains", [7], 0.0, 0.0);
      var r := Restaurant(Menu(["Mains"], [[a, b]]), [[Ingredient(0, "Rice", 5, 1.0)]], []);
      && !Checkable(r.menu, r.stock, "B")
      && CanOrder(r, "A", 1)
      && Order(r, "A", 1).log == [ServedOrder("A", a, 1)]
  {
    var a := Dish("A", "Mains", [0], 0.0, 0.0);
    var b := Dish("B", "Mains", [7], 0.0, 0.0);
    var r := Restaurant(Menu(["Mains"], [[a, b]]), [[Ingredient(0, "Rice", 5, 1.0)]], []);
    assert EqualsIgnoreCase("A", "A");
    assert Lower("A"[0]) == 'a' && Lower("B"[0]) == 'b';
    assert !EqualsIgnoreCase("A", "B");
    assert EqualsIgnoreCase("B", "B");
    FindDishIsFirstMatch(r.menu, "A");
    FindDishIsFirstMatch(r.menu, "B");
    FindByIdIsFirstMatch(r.stock, 0);
    FindByIdIsFirstMatch(r.stock, 7);
    assert FindDish(r.menu, "A") == Some(Pos(0, 0));
    assert FindDish(r.menu, "B") == Some(Pos(0, 1));
    assert Level(r.stock, 0) == 5;
    OrderOfAvailableDish(r, "A", 1);
    assert FindById(r.stock, 7).None?;
    assert At(r.menu.lists, FindDish(r.menu, "B").value).ids[0] == 7;
  }

  /** A walk only moves stock levels. */
  lemma {:induction false} ScanKeepsIngredients(r: Restaurant, todo: seq<Dish>, q: int)
    requires ScanDefined(r.menu, r.stock, todo, q)
    ensures SameIngredients(r.stock, Scan(r, todo, q).0.stock)
    decreases |todo|
  {
    if |todo| > 0 {
      if CheckDishAvailability(r.menu, r.stock, todo[0].name, q) {
        DebitAllKeepsIngredients(r.stock, todo[0].ids, q);
      } else {
        var r1 := Restaurant(r.menu, r.stock, AddTransactionNode(r.log, FailedOrder(todo[0], q)));
        ScanKeepsIngredients(r1, todo[1..], q);
      }
    }
  }

  /** An order only moves stock levels. */
  lemma OrderKeepsIngredients(r: Restaurant, name: string, q: int)
    requires CanOrder(r, name, q)
    ensures SameIngredients(r.stock, Order(r, name, q).stock)
  {
    var o := FindDish(r.menu, name).value;
    var d := At(r.menu.lists, o);
    if CheckDishAvailability(r.menu, r.stock, name, q) {
      DebitAllKeepsIngredients(r.stock, d.ids, q);
    } else {
      var first := Scan(r, FromRequested(r.menu, o), q);
      ScanKeepsIngredients(r, FromRequested(r.menu, o), q);
      if !first.1 {
        ScanKeepsIngredients(first.0, UpToRequested(r.menu, o), q);
      }
    }
  }

  /** Walking `a ++ b` is walking `a` and, unless that served a dish, then walking `b`. */
  lemma {:induction false} ScanAppend(r: Restaurant, a: seq<Dish>, b: seq<Dish>, q: int)
    requires ScanDefined(r.menu, r.stock, a, q)
    requires !Scan(r, a, q).1 ==> ScanDefined(r.menu, r.stock, b, q)
    ensures ScanDefined(r.menu, r.stock, a + b, q)
    ensures var first := Scan(r, a, q);
      Scan(r, a + b, q) == if first.1 then first else Scan(first.0, b, q)
    decreases |a|
  {
    if |a| > 0 {
      assert (a + b)[0] == a[0];
      assert (a + b)[1..] == a[1..] + b;
      if !CheckDishAvailability(r.menu, r.stock, a[0].name, q) {
        var r1 := Restaurant(r.menu, r.stock, AddTransactionNode(r.log, FailedOrder(a[0], q)));
        ScanAppend(r1, a[1..], b, q);
      }
    } else {
      assert a + b == b;
    }
  }

  /** The cyclic walk of the requested dish's category starts at the requested node, which
      is checkable, and checking it by its own name agrees with checking the request. */
  lemma RequestedHeadsCycle(r: Restaurant, name: string, q: int)
    requires Checkable(r.menu, r.stock, name)
    ensures var o := FindDish(r.menu, name).value;
      var d := At(r.menu.lists, o);
      var cycle := Cycle(r.menu.lists[o.row], o.col);
      && |cycle| > 0 && cycle[0] == d
      && Checkable(r.menu, r.stock, d.name)
      && CheckDishAvailability(r.menu, r.stock, d.name, q) == CheckDishAvailability(r.menu, r.stock, name, q)
  {
    var o := FindDish(r.menu, name).value;
    FindDishIsFirstMatch(r.menu, name);
    FindDishRespectsCase(r.menu, At(r.menu.lists, o).name, name);
  }

  /** The two loops together are one cyclic scan of the requested dish's category, starting
      at the requested dish and visiting each dish once. */
  lemma OrderIsCyclicScan(r: Restaurant, name: string, q: int)
    requires CanOrder(r, name, q) && CategoriesConsistent(r.menu) && UniqueCategoryNames(r.menu)
    ensures var o := FindDish(r.menu, name).value;
      var list := r.menu.lists[o.row];
      ScanDefined(r.menu, r.stock, Cycle(list, o.col), q) &&
      Order(r, name, q) ==
        if CheckDishAvailability(r.menu, r.stock, name, q) then Serve(r, name, At(r.menu.lists, o), q)
        else Scan(r, Cycle(list, o.col), q).0
  {
    var o := FindDish(r.menu, name).value;
    var list := r.menu.lists[o.row];
    RequestedHeadsCycle(r, name, q);
    if !CheckDishAvailability(r.menu, r.stock, name, q) {
      FindCategoryOfDish(r.menu, o);
      assert UpToRequested(r.menu, o) == list[..o.col];
      ScanAppend(r, list[o.col..], list[..o.col], q);
    }
  }

  /** Index in `todo` of the first dish `checkDishAvailability` finds available; `|todo|`
      when there is none. */
  function FirstAvailable(m: Menu, t: Table, todo: seq<Dish>, q: int): (k: nat)
    requires ScanDefined(m, t, todo, q)
    ensures k <= |todo|
    ensures forall i :: 0 <= i < k ==>
      Checkable(m, t, todo[i].name) && !CheckDishAvailability(m, t, todo[i].name, q)
    ensures k < |todo| ==> Checkable(m, t, todo[k].name) && CheckDishAvailability(m, t, todo[k].name, q)
    decreases |todo|
  {
    if |todo| == 0 then 0
    else if CheckDishAvailability(m, t, todo[0].name, q) then 0
    else 1 + FirstAvailable(m, t, todo[1..], q)
  }

  /** The failure entries of a prefix: the first dish's, then those of the rest. */
  lemma FailuresOfPrefix(ds: seq<Dish>, k: nat, q: int)
    requires 1 <= k <= |ds|
    ensures [FailedOrder(ds[0], q)] + Failures(ds[1..][..k - 1], q) == Failures(ds[..k], q)
  {
    assert ds[1..][..k - 1] == ds[..k][1..];
  }

  /** The state a walk that serves `todo[k]` leaves: failure entries for the dishes before
      it, one success entry under its own name, and its ingredients debited. */
  function ServedAt(r: Restaurant, todo: seq<Dish>, k: nat, q: int): (res: (Restaurant, bool))
    requires k < |todo|
  {
    (Restaurant(r.menu, DebitAll(r.stock, todo[k].ids, q),
                r.log + Failures(todo[..k], q) + [ServedOrder(todo[k].name, todo[k], q)]), true)
  }

  /** Logging the failure of the first dish and then serving dish `k - 1` of the rest is
      serving dish `k`. */
  lemma ServedAtAfterFailure(r: Restaurant, todo: seq<Dish>, k: nat, q: int)
    requires 1 <= k < |todo|
    ensures var r1 := Restaurant(r.menu, r.stock, AddTransactionNode(r.log, FailedOrder(todo[0], q)));
      ServedAt(r1, todo[1..], k - 1, q) == ServedAt(r, todo, k, q)
  {
    var f := FailedOrder(todo[0], q);
    assert todo[1..][k - 1] == todo[k];
    FailuresOfPrefix(todo, k, q);
    assert (r.log + [f]) + Failures(todo[1..][..k - 1], q) == r.log + ([f] + Failures(todo[1..][..k - 1], q));
  }

  /** Closed form of a walk that serves: failures for the dishes before the first available
      one, then one success entry for it under its own name, and its debits. */
  lemma {:induction false} ScanServes(r: Restaurant, todo: seq<Dish>, q: int)
    requires ScanDefined(r.menu, r.stock, todo, q)
    ensures var k := FirstAvailable(r.menu, r.stock, todo, q);
      k < |todo| ==> Scan(r, todo, q) == ServedAt(r, todo, k, q)
    decreases |todo|
  {
    if |todo| > 0 {
      var k := FirstAvailable(r.menu, r.stock, todo, q);
      if CheckDishAvailability(r.menu, r.stock, todo[0].name, q) {
        assert k == 0 && todo[..0] == [];
        assert r.log + Failures(todo[..0], q) == r.log;
      } else if k < |todo| {
        var r1 := Restaurant(r.menu, r.stock, AddTransactionNode(r.log, FailedOrder(todo[0], q)));
        assert FirstAvailable(r1.menu, r1.stock, todo[1..], q) == k - 1;
        assert Scan(r, todo, q) == Scan(r1, todo[1..], q);
        ScanServes(r1, todo[1..], q);
        ServedAtAfterFailure(r, todo, k, q);
      }
    }
  }

  /** A walk serves nothing exactly when no dish is available; it then logs one failure per
      dish, in order, and changes no stock. */
  lemma {:induction false} ScanFailsAll(r: Restaurant, todo: seq<Dish>, q: int)
    requires ScanDefined(r.menu, r.stock, todo, q)
    ensures !Scan(r, todo, q).1 <==> FirstAvailable(r.menu, r.stock, todo, q) == |todo|
    ensures FirstAvailable(r.menu, r.stock, todo, q) == |todo| ==>
      Scan(r, todo, q) == (Restaurant(r.menu, r.stock, r.log + Failures(todo, q)), false)
    decreases |todo|
  {
    if |todo| > 0 && !CheckDishAvailability(r.menu, r.stock, todo[0].name, q) {
      var r1 := Restaurant(r.menu, r.stock, AddTransactionNode(r.log, FailedOrder(todo[0], q)));
      ScanFailsAll(r1, todo[1..], q);
    }
  }

  /** What `order` leaves behind. If the requested dish is available: one success entry under
      the caller's name, with profit `profit * q`, and its ingredients debited. Otherwise the
      requested dish is the first failure, and walking the cyclic order of its category either
      serves the first available dish after failures for those before it, or logs exactly one
      failure per dish of the category and changes no stock. */
  lemma OrderOutcome(r: Restaurant, name: string, q: int)
    requires CanOrder(r, name, q) && CategoriesConsistent(r.menu) && UniqueCategoryNames(r.menu)
    ensures var o := FindDish(r.menu, name).value;
      var d := At(r.menu.lists, o);
      var cycle := Cycle(r.menu.lists[o.row], o.col);
      ScanDefined(r.menu, r.stock, cycle, q) &&
      var k := FirstAvailable(r.menu, r.stock, cycle, q);
      var r' := Order(r, name, q);
      && (CheckDishAvailability(r.menu, r.stock, name, q) ==>
            r' == Restaurant(r.menu, DebitAll(r.stock, d.ids, q), r.log + [ServedOrder(name, d, q)]))
      && (!CheckDishAvailability(r.menu, r.stock, name, q) ==> 1 <= k && cycle[0] == d)
      && (!CheckDishAvailability(r.menu, r.stock, name, q) && k < |cycle| ==>
            r' == Restaurant(r.menu, DebitAll(r.stock, cycle[k].ids, q),
                             r.log + Failures(cycle[..k], q) + [ServedOrder(cycle[k].name, cycle[k], q)]))
      && (!CheckDishAvailability(r.menu, r.stock, name, q) && k == |cycle| ==>
            && r' == Restaurant(r.menu, r.stock, r.log + Failures(cycle, q))
            && |Failures(cycle, q)| == |r.menu.lists[o.row]|)
  {
    var o := FindDish(r.menu, name).value;
    var d := At(r.menu.lists, o);
    var cycle := Cycle(r.menu.lists[o.row], o.col);
    OrderIsCyclicScan(r, name, q);
    ScanServes(r, cycle, q);
    ScanFailsAll(r, cycle, q);
    RequestedHeadsCycle(r, name, q);
  }

  /** `log` is `base` with at least one entry appended, and its last entry is a success
      exactly when `served` holds. */
  predicate AppendsTo(base: seq<Txn>, log: seq<Txn>, served: bool) {
    |log| > |base| && log[..|base|] == base && (log[|log| - 1].success <==> served)
  }

  /** A walk over a non-empty list only appends to the log; its last entry is a success
      exactly when it served a dish, and when it served none no stock moved. */
  lemma {:induction false} ScanExtendsLog(r: Restaurant, todo: seq<Dish>, q: int)
    requires ScanDefined(r.menu, r.stock, todo, q) && |todo| > 0
    ensures AppendsTo(r.log, Scan(r, todo, q).0.log, Scan(r, todo, q).1)
    ensures !Scan(r, todo, q).1 ==> Scan(r, todo, q).0.stock == r.stock
    decreases |todo|
  {
    if !CheckDishAvailability(r.menu, r.stock, todo[0].name, q) {
      var r1 := Restaurant(r.menu, r.stock, AddTransactionNode(r.log, FailedOrder(todo[0], q)));
      if |todo| > 1 {
        ScanExtendsLog(r1, todo[1..], q);
        var log := Scan(r, todo, q).0.log;
        assert log[..|r.log|] == log[..|r1.log|][..|r.log|];
      }
    }
  }

  /** An order only appends to the log, and when the entry it ends with is a failure no
      stock has moved. */
  lemma OrderExtendsLog(r: Restaurant, name: string, q: int)
    requires CanOrder(r, name, q) && CategoriesConsistent(r.menu) && UniqueCategoryNames(r.menu)
    ensures Order(r, name, q).log[..|r.log|] == r.log
    ensures !Order(r, name, q).log[|Order(r, name, q).log| - 1].success ==> Order(r, name, q).stock == r.stock
  {
    OrderIsCyclicScan(r, name, q);
    var o := FindDish(r.menu, name).value;
    if !CheckDishAvailability(r.menu, r.stock, name, q) {
      ScanExtendsLog(r, Cycle(r.menu.lists[o.row], o.col), q);
    }
  }

  /** A walk adds the profit of the dish it serves, if any; its failure entries add nothing. */
  lemma ScanProfit(r: Restaurant, todo: seq<Dish>, q: int)
    requires ScanDefined(r.menu, r.stock, todo, q)
    ensures var k := FirstAvailable(r.menu, r.stock, todo, q);
      Profit(Scan(r, todo, q).0.log) == Profit(r.log) + if k < |todo| then Times(todo[k].profit, q) else 0.0
  {
    ScanServes(r, todo, q);
    ScanFailsAll(r, todo, q);
    var k := FirstAvailable(r.menu, r.stock, todo, q);
    var failed := Failures(todo[..k], q);
    FailuresSpec(todo[..k], q);
    ProfitConcat(r.log, failed);
    if k < |todo| {
      ProfitAppend(r.log + failed, ServedOrder(todo[k].name, todo[k], q));
    } else {
      assert todo[..k] == todo;
    }
  }

  /** The day's profit after an order grows by the served dish's `profit * q`, and stays put
      when nothing could be served. */
  lemma OrderProfit(r: Restaurant, name: string, q: int)
    requires CanOrder(r, name, q) && CategoriesConsistent(r.menu) && UniqueCategoryNames(r.menu)
    ensures var o := FindDish(r.menu, name).value;
      var d := At(r.menu.lists, o);
      var cycle := Cycle(r.menu.lists[o.row], o.col);
      ScanDefined(r.menu, r.stock, cycle, q) &&
      var k := FirstAvailable(r.menu, r.stock, cycle, q);
      Profit(Order(r, name, q).log) ==
        Profit(r.log) + if CheckDishAvailability(r.menu, r.stock, name, q) then Times(d.profit, q)
                        else if k < |cycle| then Times(cycle[k].profit, q)
                        else 0.0
  {
    var o := FindDish(r.menu, name).value;
    var d := At(r.menu.lists, o);
    OrderIsCyclicScan(r, name, q);
    if CheckDishAvailability(r.menu, r.stock, name, q) {
      ProfitAppend(r.log, ServedOrder(name, d, q));
    } else {
      ScanProfit(r, Cycle(r.menu.lists[o.row], o.col), q);
    }
  }

  /* ---------------- donation and restock ---------------- */

  /** `donation(name, q)` does not crash: its `&&` reads the ingredient's stock level only
      when the day's profit exceeds 50, so only then must the name resolve. */
  predicate CanDonate(r: Restaurant, name: string) {
    Profit(r.log) > 50.0 ==> FindByName(r.stock, name).Some?
  }

  /** `donation(name, q)`: granted iff the day's profit exceeds 50 and the ingredient has at
      least `q` in stock; either way one profit-0 entry is logged, and only a granted
      donation debits `q` from the ingredient found by name. A name that resolves to no
      ingredient, at a profit of 50 or less, is refused and changes no stock. */
  function Donation(r: Restaurant, name: string, q: int): (r': Restaurant)
    requires CanDonate(r, name)
    ensures var ok := Profit(r.log) > 50.0 && At(r.stock, FindByName(r.stock, name).value).stockLevel >= q;
      && r'.menu == r.menu
      && r'.log == r.log + [Txn(DonationTxn, name, q, 0.0, ok)]
      && (ok ==> OnlyChanged(r.stock, r'.stock, FindByName(r.stock, name).value, -q))
      && (!ok ==> r'.stock == r.stock)
      && SameIngredients(r.stock, r'.stock)
    ensures FindByName(r.stock, name).None? ==>
      r' == Restaurant(r.menu, r.stock, r.log + [Txn(DonationTxn, name, q, 0.0, false)])
  {
    if Profit(r.log) > 50.0 && At(r.stock, FindByName(r.stock, name).value).stockLevel >= q then
      UpdateStockSpec(r.stock, Some(name), -1, -q);
      Restaurant(r.menu, UpdateStock(r.stock, Some(name), -1, -q),
                 AddTransactionNode(r.log, Txn(DonationTxn, name, q, 0.0, true)))
    else
      Restaurant(r.menu, r.stock, AddTransactionNode(r.log, Txn(DonationTxn, name, q, 0.0, false)))
  }

  /** `restock(name, q)`: costs `unitCost * q`; granted iff the day's profit exceeds that
      cost, in which case the entry carries profit `-cost` and `q` is credited; a refused
      restock logs a profit-0 failure and changes no stock. */
  function Restock(r: Restaurant, name: string, q: int): (r': Restaurant)
    requires FindByName(r.stock, name).Some?
    ensures var p := FindByName(r.stock, name).value;
      var cost := Times(At(r.stock, p).cost, q);
      var ok := Profit(r.log) > cost;
      && r'.menu == r.menu
      && r'.log == r.log + [Txn(RestockTxn, name, q, if ok then -cost else 0.0, ok)]
      && (ok ==> OnlyChanged(r.stock, r'.stock, p, q))
      && (!ok ==> r'.stock == r.stock)
      && SameIngredients(r.stock, r'.stock)
  {
    var p := FindByName(r.stock, name).value;
    var cost := Times(At(r.stock, p).cost, q);
    if Profit(r.log) > cost then
      UpdateStockSpec(r.stock, Some(name), -1, q);
      Restaurant(r.menu, UpdateStock(r.stock, Some(name), -1, q),
                 AddTransactionNode(r.log, Txn(RestockTxn, name, q, -cost, true)))
    else
      Restaurant(r.menu, r.stock, AddTransactionNode(r.log, Txn(RestockTxn, name, q, 0.0, false)))
  }

  /** A donation never moves the day's profit, whether or not its name resolves; a granted
      restock lowers it by its cost and leaves it positive, a refused one leaves it as it
      was. */
  lemma SupplyProfit(r: Restaurant, name: string, q: int)
    ensures CanDonate(r, name) ==> Profit(Donation(r, name, q).log) == Profit(r.log)
    ensures FindByName(r.stock, name).Some? ==>
      var cost := Times(At(r.stock, FindByName(r.stock, name).value).cost, q);
      var after := Profit(Restock(r, name, q).log);
      && (Profit(r.log) > cost ==> after == Profit(r.log) - cost && after > 0.0)
      && (Profit(r.log) <= cost ==> after == Profit(r.log))
  {
    if CanDonate(r, name) {
      var ok := Profit(r.log) > 50.0 && At(r.stock, FindByName(r.stock, name).value).stockLevel >= q;
      var donated := Txn(DonationTxn, name, q, 0.0, ok);
      assert Donation(r, name, q).log == AddTransactionNode(r.log, donated);
      ProfitAppend(r.log, donated);
    }
    if FindByName(r.stock, name).Some? {
      var p := FindByName(r.stock, name).value;
      var cost := Times(At(r.stock, p).cost, q);
      var ok := Profit(r.log) > cost;
      var restocked := Txn(RestockTxn, name, q, if ok then -cost else 0.0, ok);
      if ok {
        assert restocked == Txn(RestockTxn, name, q, -cost, true);
      } else {
        assert restocked == Txn(RestockTxn, name, q, 0.0, false);
      }
      assert Restock(r, name, q).log == r.log + [restocked];
      assert r.log + [restocked] == AddTransactionNode(r.log, restocked);
      ProfitAppend(r.log, restocked);
    }
  }

  /** Every transition keeps the loading invariants: the menu is never touched and stock
      changes only move stock levels. */
  lemma OperationsKeepInvariants(r: Restaurant, name: string, q: int)
    requires Loaded(r)
    ensures Loaded(r.(stock := UpdateStock(r.stock, Some(name), -1, q)))
    ensures CanOrder(r, name, q) ==> Loaded(Order(r, name, q))
    ensures CanDonate(r, name) ==> Loaded(Donation(r, name, q))
    ensures FindByName(r.stock, name).Some? ==> Loaded(Restock(r, name, q))
  {
    UpdateStockSpec(r.stock, Some(name), -1, q);
    LookupsStable(r.stock, UpdateStock(r.stock, Some(name), -1, q), 0, name);
    if CanOrder(r, name, q) {
      OrderKeepsIngredients(r, name, q);
      LookupsStable(r.stock, Order(r, name, q).stock, 0, name);
    }
    if CanDonate(r, name) {
      LookupsStable(r.stock, Donation(r, name, q).stock, 0, name);
    }
    if FindByName(r.stock, name).Some? {
      LookupsStable(r.stock, Restock(r, name, q).stock, 0, name);
    }
  }
}
