/** The service layer over the engine: read-only views of the menu and the stockroom, the
    order endpoint's response, and the stock update it exposes. Each operation is either a
    projection of the engine state or a single call into the engine. */
module RestaurantService {
  import opened Chains
  import opened Strings
  import opened Stock
  import opened Menu
  import opened Transactions
  import opened Engine

  datatype DishView = DishView(name: string, category: string, price: real, profit: real)

  datatype StockView = StockView(id: int, name: string, stockLevel: int, cost: real)

  /** What the order endpoint answers: the request, whether the requested dish itself was
      available, and the day's profit after the order. */
  datatype OrderResponse =
    OrderResponse(dishName: string, quantity: int, successful: bool, currentProfit: real)

  function ViewOf(d: Dish): DishView {
    DishView(d.name, d.category, d.price, d.profit)
  }

  function Views(ds: seq<Dish>): (v: seq<DishView>)
    ensures |v| == |ds|
    ensures forall k :: 0 <= k < |ds| ==> v[k] == ViewOf(ds[k])
  {
    seq(|ds|, k requires 0 <= k < |ds| => ViewOf(ds[k]))
  }

  function StockViewOf(ing: Ingredient): StockView {
    StockView(ing.id, ing.name, ing.stockLevel, ing.cost)
  }

  /* ---------------- menu views ---------------- */

  /** `getAllDishes`: every dish, categories in array order and each list from its head. */
  function GetAllDishes(m: Menu): (v: seq<DishView>)
    ensures |v| == Count(m.lists)
  {
    Views(Flatten(m.lists))
  }

  /** Dish node `(i, j)` is listed at index `Offset(i) + j`; as that index is injective in
      the node (`FlattenIndexInjective`), no dish is listed twice. */
  lemma GetAllDishesAt(m: Menu, i: nat, j: nat)
    requires i < |m.lists| && j < |m.lists[i]|
    ensures Offset(m.lists, i) + j < |GetAllDishes(m)|
    ensures GetAllDishes(m)[Offset(m.lists, i) + j] == ViewOf(m.lists[i][j])
  {
    FlattenAt(m.lists, i, j);
  }

  /** Every listed entry is the view of the dish node located at its index: nothing else is
      listed. */
  lemma GetAllDishesOnlyDishes(m: Menu, k: nat)
    requires k < |GetAllDishes(m)|
    ensures GetAllDishes(m)[k] == ViewOf(At(m.lists, Locate(m.lists, k)))
  {
    var p := Locate(m.lists, k);
    FlattenAt(m.lists, p.row, p.col);
  }

  /** `getDishesByCategory`: the dishes of the first category whose name equals `category`
      ignoring case, in list order; nothing when no category matches. */
  function GetDishesByCategory(m: Menu, category: string): (v: seq<DishView>)
    requires MenuShape(m)
    ensures v != [] ==> exists i :: 0 <= i < |m.categories| && EqualsIgnoreCase(m.categories[i], category)
  {
    match FindInChain(m.categories, (c: string) => EqualsIgnoreCase(c, category))
    case None => []
    case Some(i) => Views(m.lists[i])
  }

  /** The result is empty when no category matches, and otherwise is exactly the list of the
      first matching category. */
  lemma GetDishesByCategorySpec(m: Menu, category: string)
    requires MenuShape(m)
    ensures (forall i :: 0 <= i < |m.categories| ==> !EqualsIgnoreCase(m.categories[i], category)) ==>
      GetDishesByCategory(m, category) == []
    ensures forall i ::
      (0 <= i < |m.categories| && EqualsIgnoreCase(m.categories[i], category) &&
       forall i' :: 0 <= i' < i ==> !EqualsIgnoreCase(m.categories[i'], category)) ==>
      GetDishesByCategory(m, category) == Views(m.lists[i])
  {
    var p := (c: string) => EqualsIgnoreCase(c, category);
    FindInChainIsFirst(m.categories, p);
  }

  /** Unlike the engine's category lookup, the view has no fallback to index 0: for a name
      matching no category the engine picks the first list while the view is empty. */
  lemma GetDishesByCategoryHasNoFallback(m: Menu, category: string)
    requires MenuShape(m) && |m.lists| > 0 && |m.lists[0]| > 0
    requires forall i :: 0 <= i < |m.categories| ==> !EqualsIgnoreCase(m.categories[i], category)
    ensures GetDishesByCategory(m, category) == []
    ensures FindCategoryIndex(m.categories, category) == 0
    ensures |Views(m.lists[FindCategoryIndex(m.categories, category)])| > 0
  {
    GetDishesByCategorySpec(m, category);
    FindCategoryIndexIsFirstMatch(m.categories, category);
    forall i | 0 <= i < |m.categories|
      ensures !EqualsIgnoreCase(category, m.categories[i])
    {
      EqualsIgnoreCaseIsEquivalence(m.categories[i], category, category);
    }
  }

  /* ---------------- ordering ---------------- */

  /** `placeOrder`: checks the requested dish before ordering, orders, and reports the day's
      profit afterwards. Returns the response and the new state. */
  function PlaceOrder(r: Restaurant, dishName: string, quantity: int): (res: (OrderResponse, Restaurant))
    requires CanOrder(r, dishName, quantity)
    ensures res.0.dishName == dishName && res.0.quantity == quantity
    ensures res.1.menu == r.menu && |res.1.log| > |r.log|
  {
    var wasAvailable := CheckDishAvailability(r.menu, r.stock, dishName, quantity);
    var after := Order(r, dishName, quantity);
    (OrderResponse(dishName, quantity, wasAvailable, Profit(after.log)), after)
  }

  /** The response reports success exactly when the requested dish itself was served: then
      the profit has grown by its `profit * quantity`. A substitution is reported as a
      failure even though a dish was served and the profit grew by the substitute's share;
      when nothing was served the profit is unchanged. */
  lemma PlaceOrderReports(r: Restaurant, dishName: string, quantity: int)
    requires CanOrder(r, dishName, quantity) && CategoriesConsistent(r.menu) && UniqueCategoryNames(r.menu)
    ensures var o := FindDish(r.menu, dishName).value;
      var cycle := Cycle(r.menu.lists[o.row], o.col);
      ScanDefined(r.menu, r.stock, cycle, quantity) &&
      var k := FirstAvailable(r.menu, r.stock, cycle, quantity);
      var res := PlaceOrder(r, dishName, quantity);
      var last := res.1.log[|res.1.log| - 1];
      && (res.0.successful ==>
            last == ServedOrder(dishName, At(r.menu.lists, o), quantity) &&
            res.0.currentProfit == Profit(r.log) + Times(At(r.menu.lists, o).profit, quantity))
      && (!res.0.successful && k < |cycle| ==>
            last.success && last.subject == cycle[k].name &&
            res.0.currentProfit == Profit(r.log) + Times(cycle[k].profit, quantity))
      && (!res.0.successful && k == |cycle| ==>
            !last.success && res.0.currentProfit == Profit(r.log) && res.1.stock == r.stock)
  {
    var o := FindDish(r.menu, dishName).value;
    var cycle := Cycle(r.menu.lists[o.row], o.col);
    OrderOutcome(r, dishName, quantity);
    OrderProfit(r, dishName, quantity);
    FailuresSpec(cycle, quantity);
  }

  /* ---------------- stock views ---------------- */

  /** `getStock`: the fields of the ingredient found by name, or nothing (Java: null). */
  function GetStock(t: Table, ingredientName: string): (v: Option<StockView>)
    ensures v.Some? ==> EqualsIgnoreCase(v.value.name, ingredientName)
  {
    FindByNameIsFirstMatch(t, ingredientName);
    match FindByName(t, ingredientName)
    case None => None
    case Some(p) => Some(StockViewOf(At(t, p)))
  }

  /** Nothing is returned exactly when no ingredient's name equals `ingredientName` ignoring
      case; otherwise the fields are those of the first such node. */
  lemma GetStockSpec(t: Table, ingredientName: string)
    ensures GetStock(t, ingredientName).None? <==>
      forall b, j :: 0 <= b < |t| && 0 <= j < |t[b]| ==> !EqualsIgnoreCase(t[b][j].name, ingredientName)
    ensures GetStock(t, ingredientName).Some? ==>
      exists b, j ::
        && 0 <= b < |t| && 0 <= j < |t[b]|
        && GetStock(t, ingredientName).value == StockViewOf(t[b][j])
        && forall b', j' :: 0 <= b' < |t| && 0 <= j' < |t[b']| && Before(Pos(b', j'), Pos(b, j)) ==>
             !EqualsIgnoreCase(t[b'][j'].name, ingredientName)
  {
    FindByNameIsFirstMatch(t, ingredientName);
    if GetStock(t, ingredientName).Some? {
      var p := FindByName(t, ingredientName).value;
      assert GetStock(t, ingredientName).value == StockViewOf(t[p.row][p.col]);
    }
  }

  /** `updateStock(name, amount)`: always by name (the id passed is the sentinel -1), so an
      unknown name changes nothing and the call never fails. */
  function UpdateStock(t: Table, ingredientName: string, amount: int): (r: Table)
    ensures FindByName(t, ingredientName).None? ==> r == t
    ensures FindByName(t, ingredientName).Some? ==>
      OnlyChanged(t, r, FindByName(t, ingredientName).value, amount)
  {
    UpdateStockSpec(t, Some(ingredientName), -1, amount);
    Stock.UpdateStock(t, Some(ingredientName), -1, amount)
  }

  /** Reading an ingredient after updating it by name shows its level moved by `amount` and
      every other field as before. */
  lemma UpdateThenGetStock(t: Table, ingredientName: string, amount: int)
    ensures var before := GetStock(t, ingredientName);
      var after := GetStock(UpdateStock(t, ingredientName, amount), ingredientName);
      && (before.None? ==> after.None?)
      && (before.Some? ==> after == Some(before.value.(stockLevel := before.value.stockLevel + amount)))
  {
    UpdateStockSpec(t, Some(ingredientName), -1, amount);
    LookupsStable(t, UpdateStock(t, ingredientName, amount), 0, ingredientName);
  }

  /** `getAllIngredients`: every ingredient name, buckets in index order, chains from the head. */
  function GetAllIngredients(t: Table): (v: seq<string>)
    ensures |v| == Count(t)
  {
    var all := Flatten(t);
    seq(|all|, k requires 0 <= k < |all| => all[k].name)
  }

  /** Node `(b, j)`'s name is listed at index `Offset(b) + j`, one index per node. */
  lemma GetAllIngredientsAt(t: Table, b: nat, j: nat)
    requires b < |t| && j < |t[b]|
    ensures Offset(t, b) + j < |GetAllIngredients(t)|
    ensures GetAllIngredients(t)[Offset(t, b) + j] == t[b][j].name
  {
    FlattenAt(t, b, j);
  }

  /** Every listed name is that of the node located at its index. */
  lemma GetAllIngredientsOnlyNodes(t: Table, k: nat)
    requires k < |GetAllIngredients(t)|
    ensures GetAllIngredients(t)[k] == At(t, Locate(t, k)).name
  {
    var p := Locate(t, k);
    FlattenAt(t, p.row, p.col);
  }
}
