/** The menu: two parallel arrays, category names and one dish list per category. Dishes are
    inserted at the head of their category's list while loading, so each list ends up in the
    reverse of feed order. Prices are derived from the stockroom by a pricing pass. */
module Menu {
  import opened Chains
  import opened Strings
  import opened Stock

  /** A dish node; `category` is a copy of its category's name, `ids` the ingredient ids in
      feed order, `price` and `profit` the values set by the last pricing pass. */
  datatype Dish = Dish(name: string, category: string, ids: seq<int>, price: real, profit: real)

  /** `categories[i]` names the category whose dishes are `lists[i]`, each listed from the head. */
  datatype Menu = Menu(categories: seq<string>, lists: seq<seq<Dish>>)

  /** Already-parsed records of the menu feed. */
  datatype DishRecord = DishRecord(name: string, ids: seq<int>)
  datatype CategoryRecord = CategoryRecord(name: string, dishes: seq<DishRecord>)

  /** The two arrays are parallel. */
  predicate MenuShape(m: Menu) {
    |m.categories| == |m.lists|
  }

  /** Every dish carries the name of the category it is listed under. */
  predicate CategoriesConsistent(m: Menu)
    requires MenuShape(m)
  {
    forall c, j :: 0 <= c < |m.lists| && 0 <= j < |m.lists[c]| ==> m.lists[c][j].category == m.categories[c]
  }

  /** No two categories have names that are equal ignoring case. */
  predicate UniqueCategoryNames(m: Menu) {
    forall a, b :: 0 <= a < b < |m.categories| ==> !EqualsIgnoreCase(m.categories[a], m.categories[b])
  }

  /** No two dish nodes have names that are equal ignoring case. */
  predicate UniqueDishNames(m: Menu) {
    forall c, j, c', j' ::
      (0 <= c < |m.lists| && 0 <= j < |m.lists[c]| && 0 <= c' < |m.lists| && 0 <= j' < |m.lists[c']| &&
       (c, j) != (c', j')) ==> !EqualsIgnoreCase(m.lists[c][j].name, m.lists[c'][j'].name)
  }

  /** A dish as `menu` constructs it, before any pricing pass (a Java double field starts at 0.0). */
  function NewDish(category: string, rec: DishRecord): Dish {
    Dish(rec.name, category, rec.ids, 0.0, 0.0)
  }

  /** `insert`: the new node becomes the head of the list. */
  function Insert(list: seq<Dish>, d: Dish): seq<Dish> {
    [d] + list
  }

  /** Inserts the records of one category in feed order, each at the head of the list. */
  function InsertAll(list: seq<Dish>, category: string, recs: seq<DishRecord>): seq<Dish>
    decreases |recs|
  {
    if |recs| == 0 then list else InsertAll(Insert(list, NewDish(category, recs[0])), category, recs[1..])
  }

  /** The dishes of a category, in feed order. */
  function FeedDishes(category: string, recs: seq<DishRecord>): (r: seq<Dish>)
    ensures |r| == |recs|
    ensures forall j :: 0 <= j < |recs| ==> r[j] == NewDish(category, recs[j])
  {
    seq(|recs|, j requires 0 <= j < |recs| => NewDish(category, recs[j]))
  }

  lemma {:induction false} InsertAllReverses(list: seq<Dish>, category: string, recs: seq<DishRecord>)
    ensures InsertAll(list, category, recs) == Reverse(FeedDishes(category, recs)) + list
    decreases |recs|
  {
    if |recs| > 0 {
      var d := NewDish(category, recs[0]);
      InsertAllReverses(Insert(list, d), category, recs[1..]);
      assert FeedDishes(category, recs) == [d] + FeedDishes(category, recs[1..]);
      ReverseCons(d, FeedDishes(category, recs[1..]));
    }
  }

  /** The structure-building half of `menu`, given the already-parsed records. */
  function LoadMenu(recs: seq<CategoryRecord>): (m: Menu)
    ensures MenuShape(m) && |m.categories| == |recs|
  {
    Menu(seq(|recs|, i requires 0 <= i < |recs| => recs[i].name),
         seq(|recs|, i requires 0 <= i < |recs| => InsertAll([], recs[i].name, recs[i].dishes)))
  }

  /** Loading keeps the feed's category order, lists every category's dishes in the reverse
      of feed order, and stamps each dish with its category's name. */
  lemma LoadMenuReversesDishes(recs: seq<CategoryRecord>)
    ensures var m := LoadMenu(recs);
      && (forall i :: 0 <= i < |recs| ==> m.categories[i] == recs[i].name)
      && (forall i :: 0 <= i < |recs| ==> m.lists[i] == Reverse(FeedDishes(recs[i].name, recs[i].dishes)))
      && CategoriesConsistent(m)
  {
    var m := LoadMenu(recs);
    forall i | 0 <= i < |recs|
      ensures m.lists[i] == Reverse(FeedDishes(recs[i].name, recs[i].dishes))
    {
      InsertAllReverses([], recs[i].name, recs[i].dishes);
    }
  }

  /** `findDish`: the first node, categories in array order and each list from its head,
      whose dish name equals `name` ignoring case. */
  function FindDish(m: Menu, name: string): (r: Option<Pos>)
    ensures r.Some? ==> ValidPos(m.lists, r.value) && EqualsIgnoreCase(At(m.lists, r.value).name, name)
  {
    var p := (d: Dish) => EqualsIgnoreCase(d.name, name);
    FindFirstIsFirst(m.lists, p);
    FindFirst(m.lists, p)
  }

  /** The dish lookup returns None exactly when no dish name matches, and otherwise the first
      match in category-then-list order. */
  lemma FindDishIsFirstMatch(m: Menu, name: string)
    ensures FindDish(m, name).None? <==>
      forall c, j :: 0 <= c < |m.lists| && 0 <= j < |m.lists[c]| ==>
          !EqualsIgnoreCase(m.lists[c][j].name, name)
    ensures FindDish(m, name).Some? ==> EqualsIgnoreCase(At(m.lists, FindDish(m, name).value).name, name)
    ensures FindDish(m, name).Some? ==>
      forall c, j ::
        0 <= c < |m.lists| && 0 <= j < |m.lists[c]| && Before(Pos(c, j), FindDish(m, name).value) ==>
        !EqualsIgnoreCase(m.lists[c][j].name, name)
  {
    FindFirstIsFirst(m.lists, (d: Dish) => EqualsIgnoreCase(d.name, name));
  }

  /** Looking up the name of a dish node finds the first node whose name matches it; when
      names are unique that is the node itself. */
  lemma FindDishOfOwnName(m: Menu, p: Pos)
    requires ValidPos(m.lists, p) && UniqueDishNames(m)
    ensures FindDish(m, At(m.lists, p).name) == Some(p)
  {
    var name := At(m.lists, p).name;
    EqualsIgnoreCaseIsEquivalence(name, name, name);
    FindFirstOnly(m.lists, (d: Dish) => EqualsIgnoreCase(d.name, name), p);
  }

  /** Two names equal ignoring case resolve to the same dish node. */
  lemma FindDishRespectsCase(m: Menu, a: string, b: string)
    requires EqualsIgnoreCase(a, b)
    ensures FindDish(m, a) == FindDish(m, b)
  {
    forall x: string
      ensures EqualsIgnoreCase(x, a) == EqualsIgnoreCase(x, b)
    {
      EqualsIgnoreCaseIsEquivalence(x, a, b);
      EqualsIgnoreCaseIsEquivalence(x, b, a);
      EqualsIgnoreCaseIsEquivalence(a, b, b);
    }
    FindFirstAgrees(m.lists, (d: Dish) => EqualsIgnoreCase(d.name, a), m.lists,
        (d: Dish) => EqualsIgnoreCase(d.name, b));
  }

  /** `findCategoryIndex`: the first category whose name equals `name` ignoring case, or 0
      when none does. */
  function FindCategoryIndex(categories: seq<string>, name: string): (r: nat)
    ensures |categories| > 0 ==> r < |categories|
  {
    match FindInChain(categories, (c: string) => EqualsIgnoreCase(name, c))
    case Some(i) => i
    case None => 0
  }

  /** The category lookup returns the first index whose name matches, and falls back to 0
      (not to a "not found" answer) when none does. */
  lemma FindCategoryIndexIsFirstMatch(categories: seq<string>, name: string)
    ensures var r := FindCategoryIndex(categories, name);
      && ((exists i :: 0 <= i < |categories| && EqualsIgnoreCase(name, categories[i])) ==>
            r < |categories| && EqualsIgnoreCase(name, categories[r]) &&
            forall i :: 0 <= i < r ==> !EqualsIgnoreCase(name, categories[i]))
      && ((forall i :: 0 <= i < |categories| ==> !EqualsIgnoreCase(name, categories[i])) ==> r == 0)
  {
    FindInChainIsFirst(categories, (c: string) => EqualsIgnoreCase(name, c));
  }

  /** With consistent, uniquely named categories the category of a dish node is found at the
      node's own row. */
  lemma FindCategoryOfDish(m: Menu, p: Pos)
    requires MenuShape(m) && CategoriesConsistent(m) && UniqueCategoryNames(m)
    requires ValidPos(m.lists, p)
    ensures FindCategoryIndex(m.categories, At(m.lists, p).category) == p.row
  {
    var name := At(m.lists, p).category;
    EqualsIgnoreCaseIsEquivalence(name, name, name);
    FindCategoryIndexIsFirstMatch(m.categories, name);
    var r := FindCategoryIndex(m.categories, name);
    assert r < p.row ==> EqualsIgnoreCase(m.categories[r], m.categories[p.row]);
  }

  /** Unit cost contributed by one ingredient id: its cost when the id resolves, else 0. */
  function UnitCost(t: Table, id: int): real {
    match FindById(t, id)
    case None => 0.0
    case Some(p) => At(t, p).cost
  }

  /** Sum of the unit costs of `ids`, in order. Ids that do not resolve contribute nothing;
      with no resolving id the cost is 0. */
  function Cost(t: Table, ids: seq<int>): (r: real)
    ensures (forall k :: 0 <= k < |ids| ==> FindById(t, ids[k]).None?) ==> r == 0.0
  {
    if |ids| == 0 then 0.0 else UnitCost(t, ids[0]) + Cost(t, ids[1..])
  }

  lemma {:induction false} CostAppend(t: Table, a: seq<int>, b: seq<int>)
    ensures Cost(t, a + b) == Cost(t, a) + Cost(t, b)
    decreases |a|
  {
    if |a| == 0 {
      assert a + b == b;
    } else {
      assert (a + b)[1..] == a[1..] + b;
      CostAppend(t, a[1..], b);
    }
  }

  /** The cost only reads ids and unit costs, so stock-level changes leave it unchanged. */
  lemma {:induction false} CostIgnoresStockLevels(t: Table, r: Table, ids: seq<int>)
    requires SameIngredients(t, r)
    ensures Cost(r, ids) == Cost(t, ids)
    decreases |ids|
  {
    if |ids| > 0 {
      LookupsStable(t, r, ids[0], "");
      CostIgnoresStockLevels(t, r, ids[1..]);
    }
  }

  /** One dish re-priced: price is 1.2 times its cost and profit is price minus cost. */
  function Priced(t: Table, d: Dish): Dish {
    var cost := Cost(t, d.ids);
    var price := cost * 1.2;
    d.(price := price, profit := price - cost)
  }

  /** `updatePriceAndProfit`: re-prices every dish against the current stockroom. */
  function UpdatePriceAndProfit(t: Table, m: Menu): (r: Menu)
    ensures r.categories == m.categories && SameShape(r.lists, m.lists)
    ensures forall c, j :: 0 <= c < |m.lists| && 0 <= j < |m.lists[c]| ==>
      var d, d' := m.lists[c][j], r.lists[c][j];
      && d'.name == d.name && d'.category == d.category && d'.ids == d.ids
      && d'.price == Cost(t, d.ids) + d'.profit
      && d'.profit == Cost(t, d.ids) / 5.0
  {
    Menu(m.categories,
         seq(|m.lists|, c requires 0 <= c < |m.lists| =>
           seq(|m.lists[c]|, j requires 0 <= j < |m.lists[c]| => Priced(t, m.lists[c][j]))))
  }

  /** The pricing pass depends only on the stockroom, not on earlier prices: running it
      twice gives the same menu as running it once. */
  lemma PricingIdempotent(t: Table, m: Menu)
    ensures UpdatePriceAndProfit(t, UpdatePriceAndProfit(t, m)) == UpdatePriceAndProfit(t, m)
  {
    var once := UpdatePriceAndProfit(t, m);
    var twice := UpdatePriceAndProfit(t, once);
    assert twice.lists == once.lists by {
      forall c | 0 <= c < |m.lists|
        ensures twice.lists[c] == once.lists[c]
      {
        assert |twice.lists[c]| == |once.lists[c]|;
      }
    }
  }

  /** Prices depend on unit costs only, so any sequence of stock-level changes leaves the
      result of a pricing pass as it was. */
  lemma PricingIgnoresStockLevels(t: Table, r: Table, m: Menu)
    requires SameIngredients(t, r)
    ensures UpdatePriceAndProfit(r, m) == UpdatePriceAndProfit(t, m)
  {
    forall c, j | 0 <= c < |m.lists| && 0 <= j < |m.lists[c]|
      ensures Cost(r, m.lists[c][j].ids) == Cost(t, m.lists[c][j].ids)
    {
      CostIgnoresStockLevels(t, r, m.lists[c][j].ids);
    }
    var a, b := UpdatePriceAndProfit(r, m), UpdatePriceAndProfit(t, m);
    assert a.lists == b.lists by {
      forall c | 0 <= c < |m.lists|
        ensures a.lists[c] == b.lists[c]
      {
        assert |a.lists[c]| == |b.lists[c]|;
      }
    }
  }

  /** The pricing pass keeps the menu's structure: parallel arrays, category stamps and
      name uniqueness all survive it. */
  lemma PricingKeepsStructure(t: Table, m: Menu)
    requires MenuShape(m)
    ensures var r := UpdatePriceAndProfit(t, m);
      && MenuShape(r)
      && (CategoriesConsistent(m) ==> CategoriesConsistent(r))
      && (UniqueCategoryNames(m) ==> UniqueCategoryNames(r))
      && (UniqueDishNames(m) ==> UniqueDishNames(r))
  {
  }
}
