# RUHungry restaurant engine in Dafny

This project models the RUHungry restaurant simulation and the Spring service that
exposes it.

**The engine state** has three parts:

- **The menu.** An array of categories, each with a singly-linked list of dishes.
- **The stockroom.** A hashtable of ingredients using separate chaining, with bucket
  `id % size`.
- **The transaction log.** It records every order, donation and restock of the day. The
  day's profit is the sum of the profits it holds.

**Engine operations modelled:**

- loading the stock and the menu;
- pricing every dish at cost plus 20 %;
- id and name lookups in the stockroom;
- case-insensitive dish and category lookups;
- stock updates;
- the availability check;
- ordering, with substitution inside the requested dish's category;
- the profit total;
- donations and restocks.

**Service views on top:** all dishes, the dishes of one category, an order response, one
ingredient's stock, the stock update by name, and all ingredient names.

**How the state is represented.** The state is the immutable value
`Engine.Restaurant(menu, stock, log)`. Every Java method that mutates the restaurant
becomes a pure function from the old state to the new one.

- An array of linked lists is a `seq<seq<T>>`, each chain listed from its head. The
  dish and ingredient lookups share one first-match search, `Chains.FindFirst`: array
  index first, then chain position. The two category lookups, `Menu.FindCategoryIndex`
  and `RestaurantService.GetDishesByCategory`, search the category list with
  `Chains.FindInChain`.
- The transaction list is a `seq<Txn>` in append order.
- Money is an exact `real`. `Transactions.Times(x, n)` is `n` repeated additions of
  `x`, and `Transactions.TimesIsProduct` proves it equals `x * n`.

**Modules:**

| module | contents |
|---|---|
| `Strings` | ASCII `equalsIgnoreCase` |
| `Chains` | arrays of chains, first-match search, flattening |
| `Stock` | the stockroom hashtable |
| `Menu` | loading, lookups, pricing |
| `Transactions` | the log and profit |
| `Engine` | availability, ordering, donation, restock, invariants |
| `RestaurantService` | the service projections |

**How `order` behaves.** When the requested dish is available, it is served under the
requested name. Otherwise the engine walks two stretches of the dish's category list:

1. from the requested dish to the end of the list;
2. from the list head back up to the requested dish.

It serves the first dish that is available and logs a failed entry for every dish it
rejects. `Engine.OrderIsCyclicScan` proves that the two loops together scan the category
list cyclically, starting at the requested dish. `Engine.OrderOutcome` and
`Engine.OrderProfit` then give the closed form: which dish is served, what the log gains,
and by how much the profit grows.

**Where this model follows the code.**

- **`getDishesByCategory` has no fallback.** It returns nothing for an unknown category,
  while the engine's `findCategoryIndex` falls back to index 0.
- **`placeOrder` reports a substitution as unsuccessful.** `successful` is the
  availability of the requested dish, so an order served by a substitute is reported as a
  failure even though the profit grew.

## Model

Source paths are relative to the repository root. `RUHungry.java` is
`ruhungry-springboot/src/main/java/com/ruhungry/core/RUHungry.java`, and
`RestaurantService.java` is
`ruhungry-springboot/src/main/java/com/ruhungry/service/RestaurantService.java`.

| member | source | states |
|---|---|---|
| Chains.FindInChainIsFirst | ruhungry-springboot/src/main/java/com/ruhungry/core/RUHungry.java:162-171 | a walk down one chain finds nothing iff no element matches, and otherwise no earlier element matches |
| Chains.FindFirstIsFirst | ruhungry-springboot/src/main/java/com/ruhungry/core/RUHungry.java:141-156 | the shared array-of-lists search returns None iff no node matches; otherwise it returns a matching node, and no node reached earlier (lower index, or same index nearer the head) matches |
| Chains.FindFirstAgrees | ruhungry-springboot/src/main/java/com/ruhungry/core/RUHungry.java:198-233 | the node a search stops at depends only on which nodes match: two arrays of the same shape that match at the same nodes give the same result |
| Chains.FlattenAt | ruhungry-springboot/src/main/java/com/ruhungry/service/RestaurantService.java:38-50 | walking every list in array order puts node j of list i at position offset(i) + j |
| Chains.FlattenIndexInjective | ruhungry-springboot/src/main/java/com/ruhungry/service/RestaurantService.java:38-50 | distinct nodes get distinct positions in that walk, so no node is listed twice |
| Chains.Cycle | ruhungry-springboot/src/main/java/com/ruhungry/core/RUHungry.java:366-402 | the category walk that starts at the requested dish and wraps round to the list head visits every dish exactly once (same multiset, same length) in that rotated order |
| Stock.AddStockNode | ruhungry-springboot/src/main/java/com/ruhungry/core/RUHungry.java:180-193 | inserting keeps the number of buckets; where the node goes is Stock.AddStockNodeSpec |
| Stock.AddStockNodeSpec | ruhungry-springboot/src/main/java/com/ruhungry/core/RUHungry.java:180-193 | inserting an ingredient puts it at the head of bucket id % size, ahead of that bucket's old chain, and leaves every other bucket alone |
| Stock.AddStockNodeKeepsBuckets | ruhungry-springboot/src/main/java/com/ruhungry/core/RUHungry.java:180-193 | inserting keeps every node in the bucket of its own id |
| Stock.AddAll | ruhungry-springboot/src/main/java/com/ruhungry/core/RUHungry.java:289-310 | the insert loop of `createStockHashTable` keeps the number of buckets; its contents are Stock.AddAllBuckets and Stock.AddAllFindsLast |
| Stock.AddAllBuckets | ruhungry-springboot/src/main/java/com/ruhungry/core/RUHungry.java:289-310 | after the insert loop, each bucket holds the records that hash to it, in reverse file order, ahead of what it held before |
| Stock.AddAllKeepsBuckets | ruhungry-springboot/src/main/java/com/ruhungry/core/RUHungry.java:289-310 | the insert loop keeps every node in the bucket of its own id |
| Stock.CreateStockHashTableBuckets | ruhungry-springboot/src/main/java/com/ruhungry/core/RUHungry.java:284-312 | the loaded table places every ingredient in bucket id % size, and each bucket is its records in reverse file order |
| Stock.CreateStockHashTable | ruhungry-springboot/src/main/java/com/ruhungry/core/RUHungry.java:284-312 | the loaded table has exactly the requested number of buckets; its contents are Stock.CreateStockHashTableBuckets and Stock.CreateStockHashTableFindsLast |
| Stock.CreateStockHashTableFindsLast | ruhungry-springboot/src/main/java/com/ruhungry/core/RUHungry.java:284-312 | in the loaded table an id lookup finds nothing iff no record has that id, and otherwise finds the last record with it in file order, since later inserts shadow earlier ones |
| Stock.FindByIdIsFirstMatch | ruhungry-springboot/src/main/java/com/ruhungry/core/RUHungry.java:198-213 | lookup by id returns null iff no node has that id; otherwise it returns the first node carrying it |
| Stock.FindById | ruhungry-springboot/src/main/java/com/ruhungry/core/RUHungry.java:198-213 | a found position holds a node carrying the requested id |
| Stock.FindByNameIsFirstMatch | ruhungry-springboot/src/main/java/com/ruhungry/core/RUHungry.java:218-233 | lookup by name returns null iff no name equals it ignoring case; otherwise the node it returns has a matching name and no earlier node does |
| Stock.FindByName | ruhungry-springboot/src/main/java/com/ruhungry/core/RUHungry.java:218-233 | a found position holds a node whose name equals the request ignoring case |
| Stock.FindByIdAfterAdd | ruhungry-springboot/src/main/java/com/ruhungry/core/RUHungry.java:180-213 | once an ingredient is inserted, looking up its id finds it, at the head of its own bucket |
| Stock.FindByIdAfterAddOther | ruhungry-springboot/src/main/java/com/ruhungry/core/RUHungry.java:180-213 | inserting an ingredient with another id leaves an id lookup where it was: both before and after it finds nothing, or both find a node with the same fields |
| Stock.AddAllFindsLast | ruhungry-springboot/src/main/java/com/ruhungry/core/RUHungry.java:289-310 | after the insert loop an id lookup finds nothing iff the table and the records lack that id; with no record of that id the lookup is unchanged; otherwise it finds the last such record |
| Stock.FindByIdInOwnBucket | ruhungry-springboot/src/main/java/com/ruhungry/core/RUHungry.java:198-213 | in a well-bucketed table, an id lookup can only succeed in bucket id % size |
| Stock.UpdateStockSpec | ruhungry-springboot/src/main/java/com/ruhungry/core/RUHungry.java:238-251 | the update moves the level of the node found by name (if a name is given) or else by id, by exactly delta, and changes nothing else; an unresolved node, or no name with id -1, leaves the table unchanged |
| Stock.UpdateStock | ruhungry-springboot/src/main/java/com/ruhungry/core/RUHungry.java:238-251 | an update keeps the number of buckets; what it changes is Stock.UpdateStockSpec |
| Stock.LookupsStable | ruhungry-springboot/src/main/java/com/ruhungry/core/RUHungry.java:198-233 | changing only stock levels changes no lookup result and keeps every node in its id's bucket |
| Menu.InsertAllReverses | ruhungry-springboot/src/main/java/com/ruhungry/core/RUHungry.java:129-136 | inserting dishes one by one at the head leaves them in reverse order, ahead of the old list; `insert` is Menu.Insert and the loop over one category is Menu.InsertAll |
| Menu.LoadMenuReversesDishes | ruhungry-springboot/src/main/java/com/ruhungry/core/RUHungry.java:101-127 | the loaded menu has one list per category, in file order; each list holds that category's dishes in reverse file order, carrying the category's name and priced 0 |
| Menu.LoadMenu | ruhungry-springboot/src/main/java/com/ruhungry/core/RUHungry.java:101-127 | the loaded menu has one category per record and a list for each category |
| Menu.FindDishIsFirstMatch | ruhungry-springboot/src/main/java/com/ruhungry/core/RUHungry.java:141-156 | dish lookup returns null iff no dish name equals the request ignoring case; otherwise it returns such a dish, and none reached earlier matches |
| Menu.FindDish | ruhungry-springboot/src/main/java/com/ruhungry/core/RUHungry.java:141-156 | a found position holds a dish whose name equals the request ignoring case |
| Menu.FindDishOfOwnName | ruhungry-springboot/src/main/java/com/ruhungry/core/RUHungry.java:141-156 | when dish names are unique, looking up a dish's own name finds that dish |
| Menu.FindDishRespectsCase | ruhungry-springboot/src/main/java/com/ruhungry/core/RUHungry.java:148 | two requests that differ only in letter case find the same dish |
| Menu.FindCategoryIndexIsFirstMatch | ruhungry-springboot/src/main/java/com/ruhungry/core/RUHungry.java:162-171 | the category lookup returns the first index whose name equals the request ignoring case, or 0 when none does |
| Menu.FindCategoryIndex | ruhungry-springboot/src/main/java/com/ruhungry/core/RUHungry.java:162-171 | the index is in range whenever there is at least one category |
| Menu.FindCategoryOfDish | ruhungry-springboot/src/main/java/com/ruhungry/core/RUHungry.java:162-171 | when category names are unique and each dish carries its list's category, looking up a dish's category gives the index of the list that holds it |
| Menu.CostAppend | ruhungry-springboot/src/main/java/com/ruhungry/core/RUHungry.java:260-268 | a dish's ingredient cost is additive over its recipe |
| Menu.Cost | ruhungry-springboot/src/main/java/com/ruhungry/core/RUHungry.java:263-268 | ingredient ids that resolve to no stock node add nothing: a recipe with no resolvable id costs 0 |
| Menu.CostIgnoresStockLevels | ruhungry-springboot/src/main/java/com/ruhungry/core/RUHungry.java:263-268 | the cost depends on ingredient costs, not stock levels |
| Menu.UpdatePriceAndProfit | ruhungry-springboot/src/main/java/com/ruhungry/core/RUHungry.java:256-276 | pricing keeps categories, list shapes and each dish's name, category and recipe; afterwards every dish's price is its cost plus its profit, and its profit is a fifth of its cost |
| Menu.PricingIdempotent | ruhungry-springboot/src/main/java/com/ruhungry/core/RUHungry.java:256-276 | pricing twice gives the same menu as pricing once |
| Menu.PricingIgnoresStockLevels | ruhungry-springboot/src/main/java/com/ruhungry/core/RUHungry.java:256-276 | prices computed before and after stock-level changes agree |
| Menu.PricingKeepsStructure | ruhungry-springboot/src/main/java/com/ruhungry/core/RUHungry.java:256-276 | pricing keeps the parallel category and list arrays, every dish's category stamp, and the uniqueness of category names and of dish names |
| Transactions.AddTransactionNode | ruhungry-springboot/src/main/java/com/ruhungry/core/RUHungry.java:321-332 | appending to the log keeps every earlier entry in place and puts the new one last |
| Transactions.TimesIsProduct | ruhungry-springboot/src/main/java/com/ruhungry/core/RUHungry.java:357 | the served quantity's profit, summed one portion at a time, equals profit times quantity |
| Transactions.ProfitAppend | ruhungry-springboot/src/main/java/com/ruhungry/core/RUHungry.java:409-417 | appending an entry raises the day's profit by exactly that entry's profit |
| Transactions.ProfitConcat | ruhungry-springboot/src/main/java/com/ruhungry/core/RUHungry.java:409-417 | the day's profit is additive over consecutive stretches of the log |
| Transactions.Profit | ruhungry-springboot/src/main/java/com/ruhungry/core/RUHungry.java:409-417 | a log whose entries all have zero profit totals zero |
| Transactions.ProfitOfZeroEntries | ruhungry-springboot/src/main/java/com/ruhungry/core/RUHungry.java:409-417 | entries with zero profit do not change the total |
| Transactions.ResetFrontNode | ruhungry-springboot/src/main/java/com/ruhungry/core/RUHungry.java:75-77 | after clearing the log, the day's profit is zero |
| Engine.LoadEstablishesInvariants | ruhungry-springboot/src/main/java/com/ruhungry/service/RestaurantService.java:17-30 | initialization leaves a well-bucketed table, a menu with one list per category and each dish under its own category, and an empty log with zero profit |
| Engine.LoadContents | ruhungry-springboot/src/main/java/com/ruhungry/service/RestaurantService.java:17-30 | after initialization, each bucket holds the stock records hashing to it in reverse file order, the categories are the menu records' names in file order, and each category's list is its dishes in reverse file order, each priced at its cost in the loaded table plus a fifth of that cost |
| Engine.Load | ruhungry-springboot/src/main/java/com/ruhungry/service/RestaurantService.java:17-30 | initialization gives the requested number of buckets, one category per menu record with a list for each, and an empty log |
| Engine.AllStockedSpec | ruhungry-springboot/src/main/java/com/ruhungry/core/RUHungry.java:342-348 | the recipe loop succeeds iff every ingredient id's stock level is at least the requested quantity; the loop is Engine.AllStocked |
| Engine.CheckDishAvailabilitySpec | ruhungry-springboot/src/main/java/com/ruhungry/core/RUHungry.java:337-350 | a dish is available iff every ingredient of the dish found by name has enough stock |
| Engine.CheckDishAvailabilityOfNode | ruhungry-springboot/src/main/java/com/ruhungry/core/RUHungry.java:337-350 | with unique dish names, checking a dish by its name checks that very dish's recipe |
| Engine.CheckDishAvailability | ruhungry-springboot/src/main/java/com/ruhungry/core/RUHungry.java:337-350 | a dish with an empty recipe is always available; the full condition is Engine.CheckDishAvailabilitySpec |
| Engine.DebitAllKeepsIngredients | ruhungry-springboot/src/main/java/com/ruhungry/core/RUHungry.java:361-363 | debiting a recipe changes stock levels only |
| Engine.DebitAll | ruhungry-springboot/src/main/java/com/ruhungry/core/RUHungry.java:361-363 | debiting keeps the number of buckets; its effect is Engine.DebitAllEffect |
| Engine.DebitAllEffect | ruhungry-springboot/src/main/java/com/ruhungry/core/RUHungry.java:361-363 | debiting a recipe lowers each node's level by the quantity times the number of recipe ids that resolve to that node |
| Engine.HitsCountsOccurrences | ruhungry-springboot/src/main/java/com/ruhungry/core/RUHungry.java:361-363 | the node an id lookup finds is debited once per occurrence of its id in the recipe |
| Engine.HitsOfShadowedNode | ruhungry-springboot/src/main/java/com/ruhungry/core/RUHungry.java:361-363 | a node hidden behind an earlier node with the same id is never debited |
| Engine.FailuresSpec | ruhungry-springboot/src/main/java/com/ruhungry/core/RUHungry.java:381-399 | every rejected dish logs one failed order entry with profit 0, so the rejections together add no profit |
| Engine.Scan | ruhungry-springboot/src/main/java/com/ruhungry/core/RUHungry.java:370-385 | a walk that serves nothing leaves the stock alone and logs exactly one failure per dish walked; a walk that serves something grows the log; the menu never changes. It requires only that the dishes the walk reaches, up to the first available one, can be checked |
| Engine.Order | ruhungry-springboot/src/main/java/com/ruhungry/core/RUHungry.java:355-404 | an order never changes the menu and always adds at least one log entry. It requires only that the requested dish and the dishes the two loops actually reach can be checked |
| Engine.OrderOfAvailableDish | ruhungry-springboot/src/main/java/com/ruhungry/core/RUHungry.java:355-365 | an available request can always be ordered, whatever the rest of its category holds, and is served under the caller's name |
| Engine.OrderServesBesideUnresolvableDish | ruhungry-springboot/src/main/java/com/ruhungry/core/RUHungry.java:355-365 | a concrete menu where dish B names an id with no stock node: ordering the available dish A in the same category is allowed and logs one success |
| Engine.OrderKeepsIngredients | ruhungry-springboot/src/main/java/com/ruhungry/core/RUHungry.java:355-404 | an order changes stock levels only |
| Engine.ScanAppend | ruhungry-springboot/src/main/java/com/ruhungry/core/RUHungry.java:366-402 | two walks in a row act as one walk over both stretches: the second runs only when the first served nothing |
| Engine.OrderIsCyclicScan | ruhungry-springboot/src/main/java/com/ruhungry/core/RUHungry.java:355-404 | an unavailable request is handled by one walk over its category list, starting at the requested dish and wrapping to the head |
| Engine.FirstAvailable | ruhungry-springboot/src/main/java/com/ruhungry/core/RUHungry.java:370-379 | the result is the index of the first available dish in the walk (every earlier one is unavailable), or the walk's length when none is available |
| Engine.ScanServes | ruhungry-springboot/src/main/java/com/ruhungry/core/RUHungry.java:370-385 | when some dish in the walk is available, the first one is served: one failure is logged per dish before it, then its success, and only its recipe is debited; serving one dish (debit its recipe, log its success) is Engine.Serve |
| Engine.ScanFailsAll | ruhungry-springboot/src/main/java/com/ruhungry/core/RUHungry.java:370-385 | a walk serves nothing iff no dish in it is available, and then it only logs failures |
| Engine.OrderOutcome | ruhungry-springboot/src/main/java/com/ruhungry/core/RUHungry.java:355-404 | an available request is served under the caller's spelling of its name; otherwise the first available dish of the cyclic walk is served after the failures before it, and if none is available every dish of the category is logged as failed; both serve branches go through Engine.Serve |
| Engine.ScanExtendsLog | ruhungry-springboot/src/main/java/com/ruhungry/core/RUHungry.java:370-402 | a walk only appends to the log, and its last entry fails exactly when nothing was served |
| Engine.OrderExtendsLog | ruhungry-springboot/src/main/java/com/ruhungry/core/RUHungry.java:355-404 | an order keeps the earlier log as a prefix, and when its last entry is a failure the stock is unchanged |
| Engine.ScanProfit | ruhungry-springboot/src/main/java/com/ruhungry/core/RUHungry.java:374-382 | a walk raises the day's profit by the served dish's profit times the quantity, or by nothing when it serves nothing |
| Engine.OrderProfit | ruhungry-springboot/src/main/java/com/ruhungry/core/RUHungry.java:355-417 | an order raises the day's profit by the served dish's profit times the quantity, or leaves it unchanged when nothing is served |
| Engine.Donation | ruhungry-springboot/src/main/java/com/ruhungry/core/RUHungry.java:422-433 | a donation is granted iff profit is above 50 and enough is in stock; it always logs one zero-profit entry, and only when granted debits the quantity from the ingredient found by name; the name must resolve only when profit is above 50, since the stock level is read only then, and an unresolved name logs one refused entry and changes no stock |
| Engine.Restock | ruhungry-springboot/src/main/java/com/ruhungry/core/RUHungry.java:438-450 | a restock is granted iff profit exceeds unit cost times quantity; when granted it logs that cost as negative profit and credits the quantity, otherwise it logs a zero-profit failure and leaves the stock alone |
| Engine.SupplyProfit | ruhungry-springboot/src/main/java/com/ruhungry/core/RUHungry.java:422-450 | a donation never changes the day's profit, whether or not its name resolves; a granted restock lowers it by its cost and leaves it positive; a refused one leaves it unchanged |
| Engine.OperationsKeepInvariants | ruhungry-springboot/src/main/java/com/ruhungry/core/RUHungry.java:238-450 | stock updates, orders, donations (including those whose name does not resolve, at profit 50 or less) and restocks all keep the loading invariants |
| RestaurantService.GetAllDishes | ruhungry-springboot/src/main/java/com/ruhungry/service/RestaurantService.java:32-52 | the dish listing has one entry per dish node of the menu |
| RestaurantService.GetAllDishesAt | ruhungry-springboot/src/main/java/com/ruhungry/service/RestaurantService.java:38-50 | dish j of category i is listed at position offset(i) + j, with its name, category, price and profit |
| RestaurantService.GetAllDishesOnlyDishes | ruhungry-springboot/src/main/java/com/ruhungry/service/RestaurantService.java:38-50 | every listed entry is the view of a dish node of the menu |
| RestaurantService.GetDishesByCategorySpec | ruhungry-springboot/src/main/java/com/ruhungry/service/RestaurantService.java:54-78 | the category view is empty when no category matches ignoring case, and otherwise is exactly the first matching category's list in order |
| RestaurantService.GetDishesByCategory | ruhungry-springboot/src/main/java/com/ruhungry/service/RestaurantService.java:54-78 | a non-empty view means some category name equals the request ignoring case |
| RestaurantService.GetDishesByCategoryHasNoFallback | ruhungry-springboot/src/main/java/com/ruhungry/service/RestaurantService.java:54-78 | for an unknown category the view is empty, while the engine's category lookup picks list 0 |
| RestaurantService.PlaceOrder | ruhungry-springboot/src/main/java/com/ruhungry/service/RestaurantService.java:84-94 | the response echoes the requested name and quantity; the order leaves the menu alone and grows the log. It requires what Engine.Order requires |
| RestaurantService.PlaceOrderReports | ruhungry-springboot/src/main/java/com/ruhungry/service/RestaurantService.java:84-94 | the response says successful only when the requested dish itself was served (and profit grew by its share); a served substitute is reported unsuccessful though profit grew; when nothing was served, profit and stock are unchanged |
| RestaurantService.GetStock | ruhungry-springboot/src/main/java/com/ruhungry/service/RestaurantService.java:96-108 | a returned stock view is one whose name matches the request ignoring case |
| RestaurantService.GetStockSpec | ruhungry-springboot/src/main/java/com/ruhungry/service/RestaurantService.java:96-108 | the stock view is null iff no ingredient's name matches, and otherwise carries the fields of the first matching node |
| RestaurantService.UpdateStock | ruhungry-springboot/src/main/java/com/ruhungry/service/RestaurantService.java:110-112 | updating by name moves only the matching node's level, by the amount; an unknown name changes nothing |
| RestaurantService.UpdateThenGetStock | ruhungry-springboot/src/main/java/com/ruhungry/service/RestaurantService.java:96-112 | reading an ingredient after updating it shows the level moved by the amount and every other field unchanged; an unknown ingredient stays unknown |
| RestaurantService.GetAllIngredients | ruhungry-springboot/src/main/java/com/ruhungry/service/RestaurantService.java:126-140 | the ingredient listing has one name per stock node |
| RestaurantService.GetAllIngredientsAt | ruhungry-springboot/src/main/java/com/ruhungry/service/RestaurantService.java:132-138 | node j of bucket b is listed at position offset(b) + j |
| RestaurantService.GetAllIngredientsOnlyNodes | ruhungry-springboot/src/main/java/com/ruhungry/service/RestaurantService.java:132-138 | every listed name is the name of a stock node |

## Left out

- **Input parsing.** The `Scanner` parsing of `stock.in`, `menu.in` and `tables*.in` is
  not modelled. Loading takes the parsed records as parameters.
- **Resources and framework.** The Spring wiring and class-path resource loading in
  `initialize` are not modelled.
- **Seating.** The seating subsystem (`createTables`, `seatAllGuests`, the `tables` and
  `tableSeats` arrays, and the `leftQueueVar` queue of parties) is outside the modelled
  core.
- **One-line delegations.**
  - `getCategories` returns the category array.
  - `restockIngredient`, `donateIngredient` and `getCurrentProfit` forward to `restock`,
    `donation` and `profit`.

  These are covered by `Engine.Restock`, `Engine.Donation` and `Transactions.Profit`.
- **DTO classes and controllers.** These are plain records and HTTP routing. The
  response records are modelled as datatypes.
- **Integer width.** Integers are unbounded, so Java's 32-bit wrap-around in stock
  levels and quantities is not modelled.
- **Floating point.** Money is exact: IEEE-754 rounding of `double` prices, profits and
  costs is not modelled.
- **Case folding.** `equalsIgnoreCase` is modelled as an ASCII case fold. Unicode case
  folding is not modelled.
- **Null values.**
  - A null menu or stock array (before loading) is modelled as empty.
  - A null ingredient name passed to the service's `updateStock` is not modelled; names
    are always present.
- **Zero table size.** With a table size of 0 and at least one stock record,
  `addStockNode` computes `id % stockVarSize` with a zero divisor and throws
  `ArithmeticException`. The requires of `Stock.AddStockNode`, `Stock.AddAll`,
  `Stock.CreateStockHashTable` and `Engine.Load` (`|t| > 0`, or `size > 0 || |recs| == 0`)
  exclude that crash; an empty table with no records is allowed.
- **Stock ids.** Ingredient ids are assumed non-negative when inserted. Java's `%` on a
  negative id gives a negative bucket index and an exception.
- **Dish defaults.** The `Dish` constructor is not part of this model. Loaded dishes are
  taken to start with price and profit 0 until the pricing pass.
- Engine.Order: the Java method throws a null dereference when the requested dish is
  unknown, or when a dish that one of its loops actually reaches names an id with no stock
  node. The model makes exactly those crashes preconditions, through `Engine.CanOrder` and
  `Engine.ScanDefined`. Dishes after the first available one are never checked, so they
  may hold unresolvable ids; `Engine.OrderServesBesideUnresolvableDish` shows such a menu.
  What an order does is stated by `Engine.OrderOutcome` (which dish is served, what is
  debited, what is logged) and `Engine.OrderProfit` (how the day's profit moves).
- Engine.OrderIsCyclicScan: assumes that each dish carries its list's category and that
  category names are unique ignoring case.
  - Loading gives the first (`Engine.LoadEstablishesInvariants`). Nothing in the code
    gives the second: it is an assumption about the menu feed.
  - `order`'s second loop stops at the requested node by reference equality, in the list
    found through `findCategoryIndex`; the model follows that exactly.
  - When category names repeat, the walk is not proved cyclic.
- Engine.CheckDishAvailabilityOfNode: needs unique dish names. With duplicate names,
  `order` re-resolves the walked dish by name, so it checks the first dish of that name but
  debits the walked one. The model keeps that behaviour and proves nothing about it.
- **Small function contracts.** The functions on the lines below keep small contracts of
  their own, so that the many proofs that unfold them stay cheap. The lemmas named on each
  line state their full behaviour.
- Stock.AddStockNode: stated in full by `Stock.AddStockNodeSpec` and
  `Stock.AddStockNodeKeepsBuckets`.
- Stock.AddAll: stated in full by `Stock.AddAllBuckets`, `Stock.AddAllKeepsBuckets` and
  `Stock.AddAllFindsLast`.
- Stock.CreateStockHashTable: stated in full by `Stock.CreateStockHashTableBuckets` and
  `Stock.CreateStockHashTableFindsLast`.
- Stock.FindById: stated in full by `Stock.FindByIdIsFirstMatch`.
- Stock.FindByName: stated in full by `Stock.FindByNameIsFirstMatch`.
- Stock.UpdateStock: stated in full by `Stock.UpdateStockSpec`.
- Menu.LoadMenu: stated in full by `Menu.LoadMenuReversesDishes`.
- Menu.FindDish: stated in full by `Menu.FindDishIsFirstMatch`.
- Menu.FindCategoryIndex: stated in full by `Menu.FindCategoryIndexIsFirstMatch`.
- Menu.Cost: stated in full by `Menu.CostAppend` and `Menu.CostIgnoresStockLevels`.
- Transactions.Profit: stated in full by `Transactions.ProfitAppend` and
  `Transactions.ProfitConcat`.
- Engine.Load: stated in full by `Engine.LoadContents` (bucket contents, category names,
  and each list as its reversed feed priced against the loaded table) and
  `Engine.LoadEstablishesInvariants`.
- Engine.CheckDishAvailability: stated in full by `Engine.CheckDishAvailabilitySpec`.
- Engine.DebitAll: stated in full by `Engine.DebitAllEffect` and
  `Engine.DebitAllKeepsIngredients`.
- RestaurantService.GetDishesByCategory: stated in full by
  `RestaurantService.GetDishesByCategorySpec`.
- Engine.Scan: stated in full by `Engine.ScanServes` and `Engine.ScanFailsAll`.
