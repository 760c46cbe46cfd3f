/** The stockroom: a hashtable of ingredients with separate chaining. A node for ingredient
    `id` is prepended to bucket `id % size`, where `size` is the number of buckets fixed when
    the table is created. Lookups by id and by name both scan every bucket in index order and
    every chain from its head. */
module Stock {
  import opened Chains
  import opened Strings

  datatype Ingredient = Ingredient(id: int, name: string, stockLevel: int, cost: real)

  /** The bucket array; its length is the table size. */
  type Table = seq<seq<Ingredient>>

  /** A freshly created table: `size` empty buckets. */
  function Empty(size: nat): (t: Table)
    ensures |t| == size
    ensures forall b :: 0 <= b < size ==> t[b] == []
  {
    seq(size, _ => [])
  }

  /** Every node sits in the bucket its non-negative id hashes to. */
  predicate BucketInvariant(t: Table) {
    forall b, j :: 0 <= b < |t| && 0 <= j < |t[b]| ==> t[b][j].id >= 0 && t[b][j].id % |t| == b
  }

  /** Inserts a node at the head of bucket `id % size` (`addStockNode` and `insertF`). */
  function AddStockNode(t: Table, ing: Ingredient): (r: Table)
    requires |t| > 0 && ing.id >= 0
    ensures |r| == |t|
  {
    var b := ing.id % |t|;
    t[b := [ing] + t[b]]
  }

  /** The new node heads its own bucket, the rest of that bucket is the old chain, every
      other bucket is untouched, and the bucket invariant is kept. */
  lemma AddStockNodeSpec(t: Table, ing: Ingredient)
    requires |t| > 0 && ing.id >= 0
    ensures var r := AddStockNode(t, ing); var b := ing.id % |t|;
      && r[b] == [ing] + t[b]
      && (forall c :: 0 <= c < |t| && c != b ==> r[c] == t[c])
  {
  }

  /** Inserting keeps every node in the bucket its id hashes to. */
  lemma AddStockNodeKeepsBuckets(t: Table, ing: Ingredient)
    requires |t| > 0 && ing.id >= 0 && BucketInvariant(t)
    ensures BucketInvariant(AddStockNode(t, ing))
  {
    AddStockNodeSpec(t, ing);
  }

  /** Adds the parsed stock records one after another, in feed order. */
  function AddAll(t: Table, recs: seq<Ingredient>): (r: Table)
    requires |t| > 0 || |recs| == 0
    requires forall k :: 0 <= k < |recs| ==> recs[k].id >= 0
    ensures |r| == |t|
    decreases |recs|
  {
    if |recs| == 0 then t else AddAll(AddStockNode(t, recs[0]), recs[1..])
  }

  /** The table-building half of `createStockHashTable`, given the already-parsed records. */
  function CreateStockHashTable(size: nat, recs: seq<Ingredient>): (t: Table)
    requires size > 0 || |recs| == 0
    requires forall k :: 0 <= k < |recs| ==> recs[k].id >= 0
    ensures |t| == size
  {
    AddAll(Empty(size), recs)
  }

  /** The records hashing to bucket `b`, in feed order. */
  function InBucket(recs: seq<Ingredient>, size: nat, b: nat): seq<Ingredient>
    requires size > 0
    requires forall k :: 0 <= k < |recs| ==> recs[k].id >= 0
  {
    if |recs| == 0 then []
    else (if recs[0].id % size == b then [recs[0]] else []) + InBucket(recs[1..], size, b)
  }

  lemma {:induction false} AddAllBuckets(t: Table, recs: seq<Ingredient>, b: nat)
    requires |t| > 0 && b < |t|
    requires forall k :: 0 <= k < |recs| ==> recs[k].id >= 0
    ensures AddAll(t, recs)[b] == Reverse(InBucket(recs, |t|, b)) + t[b]
    decreases |recs|
  {
    if |recs| > 0 {
      var t1 := AddStockNode(t, recs[0]);
      var rest := recs[1..];
      var later := InBucket(rest, |t|, b);
      AddStockNodeSpec(t, recs[0]);
      AddAllBuckets(t1, rest, b);
      assert AddAll(t, recs)[b] == Reverse(later) + t1[b];
      if recs[0].id % |t| == b {
        assert InBucket(recs, |t|, b) == [recs[0]] + later;
        ReverseCons(recs[0], later);
        assert Reverse(later) + ([recs[0]] + t[b]) == (Reverse(later) + [recs[0]]) + t[b];
      } else {
        assert InBucket(recs, |t|, b) == later;
      }
    }
  }

  /** Adding records one after another keeps every node in the bucket its id hashes to. */
  lemma {:induction false} AddAllKeepsBuckets(t: Table, recs: seq<Ingredient>)
    requires |t| > 0 && BucketInvariant(t)
    requires forall k :: 0 <= k < |recs| ==> recs[k].id >= 0
    ensures BucketInvariant(AddAll(t, recs))
    decreases |recs|
  {
    if |recs| > 0 {
      AddStockNodeKeepsBuckets(t, recs[0]);
      AddAllKeepsBuckets(AddStockNode(t, recs[0]), recs[1..]);
    }
  }

  /** After loading, bucket `b` holds exactly the records whose id hashes to `b`, newest
      first (the reverse of feed order), and every node satisfies the bucket invariant. */
  lemma CreateStockHashTableBuckets(size: nat, recs: seq<Ingredient>)
    requires size > 0
    requires forall k :: 0 <= k < |recs| ==> recs[k].id >= 0
    ensures BucketInvariant(CreateStockHashTable(size, recs))
    ensures forall b :: 0 <= b < size ==>
      CreateStockHashTable(size, recs)[b] == Reverse(InBucket(recs, size, b))
  {
    forall b | 0 <= b < size
      ensures CreateStockHashTable(size, recs)[b] == Reverse(InBucket(recs, size, b))
    {
      AddAllBuckets(Empty(size), recs, b);
    }
    AddAllKeepsBuckets(Empty(size), recs);
  }

  /** `findStockNode(int)`: the first node with that id in bucket-index-then-chain order. */
  function FindById(t: Table, id: int): (r: Option<Pos>)
    ensures r.Some? ==> ValidPos(t, r.value) && At(t, r.value).id == id
  {
    var p := (ing: Ingredient) => ing.id == id;
    FindFirstIsFirst(t, p);
    FindFirst(t, p)
  }

  /** The lookup by id returns None exactly when no node has the id, and otherwise the first
      node with it in bucket-index-then-chain order. */
  lemma FindByIdIsFirstMatch(t: Table, id: int)
    ensures FindById(t, id).None? <==> forall b, j :: 0 <= b < |t| && 0 <= j < |t[b]| ==> t[b][j].id != id
    ensures FindById(t, id).Some? ==>
      forall b, j ::
        0 <= b < |t| && 0 <= j < |t[b]| && Before(Pos(b, j), FindById(t, id).value) ==> t[b][j].id != id
  {
    FindFirstIsFirst(t, (ing: Ingredient) => ing.id == id);
  }

  /** `findStockNode(String)`: the first node whose name equals `name` ignoring case. */
  function FindByName(t: Table, name: string): (r: Option<Pos>)
    ensures r.Some? ==> ValidPos(t, r.value) && EqualsIgnoreCase(At(t, r.value).name, name)
  {
    var p := (ing: Ingredient) => EqualsIgnoreCase(ing.name, name);
    FindFirstIsFirst(t, p);
    FindFirst(t, p)
  }

  /** The lookup by name returns None exactly when no node's name equals `name` ignoring
      case, and otherwise the first such node in bucket-index-then-chain order. */
  lemma FindByNameIsFirstMatch(t: Table, name: string)
    ensures FindByName(t, name).None? <==>
      forall b, j :: 0 <= b < |t| && 0 <= j < |t[b]| ==> !EqualsIgnoreCase(t[b][j].name, name)
    ensures FindByName(t, name).Some? ==> EqualsIgnoreCase(At(t, FindByName(t, name).value).name, name)
    ensures FindByName(t, name).Some? ==>
      forall b, j :: 0 <= b < |t| && 0 <= j < |t[b]| && Before(Pos(b, j), FindByName(t, name).value) ==>
          !EqualsIgnoreCase(t[b][j].name, name)
  {
    FindFirstIsFirst(t, (ing: Ingredient) => EqualsIgnoreCase(ing.name, name));
  }

  /** Under the bucket invariant a lookup by id only ever lands in the id's own bucket, and
      a node just added is what a lookup of its id returns: the most recent one wins. */
  lemma FindByIdAfterAdd(t: Table, ing: Ingredient)
    requires |t| > 0 && ing.id >= 0 && BucketInvariant(t)
    ensures FindById(AddStockNode(t, ing), ing.id) == Some(Pos(ing.id % |t|, 0))
  {
    var r: Table := AddStockNode(t, ing);
    AddStockNodeSpec(t, ing);
    var b := ing.id % |t|;
    assert r[b][0].id == ing.id;
    FindByIdIsFirstMatch(r, ing.id);
  }

  /** Two tables agree on where a lookup of `id` leads: both find nothing, or both find an
      ingredient with the same fields. */
  predicate SameLookup(t: Table, r: Table, id: int) {
    && (FindById(t, id).None? <==> FindById(r, id).None?)
    && (FindById(t, id).Some? && FindById(r, id).Some? ==>
          At(t, FindById(t, id).value) == At(r, FindById(r, id).value))
  }

  /** Adding a node with another id to a table where `id` is absent leaves it absent. */
  lemma AddOtherKeepsAbsent(t: Table, ing: Ingredient, id: int)
    requires |t| > 0 && ing.id >= 0 && id != ing.id
    requires FindById(t, id).None?
    ensures FindById(AddStockNode(t, ing), id).None?
  {
    var r: Table := AddStockNode(t, ing);
    var b := ing.id % |t|;
    AddStockNodeSpec(t, ing);
    FindByIdIsFirstMatch(t, id);
    FindByIdIsFirstMatch(r, id);
    forall c, j | 0 <= c < |r| && 0 <= j < |r[c]|
      ensures r[c][j].id != id
    {
      if c == b && j > 0 {
        assert r[c][j] == t[c][j - 1];
      }
    }
  }

  /** Adding a node with another id shifts a found position by one when it is in the bucket
      that grew, and leaves it alone otherwise; the node there is the same. */
  lemma AddOtherShiftsFound(t: Table, ing: Ingredient, id: int)
    requires |t| > 0 && ing.id >= 0 && id != ing.id
    requires FindById(t, id).Some?
    ensures var p := FindById(t, id).value; var b := ing.id % |t|;
      FindById(AddStockNode(t, ing), id) == Some(if p.row == b then Pos(b, p.col + 1) else p)
  {
    var r: Table := AddStockNode(t, ing);
    var b := ing.id % |t|;
    AddStockNodeSpec(t, ing);
    FindByIdIsFirstMatch(t, id);
    var p := FindById(t, id).value;
    var p' := if p.row == b then Pos(b, p.col + 1) else p;
    assert r[p'.row][p'.col] == t[p.row][p.col];
    forall c, j | 0 <= c < |r| && 0 <= j < |r[c]| && Before(Pos(c, j), p')
      ensures r[c][j].id != id
    {
      if c == b && j > 0 {
        assert r[c][j] == t[c][j - 1] && Before(Pos(c, j - 1), p);
      }
    }
    FindByIdIsFirstMatch(r, id);
    assert FindById(r, id) == Some(p');
  }

  /** Adding a node with another id does not move a lookup of `id`: it still finds the same
      ingredient, or still finds nothing. No bucket invariant is needed. */
  lemma FindByIdAfterAddOther(t: Table, ing: Ingredient, id: int)
    requires |t| > 0 && ing.id >= 0 && id != ing.id
    ensures SameLookup(t, AddStockNode(t, ing), id)
  {
    if FindById(t, id).None? {
      AddOtherKeepsAbsent(t, ing, id);
    } else {
      AddOtherShiftsFound(t, ing, id);
      AddStockNodeSpec(t, ing);
    }
  }

  /** Adding records one after another: a lookup of `id` ends on the last record with that id
      in feed order, so the most recently added node wins; with no record of that id the
      lookup is the one of the table before. */
  lemma {:induction false} AddAllFindsLast(t: Table, recs: seq<Ingredient>, id: int)
    requires |t| > 0 && BucketInvariant(t)
    requires forall k :: 0 <= k < |recs| ==> recs[k].id >= 0
    ensures FindById(AddAll(t, recs), id).None? <==>
      FindById(t, id).None? && forall k :: 0 <= k < |recs| ==> recs[k].id != id
    ensures (forall k :: 0 <= k < |recs| ==> recs[k].id != id) ==> SameLookup(t, AddAll(t, recs), id)
    ensures forall k ::
      && 0 <= k < |recs| && recs[k].id == id
      && (forall k' :: k < k' < |recs| ==> recs[k'].id != id) ==>
      var r := AddAll(t, recs);
      FindById(r, id).Some? && At(r, FindById(r, id).value) == recs[k]
    decreases |recs|
  {
    if |recs| > 0 {
      var t1 := AddStockNode(t, recs[0]);
      var rest := recs[1..];
      AddStockNodeSpec(t, recs[0]);
      AddStockNodeKeepsBuckets(t, recs[0]);
      AddAllFindsLast(t1, rest, id);
      assert forall k :: 1 <= k < |recs| ==> recs[k] == rest[k - 1];
      if recs[0].id == id {
        FindByIdAfterAdd(t, recs[0]);
      } else {
        FindByIdAfterAddOther(t, recs[0], id);
      }
    }
  }

  /** In the loaded table a lookup of `id` finds nothing exactly when no record has that id,
      and otherwise finds the last record with it in feed order. */
  lemma CreateStockHashTableFindsLast(size: nat, recs: seq<Ingredient>, id: int)
    requires size > 0
    requires forall k :: 0 <= k < |recs| ==> recs[k].id >= 0
    ensures FindById(CreateStockHashTable(size, recs), id).None? <==>
      forall k :: 0 <= k < |recs| ==> recs[k].id != id
    ensures forall k ::
      && 0 <= k < |recs| && recs[k].id == id
      && (forall k' :: k < k' < |recs| ==> recs[k'].id != id) ==>
      var t := CreateStockHashTable(size, recs);
      FindById(t, id).Some? && At(t, FindById(t, id).value) == recs[k]
  {
    FindByIdIsFirstMatch(Empty(size), id);
    AddAllFindsLast(Empty(size), recs, id);
  }

  /** Under the bucket invariant, the node found by id is in bucket `id % size`. */
  lemma FindByIdInOwnBucket(t: Table, id: int)
    requires |t| > 0 && BucketInvariant(t)
    requires FindById(t, id).Some?
    ensures id >= 0 && FindById(t, id).value.row == id % |t|
  {
  }

  /** Stock level of the ingredient that a lookup by `id` resolves to. */
  function Level(t: Table, id: int): int
    requires FindById(t, id).Some?
  {
    At(t, FindById(t, id).value).stockLevel
  }

  /** Every id in `ids` resolves to a node. */
  predicate IdsResolve(t: Table, ids: seq<int>) {
    forall k :: 0 <= k < |ids| ==> FindById(t, ids[k]).Some?
  }

  /** `r` is `t` with the stock level of node `p` moved by `delta` and nothing else changed. */
  predicate OnlyChanged(t: Table, r: Table, p: Pos, delta: int)
    requires ValidPos(t, p)
  {
    && SameShape(t, r)
    && r[p.row][p.col] == t[p.row][p.col].(stockLevel := t[p.row][p.col].stockLevel + delta)
    && forall b, j :: 0 <= b < |t| && 0 <= j < |t[b]| && Pos(b, j) != p ==> r[b][j] == t[b][j]
  }

  /** Two tables of the same shape holding the same ingredients (ids, names, unit costs) at
      every node; only stock levels may differ. */
  predicate SameIngredients(t: Table, r: Table) {
    && SameShape(t, r)
    && forall b, j :: 0 <= b < |t| && 0 <= j < |t[b]| ==>
         r[b][j].id == t[b][j].id && r[b][j].name == t[b][j].name && r[b][j].cost == t[b][j].cost
  }

  function AdjustAt(t: Table, p: Pos, delta: int): (r: Table)
    requires ValidPos(t, p)
    ensures |r| == |t|
  {
    var ing := t[p.row][p.col];
    t[p.row := t[p.row][p.col := ing.(stockLevel := ing.stockLevel + delta)]]
  }

  lemma AdjustAtSpec(t: Table, p: Pos, delta: int)
    requires ValidPos(t, p)
    ensures OnlyChanged(t, AdjustAt(t, p, delta), p, delta)
    ensures SameIngredients(t, AdjustAt(t, p, delta))
  {
  }

  /** What `updateStock` does once it has resolved (or failed to resolve) its node. */
  predicate Resolved(t: Table, r: Table, loc: Option<Pos>, delta: int) {
    match loc
    case None => r == t
    case Some(p) => ValidPos(t, p) && OnlyChanged(t, r, p, delta)
  }

  /** `updateStock(name, id, delta)`: resolves by name when a name is given (Java: non-null),
      otherwise by id unless the id is the sentinel -1, and adds the signed delta to that one
      ingredient; an unresolved selector changes nothing. */
  function UpdateStock(t: Table, name: Option<string>, id: int, delta: int): (r: Table)
    ensures |r| == |t|
  {
    match Selected(t, name, id)
    case None => t
    case Some(p) => AdjustAt(t, p, delta)
  }

  /** The node `updateStock` resolves: by name when one is given, else by id unless -1. */
  function Selected(t: Table, name: Option<string>, id: int): Option<Pos> {
    if name.Some? then FindByName(t, name.value) else if id != -1 then FindById(t, id) else None
  }

  /** The resolved node, and only it, moves by `delta`; an unresolved selector (no node of
      that name, no node of that id, or the sentinel id -1 without a name) changes nothing;
      ids, names and costs never change. */
  lemma UpdateStockSpec(t: Table, name: Option<string>, id: int, delta: int)
    ensures name.Some? ==> Resolved(t, UpdateStock(t, name, id, delta), FindByName(t, name.value), delta)
    ensures name.None? && id != -1 ==> Resolved(t, UpdateStock(t, name, id, delta), FindById(t, id), delta)
    ensures name.None? && id == -1 ==> UpdateStock(t, name, id, delta) == t
    ensures SameIngredients(t, UpdateStock(t, name, id, delta))
  {
    if Selected(t, name, id).Some? {
      AdjustAtSpec(t, Selected(t, name, id).value, delta);
    }
  }

  /** Lookups only read ids and names, so a change of stock levels never moves them. */
  lemma LookupsStable(t: Table, r: Table, id: int, name: string)
    requires SameIngredients(t, r)
    ensures FindById(r, id) == FindById(t, id)
    ensures FindByName(r, name) == FindByName(t, name)
    ensures BucketInvariant(t) ==> BucketInvariant(r)
  {
    FindFirstAgrees(r, (ing: Ingredient) => ing.id == id, t, (ing: Ingredient) => ing.id == id);
    FindFirstAgrees(r, (ing: Ingredient) => EqualsIgnoreCase(ing.name, name), t,
        (ing: Ingredient) => EqualsIgnoreCase(ing.name, name));
  }
}
