/** The products table and the repository operations over it:
    `create`, `findByName`, `findAllById` and `updateQuantity`. */
module Products {
  import opened Wrappers
  import opened Lookup

  type ProductId = string

  /** One row of the products table. The timestamps and the
      `order_products` relation are not part of this model. */
  datatype Product = Product(id: ProductId, name: string, price: int, quantity: int)

  /** The products table keyed by its primary key: every row is stored
      under its own id. */
  type Catalog = m: map<ProductId, Product> | forall k :: k in m ==> m[k].id == k witness map[]

  /** A `{ id, quantity }` entry of an order request or of a stock update. */
  datatype Item = Item(id: ProductId, quantity: int)

  function Ids(items: seq<Item>): seq<ProductId> {
    seq(|items|, i requires 0 <= i < |items| => items[i].id)
  }

  function RowIds(rows: seq<Product>): seq<ProductId> {
    seq(|rows|, i requires 0 <= i < |rows| => rows[i].id)
  }

  function Quantities(items: seq<Item>): seq<int> {
    seq(|items|, i requires 0 <= i < |items| => items[i].quantity)
  }

  /** The `find` callbacks that match a row, or a request entry, by id. */
  function HasId(k: ProductId): Product -> bool {
    (p: Product) => p.id == k
  }

  function ItemHasId(k: ProductId): Item -> bool {
    (it: Item) => it.id == k
  }

  /** Every requested id names a stored product. */
  ghost predicate AllExist(m: Catalog, items: seq<Item>) {
    forall i :: 0 <= i < |items| ==> items[i].id in m
  }

  /** No product id is requested twice. */
  ghost predicate DistinctIds(items: seq<Item>) {
    Distinct(Ids(items))
  }

  /** Two entries of a request with distinct ids name different products. */
  lemma DistinctIdsApart(items: seq<Item>, i: int, j: int)
    requires DistinctIds(items) && 0 <= i < j < |items|
    ensures items[i].id != items[j].id
  {
    assert Ids(items)[i] == items[i].id && Ids(items)[j] == items[j].id;
  }

  /** The entry at `i` is the first one in `items` with its id. */
  ghost predicate FirstWithId(items: seq<Item>, i: int)
    requires 0 <= i < |items|
  {
    forall j :: 0 <= j < i ==> items[j].id != items[i].id
  }

  /** No product has negative stock. */
  predicate NonNegativeStock(m: Catalog) {
    forall k :: k in m ==> m[k].quantity >= 0
  }

  /** No row after the one at `i` has its id. */
  ghost predicate LastWithId(rows: seq<Product>, i: int)
    requires 0 <= i < |rows|
  {
    forall j :: i < j < |rows| ==> rows[j].id != rows[i].id
  }

  /** Saving rows writes each one under its primary key, inserting it when
      the key is new and replacing the stored row otherwise. */
  function Save(m: Catalog, rows: seq<Product>): (r: Catalog)
    ensures m.Keys <= r.Keys
    ensures forall i :: 0 <= i < |rows| ==> rows[i].id in r
    decreases |rows|
  {
    if |rows| == 0 then m
    else
      var init := rows[..|rows| - 1];
      var last := rows[|rows| - 1];
      assert forall i :: 0 <= i < |init| ==> rows[i] == init[i];
      Save(m, init)[last.id := last]
  }

  /** Keys no saved row carries are neither added nor changed. */
  lemma {:induction false} SaveKeepsUnsaved(m: Catalog, rows: seq<Product>, k: ProductId)
    requires k !in RowIds(rows)
    ensures k in Save(m, rows) <==> k in m
    ensures k in m ==> Save(m, rows)[k] == m[k]
    decreases |rows|
  {
    if |rows| > 0 {
      var init := rows[..|rows| - 1];
      assert RowIds(rows) == RowIds(init) + [rows[|rows| - 1].id];
      SaveKeepsUnsaved(m, init, k);
    }
  }

  /** Of the rows saved with one id, the last is the one stored. */
  lemma {:induction false} SaveKeepsLast(m: Catalog, rows: seq<Product>, i: int)
    requires 0 <= i < |rows| && LastWithId(rows, i)
    ensures Save(m, rows)[rows[i].id] == rows[i]
    decreases |rows|
  {
    if i < |rows| - 1 {
      var init := rows[..|rows| - 1];
      assert rows[i] == init[i];
      SaveKeepsLast(m, init, i);
    }
  }

  /** The stored rows whose ids are among `ids`, each once, in the order of
      their ids' first occurrence; unknown ids are skipped. */
  function FindAllById(m: Catalog, ids: seq<ProductId>): (r: seq<Product>)
    ensures |r| <= |ids|
    ensures forall i :: 0 <= i < |r| ==> r[i].id in ids && r[i].id in m && m[r[i].id] == r[i]
    ensures forall k :: k in ids && k in m ==> m[k] in r
    ensures forall i, j :: 0 <= i < j < |r| ==> r[i].id != r[j].id
    decreases |ids|
  {
    if |ids| == 0 then []
    else
      var init := ids[..|ids| - 1];
      var k := ids[|ids| - 1];
      assert ids == init + [k];
      var rows := FindAllById(m, init);
      if k in m && k !in init then rows + [m[k]] else rows
  }

  /** The batch lookup returns as many rows as ids were asked for exactly
      when no id is asked for twice and every id is stored. */
  lemma {:induction false} FoundCountMatchesIff(m: Catalog, ids: seq<ProductId>)
    ensures |FindAllById(m, ids)| == |ids| <==> Distinct(ids) && forall k :: k in ids ==> k in m
    decreases |ids|
  {
    if |ids| > 0 {
      var init := ids[..|ids| - 1];
      var k := ids[|ids| - 1];
      assert ids == init + [k];
      FoundCountMatchesIff(m, init);
      if Distinct(ids) && forall k' :: k' in ids ==> k' in m {
        assert Distinct(init);
        assert k !in init;
      }
    }
  }

  /** The quantity of the first request entry for `k`, or 0 when there is
      none. */
  function Requested(items: seq<Item>, k: ProductId): int {
    match Find(items, ItemHasId(k))
    case Some(it) => it.quantity
    case None => 0
  }

  /** The `?.quantity || 0` read of the request: the quantity of the first
      entry with the id, and 0 when no entry has it. */
  lemma RequestedOfFirst(items: seq<Item>, k: ProductId)
    ensures k !in Ids(items) ==> Requested(items, k) == 0
    ensures forall i :: 0 <= i < |items| && items[i].id == k && FirstWithId(items, i) ==>
      Requested(items, k) == items[i].quantity
  {
    if k !in Ids(items) {
      forall i | 0 <= i < |items| ensures !ItemHasId(k)(items[i]) {
        assert Ids(items)[i] == items[i].id;
      }
    }
  }

  /** `row` with the first requested quantity for its id subtracted. */
  function Decrement(row: Product, items: seq<Item>): Product {
    row.(quantity := row.quantity - Requested(items, row.id))
  }

  /** The rows `updateQuantity` computes: the re-read rows, decremented. */
  function UpdatedRows(m: Catalog, items: seq<Item>): seq<Product> {
    var toUpdate := FindAllById(m, Ids(items));
    seq(|toUpdate|, t requires 0 <= t < |toUpdate| => Decrement(toUpdate[t], items))
  }

  /** Saving rows that are all stored already adds no key. */
  lemma SaveAddsNothingNew(m: Catalog, rows: seq<Product>)
    requires forall i :: 0 <= i < |rows| ==> rows[i].id in m
    ensures Save(m, rows).Keys == m.Keys
  {
    forall k | k in Save(m, rows) ensures k in m {
      if k !in RowIds(rows) {
        SaveKeepsUnsaved(m, rows, k);
      }
    }
  }

  /** Re-reads the requested rows, subtracts from each the quantity of the
      first request entry with its id, saves them and returns them. */
  function UpdateQuantity(m: Catalog, items: seq<Item>): (r: (Catalog, seq<Product>))
    ensures r.0.Keys == m.Keys
  {
    var rows := UpdatedRows(m, items);
    SaveAddsNothingNew(m, rows);
    (Save(m, rows), rows)
  }

  /** The decremented rows keep the lookup's ids: each is stored, was
      requested, and appears once. */
  lemma UpdatedRowsIds(m: Catalog, items: seq<Item>)
    ensures RowIds(UpdatedRows(m, items)) == RowIds(FindAllById(m, Ids(items)))
    ensures var rows := UpdatedRows(m, items);
      forall t :: 0 <= t < |rows| ==> rows[t].id in m && rows[t].id in Ids(items) && LastWithId(rows, t)
  {
    var toUpdate := FindAllById(m, Ids(items));
    var rows := UpdatedRows(m, items);
    assert forall t :: 0 <= t < |rows| ==> rows[t].id == toUpdate[t].id;
    assert RowIds(rows) == RowIds(toUpdate);
    forall t | 0 <= t < |rows| ensures LastWithId(rows, t) {
      forall j | t < j < |rows| ensures rows[j].id != rows[t].id {
        assert toUpdate[j].id != toUpdate[t].id;
      }
    }
  }

  /** Products whose ids were not requested keep their rows. */
  lemma UpdateQuantityKeepsOthers(m: Catalog, items: seq<Item>)
    ensures forall k :: k in m && k !in Ids(items) ==> UpdateQuantity(m, items).0[k] == m[k]
  {
    var rows := UpdatedRows(m, items);
    UpdatedRowsIds(m, items);
    forall k | k in m && k !in Ids(items) ensures Save(m, rows)[k] == m[k] {
      assert k !in RowIds(rows);
      SaveKeepsUnsaved(m, rows, k);
    }
  }

  /** A stored product's row changes only in its quantity, which drops by the
      quantity of the first request entry with its id. */
  lemma UpdateQuantitySubtractsFirst(m: Catalog, items: seq<Item>, i: int)
    requires 0 <= i < |items| && items[i].id in m && FirstWithId(items, i)
    ensures var k := items[i].id;
      UpdateQuantity(m, items).0[k] == m[k].(quantity := m[k].quantity - items[i].quantity)
  {
    var k := items[i].id;
    var toUpdate := FindAllById(m, Ids(items));
    var rows := UpdatedRows(m, items);
    assert Ids(items)[i] == k;
    assert m[k] in toUpdate;
    var t :| 0 <= t < |toUpdate| && toUpdate[t] == m[k];
    assert Requested(items, k) == items[i].quantity;
    assert rows[t] == m[k].(quantity := m[k].quantity - items[i].quantity);
    UpdatedRowsIds(m, items);
    SaveKeepsLast(m, rows, t);
  }

  /** When the request names distinct stored products, each loses exactly
      its requested quantity. */
  lemma UpdateQuantityDistinct(m: Catalog, items: seq<Item>)
    requires DistinctIds(items) && AllExist(m, items)
    ensures var m' := UpdateQuantity(m, items).0;
      forall i :: 0 <= i < |items| ==>
        m'[items[i].id] == m[items[i].id].(quantity := m[items[i].id].quantity - items[i].quantity)
  {
    forall i | 0 <= i < |items|
      ensures UpdateQuantity(m, items).0[items[i].id] == m[items[i].id].(quantity := m[items[i].id].quantity - items[i].quantity)
    {
      forall j | 0 <= j < i ensures items[j].id != items[i].id {
        DistinctIdsApart(items, j, i);
      }
      UpdateQuantitySubtractsFirst(m, items, i);
    }
  }

  /** The rows returned are the re-read rows in lookup order, and each is
      exactly the row saved under its id. */
  lemma UpdateQuantityReturnsSaved(m: Catalog, items: seq<Item>)
    ensures RowIds(UpdateQuantity(m, items).1) == RowIds(FindAllById(m, Ids(items)))
    ensures var (m', rows) := UpdateQuantity(m, items);
      forall t :: 0 <= t < |rows| ==> rows[t] == m'[rows[t].id]
  {
    var rows := UpdatedRows(m, items);
    UpdatedRowsIds(m, items);
    forall t | 0 <= t < |rows| ensures rows[t] == Save(m, rows)[rows[t].id] {
      SaveKeepsLast(m, rows, t);
    }
  }

  /** Inserts a new row under an id the database generated. */
  function Create(m: Catalog, id: ProductId, name: string, price: int, quantity: int): (r: (Catalog, Product))
    requires id !in m
    ensures r.0.Keys == m.Keys + {id}
    ensures r.0[id] == r.1
    ensures r.1.id == id && r.1.name == name && r.1.price == price && r.1.quantity == quantity
    ensures forall k :: k in m ==> r.0[k] == m[k]
  {
    var p := Product(id, name, price, quantity);
    assert Save(m, [p]) == m[id := p];
    (Save(m, [p]), p)
  }

  /** Some row with the given name, or `None` when no row has it. */
  method FindByName(m: Catalog, name: string) returns (r: Option<Product>)
    ensures r.Some? ==> r.value.id in m && m[r.value.id] == r.value && r.value.name == name
    ensures r.None? <==> forall k :: k in m ==> m[k].name != name
  {
    if k :| k in m && m[k].name == name {
      r := Some(m[k]);
    } else {
      r := None;
    }
  }
}
