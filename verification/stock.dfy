/** Total stock held in the products table, used to state that placing an
    order removes exactly the ordered quantities. */
module Stock {
  import opened Lookup
  import opened Products

  /** The sum of every product's quantity. */
  ghost function TotalStock(m: map<ProductId, Product>): int
    decreases |m|
  {
    if |m| == 0 then 0
    else
      var k :| k in m;
      m[k].quantity + TotalStock(m - {k})
  }

  /** Names the product the sum takes out first. */
  lemma TotalStockUnfold(m: map<ProductId, Product>) returns (k: ProductId)
    requires |m| > 0
    ensures k in m && TotalStock(m) == m[k].quantity + TotalStock(m - {k})
  {
    k :| k in m && TotalStock(m) == m[k].quantity + TotalStock(m - {k});
  }

  /** Any product can be taken out of the sum first. */
  lemma {:induction false} TotalStockRemove(m: map<ProductId, Product>, k: ProductId)
    requires k in m
    ensures TotalStock(m) == m[k].quantity + TotalStock(m - {k})
    decreases |m|
  {
    assert k in m.Keys;
    assert |m.Keys| > 0;
    var k' := TotalStockUnfold(m);
    if k' != k {
      var a := m - {k'};
      var b := m - {k};
      RemoveShrinks(m, k');
      RemoveShrinks(m, k);
      TotalStockRemove(a, k);
      TotalStockRemove(b, k');
      RemoveCommutes(m, k, k');
    }
  }

  lemma RemoveCommutes(m: map<ProductId, Product>, k: ProductId, k': ProductId)
    ensures m - {k'} - {k} == m - {k} - {k'}
  {
  }

  lemma RemoveShrinks(m: map<ProductId, Product>, k: ProductId)
    requires k in m
    ensures |m - {k}| == |m| - 1
  {
    assert (m - {k}).Keys == m.Keys - {k};
  }

  /** Replacing one row changes the sum by the change in its quantity. */
  lemma TotalStockReplace(m: map<ProductId, Product>, k: ProductId, p: Product)
    requires k in m
    ensures TotalStock(m[k := p]) == TotalStock(m) - m[k].quantity + p.quantity
  {
    TotalStockRemove(m, k);
    TotalStockRemove(m[k := p], k);
    assert m[k := p] - {k} == m - {k};
  }

  /** Putting back an old row for `k` changes the sum by the change in its
      quantity. */
  lemma TotalStockRestore(m2: map<ProductId, Product>, k: ProductId, p: Product)
    requires k in m2
    ensures TotalStock(m2) == TotalStock(m2[k := p]) - p.quantity + m2[k].quantity
  {
    TotalStockReplace(m2[k := p], k, m2[k]);
    assert m2[k := p][k := m2[k]] == m2;
  }

  lemma SumQuantitiesSnoc(items: seq<Item>)
    requires |items| > 0
    ensures Sum(Quantities(items)) == Sum(Quantities(items[..|items| - 1])) + items[|items| - 1].quantity
  {
    var qs := Quantities(items);
    assert qs[..|items| - 1] == Quantities(items[..|items| - 1]);
  }

  /** Stock `m2` differs from `m` by the decrements `items` ask for. */
  ghost predicate DecrementedBy(m: Catalog, m2: Catalog, items: seq<Item>) {
    && m2.Keys == m.Keys
    && DistinctIds(items) && AllExist(m, items)
    && (forall k :: k in m && k !in Ids(items) ==> m2[k] == m[k])
    && (forall i :: 0 <= i < |items| ==> m2[items[i].id].quantity == m[items[i].id].quantity - items[i].quantity)
  }

  /** Undoing the last decrement leaves the others in place. */
  lemma DecrementedByInit(m: Catalog, m2: Catalog, items: seq<Item>)
    requires |items| > 0 && DecrementedBy(m, m2, items)
    ensures var k := items[|items| - 1].id;
      k in m && DecrementedBy(m, m2[k := m[k]], items[..|items| - 1])
  {
    var n := |items| - 1;
    var k := items[n].id;
    RestoreLastKeepsOthers(m, m2, items);
    RestoreLastKeepsDecrements(m, m2, items);
    DistinctIdsPrefix(items, n);
  }

  lemma RestoreLastKeepsOthers(m: Catalog, m2: Catalog, items: seq<Item>)
    requires m2.Keys == m.Keys && |items| > 0 && items[|items| - 1].id in m
    requires forall k :: k in m && k !in Ids(items) ==> m2[k] == m[k]
    ensures var k := items[|items| - 1].id;
      forall k' :: k' in m && k' !in Ids(items[..|items| - 1]) ==> m2[k := m[k]][k'] == m[k']
  {
    var n := |items| - 1;
    var k := items[n].id;
    assert Ids(items) == Ids(items[..n]) + [k];
  }

  lemma RestoreLastKeepsDecrements(m: Catalog, m2: Catalog, items: seq<Item>)
    requires m2.Keys == m.Keys && |items| > 0 && DistinctIds(items) && AllExist(m, items)
    requires forall i :: 0 <= i < |items| ==> m2[items[i].id].quantity == m[items[i].id].quantity - items[i].quantity
    ensures var k := items[|items| - 1].id;
      var init := items[..|items| - 1];
      forall i :: 0 <= i < |init| ==> m2[k := m[k]][init[i].id].quantity == m[init[i].id].quantity - init[i].quantity
  {
    var n := |items| - 1;
    forall i | 0 <= i < n ensures items[i].id != items[n].id {
      DistinctIdsApart(items, i, n);
    }
  }

  lemma DistinctIdsPrefix(items: seq<Item>, n: nat)
    requires n <= |items| && DistinctIds(items)
    ensures DistinctIds(items[..n])
  {
    var init := items[..n];
    forall i, j | 0 <= i < j < |init| ensures Ids(init)[i] != Ids(init)[j] {
      DistinctIdsApart(items, i, j);
      assert items[i] == init[i] && items[j] == init[j];
    }
  }

  /** When each of some distinct stored products loses its requested
      quantity and nothing else changes, the total drops by the sum of the
      requested quantities. */
  lemma {:induction false} TotalStockAfterDecrement(m: Catalog, m2: Catalog, items: seq<Item>)
    requires DecrementedBy(m, m2, items)
    ensures TotalStock(m2) == TotalStock(m) - Sum(Quantities(items))
    decreases |items|
  {
    if |items| == 0 {
      assert m2 == m by {
        assert forall k :: k in m ==> k !in Ids(items);
      }
    } else {
      var n := |items| - 1;
      var k := items[n].id;
      var m1 := m2[k := m[k]];
      DecrementedByInit(m, m2, items);
      TotalStockAfterDecrement(m, m1, items[..n]);
      TotalStockRestore(m2, k, m[k]);
      SumQuantitiesSnoc(items);
    }
  }
}
