/** The three collaborators the workflow calls: the customer directory, the
    product catalog (`findAllById`, `updateQuantity`) and the order ledger
    (`create`). Their implementations are not part of this model; each is given
    here by the contract the workflow relies on, plus one implementation that
    meets it. */
module Repositories {
  import opened Seqs
  import opened Domain

  /** The stock record the catalog holds for `id`. */
  function Record(catalog: map<ProductId, Product>, id: ProductId): StockItem
    requires id in catalog
  {
    StockItem(id, catalog[id].price, catalog[id].quantity)
  }

  /** What the workflow assumes of `findAllById(ids)`: one record per requested
      id that exists in the catalog, no id twice, each record as the catalog
      holds it, and nothing that was not asked for. The order of the records is
      left open. */
  predicate IsFetchOf(catalog: map<ProductId, Product>, requested: seq<RequestLine>, fetched: seq<StockItem>) {
    && Distinct(StockIds(fetched))
    && (forall i :: 0 <= i < |fetched| ==> fetched[i].id in catalog && fetched[i] == Record(catalog, fetched[i].id))
    && (forall i :: 0 <= i < |fetched| ==> fetched[i].id in RequestIds(requested))
    && (forall k :: 0 <= k < |requested| && requested[k].id in catalog ==> requested[k].id in StockIds(fetched))
  }

  /** One lookup that meets the `findAllById` contract (see
      `FindAllByIdMeetsContract`): records in the order of the request, a
      repeated id kept at its last occurrence. */
  function FindAllById(catalog: map<ProductId, Product>, requested: seq<RequestLine>): seq<StockItem>
  {
    if |requested| == 0 then []
    else
      var rest := FindAllById(catalog, requested[1..]);
      var id := requested[0].id;
      if id in catalog && id !in StockIds(rest) then [Record(catalog, id)] + rest else rest
  }

  lemma StockIdsCons(item: StockItem, rest: seq<StockItem>)
    ensures StockIds([item] + rest) == [item.id] + StockIds(rest)
  {
    assert ([item] + rest)[1..] == rest;
  }

  lemma RequestIdsCons(requested: seq<RequestLine>)
    requires |requested| > 0
    ensures RequestIds(requested) == [requested[0].id] + RequestIds(requested[1..])
  {
  }

  lemma {:induction false} FindAllByIdMeetsContract(catalog: map<ProductId, Product>, requested: seq<RequestLine>)
    ensures IsFetchOf(catalog, requested, FindAllById(catalog, requested))
  {
    if |requested| > 0 {
      var rest := FindAllById(catalog, requested[1..]);
      FindAllByIdMeetsContract(catalog, requested[1..]);
      RequestIdsCons(requested);
      var id := requested[0].id;
      assert forall k :: 1 <= k < |requested| ==> requested[k] == requested[1..][k - 1];
      if id in catalog && id !in StockIds(rest) {
        var item := Record(catalog, id);
        var fetched := [item] + rest;
        StockIdsCons(item, rest);
        assert fetched == FindAllById(catalog, requested);
        assert Distinct(StockIds(fetched)) by {
          forall i, j | 0 <= i < j < |fetched|
            ensures StockIds(fetched)[i] != StockIds(fetched)[j]
          {
            assert StockIds(fetched)[j] == StockIds(rest)[j - 1];
          }
        }
        assert forall i :: 0 <= i < |fetched| ==> fetched[i] == if i == 0 then item else rest[i - 1];
      }
    }
  }

  /** `updateQuantity`: each listed product that exists gets the listed quantity,
      its price stays; products not listed keep their record. */
  function UpdateQuantity(catalog: map<ProductId, Product>, updates: seq<QuantityUpdate>): (c: map<ProductId, Product>)
    ensures c.Keys == catalog.Keys
    ensures forall id :: id in c ==> c[id].price == catalog[id].price
    ensures forall id :: id in catalog && id !in UpdateIds(updates) ==> c[id] == catalog[id]
    ensures Distinct(UpdateIds(updates)) ==>
              forall i :: 0 <= i < |updates| && updates[i].id in catalog ==> c[updates[i].id].quantity == updates[i].quantity
  {
    if |updates| == 0 then catalog
    else
      var u := updates[0];
      var first := if u.id in catalog then catalog[u.id := catalog[u.id].(quantity := u.quantity)] else catalog;
      var c := UpdateQuantity(first, updates[1..]);
      assert forall i :: 1 <= i < |updates| ==> updates[i] == updates[1..][i - 1];
      assert forall id :: id in UpdateIds(updates[1..]) ==> id in UpdateIds(updates) by {
        forall id | id in UpdateIds(updates[1..])
          ensures id in UpdateIds(updates)
        {
          var j :| 0 <= j < |updates[1..]| && UpdateIds(updates[1..])[j] == id;
          assert UpdateIds(updates)[j + 1] == id;
        }
      }
      assert u.id in UpdateIds(updates) by {
        assert UpdateIds(updates)[0] == u.id;
      }
      assert Distinct(UpdateIds(updates)) ==> Distinct(UpdateIds(updates[1..])) && u.id !in UpdateIds(updates[1..]) by {
        if Distinct(UpdateIds(updates)) {
          forall i, j | 0 <= i < j < |updates[1..]|
            ensures UpdateIds(updates[1..])[i] != UpdateIds(updates[1..])[j]
          {
            assert UpdateIds(updates)[i + 1] != UpdateIds(updates)[j + 1];
          }
          forall j | 0 <= j < |updates[1..]|
            ensures UpdateIds(updates[1..])[j] != u.id
          {
            assert UpdateIds(updates)[0] != UpdateIds(updates)[j + 1];
          }
        }
      }
      c
  }

  /** Every order's id is its position in the ledger. */
  predicate IdsArePositions(orders: seq<Order>) {
    forall i :: 0 <= i < |orders| ==> orders[i].id == i
  }

  /** The ledger's `create`: a new order for `customer` with `lines`, under an
      id no earlier order has. */
  function NewOrder(orders: seq<Order>, customer: CustomerId, lines: seq<OrderLine>): (o: Order)
    ensures o.customer == customer && o.lines == lines
    ensures IdsArePositions(orders) ==> forall i :: 0 <= i < |orders| ==> orders[i].id != o.id
    ensures IdsArePositions(orders) ==> IdsArePositions(orders + [o])
  {
    Order(|orders|, customer, lines)
  }
}
