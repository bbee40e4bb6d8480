/** The checks and computations `execute` performs on the fetched stock
    records: the count check, the availability scan, the priced order lines and
    the new stock quantities. All of it is pure; nothing here touches a
    repository. */
module StockValidator {
  import opened Wrappers
  import opened Seqs
  import opened Domain
  import opened Repositories

  /** `products.find(p => p.id === id)`: the position of the first request line
      for `id`, or None when no line names it. */
  function FindRequest(requested: seq<RequestLine>, id: ProductId): (r: Option<nat>)
    ensures r.Some? ==> r.value < |requested| && requested[r.value].id == id
    ensures r.Some? ==> forall j :: 0 <= j < r.value ==> requested[j].id != id
    ensures r.None? <==> forall j :: 0 <= j < |requested| ==> requested[j].id != id
  {
    if |requested| == 0 then None
    else if requested[0].id == id then Some(0)
    else match FindRequest(requested[1..], id)
      case None => None
      case Some(k) => Some(k + 1)
  }

  /** `k` is the first request line naming `id`. */
  predicate FirstMatch(requested: seq<RequestLine>, id: ProductId, k: int) {
    0 <= k < |requested| && requested[k].id == id && forall j :: 0 <= j < k ==> requested[j].id != id
  }

  /** The quantity an order line gets: the matched request's quantity, or 0
      when no request line matches (`orderProduct?.quantity || 0`). */
  function OrderedQuantity(requested: seq<RequestLine>, id: ProductId): (q: int)
    ensures forall k :: FirstMatch(requested, id, k) ==> q == requested[k].quantity
    ensures (forall j :: 0 <= j < |requested| ==> requested[j].id != id) ==> q == 0
  {
    match FindRequest(requested, id)
    case None => 0
    case Some(k) => requested[k].quantity
  }

  /** A record raises no availability failure: either no request line matches
      it, or the first line naming it asks for no more than is in stock. */
  function Fits(requested: seq<RequestLine>, item: StockItem): (ok: bool)
    ensures ok <==> forall k :: FirstMatch(requested, item.id, k) ==> requested[k].quantity <= item.quantity
  {
    match FindRequest(requested, item.id)
    case None => true
    case Some(k) => !(requested[k].quantity > item.quantity)
  }

  /** The `areAllProductsAvailable` flag after the scan: it starts true and is
      cleared by any record that does not fit; every record is visited. */
  function ScanAvailability(requested: seq<RequestLine>, fetched: seq<StockItem>): (available: bool)
    ensures available <==> forall i :: 0 <= i < |fetched| ==> Fits(requested, fetched[i])
  {
    if |fetched| == 0 then true
    else
      var flag := ScanAvailability(requested, fetched[..|fetched| - 1]);
      var last := fetched[|fetched| - 1];
      assert forall i :: 0 <= i < |fetched| - 1 ==> fetched[..|fetched| - 1][i] == fetched[i];
      if !Fits(requested, last) then false else flag
  }

  /** The order line built for one stock record. */
  function PricedLine(requested: seq<RequestLine>, item: StockItem): OrderLine {
    OrderLine(item.id, item.price, OrderedQuantity(requested, item.id))
  }

  /** The order lines built from the fetched records: one per record, in
      fetch order, each carrying the record's id and price and the quantity
      ordered for it. */
  function PriceLines(requested: seq<RequestLine>, fetched: seq<StockItem>): (lines: seq<OrderLine>)
    ensures |lines| == |fetched|
    ensures forall i :: 0 <= i < |fetched| ==>
              && lines[i].productId == fetched[i].id
              && lines[i].price == fetched[i].price
              && lines[i].quantity == OrderedQuantity(requested, fetched[i].id)
  {
    seq(|fetched|, i requires 0 <= i < |fetched| => PricedLine(requested, fetched[i]))
  }

  /** The count check followed by the availability scan: priced lines, or the
      rejection the workflow raises. */
  function Validate(requested: seq<RequestLine>, fetched: seq<StockItem>): (r: Result<seq<OrderLine>, Error>)
    ensures r.Success? <==> |fetched| == |requested| && forall i :: 0 <= i < |fetched| ==> Fits(requested, fetched[i])
    ensures r == Failure(ProductNotFound) <==> |fetched| != |requested|
    ensures r == Failure(InsufficientStock) <==>
              |fetched| == |requested| && exists i :: 0 <= i < |fetched| && !Fits(requested, fetched[i])
    ensures r.Success? ==> r.value == PriceLines(requested, fetched)
  {
    if |fetched| != |requested| then Failure(ProductNotFound)
    else
      var lines := PriceLines(requested, fetched);
      if !ScanAvailability(requested, fetched) then Failure(InsufficientStock)
      else Success(lines)
  }

  /** The entry of the `updateQuantity` list for one record: its stock less
      the matched request's quantity, or its stock unchanged when no request
      line matches. */
  function UpdateFor(requested: seq<RequestLine>, item: StockItem): (u: QuantityUpdate)
    ensures u.id == item.id
    ensures u.quantity == item.quantity - OrderedQuantity(requested, item.id)
  {
    match FindRequest(requested, item.id)
    case Some(k) => QuantityUpdate(item.id, item.quantity - requested[k].quantity)
    case None => QuantityUpdate(item.id, item.quantity)
  }

  /** The list passed to `updateQuantity`: one entry per fetched
      record, for the same ids in the same order, each lowered by exactly the
      quantity its order line carries. */
  function NewQuantities(requested: seq<RequestLine>, fetched: seq<StockItem>): (updates: seq<QuantityUpdate>)
    ensures |updates| == |fetched|
    ensures StockIds(fetched) == UpdateIds(updates)
    ensures forall i :: 0 <= i < |fetched| ==>
              updates[i].quantity == fetched[i].quantity - OrderedQuantity(requested, fetched[i].id)
  {
    var updates := seq(|fetched|, i requires 0 <= i < |fetched| => UpdateFor(requested, fetched[i]));
    assert forall i :: 0 <= i < |fetched| ==> StockIds(fetched)[i] == UpdateIds(updates)[i];
    updates
  }

  /** Every requested product exists in the catalog. */
  predicate AllExist(catalog: map<ProductId, Product>, requested: seq<RequestLine>) {
    forall k :: 0 <= k < |requested| ==> requested[k].id in catalog
  }

  /** Every request line exists and asks for no more than the catalog holds. */
  predicate AllInStock(catalog: map<ProductId, Product>, requested: seq<RequestLine>) {
    forall k :: 0 <= k < |requested| ==> requested[k].id in catalog && requested[k].quantity <= catalog[requested[k].id].quantity
  }

  /** An order line read back as the request line it answers. */
  function AsRequests(lines: seq<OrderLine>): (rs: seq<RequestLine>)
    ensures |rs| == |lines|
    ensures forall i :: 0 <= i < |lines| ==> rs[i] == RequestLine(lines[i].productId, lines[i].quantity)
  {
    seq(|lines|, i requires 0 <= i < |lines| => RequestLine(lines[i].productId, lines[i].quantity))
  }

  /** When no product is requested twice, `find` returns the one line naming it. */
  lemma FindRequestUnique(requested: seq<RequestLine>, k: nat)
    requires k < |requested|
    requires Distinct(RequestIds(requested))
    ensures FindRequest(requested, requested[k].id) == Some(k)
  {
    var r := FindRequest(requested, requested[k].id);
    assert r.Some? && r.value <= k;
    assert RequestIds(requested)[r.value] == RequestIds(requested)[k];
  }

  /** Under the `findAllById` contract a requested product that exists has a
      fetched record. */
  lemma FetchedIndexOf(catalog: map<ProductId, Product>, requested: seq<RequestLine>, fetched: seq<StockItem>, k: nat)
    returns (i: nat)
    requires IsFetchOf(catalog, requested, fetched)
    requires k < |requested| && requested[k].id in catalog
    ensures i < |fetched| && fetched[i].id == requested[k].id
  {
    assert requested[k].id in StockIds(fetched);
    i :| 0 <= i < |fetched| && StockIds(fetched)[i] == requested[k].id;
  }

  /** Under the `findAllById` contract every fetched record has a request line,
      so neither the `|| 0` default of the priced line nor the branch that
      keeps a record's quantity unchanged is ever taken. */
  lemma {:induction false} EveryFetchedRecordIsRequested(catalog: map<ProductId, Product>, requested: seq<RequestLine>, fetched: seq<StockItem>)
    requires IsFetchOf(catalog, requested, fetched)
    ensures forall i :: 0 <= i < |fetched| ==> FindRequest(requested, fetched[i].id).Some?
  {
    forall i | 0 <= i < |fetched|
      ensures FindRequest(requested, fetched[i].id).Some?
    {
      var k :| 0 <= k < |requested| && RequestIds(requested)[k] == fetched[i].id;
    }
  }

  /** The count check compares against the number of request lines, so it
      passes exactly when every requested product exists and no product is
      requested twice. */
  lemma CountCheckPassesIff(catalog: map<ProductId, Product>, requested: seq<RequestLine>, fetched: seq<StockItem>)
    requires IsFetchOf(catalog, requested, fetched)
    ensures |fetched| == |requested| <==> AllExist(catalog, requested) && Distinct(RequestIds(requested))
  {
    var F := Elems(StockIds(fetched));
    var R := Elems(RequestIds(requested));
    var K := catalog.Keys;
    assert F == R * K by {
      forall x | x in F ensures x in R * K {
        var i :| 0 <= i < |fetched| && StockIds(fetched)[i] == x;
      }
      forall x | x in R * K ensures x in F {
        var k :| 0 <= k < |requested| && RequestIds(requested)[k] == x;
        var i := FetchedIndexOf(catalog, requested, fetched, k);
        assert StockIds(fetched)[i] == x;
      }
    }
    DistinctCardinality(StockIds(fetched));
    DistinctCardinality(RequestIds(requested));
    SubsetCardinality(R * K, R);
    if AllExist(catalog, requested) {
      assert R <= K by {
        forall x | x in R ensures x in K {
          var k :| 0 <= k < |requested| && RequestIds(requested)[k] == x;
        }
      }
      assert F == R;
    }
    if |fetched| == |requested| {
      assert R * K == R;
      forall k | 0 <= k < |requested| ensures requested[k].id in catalog {
        assert RequestIds(requested)[k] in R;
      }
    }
  }

  /** Stated over the request and the catalog: validation succeeds exactly when
      every requested product exists, none is requested twice, and none is
      requested beyond its stock. */
  lemma ValidateSucceedsIff(catalog: map<ProductId, Product>, requested: seq<RequestLine>, fetched: seq<StockItem>)
    requires IsFetchOf(catalog, requested, fetched)
    ensures Validate(requested, fetched).Success? <==>
              Distinct(RequestIds(requested)) && AllInStock(catalog, requested)
  {
    CountCheckPassesIff(catalog, requested, fetched);
    if Validate(requested, fetched).Success? {
      forall k | 0 <= k < |requested|
        ensures requested[k].quantity <= catalog[requested[k].id].quantity
      {
        var i := FetchedIndexOf(catalog, requested, fetched, k);
        FindRequestUnique(requested, k);
        assert Fits(requested, fetched[i]);
      }
    }
    if Distinct(RequestIds(requested)) && AllInStock(catalog, requested) {
      EveryFetchedRecordIsRequested(catalog, requested, fetched);
      forall i | 0 <= i < |fetched|
        ensures Fits(requested, fetched[i])
      {
        var k := FindRequest(requested, fetched[i].id).value;
        assert fetched[i] == Record(catalog, fetched[i].id);
      }
    }
  }

  /** With the counts equal, one product requested beyond its stock is enough
      for the stock rejection, whatever the other lines ask for. */
  lemma OneShortLineRejects(catalog: map<ProductId, Product>, requested: seq<RequestLine>, fetched: seq<StockItem>, k: nat)
    requires IsFetchOf(catalog, requested, fetched)
    requires |fetched| == |requested|
    requires k < |requested| && requested[k].id in catalog
    requires requested[k].quantity > catalog[requested[k].id].quantity
    ensures Validate(requested, fetched) == Failure(InsufficientStock)
  {
    CountCheckPassesIff(catalog, requested, fetched);
    var i := FetchedIndexOf(catalog, requested, fetched, k);
    FindRequestUnique(requested, k);
    assert !Fits(requested, fetched[i]);
  }

  /** On success the order lines answer the request line for line (a
      permutation of it), each priced at the catalog's price when fetched. */
  lemma SuccessLinesAnswerRequest(catalog: map<ProductId, Product>, requested: seq<RequestLine>, fetched: seq<StockItem>)
    requires IsFetchOf(catalog, requested, fetched)
    requires Validate(requested, fetched).Success?
    ensures var lines := Validate(requested, fetched).value;
      && multiset(AsRequests(lines)) == multiset(requested)
      && forall i :: 0 <= i < |lines| ==> lines[i].productId in catalog && lines[i].price == catalog[lines[i].productId].price
  {
    var lines := Validate(requested, fetched).value;
    var m := AsRequests(lines);
    CountCheckPassesIff(catalog, requested, fetched);
    EveryFetchedRecordIsRequested(catalog, requested, fetched);
    // each order line is the request line its record was matched with
    forall i | 0 <= i < |m|
      ensures m[i] == requested[FindRequest(requested, fetched[i].id).value]
    {
    }
    assert Distinct(m) by {
      forall i, j | 0 <= i < j < |m| ensures m[i] != m[j] {
        assert StockIds(fetched)[i] != StockIds(fetched)[j];
      }
    }
    assert Distinct(requested) by {
      forall i, j | 0 <= i < j < |requested| ensures requested[i] != requested[j] {
        assert RequestIds(requested)[i] != RequestIds(requested)[j];
      }
    }
    assert Elems(m) == Elems(requested) by {
      forall x | x in Elems(requested) ensures x in Elems(m) {
        var k :| 0 <= k < |requested| && requested[k] == x;
        var i := FetchedIndexOf(catalog, requested, fetched, k);
        FindRequestUnique(requested, k);
        assert m[i] == x;
      }
    }
    SameElemsPermutation(m, requested);
  }

  /** On success the order lines follow the fetched records one for one: the
      same product, the record's price, and the quantity ordered for it. */
  lemma SuccessLinesInFetchOrder(requested: seq<RequestLine>, fetched: seq<StockItem>)
    requires Validate(requested, fetched).Success?
    ensures var lines := Validate(requested, fetched).value;
      && |lines| == |fetched|
      && forall i :: 0 <= i < |fetched| ==>
           && lines[i].productId == fetched[i].id
           && lines[i].price == fetched[i].price
           && lines[i].quantity == OrderedQuantity(requested, fetched[i].id)
  {
  }

  /** Each record's quantity drops by exactly the quantity of its order line,
      so the total drop is the total ordered. */
  lemma {:induction false} DecrementEqualsOrderedTotal(requested: seq<RequestLine>, fetched: seq<StockItem>)
    ensures Sum(fetched, StockQuantity) - Sum(NewQuantities(requested, fetched), UpdatedQuantity)
         == Sum(PriceLines(requested, fetched), LineQuantity)
  {
    SumPointwiseDifference(fetched, StockQuantity, NewQuantities(requested, fetched), UpdatedQuantity,
                           PriceLines(requested, fetched), LineQuantity);
  }

  /** On success the total drop in stock is the total requested. */
  lemma DecrementEqualsRequestedTotal(catalog: map<ProductId, Product>, requested: seq<RequestLine>, fetched: seq<StockItem>)
    requires IsFetchOf(catalog, requested, fetched)
    requires Validate(requested, fetched).Success?
    ensures Sum(fetched, StockQuantity) - Sum(NewQuantities(requested, fetched), UpdatedQuantity)
         == Sum(requested, RequestedQuantity)
  {
    var lines := Validate(requested, fetched).value;
    DecrementEqualsOrderedTotal(requested, fetched);
    SuccessLinesAnswerRequest(catalog, requested, fetched);
    SumPointwise(lines, LineQuantity, AsRequests(lines), RequestedQuantity);
    SumPermutation(AsRequests(lines), requested, RequestedQuantity);
  }

  /** Once the scan passes, no new quantity is negative. */
  lemma {:induction false} NewQuantitiesNonNegative(catalog: map<ProductId, Product>, requested: seq<RequestLine>, fetched: seq<StockItem>)
    requires IsFetchOf(catalog, requested, fetched)
    requires ScanAvailability(requested, fetched)
    ensures forall i :: 0 <= i < |fetched| ==> NewQuantities(requested, fetched)[i].quantity >= 0
  {
    EveryFetchedRecordIsRequested(catalog, requested, fetched);
    forall i | 0 <= i < |fetched|
      ensures NewQuantities(requested, fetched)[i].quantity >= 0
    {
      assert Fits(requested, fetched[i]);
    }
  }
}
