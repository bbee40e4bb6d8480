/** `CreateOrderService.execute`: resolve the customer, fetch the stock
    records, validate them, update the stock quantities, then create the order.
    The repository calls that change state are returned as a list of effects
    in the order they are issued; `Commit` applies them to the repositories'
    state. */
module OrderWorkflow {
  import opened Wrappers
  import opened Seqs
  import opened Domain
  import opened Repositories
  import opened StockValidator

  /** A state-changing repository call issued by the workflow. */
  datatype Effect =
    | UpdateQuantityCall(updates: seq<QuantityUpdate>)
    | CreateOrderCall(order: Order)

  /** What one invocation returns to its caller, and the calls it issued. */
  datatype Outcome = Outcome(result: Result<Order, Error>, effects: seq<Effect>)

  function ApplyEffect(st: State, e: Effect): State {
    match e
    case UpdateQuantityCall(updates) => st.(catalog := UpdateQuantity(st.catalog, updates))
    case CreateOrderCall(order) => st.(orders := st.orders + [order])
  }

  /** Apply the issued calls, first to last. */
  function Commit(st: State, effects: seq<Effect>): State
    decreases |effects|
  {
    if |effects| == 0 then st else Commit(ApplyEffect(st, effects[0]), effects[1..])
  }

  /** One invocation of `execute`, given what `findAllById` returned for the
      request (`fetched`). A rejection issues no call; success issues the stock
      update and then the order creation, and nothing else. */
  function Execute(st: State, customerId: CustomerId, requested: seq<RequestLine>, fetched: seq<StockItem>): (o: Outcome)
    ensures o.result.Success? <==> customerId in st.customers && Validate(requested, fetched).Success?
    ensures customerId !in st.customers ==> o.result == Failure(CustomerNotFound)
    ensures customerId in st.customers && Validate(requested, fetched).Failure? ==>
              o.result == Failure(Validate(requested, fetched).error)
    ensures o.result.Failure? ==> o.effects == []
    ensures o.result.Success? ==>
              && o.result.value.customer == customerId
              && o.result.value.lines == Validate(requested, fetched).value
              && o.effects == [UpdateQuantityCall(NewQuantities(requested, fetched)), CreateOrderCall(o.result.value)]
  {
    if customerId !in st.customers then Outcome(Failure(CustomerNotFound), [])
    else match Validate(requested, fetched)
      case Failure(e) => Outcome(Failure(e), [])
      case Success(lines) =>
        var updates := NewQuantities(requested, fetched);
        var order := NewOrder(st.orders, customerId, lines);
        Outcome(Success(order), [UpdateQuantityCall(updates), CreateOrderCall(order)])
  }

  /** `execute` against the repositories' state, with the lookup `fetched`
      standing for what `findAllById` returned. */
  function Run(st: State, customerId: CustomerId, requested: seq<RequestLine>, fetched: seq<StockItem>): (Result<Order, Error>, State)
  {
    var o := Execute(st, customerId, requested, fetched);
    (o.result, Commit(st, o.effects))
  }

  /** `execute` with the catalog's own lookup. Success happens exactly when the
      customer exists, no product is requested twice, and every product exists
      with enough stock; each rejection carries the first failing check's error
      and leaves every repository as it was. */
  function CreateOrder(st: State, customerId: CustomerId, requested: seq<RequestLine>): (r: (Result<Order, Error>, State))
    ensures r.0.Failure? ==> r.1 == st
    ensures r.0.Success? <==>
              customerId in st.customers && Distinct(RequestIds(requested)) && AllInStock(st.catalog, requested)
    ensures customerId !in st.customers ==> r.0 == Failure(CustomerNotFound)
    ensures customerId in st.customers && !(AllExist(st.catalog, requested) && Distinct(RequestIds(requested))) ==>
              r.0 == Failure(ProductNotFound)
    ensures customerId in st.customers && AllExist(st.catalog, requested) && Distinct(RequestIds(requested))
            && !AllInStock(st.catalog, requested) ==>
              r.0 == Failure(InsufficientStock)
  {
    var fetched := FindAllById(st.catalog, requested);
    FindAllByIdMeetsContract(st.catalog, requested);
    CountCheckPassesIff(st.catalog, requested, fetched);
    ValidateSucceedsIff(st.catalog, requested, fetched);
    Run(st, customerId, requested, fetched)
  }

  /** The repositories' state invariant: no stock below zero, every order id is
      its ledger position, and every order belongs to a known customer. */
  predicate Valid(st: State) {
    && (forall id :: id in st.catalog ==> st.catalog[id].quantity >= 0)
    && IdsArePositions(st.orders)
    && (forall i :: 0 <= i < |st.orders| ==> st.orders[i].customer in st.customers)
  }

  /** The stock update leaves every product the request does not name as it was. */
  lemma {:induction false} UnrequestedUntouched(catalog: map<ProductId, Product>, requested: seq<RequestLine>, fetched: seq<StockItem>, id: ProductId)
    requires IsFetchOf(catalog, requested, fetched)
    requires id in catalog && id !in RequestIds(requested)
    ensures UpdateQuantity(catalog, NewQuantities(requested, fetched))[id] == catalog[id]
  {
    var updates := NewQuantities(requested, fetched);
    forall i | 0 <= i < |updates|
      ensures UpdateIds(updates)[i] != id
    {
      assert fetched[i].id in RequestIds(requested);
    }
  }

  /** After a passed validation the stock update takes each requested
      product's quantity down by exactly its requested quantity. */
  lemma RequestedDecremented(catalog: map<ProductId, Product>, requested: seq<RequestLine>, fetched: seq<StockItem>, k: nat)
    requires IsFetchOf(catalog, requested, fetched)
    requires Validate(requested, fetched).Success?
    requires k < |requested|
    ensures requested[k].id in catalog
    ensures UpdateQuantity(catalog, NewQuantities(requested, fetched))[requested[k].id].quantity
         == catalog[requested[k].id].quantity - requested[k].quantity
  {
    var updates := NewQuantities(requested, fetched);
    CountCheckPassesIff(catalog, requested, fetched);
    var i := FetchedIndexOf(catalog, requested, fetched, k);
    FindRequestUnique(requested, k);
    assert fetched[i] == Record(catalog, fetched[i].id);
    assert updates[i].id == fetched[i].id;
  }

  /** The stock update issued on success, applied to the catalog it was
      computed from: each requested product's stock drops by its requested
      quantity, every other product is untouched, and no price changes. */
  lemma UpdatedCatalog(catalog: map<ProductId, Product>, requested: seq<RequestLine>, fetched: seq<StockItem>)
    requires IsFetchOf(catalog, requested, fetched)
    requires Validate(requested, fetched).Success?
    ensures var post := UpdateQuantity(catalog, NewQuantities(requested, fetched));
      && post.Keys == catalog.Keys
      && (forall id :: id in post ==> post[id].price == catalog[id].price)
      && (forall k :: 0 <= k < |requested| ==>
            requested[k].id in catalog &&
            post[requested[k].id].quantity == catalog[requested[k].id].quantity - requested[k].quantity)
      && (forall id :: id in catalog && id !in RequestIds(requested) ==> post[id] == catalog[id])
  {
    forall k | 0 <= k < |requested|
      ensures requested[k].id in catalog
      ensures UpdateQuantity(catalog, NewQuantities(requested, fetched))[requested[k].id].quantity
           == catalog[requested[k].id].quantity - requested[k].quantity
    {
      RequestedDecremented(catalog, requested, fetched, k);
    }
    forall id | id in catalog && id !in RequestIds(requested)
      ensures UpdateQuantity(catalog, NewQuantities(requested, fetched))[id] == catalog[id]
    {
      UnrequestedUntouched(catalog, requested, fetched, id);
    }
  }

  /** On success the two issued calls, applied in order, update the catalog
      and append the returned order; customers are untouched. */
  lemma SuccessCommit(st: State, customerId: CustomerId, requested: seq<RequestLine>, fetched: seq<StockItem>)
    requires Execute(st, customerId, requested, fetched).result.Success?
    ensures var o := Execute(st, customerId, requested, fetched);
      Commit(st, o.effects) == st.(catalog := UpdateQuantity(st.catalog, NewQuantities(requested, fetched)),
                                   orders := st.orders + [o.result.value])
  {
    var o := Execute(st, customerId, requested, fetched);
    var mid := ApplyEffect(st, o.effects[0]);
    assert o.effects[1..] == [CreateOrderCall(o.result.value)];
    assert Commit(st, o.effects) == Commit(mid, o.effects[1..]);
    assert Commit(mid, o.effects[1..]) == Commit(ApplyEffect(mid, CreateOrderCall(o.result.value)), []);
  }

  /** A successful invocation, given any lookup that meets the `findAllById`
      contract: each requested product's stock drops by its requested
      quantity, every other product is untouched, prices stay, and exactly one
      order is appended, for the customer, whose lines answer the request at
      the prices the catalog held. */
  lemma SuccessEffects(st: State, customerId: CustomerId, requested: seq<RequestLine>, fetched: seq<StockItem>)
    requires IsFetchOf(st.catalog, requested, fetched)
    requires Run(st, customerId, requested, fetched).0.Success?
    ensures var (result, post) := Run(st, customerId, requested, fetched);
      && post.customers == st.customers
      && post.catalog.Keys == st.catalog.Keys
      && (forall id :: id in post.catalog ==> post.catalog[id].price == st.catalog[id].price)
      && (forall k :: 0 <= k < |requested| ==>
            requested[k].id in st.catalog &&
            post.catalog[requested[k].id].quantity == st.catalog[requested[k].id].quantity - requested[k].quantity)
      && (forall id :: id in st.catalog && id !in RequestIds(requested) ==> post.catalog[id] == st.catalog[id])
      && post.orders == st.orders + [result.value]
      && result.value.customer == customerId
      && multiset(AsRequests(result.value.lines)) == multiset(requested)
      && (forall i :: 0 <= i < |result.value.lines| ==>
            result.value.lines[i].productId in st.catalog &&
            result.value.lines[i].price == st.catalog[result.value.lines[i].productId].price)
  {
    SuccessCommit(st, customerId, requested, fetched);
    UpdatedCatalog(st.catalog, requested, fetched);
    SuccessLinesAnswerRequest(st.catalog, requested, fetched);
  }

  /** Any rejection leaves customers, catalog and orders exactly as they were. */
  lemma {:induction false} RejectionChangesNothing(st: State, customerId: CustomerId, requested: seq<RequestLine>, fetched: seq<StockItem>)
    requires Run(st, customerId, requested, fetched).0.Failure?
    ensures Run(st, customerId, requested, fetched).1 == st
  {
  }

  /** After a passed validation one product's new stock is not negative. */
  lemma UpdateKeepsOneStockNonNegative(catalog: map<ProductId, Product>, requested: seq<RequestLine>, fetched: seq<StockItem>, id: ProductId)
    requires IsFetchOf(catalog, requested, fetched)
    requires Validate(requested, fetched).Success?
    requires id in catalog && catalog[id].quantity >= 0
    ensures UpdateQuantity(catalog, NewQuantities(requested, fetched))[id].quantity >= 0
  {
    if id in RequestIds(requested) {
      var k :| 0 <= k < |requested| && RequestIds(requested)[k] == id;
      ValidateSucceedsIff(catalog, requested, fetched);
      assert requested[k].quantity <= catalog[id].quantity;
      RequestedDecremented(catalog, requested, fetched, k);
    } else {
      UnrequestedUntouched(catalog, requested, fetched, id);
    }
  }

  /** After a passed validation no stock quantity goes below zero. */
  lemma UpdateKeepsStockNonNegative(catalog: map<ProductId, Product>, requested: seq<RequestLine>, fetched: seq<StockItem>)
    requires IsFetchOf(catalog, requested, fetched)
    requires Validate(requested, fetched).Success?
    requires forall id :: id in catalog ==> catalog[id].quantity >= 0
    ensures var post := UpdateQuantity(catalog, NewQuantities(requested, fetched));
      forall id :: id in post ==> post[id].quantity >= 0
  {
    forall id | id in catalog
      ensures UpdateQuantity(catalog, NewQuantities(requested, fetched))[id].quantity >= 0
    {
      UpdateKeepsOneStockNonNegative(catalog, requested, fetched, id);
    }
  }

  /** A successful invocation keeps the state invariant, and the order it
      returns has an id no earlier order has. */
  lemma RunPreservesValid(st: State, customerId: CustomerId, requested: seq<RequestLine>, fetched: seq<StockItem>)
    requires Valid(st)
    requires IsFetchOf(st.catalog, requested, fetched)
    ensures Valid(Run(st, customerId, requested, fetched).1)
    ensures Run(st, customerId, requested, fetched).0.Success? ==>
              forall i :: 0 <= i < |st.orders| ==> st.orders[i].id != Run(st, customerId, requested, fetched).0.value.id
  {
    var o := Execute(st, customerId, requested, fetched);
    if o.result.Success? {
      SuccessCommit(st, customerId, requested, fetched);
      UpdateKeepsStockNonNegative(st.catalog, requested, fetched);
      var order := o.result.value;
      assert order == NewOrder(st.orders, customerId, order.lines);
      var orders := st.orders + [order];
      assert forall i :: 0 <= i < |orders| ==> orders[i].customer in st.customers by {
        forall i | 0 <= i < |orders| ensures orders[i].customer in st.customers {
          if i < |st.orders| {
            assert orders[i] == st.orders[i];
          }
        }
      }
    }
  }

  /** `CreateOrder` keeps the state invariant, and the order it returns has an
      id no earlier order has. */
  lemma CreateOrderPreservesValid(st: State, customerId: CustomerId, requested: seq<RequestLine>)
    requires Valid(st)
    ensures Valid(CreateOrder(st, customerId, requested).1)
    ensures CreateOrder(st, customerId, requested).0.Success? ==>
              forall i :: 0 <= i < |st.orders| ==> st.orders[i].id != CreateOrder(st, customerId, requested).0.value.id
  {
    FindAllByIdMeetsContract(st.catalog, requested);
    RunPreservesValid(st, customerId, requested, FindAllById(st.catalog, requested));
  }
}
