/** Concrete runs of the workflow on a one-product catalog. */
module Scenarios {
  import opened Wrappers
  import opened Domain
  import opened Repositories
  import opened StockValidator
  import opened OrderWorkflow

  /** Customer "c", product "P" at 500 cents with 10 units in stock, no orders. */
  function Shop(): State {
    State({"c"}, map["P" := Product(500, 10)], [])
  }

  /** Ordering 4 of P succeeds at the catalog price and leaves 6; ordering 7
      more is then rejected for stock and leaves the 6 in place. */
  lemma SellThenOversell()
    ensures var (first, after) := CreateOrder(Shop(), "c", [RequestLine("P", 4)]);
      && first.Success?
      && first.value.lines == [OrderLine("P", 500, 4)]
      && after.catalog == map["P" := Product(500, 6)]
      && var (second, final) := CreateOrder(after, "c", [RequestLine("P", 7)]);
         second == Failure(InsufficientStock) && final == after
  {
    var requested := [RequestLine("P", 4)];
    var (first, after) := CreateOrder(Shop(), "c", requested);
    assert AllInStock(Shop().catalog, requested);
    assert RequestIds(requested) == ["P"];
    FindAllByIdMeetsContract(Shop().catalog, requested);
    SuccessEffects(Shop(), "c", requested, FindAllById(Shop().catalog, requested));
    assert first.value.lines == [OrderLine("P", 500, 4)];
    assert after.catalog == map["P" := Product(500, 6)];
    var more := [RequestLine("P", 7)];
    assert RequestIds(more) == ["P"];
    assert !AllInStock(after.catalog, more);
  }

  /** An unknown customer is rejected before any product is looked at. */
  lemma UnknownCustomer()
    ensures CreateOrder(Shop(), "ghost", [RequestLine("P", 2)]) == (Failure(CustomerNotFound), Shop())
  {
  }

  /** One unknown product rejects the whole request and touches no stock. */
  lemma UnknownProduct()
    ensures CreateOrder(Shop(), "c", [RequestLine("P", 2), RequestLine("Q", 3)]) == (Failure(ProductNotFound), Shop())
  {
    var requested := [RequestLine("P", 2), RequestLine("Q", 3)];
    assert requested[1].id !in Shop().catalog;
  }

  /** Two lines for the same existing product are rejected as an unknown
      product, because the count check compares with the number of lines. */
  lemma RepeatedProduct()
    ensures CreateOrder(Shop(), "c", [RequestLine("P", 1), RequestLine("P", 1)]) == (Failure(ProductNotFound), Shop())
  {
    var requested := [RequestLine("P", 1), RequestLine("P", 1)];
    assert RequestIds(requested)[0] == RequestIds(requested)[1];
  }

  /** Quantities are not checked for sign: a negative request is accepted and
      raises the stock. */
  lemma NegativeQuantityRaisesStock()
    ensures var (result, post) := CreateOrder(Shop(), "c", [RequestLine("P", -5)]);
      result.Success? && post.catalog == map["P" := Product(500, 15)]
  {
    var requested := [RequestLine("P", -5)];
    var (result, post) := CreateOrder(Shop(), "c", requested);
    assert AllInStock(Shop().catalog, requested);
    assert RequestIds(requested) == ["P"];
    FindAllByIdMeetsContract(Shop().catalog, requested);
    SuccessEffects(Shop(), "c", requested, FindAllById(Shop().catalog, requested));
    assert post.catalog == map["P" := Product(500, 15)];
  }
}
