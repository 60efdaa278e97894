/** The `Stock` entity: a product's quantity and its guarded, in-place decrement. */
module StockDomain {
  import opened JavaLong
  import opened Outcomes

  /**
   * What `decrease(amount)` yields on a stock holding `quantity`: the request is
   * rejected when the stock is below `amount`, otherwise the new quantity.
   * The guard is the only check: a negative amount is accepted.
   */
  function Decreased(quantity: Long, amount: Long): (r: Result<Long>)
    ensures r.Err? <==> quantity < amount
    ensures r.Err? ==> r.failure == NotEnoughStock
    ensures r.Ok? && 0 <= amount ==> r.value as int == quantity as int - amount as int
    ensures r.Ok? && 0 <= amount ==> 0 <= r.value <= quantity
    ensures r.Ok? ==> (r.value as int - (quantity as int - amount as int)) % TwoTo64 == 0
  {
    if quantity < amount then Err(NotEnoughStock)
    else Ok(WrappingSub(quantity, amount))
  }

  /** The quantity held after `decrease(amount)`, whether it returned or threw. */
  function QuantityAfter(quantity: Long, amount: Long): Long {
    match Decreased(quantity, amount)
    case Ok(q) => q
    case Err(_) => quantity
  }

  class Stock {
    const productId: Long
    var quantity: Long

    constructor (productId: Long, quantity: Long)
      ensures this.productId == productId && this.quantity == quantity
    {
      this.productId := productId;
      this.quantity := quantity;
    }

    method GetQuantity() returns (q: Long)
      ensures q == quantity
    {
      q := quantity;
    }

    /** Throws before subtracting, so a rejected request leaves the quantity as it was. */
    method Decrease(amount: Long) returns (r: Result<Long>)
      modifies this`quantity
      ensures r == Decreased(old(quantity), amount)
      ensures quantity == QuantityAfter(old(quantity), amount)
      ensures r.Ok? ==> r.value == quantity
    {
      if quantity < amount {
        return Err(NotEnoughStock);
      }
      quantity := WrappingSub(quantity, amount);
      r := Ok(quantity);
    }
  }

  /** Requesting exactly the current quantity succeeds and empties the stock. */
  lemma ExactAmountEmpties(quantity: Long)
    ensures Decreased(quantity, quantity) == Ok(0)
  {
  }

  /** With a non-negative stock and a non-negative amount the stock stays non-negative, on both paths. */
  lemma NonNegativeKept(quantity: Long, amount: Long)
    requires 0 <= quantity && 0 <= amount
    ensures 0 <= QuantityAfter(quantity, amount) <= quantity
  {
  }

  /** A negative amount passes the guard and raises the stock when no wrap-around occurs. */
  lemma NegativeAmountRaises(quantity: Long, amount: Long)
    requires amount < 0 <= quantity && InLongRange(quantity as int - amount as int)
    ensures Decreased(quantity, amount).Ok?
    ensures QuantityAfter(quantity, amount) as int == quantity as int - amount as int > quantity as int
  {
  }

  /**
   * A negative amount whose difference exceeds `Long.MAX_VALUE` also passes the guard, and the
   * subtraction wraps the stock around to a negative value.
   */
  lemma NegativeAmountOverflows(quantity: Long, amount: Long)
    requires amount < 0 && quantity as int - amount as int > MaxLong
    ensures Decreased(quantity, amount).Ok?
    ensures QuantityAfter(quantity, amount) as int == quantity as int - amount as int - TwoTo64 < 0
  {
  }

  /** `decrease(Long.MIN_VALUE)` on any non-negative stock overflows and leaves a negative stock. */
  lemma MinValueAmountWraps(quantity: Long)
    requires 0 <= quantity
    ensures QuantityAfter(quantity, MinLong as Long) as int == quantity as int + MinLong < 0
  {
  }

  /** `n` successive `decrease(amount)` calls, stopping at the first that throws. */
  function DecreasedTimes(quantity: Long, amount: Long, n: nat): Result<Long>
    decreases n
  {
    if n == 0 then Ok(quantity)
    else match Decreased(quantity, amount)
      case Err(f) => Err(f)
      case Ok(q) => DecreasedTimes(q, amount, n - 1)
  }

  /** `n` calls of `decrease(amount)` with `n * amount` in stock all succeed and remove exactly `n * amount`. */
  lemma {:induction false} RepeatedDecrease(quantity: Long, amount: Long, n: nat)
    requires 0 <= amount && n * amount as int <= quantity as int
    ensures DecreasedTimes(quantity, amount, n).Ok?
    ensures DecreasedTimes(quantity, amount, n).value as int == quantity as int - n * amount as int
  {
    if n > 0 {
      MultipleStep(n, amount as int);
      var q := WrappingSub(quantity, amount);
      assert Decreased(quantity, amount) == Ok(q);
      RepeatedDecrease(q, amount, n - 1);
    }
  }

  lemma MultipleStep(n: nat, a: int)
    requires 0 < n && 0 <= a
    ensures a <= n * a && (n - 1) * a == n * a - a
  {
  }

  /** A stock of 1000 survives 1000 single-unit decrements, none of which throws, and ends at 0. */
  lemma ThousandSingleDecrements()
    ensures DecreasedTimes(1000, 1, 1000) == Ok(0)
  {
    RepeatedDecrease(1000, 1, 1000);
  }
}
