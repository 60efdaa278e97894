/** `StockService.decrease`: find the row by primary key, decrement it, write it back. */
module StockServices {
  import opened JavaLong
  import opened Outcomes
  import opened StockDomain

  /** A persisted `Stock` row, without its primary key (the key of the table) and its version. */
  datatype StockRow = StockRow(productId: Long, quantity: Long)

  /** The `StockRepository` table: generated primary key `id` to row. */
  type Table = map<Long, StockRow>

  /**
   * The table `decrease(id, amount)` leaves when it returns normally, or the exception it throws.
   * The lookup is by the primary key `id`, never by `productId`.
   */
  function DecreaseIn(rows: Table, id: Long, amount: Long): (r: Result<Table>)
    ensures r.Err? <==> id !in rows || rows[id].quantity < amount
    ensures r.Err? && id !in rows ==> r.failure == StockNotFound
    ensures r.Err? && id in rows ==> r.failure == NotEnoughStock
    ensures r.Ok? ==> r.value.Keys == rows.Keys && r.value[id].productId == rows[id].productId
    ensures r.Ok? ==> forall other :: other in rows && other != id ==> r.value[other] == rows[other]
    ensures r.Ok? && 0 <= amount ==> r.value[id].quantity as int == rows[id].quantity as int - amount as int
  {
    if id !in rows then Err(StockNotFound)
    else match Decreased(rows[id].quantity, amount)
      case Err(f) => Err(f)
      case Ok(q) => Ok(rows[id := StockRow(rows[id].productId, q)])
  }

  /** The table after `decrease(id, amount)`, whether it returned or threw. */
  function StoredAfter(rows: Table, id: Long, amount: Long): Table {
    match DecreaseIn(rows, id, amount)
    case Ok(t) => t
    case Err(_) => rows
  }

  class StockService {
    var rows: Table

    constructor (rows: Table)
      ensures this.rows == rows
    {
      this.rows := rows;
    }

    /** Loads the entity, lets it decrement itself, and saves it only if that did not throw. */
    method Decrease(id: Long, amount: Long) returns (outcome: Outcome)
      modifies this
      ensures outcome == OutcomeOf(DecreaseIn(old(rows), id, amount))
      ensures rows == StoredAfter(old(rows), id, amount)
    {
      if id !in rows {
        return Threw(StockNotFound);
      }
      var row := rows[id];
      var stock := new Stock(row.productId, row.quantity);
      var r := stock.Decrease(amount);
      if r.Err? {
        return Threw(r.failure);
      }
      rows := rows[id := StockRow(stock.productId, stock.quantity)];
      outcome := Completed;
    }
  }

  /** Every stored quantity is non-negative. */
  predicate AllNonNegative(rows: Table) {
    forall id :: id in rows ==> 0 <= rows[id].quantity
  }

  /** A non-negative amount keeps every stored quantity non-negative, on both paths. */
  lemma NonNegativeStored(rows: Table, id: Long, amount: Long)
    requires AllNonNegative(rows) && 0 <= amount
    ensures AllNonNegative(StoredAfter(rows, id, amount))
  {
  }

  /** Requesting exactly the stored quantity leaves 0 stored under that key. */
  lemma ExactAmountStoresZero(rows: Table, id: Long)
    requires id in rows
    ensures DecreaseIn(rows, id, rows[id].quantity) == Ok(rows[id := StockRow(rows[id].productId, 0)])
  {
    ExactAmountEmpties(rows[id].quantity);
  }

  /** `n` successive calls of `decrease(id, amount)`, stopping at the first that throws. */
  function DecreasedTimesIn(rows: Table, id: Long, amount: Long, n: nat): Result<Table>
    decreases n
  {
    if n == 0 then Ok(rows)
    else match DecreaseIn(rows, id, amount)
      case Err(f) => Err(f)
      case Ok(t) => DecreasedTimesIn(t, id, amount, n - 1)
  }

  /** `n` calls with `n * amount` in stock all succeed and store exactly `n * amount` less, touching nothing else. */
  lemma {:induction false} SuccessiveDecreases(rows: Table, id: Long, amount: Long, n: nat)
    requires id in rows && 0 <= amount && n * amount as int <= rows[id].quantity as int
    ensures DecreasedTimesIn(rows, id, amount, n).Ok?
    ensures var t := DecreasedTimesIn(rows, id, amount, n).value;
      t.Keys == rows.Keys && t[id].productId == rows[id].productId &&
      t[id].quantity as int == rows[id].quantity as int - n * amount as int &&
      forall other :: other in rows && other != id ==> t[other] == rows[other]
  {
    if n > 0 {
      MultipleStep(n, amount as int);
      var t1 := DecreaseIn(rows, id, amount).value;
      SuccessiveDecreases(t1, id, amount, n - 1);
    }
  }

  /**
   * A row seeded as `new Stock(1000, 1000)` under the generated key 1 is not found by
   * `decrease(1000, 1)`: the service looks up the primary key, not the product id.
   */
  lemma LookupIsByPrimaryKey()
    ensures DecreaseIn(map[1 := StockRow(1000, 1000)], 1000, 1) == Err(StockNotFound)
  {
  }

  /** Stored under the key actually passed, a stock of 1000 ends at 0 after 1000 single-unit calls. */
  lemma ThousandSingleDecreasesIn(id: Long, productId: Long)
    ensures DecreasedTimesIn(map[id := StockRow(productId, 1000)], id, 1, 1000) ==
      Ok(map[id := StockRow(productId, 0)])
  {
    var rows := map[id := StockRow(productId, 1000)];
    SuccessiveDecreases(rows, id, 1, 1000);
    var t := DecreasedTimesIn(rows, id, 1, 1000).value;
    assert t == map[id := StockRow(productId, 0)];
  }
}
