# Stock decrement and Redis spin lock, modelled in Dafny

This project models the sequential core of a Spring demo that protects a product's inventory
count against overselling:

- the `Stock` entity and its guarded decrement ("Not enough stock" when the request exceeds
  the quantity, otherwise subtract in place and return the new quantity);
- `StockService.decrease`, which finds a stock row by primary key ("Stock not found" when
  absent), lets the entity decrement itself and writes the row back with `saveAndFlush`;
- `RedisRepository`, a lock table where `lock(key)` is a set-if-absent of `key.toString()` to
  `"lock"` and `unlock(key)` deletes that entry;
- `LettuceLockStockFacade.decrease`, which spins on `lock`, runs the service decrement, and
  releases the lock in a `finally` block.

Modules, one per source file plus two shared ones:

- `JavaLong` (`java_long.dfy`): Java's 64-bit `Long` as a newtype, and subtraction with
  two's-complement wrap-around.
- `Outcomes` (`outcomes.dfy`): the two `IllegalArgumentException`s as a `Failure` datatype.
  `Result<T>` stands for a method that returns a value or throws. `Outcome` stands for a `void`
  method that returns or throws.
- `StockDomain` (`stock.dfy`): class `Stock`, and `Decreased`, the function that specifies its
  decrement.
- `StockServices` (`stock_service.dfy`): class `StockService`. Its field `rows` is the
  repository table, mapping primary key `id` to a `StockRow` (product id and quantity).
  `DecreaseIn` is the function that specifies `decrease`.
- `RedisLocks` (`redis_repository.dfy`): `GenerateKey`, the decimal rendering of a `Long`,
  with a parser that proves it injective. Also class `RedisRepository`, whose lock table
  `store` is a `map<string, string>`.
- `LettuceFacade` (`lettuce_lock_stock_facade.dfy`): class `LettuceLockStockFacade` and its
  spin / decrement / release bracket.

Behaviour worth noting:

- `Stock.decrease` checks only `quantity < amount`. A negative amount passes the guard and
  raises the stock, unless quantity − amount exceeds `Long.MAX_VALUE`. Then the subtraction
  wraps and the stock goes negative (for example `Long.MAX_VALUE` decreased by −1 leaves
  `Long.MIN_VALUE`), as it always does with `Long.MIN_VALUE` on a non-negative stock. So
  non-negativity of the stock holds only for non-negative amounts, and the lemmas state it with
  that precondition.
- `StockService.decrease` looks the row up with `findById`, i.e. by the generated primary key,
  not by `productId`. The model keys on the argument actually passed. `LookupIsByPrimaryKey`
  shows the consequence: a row saved as `new Stock(1000, 1000)` under generated key 1 is not
  found by `decrease(1000, 1)`. This is the call shape of `StockServiceTest` (lines 49 and 68).
- The facade's spin loop has no retry bound. In the source it ends when the holder releases
  the key or the key's 3000 ms time-to-live runs out. In a sequential model without expiry no
  other caller can release the key, so `LettuceLockStockFacade.Decrease` requires the key to be
  free on entry.
  `HeldKeyNeverWon` states why: while the key is held, every attempt loses and changes nothing.

## Model

| member | source | states |
|---|---|---|
| `JavaLong.WrappingSub` | stock/src/main/java/com/example/stock/domain/Stock.java:38 | `-=` on `Long` agrees with the exact difference modulo 2^64, and equals it whenever the difference fits in 64 bits |
| `StockDomain.Decreased` | stock/src/main/java/com/example/stock/domain/Stock.java:33-39 | the decrement fails exactly when quantity < amount, always with NotEnoughStock; for a non-negative amount it succeeds with exactly quantity − amount, which lies in [0, quantity]; for every amount, a successful result agrees with quantity − amount modulo 2^64 |
| `StockDomain.Stock.constructor` | stock/src/main/java/com/example/stock/domain/Stock.java:21-24 | the new entity holds the given product id and quantity |
| `StockDomain.Stock.GetQuantity` | stock/src/main/java/com/example/stock/domain/Stock.java:29-31 | returns the current quantity and, having no modifies clause, changes nothing |
| `StockDomain.Stock.Decrease` | stock/src/main/java/com/example/stock/domain/Stock.java:33-39 | the result is `Decreased(old quantity, amount)`; on success the field holds the returned new quantity; on rejection the field is unchanged because the throw precedes the subtraction; the product id never changes |
| `StockDomain.ExactAmountEmpties` | stock/src/main/java/com/example/stock/domain/Stock.java:34-39 | requesting exactly the current quantity succeeds and leaves 0 |
| `StockDomain.NonNegativeKept` | stock/src/main/java/com/example/stock/domain/Stock.java:33-39 | a non-negative stock stays within [0, old quantity] after a non-negative request, whether it succeeds or throws |
| `StockDomain.NegativeAmountRaises` | stock/src/main/java/com/example/stock/domain/Stock.java:34-38 | a negative amount on a non-negative stock passes the guard and strictly increases the quantity when no overflow occurs |
| `StockDomain.NegativeAmountOverflows` | stock/src/main/java/com/example/stock/domain/Stock.java:34-38 | a negative amount for which quantity − amount exceeds `Long.MAX_VALUE` passes the guard, and the quantity wraps around to quantity − amount − 2^64, which is negative |
| `StockDomain.MinValueAmountWraps` | stock/src/main/java/com/example/stock/domain/Stock.java:34-38 | `decrease(Long.MIN_VALUE)` on any non-negative stock q passes the guard and wraps the quantity around to q + `Long.MIN_VALUE`, which is negative |
| `StockDomain.RepeatedDecrease` | stock/src/main/java/com/example/stock/domain/Stock.java:33-39 | n successive `decrease(a)` calls with a ≥ 0 and n·a ≤ quantity all succeed and leave exactly quantity − n·a |
| `StockDomain.ThousandSingleDecrements` | stock/src/test/java/com/example/stock/service/StockServiceTest.java:39-42 | sequentially, 1000 decrements of 1 from 1000 all succeed and end at 0 |
| `StockServices.StockService.constructor` | stock/src/main/java/com/example/stock/service/StockService.java:12-14 | the service starts over the given repository table |
| `StockServices.DecreaseIn` | stock/src/main/java/com/example/stock/service/StockService.java:16-28 | fails exactly when the id is absent (StockNotFound) or its quantity is below the amount (NotEnoughStock); on success the key set, the product id and every other row are unchanged, and for a non-negative amount the row's quantity drops by exactly the amount |
| `StockServices.StockService.Decrease` | stock/src/main/java/com/example/stock/service/StockService.java:16-28 | the outcome is that of `DecreaseIn` on the old table; the table is updated only on success, so on either exception the repository is unchanged |
| `StockServices.NonNegativeStored` | stock/src/main/java/com/example/stock/service/StockService.java:21-27 | if every stored quantity is non-negative and the amount is non-negative, every stored quantity stays non-negative |
| `StockServices.ExactAmountStoresZero` | stock/src/main/java/com/example/stock/service/StockService.java:25-27 | requesting exactly the stored quantity succeeds and stores 0 for that key, nothing else changing |
| `StockServices.SuccessiveDecreases` | stock/src/main/java/com/example/stock/service/StockService.java:21-27 | n successive `decrease(id, a)` calls with n·a ≤ stored quantity all succeed, store exactly n·a less under `id`, and leave every other row and the product id as they were |
| `StockServices.LookupIsByPrimaryKey` | stock/src/main/java/com/example/stock/service/StockService.java:21-23 | a row saved under generated key 1 with product id 1000 is not found by `decrease(1000, 1)`, which throws StockNotFound |
| `StockServices.ThousandSingleDecreasesIn` | stock/src/test/java/com/example/stock/service/StockServiceTest.java:78-80 | a row with quantity 1000, decremented 1000 times by 1 under the key actually passed, ends at 0 with its product id kept |
| `RedisLocks.KeyRoundTrip` | stock/src/main/java/com/example/stock/repository/RedisRepository.java:29-31 | every generated key is a well-formed decimal numeral that parses back to the key |
| `RedisLocks.GenerateKeyInjective` | stock/src/main/java/com/example/stock/repository/RedisRepository.java:29-31 | distinct numeric keys give distinct lock keys |
| `RedisLocks.RedisRepository.constructor` | stock/src/main/java/com/example/stock/repository/RedisRepository.java:13-15 | the repository starts over the given key table |
| `RedisLocks.RedisRepository.Lock` | stock/src/main/java/com/example/stock/repository/RedisRepository.java:17-22 | returns true exactly when the generated key was absent, and then stores `"lock"` under it; when the key is already held it returns false and leaves the table unchanged |
| `RedisLocks.RedisRepository.Unlock` | stock/src/main/java/com/example/stock/repository/RedisRepository.java:24-27 | deletes the generated key and returns whether it was present; no other entry changes |
| `RedisLocks.HeldKeyNeverWon` | stock/src/main/java/com/example/stock/repository/RedisRepository.java:17-22 | a lock attempt on a held key leaves the table unchanged, so repeating it makes no progress |
| `RedisLocks.LockThenUnlockRestores` | stock/src/main/java/com/example/stock/repository/RedisRepository.java:17-27 | locking a free key and unlocking it restores the original table exactly |
| `RedisLocks.UnlockThenLockWins` | stock/src/main/java/com/example/stock/repository/RedisRepository.java:24-27 | after an unlock the key is free and the next lock wins it |
| `RedisLocks.UnlockIdempotent` | stock/src/main/java/com/example/stock/repository/RedisRepository.java:24-27 | unlocking a free key changes nothing; unlocking twice equals unlocking once |
| `RedisLocks.OtherKeysUntouched` | stock/src/main/java/com/example/stock/repository/RedisRepository.java:17-27 | lock and unlock of one numeric key leave the held/free state and the value of every other numeric key unchanged |
| `LettuceFacade.LettuceLockStockFacade.constructor` | stock/src/main/java/com/example/stock/facade/LettuceLockStockFacade.java:14-17 | the facade holds the given lock repository and stock service |
| `LettuceFacade.LettuceLockStockFacade.Decrease` | stock/src/main/java/com/example/stock/facade/LettuceLockStockFacade.java:19-29 | starting from a free key, it spins until `lock` wins, then runs the decrement through `DecreaseHolding`, whose precondition makes the lock-then-decrement order checked at the call; the outcome and the new stock table are exactly those of `StockService.decrease`, with the exception propagated; the lock table is restored exactly afterwards on every path, so the key is free again and no other product's key is touched |
| `LettuceFacade.LettuceLockStockFacade.DecreaseHolding` | stock/src/main/java/com/example/stock/facade/LettuceLockStockFacade.java:24-25 | the service decrement can be called only while the product's lock key is held with `"lock"`; its outcome and new stock table are exactly those of `StockService.decrease`, and it does not touch the lock table |

## Left out

- Concurrency: thread pools, `CountDownLatch`, `synchronized`, `@Transactional` and the
  interleavings they control. The model is sequential and proves no mutual exclusion between
  threads. The test's final-value assertion appears only as its sequential analogue.
- LettuceFacade.LettuceLockStockFacade.Decrease: requires the key to be free on entry. With
  the key held by another party the source spins until that party releases the key or the
  key's 3000 ms time-to-live runs out. Expiry is left out (see below), so a sequential model
  never sees the key freed, and the call would not terminate.
- `Thread.sleep(100)` in the spin loop only delays the next attempt and is not modelled.
- The 3000 ms time-to-live of a lock key and expiry in general. A held key stays held until
  `unlock`.
- `Boolean` results that Redis may return as `null` (inside a pipeline or transaction). The
  model always answers true or false.
- `null` values of the boxed `Long` parameters and fields, and the resulting
  `NullPointerException`s.
- The `@Version` field and optimistic versioning; the pessimistic and optimistic JPA
  repositories and the services built on them (`OptimisticLockStockService`,
  `PessimisticLockStockService`, `StockNonSynchronizedService`). Sequentially, each is a lookup
  by product id followed by `Stock.decrease`; what sets them apart is a lock mode or a keyword.
- `OptimisticLockStockFacade` and `NamedLockStockFacade`. Their collaborators
  (`NamedLockRepository`, `NamedLockStockService`) and the optimistic retry loop are not part
  of this model.
- `RedissonLockStockFacade`. Its `tryLock` wait and lease and the behaviour of its `unlock` live
  in the Redisson client library, which is not part of this model.
- The persistence layer itself: id generation, `saveAndFlush` flushing and transaction
  boundaries. Saving is a map update of the looked-up key.
