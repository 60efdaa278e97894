/**
 * `LettuceLockStockFacade.decrease`: spin on the Redis lock for the product, run the service
 * decrement, and release the lock on every exit path. Only the sequential bracket is modelled;
 * exclusion between threads is not.
 */
module LettuceFacade {
  import opened JavaLong
  import opened Outcomes
  import opened StockServices
  import opened RedisLocks

  class LettuceLockStockFacade {
    const redisRepository: RedisRepository
    const stockService: StockService

    constructor (redisRepository: RedisRepository, stockService: StockService)
      ensures this.redisRepository == redisRepository && this.stockService == stockService
    {
      this.redisRepository := redisRepository;
      this.stockService := stockService;
    }

    /**
     * The key must be free on entry: with no other caller to release it, a held key would
     * keep `lock` failing forever.
     */
    method Decrease(productId: Long, quantity: Long) returns (outcome: Outcome)
      requires !Held(redisRepository.store, productId)
      modifies redisRepository, stockService
      ensures redisRepository.store == old(redisRepository.store)
      ensures outcome == OutcomeOf(DecreaseIn(old(stockService.rows), productId, quantity))
      ensures stockService.rows == StoredAfter(old(stockService.rows), productId, quantity)
    {
      // while (!lock(productId)) Thread.sleep(100): the sleep only delays the next attempt.
      var won := false;
      while !won
        invariant won ==> redisRepository.store == AfterLock(old(redisRepository.store), productId)
        invariant !won ==> redisRepository.store == old(redisRepository.store)
        invariant stockService.rows == old(stockService.rows)
        decreases if won then 0 else 1
      {
        won := redisRepository.Lock(productId);
      }
      // try { stockService.decrease } finally { unlock }: the service reports a thrown
      // exception as its outcome, so the release below runs on both paths.
      outcome := DecreaseHolding(productId, quantity);
      var _ := redisRepository.Unlock(productId);
      LockThenUnlockRestores(old(redisRepository.store), productId);
    }

    /**
     * The body of the `try` block: the service decrement, callable only while this
     * product's lock key is held with the lock value, which fixes the order
     * lock, then decrement, then unlock.
     */
    method DecreaseHolding(productId: Long, quantity: Long) returns (outcome: Outcome)
      requires Held(redisRepository.store, productId)
      requires redisRepository.store[GenerateKey(productId)] == LockValue
      modifies stockService
      ensures outcome == OutcomeOf(DecreaseIn(old(stockService.rows), productId, quantity))
      ensures stockService.rows == StoredAfter(old(stockService.rows), productId, quantity)
    {
      outcome := stockService.Decrease(productId, quantity);
    }
  }
}
