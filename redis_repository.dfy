/** `RedisRepository`: a table of lock keys, set only when absent and deleted on release. */
module RedisLocks {
  import opened JavaLong

  /** The value stored under a held lock key. */
  const LockValue: string := "lock"

  predicate IsDigit(c: char) {
    '0' <= c <= '9'
  }

  predicate AllDigits(s: string) {
    forall i :: 0 <= i < |s| ==> IsDigit(s[i])
  }

  function Digit(d: nat): (c: char)
    requires d < 10
    ensures IsDigit(c)
  {
    ('0' as int + d) as char
  }

  function DigitValue(c: char): nat
    requires IsDigit(c)
  {
    c as int - '0' as int
  }

  /** The decimal numeral of `n`, without leading zeros. */
  function DecimalDigits(n: nat): string
    decreases n
  {
    if n < 10 then [Digit(n)] else DecimalDigits(n / 10) + [Digit(n % 10)]
  }

  /** `generateKey`: `Long.toString`, a minus sign before the numeral of a negative key. */
  function GenerateKey(key: Long): string {
    if key < 0 then "-" + DecimalDigits(-(key as int)) else DecimalDigits(key as int)
  }

  function ParseDigits(s: string): nat
    requires |s| > 0 && AllDigits(s)
    decreases |s|
  {
    if |s| == 1 then DigitValue(s[0])
    else ParseDigits(s[..|s| - 1]) * 10 + DigitValue(s[|s| - 1])
  }

  predicate WellFormedKey(s: string) {
    |s| > 0 && if s[0] == '-' then |s| > 1 && AllDigits(s[1..]) else AllDigits(s)
  }

  /** Reads a lock key back as the number it was generated from. */
  function ParseKey(s: string): int
    requires WellFormedKey(s)
  {
    if s[0] == '-' then -(ParseDigits(s[1..]) as int) else ParseDigits(s)
  }

  lemma {:induction false} DigitsRoundTrip(n: nat)
    ensures |DecimalDigits(n)| > 0 && AllDigits(DecimalDigits(n))
    ensures ParseDigits(DecimalDigits(n)) == n
  {
    if n >= 10 {
      DigitsRoundTrip(n / 10);
      var s := DecimalDigits(n);
      assert s[..|s| - 1] == DecimalDigits(n / 10);
    }
  }

  /** Every generated key is a well-formed numeral that reads back as the key. */
  lemma KeyRoundTrip(key: Long)
    ensures WellFormedKey(GenerateKey(key)) && ParseKey(GenerateKey(key)) == key as int
  {
    var s := GenerateKey(key);
    if key < 0 {
      DigitsRoundTrip(-(key as int));
      assert s[1..] == DecimalDigits(-(key as int));
    } else {
      DigitsRoundTrip(key as int);
    }
  }

  /** Distinct keys give distinct lock keys, so locks on different products never collide. */
  lemma GenerateKeyInjective(k1: Long, k2: Long)
    requires k1 != k2
    ensures GenerateKey(k1) != GenerateKey(k2)
  {
    KeyRoundTrip(k1);
    KeyRoundTrip(k2);
  }

  type LockTable = map<string, string>

  predicate Held(store: LockTable, key: Long) {
    GenerateKey(key) in store
  }

  /** The table after `lock(key)`: a set-if-absent of the generated key. */
  function AfterLock(store: LockTable, key: Long): LockTable {
    if Held(store, key) then store else store[GenerateKey(key) := LockValue]
  }

  /** The table after `unlock(key)`: the generated key deleted. */
  function AfterUnlock(store: LockTable, key: Long): LockTable {
    store - {GenerateKey(key)}
  }

  class RedisRepository {
    var store: LockTable

    constructor (store: LockTable)
      ensures this.store == store
    {
      this.store := store;
    }

    /** Returns whether this call won the key; a held key is left as it was. */
    method Lock(key: Long) returns (won: bool)
      modifies this
      ensures won == !Held(old(store), key)
      ensures store == AfterLock(old(store), key)
      ensures Held(store, key) && (won ==> store[GenerateKey(key)] == LockValue)
    {
      var generatedKey := GenerateKey(key);
      won := generatedKey !in store;
      if won {
        store := store[generatedKey := LockValue];
      }
    }

    /** Returns whether a key was deleted. */
    method Unlock(key: Long) returns (deleted: bool)
      modifies this
      ensures deleted == Held(old(store), key)
      ensures store == AfterUnlock(old(store), key)
      ensures !Held(store, key)
    {
      var generatedKey := GenerateKey(key);
      deleted := generatedKey in store;
      store := store - {generatedKey};
    }
  }

  /** Locking a free key and then unlocking it restores the table exactly. */
  lemma LockThenUnlockRestores(store: LockTable, key: Long)
    requires !Held(store, key)
    ensures AfterUnlock(AfterLock(store, key), key) == store
  {
  }

  /** After `unlock(key)` the next `lock(key)` wins, whoever held the key before. */
  lemma UnlockThenLockWins(store: LockTable, key: Long)
    ensures !Held(AfterUnlock(store, key), key)
    ensures AfterLock(AfterUnlock(store, key), key)[GenerateKey(key)] == LockValue
  {
  }

  /**
   * While another holder keeps the key, every `lock(key)` loses and changes nothing, so a
   * spin on it makes no progress until that holder releases the key.
   */
  lemma HeldKeyNeverWon(store: LockTable, key: Long)
    requires Held(store, key)
    ensures AfterLock(store, key) == store
  {
  }

  /** Unlocking a key that is not held changes nothing, so a second unlock is harmless. */
  lemma UnlockIdempotent(store: LockTable, key: Long)
    ensures !Held(store, key) ==> AfterUnlock(store, key) == store
    ensures AfterUnlock(AfterUnlock(store, key), key) == AfterUnlock(store, key)
  {
  }

  /** `lock` and `unlock` on one key leave the lock state of every other key as it was. */
  lemma OtherKeysUntouched(store: LockTable, key: Long, other: Long)
    requires other != key
    ensures Held(AfterLock(store, key), other) <==> Held(store, other)
    ensures Held(AfterUnlock(store, key), other) <==> Held(store, other)
    ensures Held(store, other) ==>
      AfterLock(store, key)[GenerateKey(other)] == store[GenerateKey(other)] &&
      AfterUnlock(store, key)[GenerateKey(other)] == store[GenerateKey(other)]
  {
    GenerateKeyInjective(key, other);
  }
}
