/**
 * The run-time join-point store: a process-wide map from "<threadId>-<key>" to the
 * receiver and arguments captured at an instrumented call site.
 */
module JoinPointStore {
  import opened Wrappers

  /** The identity of a JVM object. */
  type ObjectRef = nat

  /** The receiver (None inside a static method) and the arguments of the intercepted call. */
  datatype JoinPoint = JoinPoint(target: Option<ObjectRef>, args: seq<Option<ObjectRef>>)

  predicate IsDigit(c: char) {
    '0' <= c <= '9'
  }

  function DigitChar(d: nat): (c: char)
    requires d < 10
    ensures IsDigit(c)
  {
    (48 + d) as char
  }

  function DigitValue(c: char): nat {
    if IsDigit(c) then (c as int) - 48 else 0
  }

  /** The decimal text of a thread id, as Kotlin's string template writes a non-negative Long. */
  function ThreadIdText(n: nat): (s: string)
    ensures |s| >= 1
    ensures forall i :: 0 <= i < |s| ==> IsDigit(s[i])
    decreases n
  {
    if n < 10 then [DigitChar(n)] else ThreadIdText(n / 10) + [DigitChar(n % 10)]
  }

  /** Reads a string of decimal digits back as a number. */
  function ParseDecimal(s: string): nat
    decreases |s|
  {
    if s == [] then 0 else 10 * ParseDecimal(s[..|s| - 1]) + DigitValue(s[|s| - 1])
  }

  lemma {:induction false} ParseThreadIdText(n: nat)
    ensures ParseDecimal(ThreadIdText(n)) == n
    decreases n
  {
    if n >= 10 {
      var s := ThreadIdText(n);
      assert s[..|s| - 1] == ThreadIdText(n / 10);
      ParseThreadIdText(n / 10);
    }
  }

  /** The key the store uses for a logical key on a thread: "${threadId}-$key". */
  function StoreKey(threadId: nat, key: string): string {
    ThreadIdText(threadId) + "-" + key
  }

  /**
   * The key encoding is injective: the thread id is all digits, so the first '-' marks
   * where it ends, and the rest is the logical key.
   */
  lemma StoreKeyInjective(t1: nat, k1: string, t2: nat, k2: string)
    requires StoreKey(t1, k1) == StoreKey(t2, k2)
    ensures t1 == t2 && k1 == k2
  {
    var a, b := ThreadIdText(t1), ThreadIdText(t2);
    var s := StoreKey(t1, k1);
    // The first non-digit of s is the '-' at index |a| and also at index |b|.
    assert s[|a|] == '-' && !IsDigit(s[|a|]);
    assert s[|b|] == '-';
    assert |a| == |b|;
    assert a == s[..|a|] == b;
    assert k1 == s[|a| + 1..] == k2;
    ParseThreadIdText(t1);
    ParseThreadIdText(t2);
  }

  /** STORE["${threadId}-$key"]. */
  function Lookup(store: map<string, JoinPoint>, threadId: nat, key: string): Option<JoinPoint> {
    var k := StoreKey(threadId, key);
    if k in store then Some(store[k]) else None
  }

  function PutEntry(store: map<string, JoinPoint>, threadId: nat, key: string, value: JoinPoint): map<string, JoinPoint> {
    store[StoreKey(threadId, key) := value]
  }

  function RemoveEntry(store: map<string, JoinPoint>, threadId: nat, key: string): map<string, JoinPoint> {
    store - {StoreKey(threadId, key)}
  }

  /** get right after put on the same thread and key sees the value put. */
  lemma LookupAfterPut(store: map<string, JoinPoint>, t: nat, key: string, value: JoinPoint)
    ensures Lookup(PutEntry(store, t, key, value), t, key) == Some(value)
  {
  }

  /** A second put on the same thread and key replaces the first entirely. */
  lemma PutOverwrites(store: map<string, JoinPoint>, t: nat, key: string, v1: JoinPoint, v2: JoinPoint)
    ensures PutEntry(PutEntry(store, t, key, v1), t, key, v2) == PutEntry(store, t, key, v2)
  {
  }

  /** get right after remove on the same thread and key finds nothing. */
  lemma LookupAfterRemove(store: map<string, JoinPoint>, t: nat, key: string)
    ensures Lookup(RemoveEntry(store, t, key), t, key) == None
  {
  }

  /**
   * Isolation: put on (t, key) leaves every other (thread, key) pair as it was. This
   * includes the same logical key on another thread.
   */
  lemma LookupAfterPutOther(store: map<string, JoinPoint>, t: nat, key: string, value: JoinPoint, t': nat, key': string)
    requires (t', key') != (t, key)
    ensures Lookup(PutEntry(store, t, key, value), t', key') == Lookup(store, t', key')
  {
    if StoreKey(t', key') == StoreKey(t, key) {
      StoreKeyInjective(t', key', t, key);
    }
  }

  /** Isolation: remove on (t, key) leaves every other (thread, key) pair as it was. */
  lemma LookupAfterRemoveOther(store: map<string, JoinPoint>, t: nat, key: string, t': nat, key': string)
    requires (t', key') != (t, key)
    ensures Lookup(RemoveEntry(store, t, key), t', key') == Lookup(store, t', key')
  {
    if StoreKey(t', key') == StoreKey(t, key) {
      StoreKeyInjective(t', key', t, key);
    }
  }

  /** remove of a pair with no entry leaves the store as it was. */
  lemma RemoveAbsentUnchanged(store: map<string, JoinPoint>, t: nat, key: string)
    requires Lookup(store, t, key) == None
    ensures RemoveEntry(store, t, key) == store
  {
  }

  /** The companion object's STORE. The calling thread's id is passed explicitly. */
  class Store {
    var entries: map<string, JoinPoint>

    constructor ()
      ensures entries == map[]
    {
      entries := map[];
    }

    /** get: a lookup that changes nothing. */
    function Get(threadId: nat, key: string): Option<JoinPoint>
      reads this
    {
      Lookup(entries, threadId, key)
    }

    method Put(threadId: nat, key: string, value: JoinPoint)
      modifies this
      ensures entries == PutEntry(old(entries), threadId, key, value)
      ensures Get(threadId, key) == Some(value)
      ensures forall t: nat, k: string :: (t, k) != (threadId, key) ==> Get(t, k) == old(Get(t, k))
    {
      entries := entries[StoreKey(threadId, key) := value];
      forall t: nat, k: string | (t, k) != (threadId, key) ensures Get(t, k) == old(Get(t, k)) {
        LookupAfterPutOther(old(entries), threadId, key, value, t, k);
      }
    }

    method Remove(threadId: nat, key: string)
      modifies this
      ensures entries == RemoveEntry(old(entries), threadId, key)
      ensures Get(threadId, key) == None
      ensures forall t: nat, k: string :: (t, k) != (threadId, key) ==> Get(t, k) == old(Get(t, k))
      ensures old(Get(threadId, key)) == None ==> entries == old(entries)
    {
      entries := entries - {StoreKey(threadId, key)};
      forall t: nat, k: string | (t, k) != (threadId, key) ensures Get(t, k) == old(Get(t, k)) {
        LookupAfterRemoveOther(old(entries), threadId, key, t, k);
      }
    }
  }
}
