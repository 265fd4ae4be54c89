/**
 * The shared coordination store the workers talk through, as an in-memory map
 * from keys to byte strings (bytes are kept as characters). Blocking reads become
 * the precondition that the key is already present.
 */
module KvStore {
  import opened Wrappers
  import opened Decimal

  /** compareSet replaces the value: the key holds `expected`, or is absent and `expected` is empty. */
  predicate Swaps(data: map<string, string>, key: string, expected: string) {
    if key in data then data[key] == expected else expected == ""
  }

  /** What compareSet answers: the value the key holds afterwards, or `expected` for an absent key left alone. */
  function CompareSetReply(data: map<string, string>, key: string, expected: string, desired: string): string {
    if Swaps(data, key, expected) then desired
    else if key in data then data[key]
    else expected
  }

  /** The key is absent or holds decimal text, so `add` can read it. */
  predicate HoldsCounter(data: map<string, string>, key: string) {
    key !in data || ParseInt(data[key]).Some?
  }

  /** The number an `add` key stands for; an absent key counts as 0. */
  function CounterValue(data: map<string, string>, key: string): int
    requires HoldsCounter(data, key)
  {
    if key in data then ParseInt(data[key]).value else 0
  }

  class Store {
    var data: map<string, string>

    constructor (initial: map<string, string>)
      ensures data == initial
    {
      data := initial;
    }

    /** Unconditional overwrite. */
    method Set(key: string, value: string)
      modifies this
      ensures data == old(data)[key := value]
    {
      data := data[key := value];
    }

    /** The read blocks until the key exists; here it must exist already. */
    method Get(key: string) returns (value: string)
      requires key in data
      ensures value == data[key]
    {
      value := data[key];
    }

    /** Non-blocking test that every key exists. */
    method Check(keys: seq<string>) returns (present: bool)
      ensures present <==> forall i :: 0 <= i < |keys| ==> keys[i] in data
    {
      present := forall i | 0 <= i < |keys| :: keys[i] in data;
    }

    /** Atomic compare-and-set, answering the stored value, or `expected` for an absent key left alone. */
    method CompareSet(key: string, expected: string, desired: string) returns (current: string)
      modifies this
      ensures data == if Swaps(old(data), key, expected) then old(data)[key := desired] else old(data)
      ensures current == CompareSetReply(old(data), key, expected, desired)
    {
      if Swaps(data, key, expected) {
        data := data[key := desired];
        current := desired;
      } else if key in data {
        current := data[key];
      } else {
        current := expected;
      }
    }

    /** Atomic add: an absent key starts at 0; the new total is stored as decimal text and answered. */
    method Add(key: string, delta: int) returns (total: int)
      requires HoldsCounter(data, key)
      modifies this
      ensures total == CounterValue(old(data), key) + delta
      ensures data == old(data)[key := IntToString(total)]
    {
      total := CounterValue(data, key) + delta;
      data := data[key := IntToString(total)];
    }
  }
}
