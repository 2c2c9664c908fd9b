/** The hash map of lib/hashmap.c, for keys of one length and any hash function. */
module HashMap {

  type Byte = b: nat | b < 0x100
  type Key = seq<Byte>

  /** struct bucket; the value is an address. */
  datatype Entry = Entry(key: Key, value: nat)

  /** The first entry of a chain with this key; 0, the null pointer, if none. */
  function Lookup(chain: seq<Entry>, key: Key): nat {
    if chain == [] then 0
    else if chain[0].key == key then chain[0].value
    else Lookup(chain[1..], key)
  }

  /** hashmap_hash */
  function Index(hash: Key -> nat, key: Key, size: nat): (i: nat)
    requires size > 0
    ensures i < size
  {
    hash(key) % size
  }

  /** The chains after the sets of the log, oldest first. */
  function Chains(hash: Key -> nat, size: nat, log: seq<Entry>): (c: seq<seq<Entry>>)
    requires size > 0
    ensures |c| == size
    decreases |log|
  {
    if log == [] then seq(size, _ => [])
    else
      var c, e := Chains(hash, size, log[..|log| - 1]), log[|log| - 1];
      var i := Index(hash, e.key, size);
      c[i := [e] + c[i]]
  }

  /** What a plain map that keeps the latest value says; 0 for a key never set. */
  function Latest(log: seq<Entry>, key: Key): nat
    decreases |log|
  {
    if log == [] then 0
    else if log[|log| - 1].key == key then log[|log| - 1].value
    else Latest(log[..|log| - 1], key)
  }

  /** The chains agree with the plain map: neither collisions nor the older entries of
      a key can be observed. */
  lemma {:induction false} LookupIsLatest(hash: Key -> nat, size: nat, log: seq<Entry>, key: Key)
    requires size > 0
    ensures Lookup(Chains(hash, size, log)[Index(hash, key, size)], key) == Latest(log, key)
    decreases |log|
  {
    if log != [] {
      var c, e := Chains(hash, size, log[..|log| - 1]), log[|log| - 1];
      LookupIsLatest(hash, size, log[..|log| - 1], key);
      var i := Index(hash, e.key, size);
      assert ([e] + c[i])[1..] == c[i];
    }
  }

  lemma LatestMore(log: seq<Entry>, e: Entry, key: Key)
    ensures Latest(log + [e], key) == if e.key == key then e.value else Latest(log, key)
  {
    assert (log + [e])[..|log|] == log;
  }

  /** memcmp of lib/string.c: the sign says which is greater at the first difference. */
  method Memcmp(a: Key, b: Key, n: nat) returns (r: int)
    requires n <= |a| && n <= |b|
    ensures r == 0 <==> a[..n] == b[..n]
    ensures r != 0 ==> exists k :: 0 <= k < n && a[..k] == b[..k] && r == a[k] as int - b[k] as int
  {
    var k := 0;
    while k < n
      invariant 0 <= k <= n && a[..k] == b[..k]
    {
      if a[k] != b[k] {
        assert a[..n][k] != b[..n][k];
        return a[k] as int - b[k] as int;
      }
      k := k + 1;
    }
    return 0;
  }

  class HashMap {
    const size: nat
    const keySize: nat
    const hash: Key -> nat
    const buckets: array<seq<Entry>>
    ghost var log: seq<Entry>

    ghost predicate Valid()
      reads this, buckets
    {
      && size > 0 && buckets[..] == Chains(hash, size, log)
      && forall i :: 0 <= i < buckets.Length ==> forall e :: e in buckets[i] ==> |e.key| == keySize
    }

    /** hashmap_create */
    constructor (size: nat, keySize: nat, hash: Key -> nat)
      requires size > 0
      ensures Valid() && log == [] && this.keySize == keySize && this.hash == hash && this.size == size && fresh(buckets)
    {
      this.size, this.keySize, this.hash := size, keySize, hash;
      buckets := new seq<Entry>[size](_ => []);
      log := [];
    }

    /** hashmap_get */
    method Get(key: Key) returns (value: nat)
      requires Valid() && |key| == keySize
      ensures value == Latest(log, key)
    {
      LookupIsLatest(hash, size, log, key);
      var chain := buckets[Index(hash, key, size)];
      assert chain == buckets[..][Index(hash, key, size)];
      var i := 0;
      assert chain[0..] == chain;
      while i < |chain|
        invariant 0 <= i <= |chain| && Lookup(chain[i..], key) == Latest(log, key)
      {
        assert chain[i..][1..] == chain[i + 1..] && chain[i] in chain;
        var r := Memcmp(chain[i].key, key, keySize);
        assert chain[i].key[..keySize] == chain[i].key && key[..keySize] == key;
        if r == 0 {
          return chain[i].value;
        }
        i := i + 1;
      }
      return 0;
    }

    /** hashmap_set */
    method Set(key: Key, value: nat) returns (index: nat)
      requires Valid() && |key| == keySize
      modifies this, buckets
      ensures Valid() && log == old(log) + [Entry(key, value)] && index == hash(key) % size
      ensures buckets[..] == old(buckets[..])[index := [Entry(key, value)] + old(buckets[..])[index]]
      ensures forall k: Key :: Latest(log, k) == if k == key then value else old(Latest(log, k))
    {
      index := Index(hash, key, size);
      var e := Entry(key, value);
      assert (log + [e])[..|log|] == log;
      forall k: Key
        ensures Latest(log + [e], k) == if k == key then value else Latest(log, k)
      {
        LatestMore(log, e, k);
      }
      assert buckets[index] == buckets[..][index];
      buckets[index] := [e] + buckets[index];
      log := log + [e];
    }
  }
}
