/** Facts about sequences, and dictionaries of buckets, shared by the project. */
module Collections {

  ghost predicate Distinct<T>(s: seq<T>) {
    forall i, j | 0 <= i < j < |s| :: s[i] != s[j]
  }

  lemma Associates<T>(a: seq<T>, b: seq<T>, c: seq<T>)
    ensures a + (b + c) == a + b + c
  {
  }

  lemma NextPrefix<T>(s: seq<T>, i: nat)
    requires i < |s|
    ensures s[..i + 1] == s[..i] + [s[i]]
  {
  }

  lemma SplitAt<T>(s: seq<T>, i: nat)
    requires i < |s|
    ensures s == s[..i] + ([s[i]] + s[i + 1..])
  {
  }

  lemma MultisetAround<T>(front: seq<T>, x: T, back: seq<T>)
    ensures multiset(front + back) == multiset(front + ([x] + back)) - multiset{x}
  {
  }

  /** `buckets.get(key, [])` */
  function BucketIn<K, V>(buckets: map<K, seq<V>>, key: K): seq<V> {
    if key in buckets then buckets[key] else []
  }
}
