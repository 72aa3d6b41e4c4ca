/**
 * The first step of `JavaStringUtils.replaceAllMappings`: the entries of the
 * caller's map, already turned into strings with `toString()`, are read in
 * the map's iteration order. A key is appended to the key list the first
 * time it is seen, and the lookup table keeps the value of its last entry.
 */
module StringMappings {

  /** One entry of the caller's map, key and value already stringified. */
  type Entry = (string, string)

  /** No element occurs twice. */
  predicate Distinct<T(==)>(xs: seq<T>) {
    forall i, j :: 0 <= i < j < |xs| ==> xs[i] != xs[j]
  }

  /** The index of the first entry with key `k`, or `|entries|` if none has it. */
  function FirstIndexOfKey(entries: seq<Entry>, k: string): (n: nat)
    ensures n <= |entries|
    ensures n < |entries| ==> entries[n].0 == k
    ensures forall i :: 0 <= i < n ==> entries[i].0 != k
  {
    if entries == [] then 0
    else
      var f := FirstIndexOfKey(entries[..|entries| - 1], k);
      if f < |entries| - 1 then f
      else if entries[|entries| - 1].0 == k then |entries| - 1
      else |entries|
  }

  /** The index of the last entry with key `k`, or -1 if none has it. */
  function LastIndexOfKey(entries: seq<Entry>, k: string): (n: int)
    ensures -1 <= n < |entries|
    ensures n >= 0 ==> entries[n].0 == k
    ensures forall i :: n < i < |entries| ==> entries[i].0 != k
  {
    if entries == [] then -1
    else if entries[|entries| - 1].0 == k then |entries| - 1
    else LastIndexOfKey(entries[..|entries| - 1], k)
  }

  /** The key list and the lookup table built from the entries. */
  datatype Collected = Collected(keys: seq<string>, lookup: map<string, string>)

  /** Reads the entries in order: a key is listed the first time it is seen,
      and `lookup` is updated with every entry. */
  function Collect(entries: seq<Entry>): (c: Collected)
    ensures Distinct(c.keys)
    ensures forall k :: k in c.lookup <==> k in c.keys
  {
    if entries == [] then Collected([], map[])
    else
      var c := Collect(entries[..|entries| - 1]);
      var (key, value) := entries[|entries| - 1];
      var keys := if key in c.lookup then c.keys else c.keys + [key];
      Collected(keys, c.lookup[key := value])
  }

  /** The first entry with a key is found in the prefix when it is there. */
  lemma FirstIndexOfKeyPrefix(entries: seq<Entry>, k: string)
    requires entries != []
    ensures var init := entries[..|entries| - 1];
      FirstIndexOfKey(entries, k) < |init| <==> FirstIndexOfKey(init, k) < |init|
    ensures var init := entries[..|entries| - 1];
      FirstIndexOfKey(init, k) < |init| ==> FirstIndexOfKey(entries, k) == FirstIndexOfKey(init, k)
  {
  }

  /** The key list holds exactly the keys of the entries, each once, in the
      order of their first entries. */
  lemma {:induction false} CollectKeys(entries: seq<Entry>)
    ensures forall k :: k in Collect(entries).keys <==> FirstIndexOfKey(entries, k) < |entries|
    ensures forall i, j :: 0 <= i < j < |Collect(entries).keys| ==>
              FirstIndexOfKey(entries, Collect(entries).keys[i]) < FirstIndexOfKey(entries, Collect(entries).keys[j])
  {
    if entries != [] {
      var init := entries[..|entries| - 1];
      CollectKeys(init);
      forall k {
        FirstIndexOfKeyPrefix(entries, k);
      }
      var key := entries[|entries| - 1].0;
      assert FirstIndexOfKey(init, key) < |init| ==> key in Collect(init).lookup;
    }
  }

  /** A repeated key is looked up to the value of its last entry. */
  lemma {:induction false} CollectLastValue(entries: seq<Entry>)
    ensures forall k :: k in Collect(entries).lookup ==>
              LastIndexOfKey(entries, k) >= 0
              && Collect(entries).lookup[k] == entries[LastIndexOfKey(entries, k)].1
  {
    if entries != [] {
      CollectLastValue(entries[..|entries| - 1]);
    }
  }
}
