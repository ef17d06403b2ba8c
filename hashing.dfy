/**
 * What both hash tables share: the stored (key, value) pair, the hash function
 * that picks a slot, and the "first insertion wins" reading of a list of pairs
 * that both searches are measured against.
 */
module Hashing {
  import opened Wrappers

  /** A stored pair; keys are unbounded integers (possibly negative), values opaque strings. */
  datatype Entry = Entry(key: int, value: string)

  /**
   * `key % size`. Dafny's `%` with a positive divisor never returns a negative
   * number, which is also what Python's `%` does, so negative keys land in range.
   */
  function Hash(key: int, size: int): (r: int)
    requires size > 0
    ensures 0 <= r < size
    ensures 0 <= key < size ==> r == key
  {
    key % size
  }

  /**
   * The value of the earliest pair in `entries` whose key is `key`, or `None`
   * when no pair has that key. It is the search order of a chain and the
   * reference meaning of a sequence of insertions.
   */
  function FirstMatch(entries: seq<Entry>, key: int): (r: Option<string>)
    ensures r.None? <==> forall i :: 0 <= i < |entries| ==> entries[i].key != key
    ensures r.Some? ==>
      exists i :: 0 <= i < |entries| && entries[i] == Entry(key, r.value) &&
        forall j :: 0 <= j < i ==> entries[j].key != key
  {
    if entries == [] then None
    else if entries[0].key == key then Some(entries[0].value)
    else FirstMatch(entries[1..], key)
  }

  /** Appending a pair changes the first match only when there was none before. */
  lemma {:induction false} FirstMatchAppend(entries: seq<Entry>, e: Entry, key: int)
    ensures FirstMatch(entries + [e], key) ==
      if FirstMatch(entries, key).Some? then FirstMatch(entries, key)
      else if e.key == key then Some(e.value)
      else None
  {
    if entries != [] {
      assert (entries + [e])[1..] == entries[1..] + [e];
      FirstMatchAppend(entries[1..], e, key);
    }
  }
}
