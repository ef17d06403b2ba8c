/**
 * Separate chaining: a fixed number of chains, each an ordered list of
 * (key, value) pairs. An insertion appends the pair to the chain at the key's
 * hash; a search scans that chain in order and returns the first match.
 *
 * As for open addressing, the chains are first described as a value
 * (`seq<Chain>`) with the functions and lemmas that give insertion and search
 * their meaning; the class at the end keeps the chains in an array and is
 * proved against those functions.
 */
module SeparateChaining {
  import opened Wrappers
  import opened Hashing

  /** One chain: the pairs that hashed to its index, oldest first. */
  type Chain = seq<Entry>

  /** The chains of a freshly built table: all empty. */
  function EmptyChains(n: nat): (c: seq<Chain>)
    ensures |c| == n && forall i :: 0 <= i < n ==> c[i] == []
  {
    seq(n, _ => [])
  }

  /** The number of pairs stored in all chains together. */
  function TotalEntries(chains: seq<Chain>): (c: nat)
    ensures c == 0 <==> forall i :: 0 <= i < |chains| ==> chains[i] == []
  {
    if chains == [] then 0 else |chains[0]| + TotalEntries(chains[1..])
  }

  /** Appending to one chain raises the total by exactly one. */
  lemma {:induction false} TotalEntriesAppend(chains: seq<Chain>, i: nat, e: Entry)
    requires i < |chains|
    ensures TotalEntries(chains[i := chains[i] + [e]]) == TotalEntries(chains) + 1
  {
    if i == 0 {
      assert chains[i := chains[i] + [e]][1..] == chains[1..];
    } else {
      assert chains[i := chains[i] + [e]][1..] == chains[1..][i - 1 := chains[1..][i - 1] + [e]];
      TotalEntriesAppend(chains[1..], i - 1, e);
    }
  }

  /** Every pair sits in the chain its key hashes to. */
  predicate ChainsHashed(chains: seq<Chain>)
  {
    forall i, j :: 0 <= i < |chains| && 0 <= j < |chains[i]| ==> Hash(chains[i][j].key, |chains|) == i
  }

  /** Some chain holds a pair with this key. */
  predicate Contains(chains: seq<Chain>, key: int)
  {
    exists i, j :: 0 <= i < |chains| && 0 <= j < |chains[i]| && chains[i][j].key == key
  }

  /** The chains after `insert(key, value)`: the pair is appended to chain `Hash(key, |chains|)`. */
  function Appended(chains: seq<Chain>, key: int, value: string): (r: seq<Chain>)
    requires |chains| > 0
    ensures |r| == |chains|
    ensures r[Hash(key, |chains|)] == chains[Hash(key, |chains|)] + [Entry(key, value)]
    ensures forall i :: 0 <= i < |chains| && i != Hash(key, |chains|) ==> r[i] == chains[i]
    ensures TotalEntries(r) == TotalEntries(chains) + 1
    ensures forall k :: Contains(r, k) <==> Contains(chains, k) || k == key
  {
    var h := Hash(key, |chains|);
    TotalEntriesAppend(chains, h, Entry(key, value));
    var r := chains[h := chains[h] + [Entry(key, value)]];
    forall k ensures Contains(r, k) <==> Contains(chains, k) || k == key {
      if Contains(chains, k) {
        var i, j :| 0 <= i < |chains| && 0 <= j < |chains[i]| && chains[i][j].key == k;
        assert r[i][j] == chains[i][j];
      }
      if k == key {
        assert r[h][|chains[h]|].key == key;
      }
      if Contains(r, k) {
        var i, j :| 0 <= i < |r| && 0 <= j < |r[i]| && r[i][j].key == k;
        if i != h || j < |chains[h]| {
          assert r[i][j] == chains[i][j];
        }
      }
    }
    r
  }

  /** Appending keeps every pair in the chain its key hashes to. */
  lemma AppendedKeepsHashed(chains: seq<Chain>, key: int, value: string)
    requires |chains| > 0 && ChainsHashed(chains)
    ensures ChainsHashed(Appended(chains, key, value))
  {
  }

  /** The result of `search(key)`: the first match in chain `Hash(key, |chains|)`. */
  function Lookup(chains: seq<Chain>, key: int): (r: Option<string>)
    requires |chains| > 0
    ensures var chain := chains[Hash(key, |chains|)];
      r.None? <==> forall j :: 0 <= j < |chain| ==> chain[j].key != key
    ensures var chain := chains[Hash(key, |chains|)];
      r.Some? ==> (exists j :: 0 <= j < |chain| && chain[j] == Entry(key, r.value) &&
                     forall i :: 0 <= i < j ==> chain[i].key != key)
  {
    FirstMatch(chains[Hash(key, |chains|)], key)
  }

  /** With every pair in its own chain, search finds a key exactly when some chain stores it. */
  lemma LookupFindsStoredKeys(chains: seq<Chain>, key: int)
    requires |chains| > 0 && ChainsHashed(chains)
    ensures Lookup(chains, key).Some? <==> Contains(chains, key)
  {
  }

  /**
   * After appending, search for the appended key returns the earlier value if
   * there was one and the new value otherwise; other keys are unaffected.
   */
  lemma {:induction false} LookupAfterAppend(chains: seq<Chain>, key: int, value: string, k: int)
    requires |chains| > 0
    ensures Lookup(Appended(chains, key, value), k) ==
      if Lookup(chains, k).Some? then Lookup(chains, k)
      else if k == key then Some(value)
      else None
  {
    var h := Hash(key, |chains|);
    if Hash(k, |chains|) == h {
      FirstMatchAppend(chains[h], Entry(key, value), k);
    }
  }

  /** The chains after inserting the pairs of `ops` in order, starting from `chains`. */
  function InsertAll(chains: seq<Chain>, ops: seq<Entry>): (r: seq<Chain>)
    requires |chains| > 0
    ensures |r| == |chains| && TotalEntries(r) == TotalEntries(chains) + |ops|
    ensures forall k :: Contains(r, k) <==> Contains(chains, k) || FirstMatch(ops, k).Some?
    decreases |ops|
  {
    if ops == [] then chains
    else
      var init, last := ops[..|ops| - 1], ops[|ops| - 1];
      assert ops == init + [last];
      forall k ensures FirstMatch(ops, k).Some? <==> FirstMatch(init, k).Some? || last.key == k {
        FirstMatchAppend(init, last, k);
      }
      Appended(InsertAll(chains, init), last.key, last.value)
  }

  /**
   * Starting from an empty table, search returns the value of the earliest
   * insertion of the key, and `None` for a key never inserted; there is no
   * capacity limit.
   */
  lemma {:induction false} FirstInsertionWins(n: nat, ops: seq<Entry>, k: int)
    requires 0 < n
    ensures Lookup(InsertAll(EmptyChains(n), ops), k) == FirstMatch(ops, k)
    decreases |ops|
  {
    if ops != [] {
      var init, last := ops[..|ops| - 1], ops[|ops| - 1];
      assert ops == init + [last];
      FirstInsertionWins(n, init, k);
      FirstMatchAppend(init, last, k);
      LookupAfterAppend(InsertAll(EmptyChains(n), init), last.key, last.value, k);
    }
  }

  class HashTableSeparateChaining {
    const size: int
    const table: array<Chain>

    ghost predicate Valid()
      reads table
    {
      size > 0 && table.Length == size && ChainsHashed(table[..])
    }

    /** A table of `size` empty chains. */
    constructor (size: int)
      requires size > 0
      ensures Valid() && fresh(table)
      ensures this.size == size && table[..] == EmptyChains(size)
    {
      this.size := size;
      table := new Chain[size](_ => []);
    }

    /** Appends the pair to the chain at the key's hash; never fails. */
    method Insert(key: int, value: string)
      requires Valid()
      modifies table
      ensures Valid()
      ensures table[..] == Appended(old(table[..]), key, value)
    {
      var hashValue := Hash(key, size);
      AppendedKeepsHashed(table[..], key, value);
      table[hashValue] := table[hashValue] + [Entry(key, value)];
    }

    /** Scans the chain at the key's hash in order; returns the first match or `None`. */
    method Search(key: int) returns (r: Option<string>)
      requires Valid()
      ensures r == Lookup(table[..], key)
    {
      var hashValue := Hash(key, size);
      var chain := table[hashValue];
      for i := 0 to |chain|
        invariant forall j :: 0 <= j < i ==> chain[j].key != key
      {
        if chain[i].key == key {
          return Some(chain[i].value);
        }
      }
      return None;
    }
  }
}
