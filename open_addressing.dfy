/**
 * Open addressing with linear probing: a fixed number of slots, each empty or
 * holding one (key, value) pair. An insertion walks the probe sequence
 * h, h+1, ... (cyclically) from h = Hash(key, size) to the first empty slot; a
 * search walks the same sequence and stops at the first slot whose key matches
 * or at the first empty slot.
 *
 * The slot list is described first as a value (`seq<Slot>`) with the functions
 * and lemmas that give insertion and search their meaning; the class at the end
 * keeps the slots in an array and is proved against those functions.
 */
module OpenAddressing {
  import opened Wrappers
  import opened Hashing

  /** A slot is empty (`None`) or holds one pair. */
  type Slot = Option<Entry>

  /** The slot visited at step `t` of the cyclic probe sequence that starts at slot `h`. */
  function ProbeIndex(h: nat, t: nat, n: nat): (i: nat)
    requires h < n && t < n
    ensures i < n
  {
    if h + t < n then h + t else h + t - n
  }

  /** How many steps the probe sequence from `h` takes to reach slot `j`. */
  function Offset(h: nat, j: nat, n: nat): (t: nat)
    requires h < n && j < n
    ensures t < n && ProbeIndex(h, t, n) == j
  {
    if h <= j then j - h else j + n - h
  }

  /** Every slot is reached exactly once in the first `n` steps of a probe sequence. */
  lemma ProbeIndexInjective(h: nat, t: nat, u: nat, n: nat)
    requires h < n && t < n && u < n
    ensures ProbeIndex(h, t, n) == ProbeIndex(h, u, n) <==> t == u
    ensures Offset(h, ProbeIndex(h, t, n), n) == t
  {
  }

  /** One probing step, `(i + 1) % size`, moves one place along the probe sequence. */
  lemma ProbeStep(h: nat, t: nat, n: nat)
    requires h < n && t + 1 < n
    ensures (ProbeIndex(h, t, n) + 1) % n == ProbeIndex(h, t + 1, n)
  {
  }

  /** The slots of a freshly built table: all empty. */
  function EmptySlots(n: nat): (s: seq<Slot>)
    ensures |s| == n && forall i :: 0 <= i < n ==> s[i].None?
  {
    seq(n, _ => None)
  }

  predicate HasEmpty(s: seq<Slot>)
  {
    exists i :: 0 <= i < |s| && s[i].None?
  }

  /** Some slot holds a pair with this key. */
  predicate Contains(s: seq<Slot>, key: int)
  {
    exists i :: 0 <= i < |s| && s[i].Some? && s[i].value.key == key
  }

  /** The number of occupied slots. */
  function Occupied(s: seq<Slot>): (c: nat)
    ensures c <= |s|
    ensures c < |s| ==> HasEmpty(s)
    ensures c == 0 <==> forall i :: 0 <= i < |s| ==> s[i].None?
  {
    if s == [] then 0
    else
      var rest := Occupied(s[1..]);
      assert rest < |s[1..]| ==> HasEmpty(s) by {
        if rest < |s[1..]| {
          var i :| 0 <= i < |s[1..]| && s[1..][i].None?;
          assert s[i + 1].None?;
        }
      }
      (if s[0].Some? then 1 else 0) + rest
  }

  /** Filling one empty slot raises the occupied count by exactly one. */
  lemma {:induction false} OccupiedFill(s: seq<Slot>, i: nat, e: Entry)
    requires i < |s| && s[i].None?
    ensures Occupied(s[i := Some(e)]) == Occupied(s) + 1
  {
    if i == 0 {
      assert s[i := Some(e)][1..] == s[1..];
    } else {
      assert s[i := Some(e)][1..] == s[1..][i - 1 := Some(e)];
      OccupiedFill(s[1..], i - 1, e);
    }
  }

  // ---------------------------------------------------------------------------
  // Insertion

  /**
   * The first step, counting from `t`, at which the probe sequence from `h`
   * meets an empty slot; `|s|` when it meets none before wrapping around.
   */
  function FirstEmpty(s: seq<Slot>, h: nat, t: nat): (r: nat)
    requires h < |s| && t <= |s|
    ensures t <= r <= |s|
    ensures r < |s| ==> s[ProbeIndex(h, r, |s|)].None?
    ensures forall u :: t <= u < r ==> s[ProbeIndex(h, u, |s|)].Some?
    decreases |s| - t
  {
    if t == |s| then |s|
    else if s[ProbeIndex(h, t, |s|)].None? then t
    else FirstEmpty(s, h, t + 1)
  }

  /** With an empty slot somewhere, the probe sequence from any start meets one. */
  lemma FirstEmptyFound(s: seq<Slot>, h: nat)
    requires h < |s| && HasEmpty(s)
    ensures FirstEmpty(s, h, 0) < |s|
  {
    var i :| 0 <= i < |s| && s[i].None?;
    var o := Offset(h, i, |s|);
    assert s[ProbeIndex(h, o, |s|)].None?;
  }

  /**
   * The slot an insertion of `key` fills: the first empty slot on the probe
   * sequence from `Hash(key, |s|)`. Every slot the probe passes before it is occupied.
   */
  function InsertSlot(s: seq<Slot>, key: int): (p: nat)
    requires |s| > 0 && HasEmpty(s)
    ensures p < |s| && s[p].None?
    ensures forall u :: 0 <= u < Offset(Hash(key, |s|), p, |s|) ==>
      s[ProbeIndex(Hash(key, |s|), u, |s|)].Some?
  {
    var h := Hash(key, |s|);
    FirstEmptyFound(s, h);
    var d := FirstEmpty(s, h, 0);
    ProbeIndexInjective(h, d, d, |s|);
    ProbeIndex(h, d, |s|)
  }

  /** The slots after `insert(key, value)`. */
  function Inserted(s: seq<Slot>, key: int, value: string): (r: seq<Slot>)
    requires |s| > 0 && HasEmpty(s)
    ensures |r| == |s|
    ensures r[InsertSlot(s, key)] == Some(Entry(key, value))
    ensures forall i :: 0 <= i < |s| && i != InsertSlot(s, key) ==> r[i] == s[i]
    ensures forall i :: 0 <= i < |s| && s[i].Some? ==> r[i] == s[i]
    ensures Occupied(r) == Occupied(s) + 1
    ensures forall k :: Contains(r, k) <==> Contains(s, k) || k == key
  {
    var p := InsertSlot(s, key);
    OccupiedFill(s, p, Entry(key, value));
    s[p := Some(Entry(key, value))]
  }

  // ---------------------------------------------------------------------------
  // The linear-probing invariant

  /** Every slot the probe sequence from `h` passes before it reaches slot `j` is occupied. */
  predicate ProbeRunOccupied(s: seq<Slot>, h: nat, j: nat)
    requires h < |s| && j < |s|
  {
    forall u :: 0 <= u < Offset(h, j, |s|) ==> s[ProbeIndex(h, u, |s|)].Some?
  }

  /**
   * Every stored pair is reachable by probing from its key's hash without
   * crossing an empty slot.
   */
  predicate ProbingInvariant(s: seq<Slot>)
  {
    forall j :: 0 <= j < |s| && s[j].Some? ==> ProbeRunOccupied(s, Hash(s[j].value.key, |s|), j)
  }

  /** Insertion keeps every stored pair reachable, the new one included. */
  lemma InsertedKeepsInvariant(s: seq<Slot>, key: int, value: string)
    requires |s| > 0 && HasEmpty(s) && ProbingInvariant(s)
    ensures ProbingInvariant(Inserted(s, key, value))
  {
  }

  // ---------------------------------------------------------------------------
  // Search

  /** Search stops at a slot that is empty or holds the key. */
  predicate Stops(slot: Slot, key: int)
  {
    slot.None? || slot.value.key == key
  }

  /**
   * The first step, counting from `t`, at which the probe sequence from `h`
   * meets an empty slot or the key; `|s|` when it meets neither before wrapping around.
   */
  function FirstStop(s: seq<Slot>, h: nat, key: int, t: nat): (r: nat)
    requires h < |s| && t <= |s|
    ensures t <= r <= |s|
    ensures r < |s| ==> Stops(s[ProbeIndex(h, r, |s|)], key)
    ensures forall u :: t <= u < r ==> !Stops(s[ProbeIndex(h, u, |s|)], key)
    decreases |s| - t
  {
    if t == |s| then |s|
    else if Stops(s[ProbeIndex(h, t, |s|)], key) then t
    else FirstStop(s, h, key, t + 1)
  }

  /** A search ends within one lap exactly when the table has an empty slot or holds the key. */
  lemma FirstStopFound(s: seq<Slot>, key: int)
    requires |s| > 0
    ensures FirstStop(s, Hash(key, |s|), key, 0) < |s| <==> HasEmpty(s) || Contains(s, key)
  {
    var h := Hash(key, |s|);
    if HasEmpty(s) || Contains(s, key) {
      var i :| 0 <= i < |s| && Stops(s[i], key);
      var o := Offset(h, i, |s|);
      assert Stops(s[ProbeIndex(h, o, |s|)], key);
    }
  }

  /**
   * The result of `search(key)`: the value in the first slot on the probe
   * sequence from `Hash(key, |s|)` whose key matches, or `None` once an empty
   * slot is reached first. It is defined where that search returns: when the
   * table has an empty slot or stores the key. On a full table without the key
   * the probing goes round forever.
   */
  function Lookup(s: seq<Slot>, key: int): (r: Option<string>)
    requires |s| > 0 && (HasEmpty(s) || Contains(s, key))
    ensures r.Some? ==>
      exists d :: 0 <= d < |s| &&
        s[ProbeIndex(Hash(key, |s|), d, |s|)] == Some(Entry(key, r.value)) &&
        forall u :: 0 <= u < d ==>
          s[ProbeIndex(Hash(key, |s|), u, |s|)].Some? &&
          s[ProbeIndex(Hash(key, |s|), u, |s|)].value.key != key
    ensures r.Some? ==> Contains(s, key)
    ensures r.None? ==>
      exists d :: 0 <= d < |s| &&
        s[ProbeIndex(Hash(key, |s|), d, |s|)].None? &&
        forall u :: 0 <= u < d ==>
          s[ProbeIndex(Hash(key, |s|), u, |s|)].Some? &&
          s[ProbeIndex(Hash(key, |s|), u, |s|)].value.key != key
  {
    var h := Hash(key, |s|);
    FirstStopFound(s, key);
    var d := FirstStop(s, h, key, 0);
    if d < |s| && s[ProbeIndex(h, d, |s|)].Some? then Some(s[ProbeIndex(h, d, |s|)].value.value)
    else None
  }

  /** Under the linear-probing invariant, search finds a key exactly when it is stored. */
  lemma LookupFindsStoredKeys(s: seq<Slot>, key: int)
    requires |s| > 0 && ProbingInvariant(s) && (HasEmpty(s) || Contains(s, key))
    ensures Lookup(s, key).Some? <==> Contains(s, key)
  {
  }

  /** Searching a key that the table does not yet find, right after inserting it, returns the new value. */
  lemma InsertedThenFound(s: seq<Slot>, key: int, value: string)
    requires |s| > 0 && HasEmpty(s) && Lookup(s, key).None?
    ensures Lookup(Inserted(s, key, value), key) == Some(value)
  {
  }

  /** Inserting anything never changes what an earlier successful search returns: the first insertion wins. */
  lemma InsertedKeepsFound(s: seq<Slot>, key: int, value: string, k: int)
    requires |s| > 0 && HasEmpty(s) && Lookup(s, k).Some?
    ensures Lookup(Inserted(s, key, value), k) == Lookup(s, k)
  {
  }

  /** A key that is stored nowhere is not found. */
  lemma AbsentNotFound(s: seq<Slot>, key: int)
    requires |s| > 0 && HasEmpty(s) && !Contains(s, key)
    ensures Lookup(s, key).None?
  {
  }

  // ---------------------------------------------------------------------------
  // A whole sequence of insertions

  /** The slots after inserting the pairs of `ops` in order, starting from `s`. */
  function InsertAll(s: seq<Slot>, ops: seq<Entry>): (r: seq<Slot>)
    requires |s| > 0 && Occupied(s) + |ops| <= |s|
    ensures |r| == |s| && Occupied(r) == Occupied(s) + |ops|
    ensures forall k :: Contains(r, k) <==> Contains(s, k) || FirstMatch(ops, k).Some?
    decreases |ops|
  {
    if ops == [] then s
    else
      var init, last := ops[..|ops| - 1], ops[|ops| - 1];
      assert ops == init + [last];
      forall k ensures FirstMatch(ops, k).Some? <==> FirstMatch(init, k).Some? || last.key == k {
        FirstMatchAppend(init, last, k);
      }
      Inserted(InsertAll(s, init), last.key, last.value)
  }

  /**
   * When search is complete for `k` (it finds `k` exactly when `k` is stored),
   * an insertion leaves an earlier result for `k` in place, makes a missing `k`
   * found if `k` is the inserted key, and otherwise leaves `k` missing. The
   * search afterwards must return at all: an empty slot must remain, or `k`
   * must be stored.
   */
  lemma LookupAfterInsert(s: seq<Slot>, key: int, value: string, k: int)
    requires |s| > 0 && HasEmpty(s) && (Lookup(s, k).Some? <==> Contains(s, k))
    requires HasEmpty(Inserted(s, key, value)) || Contains(s, k) || k == key
    ensures Lookup(Inserted(s, key, value), k) ==
      if Lookup(s, k).Some? then Lookup(s, k)
      else if k == key then Some(value)
      else None
  {
    if Lookup(s, k).Some? {
      InsertedKeepsFound(s, key, value, k);
    } else if k == key {
      InsertedThenFound(s, key, value);
    } else {
      AbsentNotFound(Inserted(s, key, value), k);
    }
  }

  /**
   * Starting from an empty table and inserting at most `n` pairs, search
   * returns the value of the earliest insertion of the key, and `None` for a
   * key never inserted: duplicates are all kept and the first one wins. When
   * the `n` insertions fill the table, only inserted keys are searched, since
   * the search for any other key never returns.
   */
  lemma {:induction false} FirstInsertionWins(n: nat, ops: seq<Entry>, k: int)
    requires 0 < n && |ops| <= n && (|ops| < n || FirstMatch(ops, k).Some?)
    ensures Lookup(InsertAll(EmptySlots(n), ops), k) == FirstMatch(ops, k)
    decreases |ops|
  {
    var s0 := EmptySlots(n);
    assert s0[0].None?;
    assert Occupied(s0) == 0;
    if ops == [] {
      AbsentNotFound(s0, k);
    } else {
      var init, last := ops[..|ops| - 1], ops[|ops| - 1];
      var prev := InsertAll(s0, init);
      assert ops == init + [last];
      assert InsertAll(s0, ops) == Inserted(prev, last.key, last.value);
      assert Occupied(prev) == |init| < n;
      FirstInsertionWins(n, init, k);
      FirstMatchAppend(init, last, k);
      assert Lookup(prev, k).Some? <==> Contains(prev, k);
      var next := Inserted(prev, last.key, last.value);
      if |ops| < n {
        assert Occupied(next) < |next|;
      } else {
        assert Contains(prev, k) || k == last.key;
      }
      LookupAfterInsert(prev, last.key, last.value, k);
    }
  }

  // ---------------------------------------------------------------------------
  // The table

  class HashTableOpenAddressing {
    const size: int
    const table: array<Slot>

    ghost predicate Valid()
      reads table
    {
      size > 0 && table.Length == size && ProbingInvariant(table[..])
    }

    /** A table of `size` slots, all empty. */
    constructor (size: int)
      requires size > 0
      ensures Valid() && fresh(table)
      ensures this.size == size && table[..] == EmptySlots(size)
    {
      this.size := size;
      table := new Slot[size](_ => None);
    }

    /**
     * Stores the pair in the first empty slot on the probe sequence from the
     * key's hash. The probing loop only ends at an empty slot, so one must exist.
     */
    method Insert(key: int, value: string)
      requires Valid() && HasEmpty(table[..])
      modifies table
      ensures Valid()
      ensures table[..] == Inserted(old(table[..]), key, value)
    {
      ghost var s := table[..];
      var hashValue := Hash(key, size);
      ghost var h := hashValue;
      FirstEmptyFound(s, h);
      ghost var target := FirstEmpty(s, h, 0);
      ghost var steps := 0;
      while table[hashValue].Some?
        invariant table[..] == s
        invariant steps <= target
        invariant hashValue == ProbeIndex(h, steps, size)
        decreases target - steps
      {
        ProbeStep(h, steps, size);
        hashValue := (hashValue + 1) % size;
        steps := steps + 1;
      }
      table[hashValue] := Some(Entry(key, value));
      InsertedKeepsInvariant(s, key, value);
    }

    /**
     * Walks the probe sequence from the key's hash; returns the value of the
     * first matching slot, or `None` at the first empty slot. The loop ends
     * only if an empty slot exists or the key is stored.
     */
    method Search(key: int) returns (r: Option<string>)
      requires Valid() && (HasEmpty(table[..]) || Contains(table[..], key))
      ensures r == Lookup(table[..], key)
    {
      var hashValue := Hash(key, size);
      ghost var s := table[..];
      ghost var h := hashValue;
      FirstStopFound(s, key);
      ghost var target := FirstStop(s, h, key, 0);
      ghost var steps := 0;
      while table[hashValue].Some?
        invariant steps <= target
        invariant hashValue == ProbeIndex(h, steps, size)
        decreases target - steps
      {
        if table[hashValue].value.key == key {
          return Some(table[hashValue].value.value);
        }
        ProbeStep(h, steps, size);
        hashValue := (hashValue + 1) % size;
        steps := steps + 1;
      }
      return None;
    }
  }
}
