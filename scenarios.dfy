/**
 * Clients of the two tables, showing what a caller can conclude from their
 * contracts alone: keys 1, 5 and 9 all hash to slot 1 of a four-slot table.
 */
module Scenarios {
  import opened Wrappers
  import opened Hashing
  import OpenAddressing
  import SeparateChaining

  /** Open addressing displaces the colliding keys 5 and 9 to slots 2 and 3. */
  method CollidingKeysOpenAddressing()
  {
    var t := new OpenAddressing.HashTableOpenAddressing(4);
    assert t.table[0].None?;
    t.Insert(1, "one");
    assert t.table[..] == [None, Some(Entry(1, "one")), None, None];
    assert OpenAddressing.ProbeIndex(1, 1, 4) == 2;
    t.Insert(5, "five");
    assert t.table[..] == [None, Some(Entry(1, "one")), Some(Entry(5, "five")), None];
    assert OpenAddressing.ProbeIndex(1, 2, 4) == 3;
    t.Insert(9, "nine");
    assert t.table[..] == [None, Some(Entry(1, "one")), Some(Entry(5, "five")), Some(Entry(9, "nine"))];
    var r := t.Search(9);
    assert r == Some("nine");
  }

  /** Inserting key 5 a second time keeps both pairs; search still returns the first value. */
  method DuplicateKeyOpenAddressing()
  {
    var t := new OpenAddressing.HashTableOpenAddressing(4);
    assert t.table[0].None?;
    t.Insert(5, "five");
    assert t.table[..] == [None, Some(Entry(5, "five")), None, None];
    assert OpenAddressing.ProbeIndex(1, 1, 4) == 2;
    t.Insert(5, "again");
    assert t.table[..] == [None, Some(Entry(5, "five")), Some(Entry(5, "again")), None];
    var r := t.Search(5);
    assert r == Some("five");
  }

  /** Separate chaining keeps the colliding keys in chain 1, in insertion order. */
  method CollidingKeysSeparateChaining()
  {
    var t := new SeparateChaining.HashTableSeparateChaining(4);
    t.Insert(1, "one");
    t.Insert(5, "five");
    t.Insert(9, "nine");
    var chain := [Entry(1, "one"), Entry(5, "five"), Entry(9, "nine")];
    assert t.table[1] == chain;
    assert FirstMatch(chain, 5) == FirstMatch(chain[1..], 5) == Some("five");
    var r := t.Search(5);
    assert r == Some("five");
    assert t.table[3] == [];
    r := t.Search(3);
    assert r == None;
  }

  /** Inserting key 5 a second time appends a second pair; search still returns the first value. */
  method DuplicateKeySeparateChaining()
  {
    var t := new SeparateChaining.HashTableSeparateChaining(4);
    t.Insert(5, "five");
    t.Insert(5, "again");
    assert t.table[1] == [Entry(5, "five"), Entry(5, "again")];
    var r := t.Search(5);
    assert r == Some("five");
  }
}
