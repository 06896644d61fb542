/** The frequency table as the C program keeps it: a fixed array of slots updated in place. */
module HashTables {
  import opened Words
  import opened Hashing
  import opened Probing

  class HashTable {
    /** The slots (`ht->hashes`); None is a NULL slot. The array itself is never replaced. */
    const hashes: array<Option<Entry>>

    ghost predicate Valid()
      reads this, hashes
    {
      Probing.Valid(hashes[..])
    }

    /** create_hashtable: every slot empty. The C program always uses TABLESIZE slots. */
    constructor(size: nat := TABLESIZE)
      requires size >= 2
      ensures Valid() && fresh(hashes)
      ensures hashes[..] == EmptyTable(size)
    {
      hashes := new Option<Entry>[size](_ => None);
      new;
      EmptyTableValid(size);
    }

    /** check_word: look at the home slot; fill it if empty, increment it if it holds the
        word, and hand over to linear probing otherwise. */
    method CheckWord(key: string)
      requires Valid()
      modifies hashes
      ensures Valid()
      ensures hashes[..] == Record(old(hashes[..]), key)
    {
      ghost var t := hashes[..];
      RecordPreservesValid(t, key);
      var slot := HashCode(key, hashes.Length);
      ModOnce(slot, |t|);
      assert SlotAt(slot, 0, |t|) == slot;
      var h := hashes[slot];
      if h.None? {
        assert Search(t, key) == Vacant(0);
        hashes[slot] := Some(Entry(key, 1));
        assert hashes[..] == t[slot := Some(Entry(key, 1))];
      } else if key != h.value.key {
        assert ProbeFrom(t, key, slot, 0) == ProbeFrom(t, key, slot, 1);
        HandleCollision(key, slot);
      } else {
        assert Search(t, key) == Match(0);
        hashes[slot] := Some(Entry(key, h.value.count + 1));
        assert hashes[..] == t[slot := Some(Entry(key, h.value.count + 1))];
      }
    }

    /** handle_collision: probe offsets 1 .. size - 2 from `slot`; fill the first empty
        slot or increment the slot holding the word. When neither is found the occurrence
        is dropped and the table is unchanged. */
    method HandleCollision(key: string, slot: nat)
      requires 2 <= hashes.Length && slot < hashes.Length
      modifies hashes
      ensures hashes[..] == RecordFrom(old(hashes[..]), key, slot, 1)
    {
      ghost var t := hashes[..];
      ghost var n := |t|;
      var i := 1;
      while i < hashes.Length - 1
        invariant 1 <= i <= n - 1
        invariant hashes[..] == t
        invariant ProbeFrom(t, key, slot, i) == ProbeFrom(t, key, slot, 1)
      {
        var newSlot := (slot + i) % hashes.Length;
        assert newSlot == SlotAt(slot, i, n);
        if hashes[newSlot].None? {
          assert ProbeFrom(t, key, slot, 1) == Vacant(i);
          hashes[newSlot] := Some(Entry(key, 1));
          assert hashes[..] == t[newSlot := Some(Entry(key, 1))];
          return;
        } else if key == hashes[newSlot].value.key {
          assert ProbeFrom(t, key, slot, 1) == Match(i);
          var bumped := Some(Entry(key, hashes[newSlot].value.count + 1));
          hashes[newSlot] := bumped;
          assert hashes[..] == t[newSlot := bumped];
          return;
        }
        i := i + 1;
      }
      assert ProbeFrom(t, key, slot, 1) == Exhausted;
    }
  }
}
