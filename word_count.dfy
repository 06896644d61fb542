/** The report of display_word_count: every stored entry is offered to the bounded
    min-heap, slot by slot, and the heap is then drained into non-increasing order. */
module WordCount {
  import opened Words
  import opened Probing
  import opened HashTables
  import opened MinHeaps

  /** display_word_count without the printing: returns the entries in the order the C
      program prints them (nodes[0..count) after the drain). */
  method DisplayWordCount(ht: HashTable, mh: MinHeap) returns (report: seq<Entry>)
    requires mh.Valid()
    modifies mh`count, mh`Offered, mh`Dropped, mh.nodes
    ensures mh.Offered == old(mh.Offered) + Entries(ht.hashes[..])
    ensures multiset(report) + mh.Dropped == mh.Offered
    ensures Dominates(multiset(report), mh.Dropped)
    ensures Descending(report)
    ensures |report| <= mh.size && (mh.Dropped != multiset{} ==> |report| == mh.size)
    ensures mh.count == 0 && report == mh.nodes[..|report|]
  {
    OfferAll(ht, mh);
    ghost var live := mh.nodes[..mh.count];
    var n := mh.Drain();
    report := mh.nodes[..n];
    DrainedReport(live, report, mh.Dropped, mh.Offered, mh.size);
  }

  /** main's use of display_word_count: a fresh heap of capacity k over a valid table.
      The report is in non-increasing count order, lists distinct stored words with their
      table counts, leaves out no word with a larger count than a listed one, and has
      min(k, number of stored words) entries. */
  method TopWords(ht: HashTable, k: nat) returns (report: seq<Entry>)
    requires ht.Valid() && k > 0
    ensures Descending(report)
    ensures forall e :: e in report ==> e.key in Keys(ht.hashes[..]) && e.count == CountOf(ht.hashes[..], e.key)
    ensures forall w :: w in Keys(ht.hashes[..]) ==>
      Entry(w, CountOf(ht.hashes[..], w)) in report
      || forall e :: e in report ==> CountOf(ht.hashes[..], w) <= e.count
    ensures |report| == if |Keys(ht.hashes[..])| < k then |Keys(ht.hashes[..])| else k
    ensures multiset(report) <= Entries(ht.hashes[..])
    ensures forall i, j :: 0 <= i < j < |report| ==> report[i].key != report[j].key
  {
    var mh := new MinHeap(k);
    report := DisplayWordCount(ht, mh);
    ReportIsTopK(ht.hashes[..], report, mh.Dropped, mh.size);
  }

  /** The fill loop of display_word_count: offer every stored entry to the heap, in slot
      order. */
  method OfferAll(ht: HashTable, mh: MinHeap)
    requires mh.Valid()
    modifies mh`count, mh`Offered, mh`Dropped, mh.nodes
    ensures mh.Valid()
    ensures mh.Offered == old(mh.Offered) + Entries(ht.hashes[..])
  {
    var i := 0;
    while i < ht.hashes.Length
      invariant 0 <= i <= ht.hashes.Length
      invariant mh.Valid()
      invariant mh.Offered == old(mh.Offered) + Entries(ht.hashes[..i])
    {
      var h := ht.hashes[i];
      assert ht.hashes[..i + 1][..i] == ht.hashes[..i];
      if h.Some? {
        mh.InsertToMinheap(h.value);
      }
      i := i + 1;
    }
    assert ht.hashes[..i] == ht.hashes[..];
  }

  /** Draining a filled selector lists the kept entries: together with the dropped ones
      they are everything offered, none of them is outranked by a dropped one, and there
      are as many as the capacity allows. */
  lemma DrainedReport(live: seq<Entry>, report: seq<Entry>, dropped: multiset<Entry>,
                      offered: multiset<Entry>, size: nat)
    requires TopKState(live, dropped, offered, size)
    requires multiset(report) == multiset(live)
    ensures multiset(report) + dropped == offered
    ensures Dominates(multiset(report), dropped)
    ensures |report| <= size && (dropped != multiset{} ==> |report| == size)
  {
    assert |multiset(report)| == |multiset(live)|;
  }

  /** An element at two positions of a sequence occurs at least twice in its multiset. */
  lemma RepeatedTwice<T>(s: seq<T>, i: nat, j: nat)
    requires i < j < |s|
    ensures s[i] == s[j] ==> multiset(s)[s[i]] >= 2
  {
    assert s == s[..j] + [s[j]] + s[j + 1..];
    assert s[..j][i] == s[i];
  }

  /** Starting from an empty heap over a table with unique keys, the report lists stored
      words with their counts, each word at most once, at most `size` of them (all of them
      when fewer are stored),
      and every stored word left out has a count no larger than any reported one. */
  lemma ReportIsTopK(t: Table, report: seq<Entry>, dropped: multiset<Entry>, size: nat)
    requires KeysUnique(t)
    requires multiset(report) + dropped == Entries(t)
    requires Dominates(multiset(report), dropped)
    requires |report| <= size && (dropped != multiset{} ==> |report| == size)
    ensures forall e :: e in report ==> e.key in Keys(t) && e.count == CountOf(t, e.key)
    ensures forall k :: k in Keys(t) ==>
      Entry(k, CountOf(t, k)) in report || forall e :: e in report ==> CountOf(t, k) <= e.count
    ensures |report| == if |Keys(t)| < size then |Keys(t)| else size
    ensures multiset(report) <= Entries(t)
    ensures forall i, j :: 0 <= i < j < |report| ==> report[i].key != report[j].key
  {
    forall i, j | 0 <= i < j < |report|
      ensures report[i].key != report[j].key
    {
      assert report[i] in multiset(report) && report[j] in multiset(report);
      EntriesAreCounts(t, report[i]);
      EntriesAreCounts(t, report[j]);
      EntriesAtMostOnce(t, report[i]);
      RepeatedTwice(report, i, j);
    }
    forall e | e in report
      ensures e.key in Keys(t) && e.count == CountOf(t, e.key)
    {
      assert e in multiset(report);
      EntriesAreCounts(t, e);
    }
    forall k | k in Keys(t)
      ensures Entry(k, CountOf(t, k)) in report || forall e :: e in report ==> CountOf(t, k) <= e.count
    {
      var d := Entry(k, CountOf(t, k));
      EntriesAreCounts(t, d);
      if d !in report {
        assert d in dropped;
        forall e | e in report ensures CountOf(t, k) <= e.count {
          assert e in multiset(report) && NoLarger(d, e);
        }
      }
    }
    assert |multiset(report)| + |dropped| == |Entries(t)|;
    EntriesSize(t);
  }
}
