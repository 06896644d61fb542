/** The bounded top-K selector: an array-backed binary min-heap ordered by count. */
module MinHeaps {
  import opened Words

  /** Heap order on every parent/child edge whose parent index is at least `lo`
      (the children of node k are 2k + 1 and 2k + 2). With lo = 0 this is the
      min-heap property; with lo = k it says every subtree rooted at k or later is a heap. */
  ghost predicate HeapFrom(s: seq<Entry>, lo: nat)
  {
    forall j :: 0 < j < |s| && lo <= (j - 1) / 2 ==> EdgeOrdered(s, j)
  }

  /** Node j is no smaller than its parent. */
  ghost predicate EdgeOrdered(s: seq<Entry>, j: nat)
    requires 0 < j < |s|
  {
    s[(j - 1) / 2].count <= s[j].count
  }

  ghost predicate IsMinHeap(s: seq<Entry>)
  {
    HeapFrom(s, 0)
  }

  /** Heap order on every edge whose parent index is at least `lo`, except those below node i. */
  ghost predicate HeapExcept(s: seq<Entry>, lo: nat, i: nat)
  {
    forall j :: 0 < j < |s| && lo <= (j - 1) / 2 && (j - 1) / 2 != i ==> EdgeOrdered(s, j)
  }

  /** The parent of node i is no larger than i's children 2i + 1 and 2i + 2 (when that
      edge is in scope). */
  ghost predicate ParentBelowChildren(s: seq<Entry>, lo: nat, i: nat)
  {
    0 < i < |s| && lo <= (i - 1) / 2 ==>
      && (2 * i + 1 < |s| ==> s[(i - 1) / 2].count <= s[2 * i + 1].count)
      && (2 * i + 2 < |s| ==> s[(i - 1) / 2].count <= s[2 * i + 2].count)
  }

  /** The entry at p has a count no smaller than the entry at q. */
  ghost predicate InOrder(s: seq<Entry>, p: nat, q: nat)
    requires p < |s| && q < |s|
  {
    s[p].count >= s[q].count
  }

  /** Non-increasing counts. */
  ghost predicate Descending(s: seq<Entry>)
  {
    forall a, b :: 0 <= a < b < |s| ==> InOrder(s, a, b)
  }

  /** Each entry from position k on (up to n) is no larger than any entry before it. */
  ghost predicate SortedFrom(s: seq<Entry>, k: nat, n: nat)
    requires n <= |s|
  {
    forall p, q :: 0 <= p < q < n && k <= q ==> InOrder(s, p, q)
  }

  ghost predicate NoLarger(d: Entry, e: Entry)
  {
    d.count <= e.count
  }

  /** Every entry in `low` has a count no larger than every entry in `high`. */
  ghost predicate Dominates(high: multiset<Entry>, low: multiset<Entry>)
  {
    forall d, e {:trigger NoLarger(d, e)} :: d in low && e in high ==> NoLarger(d, e)
  }

  /** The root of a min-heap holds the smallest count. */
  lemma {:induction false} HeapRootIsMin(s: seq<Entry>, j: nat)
    requires IsMinHeap(s) && j < |s|
    ensures s[0].count <= s[j].count
    decreases j
  {
    if j > 0 {
      assert EdgeOrdered(s, j);
      HeapRootIsMin(s, (j - 1) / 2);
    }
  }

  /** The root of a min-heap is no larger than any entry the heap holds. */
  lemma RootBelowAll(s: seq<Entry>)
    requires IsMinHeap(s) && |s| > 0
    ensures forall e :: e in multiset(s) ==> s[0].count <= e.count
  {
    forall e | e in multiset(s) ensures s[0].count <= e.count {
      var j :| 0 <= j < |s| && s[j] == e;
      HeapRootIsMin(s, j);
    }
  }

  /** Sift-down step: swapping node i with its strictly smaller, smallest child c fixes
      the edges below i and moves the only possible disorder to the edges below c. */
  lemma SwapDownStep(s: seq<Entry>, lo: nat, i: nat, c: nat)
    requires lo <= i && HeapExcept(s, lo, i) && ParentBelowChildren(s, lo, i)
    requires c < |s| && (c == 2 * i + 1 || c == 2 * i + 2)
    requires s[c].count < s[i].count
    requires 2 * i + 1 < |s| ==> s[c].count <= s[2 * i + 1].count
    requires 2 * i + 2 < |s| ==> s[c].count <= s[2 * i + 2].count
    ensures HeapExcept(s[c := s[i]][i := s[c]], lo, c)
    ensures ParentBelowChildren(s[c := s[i]][i := s[c]], lo, c)
  {
    var s2 := s[c := s[i]][i := s[c]];
    forall j | 0 < j < |s| && lo <= (j - 1) / 2 && (j - 1) / 2 != c
      ensures EdgeOrdered(s2, j)
    {
      var p := (j - 1) / 2;
      if p == i {
        assert s2[p] == s[c];
        assert j == 2 * i + 1 || j == 2 * i + 2;
        if j != c {
          assert s2[j] == s[j] && s[c].count <= s[j].count;
        }
      } else if j == i {
        assert s2[p] == s[p] && s2[i] == s[c];
        assert 0 < c < |s| && (c - 1) / 2 == i;
        assert s[p].count <= s[c].count;
      } else {
        assert j != c;
        assert s2[p] == s[p] && s2[j] == s[j];
        assert EdgeOrdered(s, j);
      }
    }
    if 2 * c + 1 < |s| {
      assert EdgeOrdered(s, 2 * c + 1);
    }
    if 2 * c + 2 < |s| {
      assert EdgeOrdered(s, 2 * c + 2);
    }
  }

  /** A node no larger than its children ends the sift-down: heap order then holds on
      every edge in scope. */
  lemma SettledIsHeap(s: seq<Entry>, lo: nat, i: nat)
    requires HeapExcept(s, lo, i)
    requires 2 * i + 1 < |s| ==> s[i].count <= s[2 * i + 1].count
    requires 2 * i + 2 < |s| ==> s[i].count <= s[2 * i + 2].count
    ensures HeapFrom(s, lo)
  {
    forall j | 0 < j < |s| && lo <= (j - 1) / 2
      ensures EdgeOrdered(s, j)
    {
      if (j - 1) / 2 == i {
        assert j == 2 * i + 1 || j == 2 * i + 2;
      }
    }
  }

  /** Swapping two positions below k swaps them in the prefix of length k and leaves
      the rest alone. */
  lemma SwappedSlices(w: seq<Entry>, w': seq<Entry>, a: nat, b: nat, k: nat)
    requires a < k && b < k && k <= |w|
    requires w' == w[a := w[b]][b := w[a]]
    ensures w'[..k] == w[..k][a := w[b]][b := w[a]]
    ensures w'[k..] == w[k..]
  {
  }

  lemma SwapPermutes(s: seq<Entry>, i: nat, j: nat)
    requires i < |s| && j < |s|
    ensures multiset(s[i := s[j]][j := s[i]]) == multiset(s)
  {
  }

  /** The state of the selector while it is being filled: `live` (the nodes[0..count)
      of the heap) is a min-heap of at most `size` entries, every offered entry is either
      live or dropped, no dropped entry outranks a live one, and nothing is dropped before
      the heap is full. */
  ghost predicate TopKState(live: seq<Entry>, dropped: multiset<Entry>, offered: multiset<Entry>, size: nat)
  {
    && |live| <= size
    && IsMinHeap(live)
    && multiset(live) + dropped == offered
    && Dominates(multiset(live), dropped)
    && (dropped != multiset{} ==> |live| == size)
  }

  /** Offering an entry below capacity: the entry joins the live entries. */
  lemma OfferBelowCapacity(live: seq<Entry>, live': seq<Entry>, dropped: multiset<Entry>,
                           offered: multiset<Entry>, size: nat, word: Entry)
    requires TopKState(live, dropped, offered, size) && |live| < size
    requires IsMinHeap(live') && multiset(live') == multiset(live) + multiset{word}
    ensures TopKState(live', dropped, offered + multiset{word}, size)
    ensures |live'| == |live| + 1
  {
    assert |multiset(live')| == |multiset(live)| + 1;
  }

  /** Offering an entry strictly larger than the root of a full heap: the root is evicted
      and the entry takes its place. */
  lemma OfferEvicts(live: seq<Entry>, live': seq<Entry>, dropped: multiset<Entry>,
                    offered: multiset<Entry>, size: nat, word: Entry)
    requires TopKState(live, dropped, offered, size) && 0 < |live| == size
    requires live[0].count < word.count
    requires IsMinHeap(live') && multiset(live') == multiset(live) - multiset{live[0]} + multiset{word}
    ensures TopKState(live', dropped + multiset{live[0]}, offered + multiset{word}, size)
  {
    var root := live[0];
    RootBelowAll(live);
    assert root in multiset(live);
    assert |multiset(live')| == |multiset(live)|;
    assert multiset(live') + (dropped + multiset{root}) == offered + multiset{word};
    forall d, e | d in dropped + multiset{root} && e in multiset(live')
      ensures NoLarger(d, e)
    {
      if e != word {
        assert e in multiset(live);
      }
      if d != root {
        assert d in dropped && NoLarger(d, root);
      }
    }
  }

  /** Offering an entry no larger than the root of a full heap: the entry is discarded. */
  lemma OfferDiscards(live: seq<Entry>, dropped: multiset<Entry>, offered: multiset<Entry>,
                      size: nat, word: Entry)
    requires TopKState(live, dropped, offered, size) && 0 < |live| == size
    requires word.count <= live[0].count
    ensures TopKState(live, dropped + multiset{word}, offered + multiset{word}, size)
  {
    RootBelowAll(live);
    forall d, e | d in dropped + multiset{word} && e in multiset(live)
      ensures NoLarger(d, e)
    {
      if d != word {
        assert d in dropped;
      }
    }
  }

  /** Overwriting the root of a heap leaves heap order broken only below the root. */
  lemma RootReplaced(live: seq<Entry>, word: Entry)
    requires IsMinHeap(live) && |live| > 0
    ensures HeapExcept(live[0 := word], 0, 0)
    ensures multiset(live[0 := word]) == multiset(live) - multiset{live[0]} + multiset{word}
  {
    var t := live[0 := word];
    forall j | 0 < j < |t| && (j - 1) / 2 != 0
      ensures EdgeOrdered(t, j)
    {
      assert EdgeOrdered(live, j);
    }
  }

  /** The state of the drain loop over s[..n]: the live region s[..k) is a min-heap, and
      each entry from position k on is no larger than any entry before it, so the tail
      s[k..n) is in non-increasing order and no tail entry outranks a live one. */
  ghost predicate Draining(s: seq<Entry>, k: nat, n: nat)
  {
    && k <= n <= |s|
    && IsMinHeap(s[..k])
    && SortedFrom(s, k, n)
  }

  /** One drain step, live side: swapping the root of the live region a[..k) with its
      last node (giving b) and shrinking the region leaves heap order broken only below
      the root, and the swap keeps the entries of a[..n). */
  lemma DrainStepLive(a: seq<Entry>, b: seq<Entry>, k: nat, n: nat)
    requires 0 < k <= n <= |a| && IsMinHeap(a[..k])
    requires b == a[0 := a[k - 1]][k - 1 := a[0]]
    ensures HeapExcept(b[..k - 1], 0, 0)
    ensures multiset(b[..n]) == multiset(a[..n])
  {
    var heap := a[..k];
    assert b[..k - 1] == heap[0 := heap[k - 1]][..k - 1];
    LiveAfterRootSwap(heap);
    assert a[..n] == heap + a[k..n];
    assert b[..n] == b[..k] + a[k..n];
    assert b[..k] == heap[0 := heap[k - 1]][k - 1 := heap[0]];
    SwapPermutes(heap, k - 1, 0);
  }

  /** One drain step, tail side: the old root, the smallest live entry, now sits at
      position k - 1, in front of the sorted tail and behind the remaining live entries. */
  lemma DrainStepTail(a: seq<Entry>, b: seq<Entry>, k: nat, n: nat)
    requires 0 < k && Draining(a, k, n)
    requires b == a[0 := a[k - 1]][k - 1 := a[0]]
    ensures SortedFrom(b, k - 1, n)
  {
    forall p, q | 0 <= p < q < n && k - 1 <= q
      ensures InOrder(b, p, q)
    {
      if q == k - 1 {
        var p' := if p == 0 then k - 1 else p;
        assert b[p] == a[..k][p'] && b[q] == a[..k][0];
        HeapRootIsMin(a[..k], p');
      } else {
        var p' := if p == 0 then k - 1 else if p == k - 1 then 0 else p;
        assert b[p] == a[p'] && b[q] == a[q];
        assert InOrder(a, p', q);
      }
    }
  }

  /** After the sift-down restores the live region (same entries, tail untouched), the
      drain state holds again one position earlier. */
  lemma DrainSettle(b: seq<Entry>, c: seq<Entry>, k: nat, n: nat)
    requires k < n <= |b| == |c|
    requires SortedFrom(b, k, n)
    requires IsMinHeap(c[..k]) && multiset(c[..k]) == multiset(b[..k]) && c[k..] == b[k..]
    ensures Draining(c, k, n)
    ensures multiset(c[..n]) == multiset(b[..n])
  {
    forall p, q | 0 <= p < q < n && k <= q
      ensures InOrder(c, p, q)
    {
      assert c[q] == c[k..][q - k] == b[q];
      if p < k {
        assert c[p] in multiset(b[..k]) by {
          assert c[p] in multiset(c[..k]) by {
            assert c[p] == c[..k][p];
          }
        }
        var p' :| 0 <= p' < k && b[..k][p'] == c[p];
        assert InOrder(b, p', q);
      } else {
        assert c[p] == c[k..][p - k] == b[p];
        assert InOrder(b, p, q);
      }
    }
    assert c[..n] == c[..k] + c[k..n];
    assert b[..n] == b[..k] + b[k..n];
    assert c[k..n] == b[k..n];
  }

  /** Moving the last node of a heap to the root and dropping the last position
      breaks heap order only below the root. */
  lemma LiveAfterRootSwap(heap: seq<Entry>)
    requires IsMinHeap(heap) && |heap| > 0
    ensures HeapExcept(heap[0 := heap[|heap| - 1]][..|heap| - 1], 0, 0)
  {
    var rest := heap[0 := heap[|heap| - 1]][..|heap| - 1];
    forall j | 0 < j < |rest| && (j - 1) / 2 != 0
      ensures EdgeOrdered(rest, j)
    {
      assert EdgeOrdered(heap, j);
    }
  }

  class MinHeap {
    /** The capacity K (`mh->size`; the C program uses 100). */
    const size: nat
    /** The node array (`mh->nodes`), never replaced. */
    const nodes: array<Entry>
    /** The number of live nodes (`mh->count`). */
    var count: nat

    /** Every entry ever offered, and those offered but not kept (discarded or evicted). */
    ghost var Offered: multiset<Entry>
    ghost var Dropped: multiset<Entry>

    ghost predicate Valid()
      reads this, nodes
    {
      && 0 < size == nodes.Length
      && count <= size
      && TopKState(nodes[..count], Dropped, Offered, size)
    }

    /** create_minHeap: an empty heap of the given capacity. */
    constructor(heapSize: nat)
      requires heapSize > 0
      ensures Valid() && fresh(nodes)
      ensures size == heapSize && count == 0
      ensures Offered == multiset{} && Dropped == multiset{}
    {
      size := heapSize;
      nodes := new Entry[heapSize];
      count := 0;
      Offered, Dropped := multiset{}, multiset{};
    }

    /** swapHeapNodes: exchange the entries in two node positions. */
    method SwapHeapNodes(a: nat, b: nat)
      requires a < count && b < count && count <= nodes.Length
      modifies nodes
      ensures nodes[..] == old(nodes[..])[a := old(nodes[b])][b := old(nodes[a])]
    {
      var temp := nodes[a];
      nodes[a] := nodes[b];
      nodes[b] := temp;
    }

    /** minHeapify: sift node i down past its smaller child until heap order holds.
        `lo` is the part of the heap the caller needs ordered afterwards. */
    method MinHeapify(i: nat, ghost lo: nat)
      requires count <= nodes.Length && lo <= i
      requires HeapExcept(nodes[..count], lo, i)
      requires ParentBelowChildren(nodes[..count], lo, i)
      modifies nodes
      ensures HeapFrom(nodes[..count], lo)
      ensures multiset(nodes[..count]) == old(multiset(nodes[..count]))
      ensures nodes[count..] == old(nodes[count..])
      decreases count - i
    {
      var left := 2 * i + 1;
      var right := 2 * i + 2;
      var smallest := i;
      if left < count && nodes[left].count < nodes[smallest].count {
        smallest := left;
      }
      if right < count && nodes[right].count < nodes[smallest].count {
        smallest := right;
      }
      ghost var whole := nodes[..];
      ghost var s := whole[..count];
      if smallest != i {
        SwapDownStep(s, lo, i, smallest);
        SwapPermutes(s, smallest, i);
        SwapHeapNodes(smallest, i);
        SwappedSlices(whole, nodes[..], smallest, i, count);
        MinHeapify(smallest, lo);
      } else {
        SettledIsHeap(s, lo, i);
      }
    }

    /** build_minheap: sift down every internal node, last to first. */
    method BuildMinHeap()
      requires count <= nodes.Length
      modifies nodes
      ensures IsMinHeap(nodes[..count])
      ensures multiset(nodes[..count]) == old(multiset(nodes[..count]))
      ensures nodes[count..] == old(nodes[count..])
    {
      var n: int := count - 1;
      // C's `(n - 1) / 2` truncates toward zero: 0 for n == 0, -1 for n == -1.
      var i: int := if n >= 1 then (n - 1) / 2 else n;
      while i >= 0
        invariant -1 <= i
        invariant HeapFrom(nodes[..count], i + 1)
        invariant multiset(nodes[..count]) == old(multiset(nodes[..count]))
        invariant nodes[count..] == old(nodes[count..])
      {
        MinHeapify(i, i);
        i := i - 1;
      }
    }

    /** insert_to_minheap: below capacity, append and rebuild the heap; at capacity,
        replace the root only when the new entry's count is strictly larger, otherwise
        discard the new entry. */
    method InsertToMinheap(word: Entry)
      requires Valid()
      modifies `count, `Offered, `Dropped, nodes
      ensures Valid()
      ensures Offered == old(Offered) + multiset{word}
      ensures old(count) < size ==>
        && count == old(count) + 1
        && multiset(nodes[..count]) == old(multiset(nodes[..count])) + multiset{word}
        && Dropped == old(Dropped)
      ensures old(count) == size && word.count > old(nodes[0]).count ==>
        && count == size
        && multiset(nodes[..count]) == old(multiset(nodes[..count])) - multiset{old(nodes[0])} + multiset{word}
        && Dropped == old(Dropped) + multiset{old(nodes[0])}
      ensures old(count) == size && word.count <= old(nodes[0]).count ==>
        && count == size
        && nodes[..count] == old(nodes[..count])
        && Dropped == old(Dropped) + multiset{word}
    {
      ghost var live, dropped, offered := nodes[..count], Dropped, Offered;
      if count < size {
        Offered := offered + multiset{word};
        nodes[count] := word;
        count := count + 1;
        assert nodes[..count] == live + [word];
        BuildMinHeap();
        OfferBelowCapacity(live, nodes[..count], dropped, offered, size, word);
      } else if word.count > nodes[0].count {
        Offered, Dropped := offered + multiset{word}, dropped + multiset{live[0]};
        nodes[0] := word;
        assert nodes[..count] == live[0 := word];
        RootReplaced(live, word);
        MinHeapify(0, 0);
        OfferEvicts(live, nodes[..count], dropped, offered, size, word);
      } else {
        Offered, Dropped := offered + multiset{word}, dropped + multiset{word};
        OfferDiscards(live, dropped, offered, size, word);
      }
    }

    /** One iteration of the drain loop of display_word_count: swap the root (the
        smallest live count) with the last live node, shrink the live region, and sift
        the new root down. */
    method DrainRoot(ghost n: nat)
      requires 0 < count && Draining(nodes[..], count, n)
      modifies `count, nodes
      ensures count == old(count) - 1
      ensures Draining(nodes[..], count, n)
      ensures multiset(nodes[..n]) == old(multiset(nodes[..n]))
    {
      ghost var a := nodes[..];
      SwapHeapNodes(0, count - 1);
      ghost var b := nodes[..];
      DrainStepLive(a, b, count, n);
      DrainStepTail(a, b, count, n);
      count := count - 1;
      MinHeapify(0, 0);
      DrainSettle(b, nodes[..], count, n);
    }

    /** The drain loop of display_word_count: repeatedly move the root to the end of the
        live region, so that nodes[0..n) ends up holding the same entries in
        non-increasing count order. */
    method Drain() returns (n: nat)
      requires Valid()
      modifies `count, nodes
      ensures n == old(count) && n <= nodes.Length && count == 0
      ensures multiset(nodes[..n]) == old(multiset(nodes[..count]))
      ensures Descending(nodes[..n])
    {
      n := count;
      var i: int := n - 1;
      assert Draining(nodes[..], n, n) by {
        assert nodes[..][..n] == nodes[..n];
      }
      while i >= 0
        invariant -1 <= i < n <= nodes.Length && count == i + 1
        invariant Draining(nodes[..], count, n)
        invariant multiset(nodes[..n]) == old(multiset(nodes[..count]))
      {
        DrainRoot(n);
        i := i - 1;
      }
      forall p, q | 0 <= p < q < n ensures InOrder(nodes[..n], p, q) {
        assert InOrder(nodes[..], p, q);
      }
    }
  }
}
