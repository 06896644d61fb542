/** Pure specification of the open-addressed frequency table: the slot contents as a
    sequence, the linear probe that check_word and handle_collision perform, the effect
    of recording one word, and the invariants the table keeps. */
module Probing {
  import opened Words
  import opened Hashing

  type Table = seq<Option<Entry>>

  /** The slot `offset` steps after `home` on the cyclic walk. */
  function SlotAt(home: nat, offset: nat, n: nat): (p: nat)
    requires n > 0
    ensures p < n
  {
    (home + offset) % n
  }

  /** How many steps after `home` slot `p` lies on the cyclic walk. */
  function Offset(home: nat, p: nat, n: nat): (d: nat)
    requires n > 0
    ensures d < n
  {
    (p - home) % n
  }

  /** Euclidean reduction modulo n of a value in [-n, 2n). */
  lemma ModOnce(x: int, n: int)
    requires n > 0 && -n <= x < 2 * n
    ensures x % n == if x < 0 then x + n else if x < n then x else x - n
  {
    var q, r := x / n, x % n;
    assert x == q * n + r && 0 <= r < n;
    MulBounds(q, n);
  }

  lemma MulBounds(q: int, n: int)
    requires n > 0
    ensures q >= 2 ==> q * n >= 2 * n
    ensures q <= -2 ==> q * n <= -2 * n
    ensures q == 1 ==> q * n == n
    ensures q == -1 ==> q * n == -n
    ensures q == 0 ==> q * n == 0
  {
  }

  lemma SlotAtOffset(home: nat, p: nat, n: nat)
    requires n > 0 && home < n && p < n
    ensures SlotAt(home, Offset(home, p, n), n) == p
  {
    ModOnce(p - home, n);
    if p >= home {
      ModOnce(p, n);
    } else {
      ModOnce(p + n, n);
    }
  }

  lemma OffsetOfSlot(home: nat, d: nat, n: nat)
    requires n > 0 && home < n && d < n
    ensures Offset(home, SlotAt(home, d, n), n) == d
  {
    ModOnce(home + d, n);
    if home + d < n {
      ModOnce(d, n);
    } else {
      ModOnce(d - n, n);
    }
  }

  /** Distinct offsets below n name distinct slots. */
  lemma SlotAtInjective(home: nat, d1: nat, d2: nat, n: nat)
    requires n > 0 && home < n && d1 < n && d2 < n
    requires SlotAt(home, d1, n) == SlotAt(home, d2, n)
    ensures d1 == d2
  {
    OffsetOfSlot(home, d1, n);
    OffsetOfSlot(home, d2, n);
  }

  /** Slot `p` holds some word other than `key`. */
  predicate HoldsOther(t: Table, p: nat, key: string)
    requires p < |t|
  {
    t[p].Some? && t[p].value.key != key
  }

  /** Slot `p` holds `key`. */
  predicate Holds(t: Table, p: nat, key: string)
    requires p < |t|
  {
    t[p].Some? && t[p].value.key == key
  }

  /** The largest offset the search visits: check_word looks at offset 0 and
      handle_collision at offsets 1 .. n - 2 (its loop runs while i < n - 1). */
  function LastOffset(n: nat): (last: nat)
    requires n >= 2
  {
    n - 2
  }

  /** Where the search for a key stops, as an offset from the home slot. */
  datatype Probe = Match(offset: nat) | Vacant(offset: nat) | Exhausted

  /** The search from offset i on: the first slot that is empty or holds `key`,
      or Exhausted when every visited slot holds another word. */
  function ProbeFrom(t: Table, key: string, home: nat, i: nat): (r: Probe)
    requires |t| >= 2 && home < |t|
    decreases |t| - i
    ensures r.Match? ==> i <= r.offset <= LastOffset(|t|) && Holds(t, SlotAt(home, r.offset, |t|), key)
    ensures r.Vacant? ==> i <= r.offset <= LastOffset(|t|) && t[SlotAt(home, r.offset, |t|)].None?
    ensures r.Match? || r.Vacant? ==>
      forall e :: i <= e < r.offset ==> HoldsOther(t, SlotAt(home, e, |t|), key)
    ensures r.Exhausted? ==>
      forall e :: i <= e <= LastOffset(|t|) ==> HoldsOther(t, SlotAt(home, e, |t|), key)
  {
    if i > LastOffset(|t|) then Exhausted
    else
      var p := SlotAt(home, i, |t|);
      if t[p].None? then Vacant(i)
      else if t[p].value.key == key then Match(i)
      else ProbeFrom(t, key, home, i + 1)
  }

  /** The search check_word starts at the key's home slot. */
  function Search(t: Table, key: string): (r: Probe)
    requires |t| >= 2
  {
    ProbeFrom(t, key, HashIndex(key, |t|), 0)
  }

  /** Probing from offset i of `home`: increment the entry found, fill the vacant slot
      found with count 1, or leave the table as it is when the search is exhausted. */
  function RecordFrom(t: Table, key: string, home: nat, i: nat): (r: Table)
    requires |t| >= 2 && home < |t|
    ensures |r| == |t|
  {
    match ProbeFrom(t, key, home, i)
    case Match(d) =>
      var p := SlotAt(home, d, |t|);
      t[p := Some(Entry(key, t[p].value.count + 1))]
    case Vacant(d) => t[SlotAt(home, d, |t|) := Some(Entry(key, 1))]
    case Exhausted => t
  }

  /** check_word: the search starts at offset 0 of the key's home slot. */
  function Record(t: Table, key: string): (r: Table)
    requires |t| >= 2
    ensures |r| == |t|
  {
    RecordFrom(t, key, HashIndex(key, |t|), 0)
  }

  /** No two occupied slots hold equal words. */
  ghost predicate KeysUnique(t: Table)
  {
    forall p, q :: 0 <= p < q < |t| && t[p].Some? && t[q].Some? ==> t[p].value.key != t[q].value.key
  }

  /** Every stored word has been seen at least once. */
  ghost predicate CountsPositive(t: Table)
  {
    forall p :: 0 <= p < |t| && t[p].Some? ==> t[p].value.count >= 1
  }

  /** The linear-probing property of the entry in slot p: it lies within the search
      range of its home slot and every slot before it on the walk is occupied. */
  ghost predicate OnProbePath(t: Table, p: nat)
    requires |t| >= 2 && p < |t| && t[p].Some?
  {
    var home := HashIndex(t[p].value.key, |t|);
    var d := Offset(home, p, |t|);
    d <= LastOffset(|t|) && forall e :: 0 <= e < d ==> t[SlotAt(home, e, |t|)].Some?
  }

  ghost predicate Clustered(t: Table)
    requires |t| >= 2
  {
    forall p :: 0 <= p < |t| && t[p].Some? ==> OnProbePath(t, p)
  }

  /** The invariant of the frequency table. */
  ghost predicate Valid(t: Table)
  {
    |t| >= 2 && KeysUnique(t) && CountsPositive(t) && Clustered(t)
  }

  /** A fresh table: every slot empty. */
  function EmptyTable(n: nat): (t: Table)
    ensures |t| == n && forall p :: 0 <= p < n ==> t[p].None?
  {
    seq(n, _ => None)
  }

  lemma EmptyTableValid(n: nat)
    requires n >= 2
    ensures Valid(EmptyTable(n))
  {
  }

  /** Present in some slot. */
  ghost predicate Present(t: Table, key: string)
  {
    exists p :: 0 <= p < |t| && Holds(t, p, key)
  }

  /** In a valid table the search for a stored word finds the slot that holds it. */
  lemma {:induction false} SearchFindsStoredKey(t: Table, key: string, q: nat)
    requires Valid(t) && q < |t| && Holds(t, q, key)
    ensures Search(t, key) == Match(Offset(HashIndex(key, |t|), q, |t|))
  {
    var n := |t|;
    var home := HashIndex(key, n);
    var dq := Offset(home, q, n);
    assert OnProbePath(t, q);
    SlotAtOffset(home, q, n);
    var i := dq;
    while i > 0
      invariant 0 <= i <= dq
      invariant ProbeFrom(t, key, home, i) == Match(dq)
    {
      i := i - 1;
      var p := SlotAt(home, i, n);
      assert p != q by {
        if p == q { SlotAtInjective(home, i, dq, n); }
      }
      assert HoldsOther(t, p, key);
    }
  }

  /** In a valid table, a search that does not match means the word is absent. */
  lemma SearchMissMeansAbsent(t: Table, key: string)
    requires Valid(t) && !Search(t, key).Match?
    ensures !Present(t, key)
  {
    if Present(t, key) {
      var q :| 0 <= q < |t| && Holds(t, q, key);
      SearchFindsStoredKey(t, key, q);
    }
  }

  /** Recording a word already present increments the count of the one slot that
      holds it and changes nothing else. */
  lemma RecordIncrementsPresent(t: Table, key: string, q: nat)
    requires Valid(t) && q < |t| && Holds(t, q, key)
    ensures Record(t, key) == t[q := Some(Entry(key, t[q].value.count + 1))]
  {
    SearchFindsStoredKey(t, key, q);
    SlotAtOffset(HashIndex(key, |t|), q, |t|);
  }

  /** Recording an absent word fills exactly one previously empty slot with (key, 1),
      unless every slot the search visits holds another word, in which case the
      occurrence is dropped and the table is unchanged. */
  lemma RecordInsertsAbsent(t: Table, key: string)
    requires Valid(t) && !Present(t, key)
    ensures Record(t, key) == t <==>
      forall e :: 0 <= e <= LastOffset(|t|) ==> HoldsOther(t, SlotAt(HashIndex(key, |t|), e, |t|), key)
    ensures Record(t, key) != t ==>
      exists p :: 0 <= p < |t| && t[p].None? && Record(t, key) == t[p := Some(Entry(key, 1))]
  {
    var home := HashIndex(key, |t|);
    match Search(t, key)
    case Match(d) =>
      assert false;
    case Vacant(d) =>
      var p := SlotAt(home, d, |t|);
      assert Record(t, key)[p] != t[p];
    case Exhausted =>
  }

  /** The search never looks at the slot just before the home slot: a new word is dropped
      although that slot is still empty. */
  lemma RecordIgnoresLastSlot(t: Table, key: string)
    requires Valid(t) && !Present(t, key)
    requires t[SlotAt(HashIndex(key, |t|), |t| - 1, |t|)].None?
    requires forall e :: 0 <= e < |t| - 1 ==> t[SlotAt(HashIndex(key, |t|), e, |t|)].Some?
    ensures Record(t, key) == t
  {
    var home := HashIndex(key, |t|);
    forall e | 0 <= e <= LastOffset(|t|)
      ensures HoldsOther(t, SlotAt(home, e, |t|), key)
    {
      if !HoldsOther(t, SlotAt(home, e, |t|), key) {
        assert Holds(t, SlotAt(home, e, |t|), key);
      }
    }
    RecordInsertsAbsent(t, key);
  }

  /** Recording keeps the table's invariant: unique keys, positive counts and the
      linear-probing cluster property. */
  lemma RecordPreservesValid(t: Table, key: string)
    requires Valid(t)
    ensures Valid(Record(t, key))
  {
    var n := |t|;
    var home := HashIndex(key, n);
    var r := Record(t, key);
    match Search(t, key)
    case Match(d) =>
      var p := SlotAt(home, d, n);
      assert forall x :: 0 <= x < n ==> r[x].Some? == t[x].Some?;
      assert forall x :: 0 <= x < n && r[x].Some? ==> r[x].value.key == t[x].value.key;
      forall x | 0 <= x < n && r[x].Some?
        ensures OnProbePath(r, x)
      {
        assert OnProbePath(t, x);
      }
    case Vacant(d) =>
      var p := SlotAt(home, d, n);
      SearchMissMeansAbsent(t, key);
      forall x, y | 0 <= x < y < n && r[x].Some? && r[y].Some?
        ensures r[x].value.key != r[y].value.key
      {
        if x == p {
          assert !Holds(t, y, key);
        } else if y == p {
          assert !Holds(t, x, key);
        }
      }
      forall x | 0 <= x < n && r[x].Some?
        ensures OnProbePath(r, x)
      {
        if x == p {
          OffsetOfSlot(home, d, n);
          assert forall e :: 0 <= e < d ==> HoldsOther(t, SlotAt(home, e, n), key);
        } else {
          assert OnProbePath(t, x);
        }
      }
    case Exhausted =>
  }

  /** What one slot contributes to the count of `key`. */
  function Contribution(slot: Option<Entry>, key: string): (c: nat)
  {
    if slot.Some? && slot.value.key == key then slot.value.count else 0
  }

  /** The count the table holds for `key`: the sum of the counts of the slots holding it
      (in a valid table at most one does). */
  function CountOf(t: Table, key: string): (c: nat)
  {
    if t == [] then 0 else CountOf(t[..|t| - 1], key) + Contribution(t[|t| - 1], key)
  }

  /** The words stored in the table. */
  ghost function Keys(t: Table): (ks: set<string>)
  {
    set p | 0 <= p < |t| && t[p].Some? :: t[p].value.key
  }

  /** The stored entries, as the fill loop of display_word_count visits them. */
  function Entries(t: Table): (es: multiset<Entry>)
  {
    if t == [] then multiset{}
    else Entries(t[..|t| - 1]) + (if t[|t| - 1].Some? then multiset{t[|t| - 1].value} else multiset{})
  }

  /** An entry is visited by the fill loop exactly when some slot holds it. */
  lemma {:induction false} InEntries(t: Table, e: Entry)
    ensures e in Entries(t) <==> exists p :: 0 <= p < |t| && t[p] == Some(e)
    decreases |t|
  {
    if t != [] {
      var u := t[..|t| - 1];
      InEntries(u, e);
      if e in Entries(u) {
        var p :| 0 <= p < |u| && u[p] == Some(e);
        assert t[p] == Some(e);
      }
      if exists p :: 0 <= p < |t| && t[p] == Some(e) {
        var p :| 0 <= p < |t| && t[p] == Some(e);
        if p < |u| {
          assert u[p] == Some(e);
        }
      }
    }
  }

  /** With unique keys, the visited entries are exactly the stored words paired with
      their counts. */
  lemma EntriesAreCounts(t: Table, e: Entry)
    requires KeysUnique(t)
    ensures e in Entries(t) <==> e.key in Keys(t) && e.count == CountOf(t, e.key)
  {
    InEntries(t, e);
    CountOfStored(t, e.key);
    if e in Entries(t) {
      var p :| 0 <= p < |t| && t[p] == Some(e);
      assert Holds(t, p, e.key);
    }
    if e.key in Keys(t) && e.count == CountOf(t, e.key) {
      var p :| 0 <= p < |t| && t[p].Some? && t[p].value.key == e.key;
      assert Holds(t, p, e.key);
      assert t[p] == Some(e);
    }
  }

  /** The words of a table are those of all slots but the last, plus the last slot's word. */
  lemma KeysOfLast(t: Table)
    requires t != []
    ensures Keys(t) == Keys(t[..|t| - 1]) + (if t[|t| - 1].Some? then {t[|t| - 1].value.key} else {})
  {
    var u := t[..|t| - 1];
    forall x | x in Keys(u) ensures x in Keys(t) {
      var p :| 0 <= p < |u| && u[p].Some? && u[p].value.key == x;
      assert t[p] == u[p];
    }
  }

  /** With unique keys, the fill loop visits exactly one entry per stored word. */
  lemma {:induction false} EntriesSize(t: Table)
    requires KeysUnique(t)
    ensures |Entries(t)| == |Keys(t)|
    decreases |t|
  {
    if t != [] {
      var m := |t| - 1;
      var u := t[..m];
      assert KeysUnique(u);
      EntriesSize(u);
      KeysOfLast(t);
      if t[m].Some? {
        forall p | 0 <= p < |u| && u[p].Some?
          ensures u[p].value.key != t[m].value.key
        {
          assert u[p] == t[p];
        }
      }
    }
  }

  /** With unique keys, the fill loop visits each entry at most once. */
  lemma {:induction false} EntriesAtMostOnce(t: Table, e: Entry)
    requires KeysUnique(t)
    ensures Entries(t)[e] <= 1
    decreases |t|
  {
    if t != [] {
      var m := |t| - 1;
      var u := t[..m];
      assert KeysUnique(u);
      EntriesAtMostOnce(u, e);
      if t[m] == Some(e) {
        forall p | 0 <= p < |u|
          ensures u[p] != Some(e)
        {
          assert u[p] == t[p];
        }
        InEntries(u, e);
      }
    }
  }

  /** Overwriting one slot changes the count of `key` by what the slot contributes. */
  lemma {:induction false} CountOfUpdate(t: Table, p: nat, v: Option<Entry>, key: string)
    requires p < |t|
    ensures CountOf(t[p := v], key) + Contribution(t[p], key) == CountOf(t, key) + Contribution(v, key)
  {
    var m := |t| - 1;
    if p < m {
      assert t[p := v][..m] == t[..m][p := v];
      CountOfUpdate(t[..m], p, v, key);
    } else {
      assert t[p := v][..m] == t[..m];
    }
  }

  /** In a table with unique keys, the count of a stored word is the count in its slot,
      and the count of an absent word is zero. */
  lemma {:induction false} CountOfStored(t: Table, key: string)
    requires KeysUnique(t)
    ensures forall q :: 0 <= q < |t| && Holds(t, q, key) ==> CountOf(t, key) == t[q].value.count
    ensures !Present(t, key) ==> CountOf(t, key) == 0
  {
    if t != [] {
      var m := |t| - 1;
      var u := t[..m];
      assert KeysUnique(u);
      CountOfStored(u, key);
      if Holds(t, m, key) {
        assert !Present(u, key);
      } else if Present(u, key) {
        var q :| 0 <= q < |u| && Holds(u, q, key);
        assert Holds(t, q, key);
      }
    }
  }

  lemma {:induction false} EmptyTableCounts(n: nat, key: string)
    ensures CountOf(EmptyTable(n), key) == 0
    ensures Keys(EmptyTable(n)) == {}
  {
    if n > 0 {
      assert EmptyTable(n)[..n - 1] == EmptyTable(n - 1);
      EmptyTableCounts(n - 1, key);
    }
  }

  /** The words in the slots at offsets 0 .. m - 1 from `home`. */
  ghost function KeysAlong(t: Table, home: nat, m: nat): (ks: set<string>)
    requires 0 < |t| && home < |t|
  {
    if m == 0 then {}
    else
      var p := SlotAt(home, m - 1, |t|);
      KeysAlong(t, home, m - 1) + (if t[p].Some? then {t[p].value.key} else {})
  }

  lemma KeysAlongDistinct(t: Table, key: string, home: nat, m: nat)
    requires KeysUnique(t) && home < |t| && m < |t|
    requires forall e :: 0 <= e < m ==> HoldsOther(t, SlotAt(home, e, |t|), key)
    ensures |KeysAlong(t, home, m)| == m
    ensures KeysAlong(t, home, m) <= Keys(t)
    ensures key !in KeysAlong(t, home, m)
  {
    KeysAlongSize(t, home, m);
    KeysAlongStored(t, home, m);
    KeysAlongOthers(t, key, home, m);
  }

  /** Along a fully occupied stretch of the walk, a table with unique keys holds one
      distinct word per slot. */
  lemma {:induction false} KeysAlongSize(t: Table, home: nat, m: nat)
    requires KeysUnique(t) && home < |t| && m < |t|
    requires forall e :: 0 <= e < m ==> t[SlotAt(home, e, |t|)].Some?
    ensures |KeysAlong(t, home, m)| == m
  {
    if m > 0 {
      KeysAlongSize(t, home, m - 1);
      NextKeyIsNew(t, home, m - 1);
    }
  }

  /** The words along the walk are stored words. */
  lemma {:induction false} KeysAlongStored(t: Table, home: nat, m: nat)
    requires 0 < |t| && home < |t|
    ensures KeysAlong(t, home, m) <= Keys(t)
  {
    if m > 0 {
      KeysAlongStored(t, home, m - 1);
      var p := SlotAt(home, m - 1, |t|);
      if t[p].Some? {
        assert t[p].value.key in Keys(t);
      }
    }
  }

  /** A word that none of the walk's slots holds is not among the walk's words. */
  lemma {:induction false} KeysAlongOthers(t: Table, key: string, home: nat, m: nat)
    requires 0 < |t| && home < |t|
    requires forall e :: 0 <= e < m ==> HoldsOther(t, SlotAt(home, e, |t|), key)
    ensures key !in KeysAlong(t, home, m)
  {
    if m > 0 {
      KeysAlongOthers(t, key, home, m - 1);
      assert HoldsOther(t, SlotAt(home, m - 1, |t|), key);
    }
  }

  /** The word in the slot m steps along the walk is not among those of the m slots
      before it. */
  lemma NextKeyIsNew(t: Table, home: nat, m: nat)
    requires KeysUnique(t) && home < |t| && m < |t|
    requires t[SlotAt(home, m, |t|)].Some?
    ensures t[SlotAt(home, m, |t|)].value.key !in KeysAlong(t, home, m)
  {
    var n := |t|;
    var p := SlotAt(home, m, n);
    var k := t[p].value.key;
    if k in KeysAlong(t, home, m) {
      KeysAlongWitness(t, home, m, k);
      var e :| 0 <= e < m && Holds(t, SlotAt(home, e, n), k);
      UniqueSlot(t, SlotAt(home, e, n), p);
      SlotAtInjective(home, e, m, n);
    }
  }

  /** Two slots holding the same word in a table with unique keys are one slot. */
  lemma UniqueSlot(t: Table, p: nat, q: nat)
    requires KeysUnique(t) && p < |t| && q < |t| && t[p].Some? && t[q].Some?
    requires t[p].value.key == t[q].value.key
    ensures p == q
  {
  }

  lemma {:induction false} KeysAlongWitness(t: Table, home: nat, m: nat, k: string)
    requires 0 < |t| && home < |t| && k in KeysAlong(t, home, m)
    ensures exists e :: 0 <= e < m && Holds(t, SlotAt(home, e, |t|), k)
  {
    var p := SlotAt(home, m - 1, |t|);
    if !Holds(t, p, k) {
      KeysAlongWitness(t, home, m - 1, k);
    }
  }

  /** An exhausted search for a word means the word is absent and at least n - 1
      other words are already stored. */
  lemma SearchExhaustedMeansCrowded(t: Table, key: string)
    requires Valid(t) && Search(t, key).Exhausted?
    ensures key !in Keys(t)
    ensures |Keys(t)| >= |t| - 1
  {
    var home := HashIndex(key, |t|);
    KeysAlongDistinct(t, key, home, |t| - 1);
    SubsetCardinality(KeysAlong(t, home, |t| - 1), Keys(t));
    SearchMissMeansAbsent(t, key);
    AbsentNotInKeys(t, key);
  }

  lemma AbsentNotInKeys(t: Table, key: string)
    requires !Present(t, key)
    ensures key !in Keys(t)
  {
    if key in Keys(t) {
      var p :| 0 <= p < |t| && t[p].Some? && t[p].value.key == key;
      assert Holds(t, p, key);
    }
  }

  lemma SubsetCardinality<T>(a: set<T>, b: set<T>)
    requires a <= b
    ensures |a| <= |b|
  {
    assert b == a + (b - a);
  }

  /** A recording that is not dropped adds one to the word's count and nothing to any
      other word's. */
  lemma RecordCounts(t: Table, key: string)
    requires |t| >= 2 && !Search(t, key).Exhausted?
    ensures forall x :: CountOf(Record(t, key), x) == CountOf(t, x) + (if x == key then 1 else 0)
  {
    var p, v := RecordSlot(t, key);
    forall x ensures CountOf(Record(t, key), x) == CountOf(t, x) + (if x == key then 1 else 0) {
      CountOfUpdate(t, p, v, x);
    }
  }

  /** A recording that is not dropped adds exactly the recorded word to the stored words. */
  lemma RecordKeys(t: Table, key: string)
    requires |t| >= 2 && !Search(t, key).Exhausted?
    ensures Keys(Record(t, key)) == Keys(t) + {key}
  {
    var p, v := RecordSlot(t, key);
    var r := Record(t, key);
    forall x | x in Keys(r) ensures x in Keys(t) + {key} {
      var q :| 0 <= q < |t| && r[q].Some? && r[q].value.key == x;
      if q != p { assert t[q] == r[q]; }
    }
    forall x | x in Keys(t) + {key} ensures x in Keys(r) {
      if x == key {
        assert r[p].Some? && r[p].value.key == key;
      } else {
        var q :| 0 <= q < |t| && t[q].Some? && t[q].value.key == x;
        assert r[q].Some? && r[q].value.key == x;
      }
    }
  }

  /** A recording that is not dropped writes one slot: the slot that held the word or
      was empty now holds the word with one more occurrence. */
  lemma RecordSlot(t: Table, key: string) returns (p: nat, v: Option<Entry>)
    requires |t| >= 2 && !Search(t, key).Exhausted?
    ensures p < |t| && Record(t, key) == t[p := v]
    ensures t[p].None? || Holds(t, p, key)
    ensures v == Some(Entry(key, Contribution(t[p], key) + 1))
  {
    var home := HashIndex(key, |t|);
    match Search(t, key) {
      case Match(d) =>
        p := SlotAt(home, d, |t|);
        v := Some(Entry(key, t[p].value.count + 1));
      case Vacant(d) =>
        p := SlotAt(home, d, |t|);
        v := Some(Entry(key, 1));
    }
  }

  /** The distinct words of an input. */
  ghost function WordsOf(words: seq<string>): (ws: set<string>)
  {
    set w | w in words
  }

  /** The main loop: every token recorded in turn. */
  function RecordAll(t: Table, words: seq<string>): (r: Table)
    requires |t| >= 2
    ensures |r| == |t|
    decreases |words|
  {
    if words == [] then t else RecordAll(Record(t, words[0]), words[1..])
  }

  /** No occurrence in `words` is dropped when they are recorded in turn from `t`. */
  ghost predicate NoneDropped(t: Table, words: seq<string>)
    requires |t| >= 2
    decreases |words|
  {
    words == [] || (!Search(t, words[0]).Exhausted? && NoneDropped(Record(t, words[0]), words[1..]))
  }

  /** While fewer distinct words than slots are ever stored, the table stays valid and
      no occurrence is dropped. */
  lemma {:induction false} RecordAllValid(t: Table, words: seq<string>)
    requires Valid(t)
    requires |Keys(t) + WordsOf(words)| < |t|
    ensures Valid(RecordAll(t, words))
    ensures NoneDropped(t, words)
    decreases |words|
  {
    if words != [] {
      RecordFirst(t, words);
      RecordAllValid(Record(t, words[0]), words[1..]);
    }
  }

  /** When no occurrence is dropped, each word's count grows by the number of its
      occurrences. */
  lemma {:induction false} RecordAllCounts(t: Table, words: seq<string>)
    requires |t| >= 2 && NoneDropped(t, words)
    ensures forall x :: CountOf(RecordAll(t, words), x) == CountOf(t, x) + multiset(words)[x]
    decreases |words|
  {
    if words != [] {
      var w, rest := words[0], words[1..];
      var t' := Record(t, w);
      RecordCounts(t, w);
      RecordAllCounts(t', rest);
      assert words == [w] + rest;
      assert multiset(words) == multiset{w} + multiset(rest);
      forall x ensures CountOf(RecordAll(t, words), x) == CountOf(t, x) + multiset(words)[x] {
        assert CountOf(t', x) == CountOf(t, x) + (if x == w then 1 else 0);
      }
    }
  }

  /** When no occurrence is dropped, the stored words grow by exactly the distinct words
      of the input. */
  lemma {:induction false} RecordAllKeys(t: Table, words: seq<string>)
    requires |t| >= 2 && NoneDropped(t, words)
    ensures Keys(RecordAll(t, words)) == Keys(t) + WordsOf(words)
    decreases |words|
  {
    if words == [] {
      assert WordsOf(words) == {};
    } else {
      var w, rest := words[0], words[1..];
      RecordKeys(t, w);
      RecordAllKeys(Record(t, w), rest);
      assert words == [w] + rest;
      assert WordsOf(words) == {w} + WordsOf(rest);
    }
  }

  /** Recording the first pending word keeps the table valid, and what is stored or
      still pending afterwards stays within the bound. */
  lemma RecordFirst(t: Table, words: seq<string>)
    requires Valid(t) && words != []
    requires |Keys(t) + WordsOf(words)| < |t|
    ensures !Search(t, words[0]).Exhausted?
    ensures Valid(Record(t, words[0]))
    ensures |Keys(Record(t, words[0])) + WordsOf(words[1..])| < |t|
  {
    var w, rest := words[0], words[1..];
    var seen := Keys(t) + WordsOf(words);
    NotDropped(t, w, seen);
    RecordPreservesValid(t, w);
    RecordKeys(t, w);
    assert WordsOf(rest) <= WordsOf(words) by {
      forall x | x in rest ensures x in words { assert x == words[1 + IndexOf(rest, x)]; }
    }
    SubsetCardinality(Keys(Record(t, w)) + WordsOf(rest), seen);
  }

  ghost function IndexOf(s: seq<string>, x: string): (i: nat)
    requires x in s
    ensures i < |s| && s[i] == x
  {
    if s[0] == x then 0 else 1 + IndexOf(s[1..], x)
  }

  /** With fewer stored-or-pending words than slots, the search for a pending word
      is never exhausted. */
  lemma NotDropped(t: Table, w: string, seen: set<string>)
    requires Valid(t) && Keys(t) <= seen && w in seen && |seen| < |t|
    ensures !Search(t, w).Exhausted?
  {
    if Search(t, w).Exhausted? {
      SearchExhaustedMeansCrowded(t, w);
      SubsetCardinality(Keys(t) + {w}, seen);
    }
  }

  /** Starting from an empty table with fewer distinct words than slots, the table's
      count for every word is the number of times it occurs in the input. */
  lemma CountsMatchOccurrences(n: nat, words: seq<string>)
    requires n >= 2 && |WordsOf(words)| < n
    ensures Valid(RecordAll(EmptyTable(n), words))
    ensures forall x :: CountOf(RecordAll(EmptyTable(n), words), x) == multiset(words)[x]
  {
    forall x ensures CountOf(EmptyTable(n), x) == 0 {
      EmptyTableCounts(n, x);
    }
    EmptyTableCounts(n, "");
    EmptyTableValid(n);
    RecordAllValid(EmptyTable(n), words);
    RecordAllCounts(EmptyTable(n), words);
  }

  /** Starting from an empty table with fewer distinct words than slots, the stored words
      are exactly the distinct words of the input, and the fill loop visits one entry for
      each of them; an empty input leaves nothing to report. */
  lemma DistinctWordsStored(n: nat, words: seq<string>)
    requires n >= 2 && |WordsOf(words)| < n
    ensures Keys(RecordAll(EmptyTable(n), words)) == WordsOf(words)
    ensures |Entries(RecordAll(EmptyTable(n), words))| == |WordsOf(words)|
  {
    EmptyTableCounts(n, "");
    EmptyTableValid(n);
    RecordAllValid(EmptyTable(n), words);
    RecordAllKeys(EmptyTable(n), words);
    EntriesSize(RecordAll(EmptyTable(n), words));
  }
}
