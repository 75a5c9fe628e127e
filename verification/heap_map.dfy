/** An indexed binary max-heap: the array `heap_` of (key, value) entries
    kept in heap order on the value, plus the index `map_` from each key to
    the slot that holds it (heap_map.hpp).

    The C++ class mutates its two members in place; here the pair is an
    immutable value and every operation returns the new pair.  Values are
    mathematical integers. */
module HeapMap {
  import opened Wrappers

  datatype Entry<K> = Entry(key: K, value: int)

  /** `entries` is `heap_`, `slot` is `map_`. */
  datatype HeapMap<K> = HeapMap(entries: seq<Entry<K>>, slot: map<K, nat>)

  datatype HeapError = KeyExists | KeyMissing | HeapEmpty | SizeMismatch

  function Parent(i: nat): nat
    requires i > 0
  {
    (i - 1) / 2
  }

  function LeftChild(i: nat): nat { 2 * i + 1 }

  function RightChild(i: nat): nat { 2 * i + 2 }

  // ---------------------------------------------------------------------
  // Invariants
  // ---------------------------------------------------------------------

  /** The index and the array agree: every slot's key maps back to that
      slot, every indexed key names a slot holding it, and the two have
      the same size. */
  ghost predicate Indexed<K>(h: HeapMap<K>) {
    && |h.slot| == |h.entries|
    && (forall k :: 0 <= k < |h.entries| ==> h.entries[k].key in h.slot && h.slot[h.entries[k].key] == k)
    && (forall key :: key in h.slot ==> h.slot[key] < |h.entries| && h.entries[h.slot[key]].key == key)
  }

  /** The abstract view: the key-to-value map the heap represents. */
  ghost function Contents<K>(h: HeapMap<K>): map<K, int>
    requires Indexed(h)
  {
    map key | key in h.slot :: h.entries[h.slot[key]].value
  }

  /** Max-heap order: no child is larger than its parent. */
  ghost predicate Ordered<K>(e: seq<Entry<K>>) {
    forall c :: 0 < c < |e| ==> e[Parent(c)].value >= e[c].value
  }

  /** Heap order may fail only on the edges that touch slot `i`, and the
      parent of `i` still dominates the children of `i`. */
  ghost predicate OrderedExceptAt<K>(e: seq<Entry<K>>, i: nat) {
    && (forall c :: 0 < c < |e| && c != i && Parent(c) != i ==> e[Parent(c)].value >= e[c].value)
    && (forall c :: 0 < c < |e| && Parent(c) == i && i > 0 ==> e[Parent(i)].value >= e[c].value)
  }

  /** Slot `i` dominates its children. */
  ghost predicate DownOk<K>(e: seq<Entry<K>>, i: nat) {
    forall c :: 0 < c < |e| && Parent(c) == i ==> e[i].value >= e[c].value
  }

  /** Slot `i` is dominated by its parent. */
  ghost predicate UpOk<K>(e: seq<Entry<K>>, i: nat) {
    0 < i < |e| ==> e[Parent(i)].value >= e[i].value
  }

  ghost predicate Valid<K>(h: HeapMap<K>) {
    Indexed(h) && Ordered(h.entries)
  }

  lemma OrderedIsOrderedExceptAt<K>(e: seq<Entry<K>>, i: nat)
    requires Ordered(e)
    ensures OrderedExceptAt(e, i) && DownOk(e, i)
  {
  }

  lemma CompleteAt<K>(e: seq<Entry<K>>, i: nat)
    requires OrderedExceptAt(e, i) && DownOk(e, i) && UpOk(e, i)
    ensures Ordered(e)
  {
  }

  /** The root of an ordered heap holds a value at least as large as any
      other slot. */
  lemma {:induction false} RootIsMax<K>(e: seq<Entry<K>>, i: nat)
    requires Ordered(e) && i < |e|
    ensures e[0].value >= e[i].value
    decreases i
  {
    if i > 0 {
      RootIsMax(e, Parent(i));
    }
  }

  lemma ContentsKeys<K>(h: HeapMap<K>)
    requires Indexed(h)
    ensures Contents(h).Keys == h.slot.Keys
    ensures |Contents(h)| == |h.entries|
  {
    assert Contents(h).Keys == h.slot.Keys;
  }

  // ---------------------------------------------------------------------
  // Private helpers: _swap, _heapify_up, _heapify_down
  // ---------------------------------------------------------------------

  /** `_swap(i, j)`: exchanges two slots and re-points both keys. */
  method Swap<K>(h: HeapMap<K>, i: nat, j: nat) returns (h': HeapMap<K>)
    requires Indexed(h) && i < |h.entries| && j < |h.entries|
    ensures Indexed(h')
    ensures h'.entries == h.entries[i := h.entries[j]][j := h.entries[i]]
    ensures Contents(h') == Contents(h)
  {
    var e := h.entries;
    h' := HeapMap(e[i := e[j]][j := e[i]], h.slot[e[i].key := j][e[j].key := i]);
    SwapIndexed(h, i, j, h');
    SwapContents(h, i, j, h');
  }

  lemma SwapIndexed<K>(h: HeapMap<K>, i: nat, j: nat, h': HeapMap<K>)
    requires Indexed(h) && i < |h.entries| && j < |h.entries|
    requires h'.entries == h.entries[i := h.entries[j]][j := h.entries[i]]
    requires h'.slot == h.slot[h.entries[i].key := j][h.entries[j].key := i]
    ensures Indexed(h')
  {
    var e := h.entries;
    assert h'.slot.Keys == h.slot.Keys;
    forall k | 0 <= k < |h'.entries|
      ensures h'.entries[k].key in h'.slot && h'.slot[h'.entries[k].key] == k
    {
      if k != i && k != j {
        assert h'.entries[k] == e[k];
        assert e[k].key != e[i].key && e[k].key != e[j].key;
      }
    }
    forall key | key in h'.slot
      ensures h'.slot[key] < |h'.entries| && h'.entries[h'.slot[key]].key == key
    {
      if key != e[i].key && key != e[j].key {
        assert h'.slot[key] == h.slot[key];
      }
    }
  }

  /** Two indexed heaps with the same keys, each mapped to the same value,
      represent the same contents. */
  lemma SameValuesSameContents<K>(h: HeapMap<K>, h': HeapMap<K>)
    requires Indexed(h) && Indexed(h') && h'.slot.Keys == h.slot.Keys
    requires forall key :: key in h.slot ==> h'.entries[h'.slot[key]].value == h.entries[h.slot[key]].value
    ensures Contents(h') == Contents(h)
  {
  }

  lemma SwapContents<K>(h: HeapMap<K>, i: nat, j: nat, h': HeapMap<K>)
    requires Indexed(h) && Indexed(h') && i < |h.entries| && j < |h.entries|
    requires h'.entries == h.entries[i := h.entries[j]][j := h.entries[i]]
    requires h'.slot == h.slot[h.entries[i].key := j][h.entries[j].key := i]
    ensures Contents(h') == Contents(h)
  {
    var e := h.entries;
    assert h'.slot.Keys == h.slot.Keys;
    forall key | key in h.slot
      ensures h'.entries[h'.slot[key]].value == e[h.slot[key]].value
    {
      if key == e[i].key {
        assert h'.slot[key] == j;
      } else if key == e[j].key {
        assert h'.slot[key] == i;
      } else {
        assert h'.slot[key] == h.slot[key];
      }
    }
    SameValuesSameContents(h, h');
  }

  /** `_heapify_up(i)`: moves the entry at `i` towards the root while it is
      larger than its parent.  Returns the slot where it stops. */
  method HeapifyUp<K>(h: HeapMap<K>, i: nat) returns (h': HeapMap<K>, j: nat)
    requires Indexed(h) && i < |h.entries|
    requires OrderedExceptAt(h.entries, i)
    ensures Indexed(h') && Contents(h') == Contents(h) && |h'.entries| == |h.entries|
    ensures j < |h'.entries| && h'.entries[j] == h.entries[i]
    ensures OrderedExceptAt(h'.entries, j) && UpOk(h'.entries, j)
    ensures DownOk(h.entries, i) ==> Ordered(h'.entries)
  {
    h', j := h, i;
    while j > 0 && h'.entries[j].value > h'.entries[Parent(j)].value
      invariant Indexed(h') && Contents(h') == Contents(h) && |h'.entries| == |h.entries|
      invariant j < |h'.entries| && h'.entries[j] == h.entries[i]
      invariant OrderedExceptAt(h'.entries, j)
      invariant DownOk(h.entries, i) ==> DownOk(h'.entries, j)
      decreases j
    {
      var p := Parent(j);
      ghost var e := h'.entries;
      h' := Swap(h', j, p);
      SwapUpStep(e, j, p, h'.entries);
      j := p;
    }
    if DownOk(h.entries, i) {
      CompleteAt(h'.entries, j);
    }
  }

  lemma SwapUpStep<K>(e: seq<Entry<K>>, j: nat, p: nat, e': seq<Entry<K>>)
    requires 0 < j < |e| && p == Parent(j)
    requires OrderedExceptAt(e, j) && e[j].value > e[p].value
    requires e' == e[j := e[p]][p := e[j]]
    ensures OrderedExceptAt(e', p) && DownOk(e', p)
  {
    forall c | 0 < c < |e'| && c != p && Parent(c) != p
      ensures e'[Parent(c)].value >= e'[c].value
    {
      if Parent(c) == j {
        assert e'[c] == e[c];
      } else if c == j {
        assert false;
      } else {
        assert e'[c] == e[c];
        assert e'[Parent(c)] == e[Parent(c)];
      }
    }
    forall c | 0 < c < |e'| && Parent(c) == p
      ensures e'[p].value >= e'[c].value
    {
      if c != j {
        assert e'[c] == e[c];
      }
    }
  }

  /** `_heapify_down(i)`: moves the entry at `i` towards the leaves while a
      child is larger.  The source recurses; the recursion is a tail call,
      written here as a loop. */
  method HeapifyDown<K>(h: HeapMap<K>, i: nat) returns (h': HeapMap<K>)
    requires Indexed(h) && OrderedExceptAt(h.entries, i)
    ensures Indexed(h') && Contents(h') == Contents(h) && |h'.entries| == |h.entries|
    ensures Ordered(h'.entries) || (h' == h && DownOk(h.entries, i))
  {
    h' := h;
    var j := i;
    while true
      invariant Indexed(h') && Contents(h') == Contents(h) && |h'.entries| == |h.entries|
      invariant OrderedExceptAt(h'.entries, j)
      invariant (h' == h && j == i) || UpOk(h'.entries, j)
      decreases |h.entries| - j
    {
      var largest := j;
      var left, right := LeftChild(j), RightChild(j);
      if left < |h'.entries| && h'.entries[left].value > h'.entries[largest].value {
        largest := left;
      }
      if right < |h'.entries| && h'.entries[right].value > h'.entries[largest].value {
        largest := right;
      }
      if largest == j {
        LargestDominates(h'.entries, j);
        if !(h' == h && j == i) {
          CompleteAt(h'.entries, j);
        }
        return;
      }
      ghost var e := h'.entries;
      h' := Swap(h', j, largest);
      SwapDownStep(e, j, largest, h'.entries);
      j := largest;
    }
  }

  lemma LargestDominates<K>(e: seq<Entry<K>>, j: nat)
    requires LeftChild(j) < |e| ==> e[LeftChild(j)].value <= e[j].value
    requires RightChild(j) < |e| ==> e[RightChild(j)].value <= e[j].value
    ensures DownOk(e, j)
  {
    forall c | 0 < c < |e| && Parent(c) == j
      ensures e[j].value >= e[c].value
    {
      assert c == LeftChild(j) || c == RightChild(j);
    }
  }

  lemma SwapDownStep<K>(e: seq<Entry<K>>, j: nat, c: nat, e': seq<Entry<K>>)
    requires c < |e| && (c == LeftChild(j) || c == RightChild(j))
    requires OrderedExceptAt(e, j) && e[c].value > e[j].value
    requires LeftChild(j) < |e| ==> e[LeftChild(j)].value <= e[c].value
    requires RightChild(j) < |e| ==> e[RightChild(j)].value <= e[c].value
    requires e' == e[j := e[c]][c := e[j]]
    ensures OrderedExceptAt(e', c) && UpOk(e', c)
  {
    assert Parent(c) == j;
    forall d | 0 < d < |e'| && d != c && Parent(d) != c
      ensures e'[Parent(d)].value >= e'[d].value
    {
      if d == j {
        assert e'[d] == e[c];
        assert e[Parent(j)].value >= e[c].value;
      } else if Parent(d) == j {
        assert d == LeftChild(j) || d == RightChild(j);
        assert e'[d] == e[d];
      } else {
        assert e'[d] == e[d];
        assert e'[Parent(d)] == e[Parent(d)];
      }
    }
    forall d | 0 < d < |e'| && Parent(d) == c && c > 0
      ensures e'[Parent(c)].value >= e'[d].value
    {
      assert e'[d] == e[d];
    }
  }

  // ---------------------------------------------------------------------
  // Slot-level building blocks shared by the public operations
  // ---------------------------------------------------------------------

  /** Overwrites the value in slot `i`; heap order can then fail only on
      the edges touching `i`. */
  method SetValue<K>(h: HeapMap<K>, i: nat, v: int) returns (h': HeapMap<K>)
    requires Indexed(h) && i < |h.entries|
    ensures Indexed(h') && |h'.entries| == |h.entries|
    ensures h'.entries[i] == Entry(h.entries[i].key, v)
    ensures Contents(h') == Contents(h)[h.entries[i].key := v]
    ensures Ordered(h.entries) ==> OrderedExceptAt(h'.entries, i)
  {
    var key := h.entries[i].key;
    h' := HeapMap(h.entries[i := Entry(key, v)], h.slot);
    assert Indexed(h');
    assert Contents(h') == Contents(h)[key := v] by {
      forall k | k in h.slot
        ensures Contents(h')[k] == Contents(h)[key := v][k]
      {
        if k != key {
          assert h.slot[k] != i;
        }
      }
    }
  }

  /** The first half of inserting a new key: the entry goes at the end of
      the heap vector and the index records that last slot for it. */
  method Append<K>(h: HeapMap<K>, key: K, value: int) returns (h': HeapMap<K>)
    requires Indexed(h) && key !in h.slot
    ensures Indexed(h') && |h'.entries| == |h.entries| + 1
    ensures h'.entries[|h.entries|] == Entry(key, value)
    ensures Contents(h') == Contents(h)[key := value]
    ensures Ordered(h.entries) ==> OrderedExceptAt(h'.entries, |h.entries|) && DownOk(h'.entries, |h.entries|)
  {
    var n := |h.entries|;
    h' := HeapMap(h.entries + [Entry(key, value)], h.slot[key := n]);
    assert Indexed(h') by {
      forall k | 0 <= k < |h'.entries|
        ensures h'.entries[k].key in h'.slot && h'.slot[h'.entries[k].key] == k
      {
        if k < n {
          assert h'.entries[k] == h.entries[k];
        }
      }
    }
    assert Contents(h') == Contents(h)[key := value] by {
      forall k | k in h'.slot
        ensures Contents(h')[k] == Contents(h)[key := value][k]
      {
        if k != key {
          assert h'.entries[h.slot[k]] == h.entries[h.slot[k]];
        }
      }
    }
  }

  /** The first half of `delete_by_map_key` and of `pop`: swap slot `i`
      with the last slot, drop the last slot and erase the key. */
  method Detach<K>(h: HeapMap<K>, i: nat) returns (out: (Entry<K>, HeapMap<K>))
    requires Indexed(h) && i < |h.entries| && OrderedExceptAt(h.entries, i)
    ensures out.0 == h.entries[i]
    ensures Indexed(out.1) && |out.1.entries| == |h.entries| - 1
    ensures Contents(out.1) == Contents(h) - {h.entries[i].key}
    ensures OrderedExceptAt(out.1.entries, i)
  {
    var item := h.entries[i];
    var n := |h.entries|;
    var s := Swap(h, i, n - 1);
    var h' := HeapMap(s.entries[..n - 1], s.slot - {item.key});
    DropLastIndexed(s, item.key);
    DetachKeepsOrder(h.entries, i, s.entries, h'.entries);
    out := (item, h');
  }

  /** Dropping the last slot together with its key keeps the index
      consistent and removes exactly that key from the contents. */
  lemma DropLastIndexed<K>(s: HeapMap<K>, key: K)
    requires Indexed(s) && |s.entries| > 0 && s.entries[|s.entries| - 1].key == key
    ensures Indexed(HeapMap(s.entries[..|s.entries| - 1], s.slot - {key}))
    ensures Contents(HeapMap(s.entries[..|s.entries| - 1], s.slot - {key})) == Contents(s) - {key}
  {
    var n := |s.entries|;
    var h' := HeapMap(s.entries[..n - 1], s.slot - {key});
    assert s.slot[key] == n - 1;
    assert h'.slot.Keys == s.slot.Keys - {key};
    forall k | 0 <= k < |h'.entries|
      ensures h'.entries[k].key in h'.slot && h'.slot[h'.entries[k].key] == k
    {
      assert h'.entries[k] == s.entries[k];
    }
    assert Indexed(h');
    assert Contents(h') == Contents(s) - {key};
  }

  lemma DetachKeepsOrder<K>(e: seq<Entry<K>>, i: nat, s: seq<Entry<K>>, e': seq<Entry<K>>)
    requires i < |e| && OrderedExceptAt(e, i)
    requires s == e[i := e[|e| - 1]][|e| - 1 := e[i]]
    requires e' == s[..|e| - 1]
    ensures OrderedExceptAt(e', i)
  {
    forall c | 0 < c < |e'| && c != i && Parent(c) != i
      ensures e'[Parent(c)].value >= e'[c].value
    {
      assert e'[c] == e[c] && e'[Parent(c)] == e[Parent(c)];
    }
    forall c | 0 < c < |e'| && Parent(c) == i && i > 0
      ensures e'[Parent(i)].value >= e'[c].value
    {
      assert e'[c] == e[c] && e'[Parent(i)] == e[Parent(i)];
    }
  }

  /** Restoring the heap after the value in slot `i` changed: sift the
      entry up, then down, from wherever the index says it now sits. */
  method Reposition<K>(h: HeapMap<K>, i: nat) returns (h': HeapMap<K>)
    requires Indexed(h) && i < |h.entries| && OrderedExceptAt(h.entries, i)
    ensures Valid(h') && Contents(h') == Contents(h)
  {
    var h1, j := HeapifyUp(h, i);
    h' := HeapifyDown(h1, j);
    if !Ordered(h'.entries) {
      CompleteAt(h1.entries, j);
    }
  }

  /** The body of `delete_by_map_key` once the key's slot `i` is known. */
  method RemoveSlot<K>(h: HeapMap<K>, i: nat) returns (item: Entry<K>, h': HeapMap<K>)
    requires Indexed(h) && i < |h.entries| && OrderedExceptAt(h.entries, i)
    ensures item == h.entries[i]
    ensures Valid(h') && Contents(h') == Contents(h) - {item.key}
  {
    var detached := Detach(h, i);
    var h1 := detached.1;
    item := detached.0;
    if i < |h1.entries| {
      var h2 := HeapifyDown(h1, i);
      if Ordered(h2.entries) {
        OrderedIsOrderedExceptAt(h2.entries, i);
      }
      var j;
      h', j := HeapifyUp(h2, i);
    } else {
      h' := h1;
      forall c | 0 < c < |h'.entries|
        ensures h'.entries[Parent(c)].value >= h'.entries[c].value
      {
        assert c != i && Parent(c) != i;
      }
    }
  }

  // ---------------------------------------------------------------------
  // Public interface
  // ---------------------------------------------------------------------

  /** The default constructor: no entries and an empty index. */
  method EmptyHeap<K>() returns (h: HeapMap<K>)
    ensures Valid(h) && Contents(h) == map[]
  {
    h := HeapMap([], map[]);
  }

  /** `contains(key)`: the index answers membership for the whole heap. */
  function Contains<K>(h: HeapMap<K>, key: K): (b: bool)
    requires Indexed(h)
    ensures b <==> key in Contents(h)
  {
    key in h.slot
  }

  /** `size()`: fails when the index and the array disagree in size, which
      never happens while they are consistent. */
  function Size<K>(h: HeapMap<K>): (r: Result<nat, HeapError>)
    ensures Indexed(h) ==> r == Success(|Contents(h)|)
  {
    if |h.slot| != |h.entries| then Failure(SizeMismatch)
    else SizeOfContents(h); Success(|h.entries|)
  }

  lemma SizeOfContents<K>(h: HeapMap<K>)
    ensures Indexed(h) ==> |Contents(h)| == |h.entries|
  {
    if Indexed(h) {
      ContentsKeys(h);
    }
  }

  lemma RootIsMaxOfContents<K>(h: HeapMap<K>)
    requires Valid(h) && |h.entries| > 0
    ensures forall k :: k in Contents(h) ==> Contents(h)[k] <= h.entries[0].value
  {
    forall k | k in Contents(h)
      ensures Contents(h)[k] <= h.entries[0].value
    {
      RootIsMax(h.entries, h.slot[k]);
    }
  }

  /** `max()`: the root, whose value is at least every stored value; the
      source returns a value-initialised pair when empty. */
  function Max<K>(h: HeapMap<K>): (r: Option<Entry<K>>)
    requires Valid(h)
    ensures r.None? <==> Contents(h) == map[]
    ensures r.Some? ==> r.value.key in Contents(h) && Contents(h)[r.value.key] == r.value.value
    ensures r.Some? ==> forall k :: k in Contents(h) ==> Contents(h)[k] <= r.value.value
  {
    ContentsKeys(h);
    if |h.entries| == 0 then None
    else RootIsMaxOfContents(h); Some(h.entries[0])
  }

  /** `push(key, value)` with the duplicate check done before the array is
      touched, so a failing push leaves the heap as it was. */
  method Push<K>(h: HeapMap<K>, key: K, value: int) returns (r: Result<HeapMap<K>, HeapError>)
    requires Valid(h)
    ensures r.Failure? <==> key in Contents(h)
    ensures r.Failure? ==> r.error == KeyExists
    ensures r.Success? ==> Valid(r.value) && Contents(r.value) == Contents(h)[key := value]
    ensures r.Success? ==> |Contents(r.value)| == |Contents(h)| + 1
  {
    if key in h.slot {
      return Failure(KeyExists);
    }
    var h1 := Append(h, key, value);
    var h2, j := HeapifyUp(h1, |h.entries|);
    ContentsKeys(h);
    ContentsKeys(h2);
    return Success(h2);
  }

  /** `push` exactly as written: `heap_.push_back` runs before the
      duplicate check, so after the throw the array holds one entry more
      than the index.  `after` is the object state left behind. */
  method PushAsWritten<K>(h: HeapMap<K>, key: K, value: int) returns (after: HeapMap<K>, r: Result<(), HeapError>)
    requires Valid(h)
    ensures r.Failure? <==> key in Contents(h)
    ensures r.Success? ==> Valid(after) && Contents(after) == Contents(h)[key := value]
    ensures r.Failure? ==> !Indexed(after) && Size(after) == Failure(SizeMismatch)
  {
    var grown := h.entries + [Entry(key, value)];
    if key in h.slot {
      after := HeapMap(grown, h.slot);
      return after, Failure(KeyExists);
    }
    var h1 := Append(h, key, value);
    var j;
    after, j := HeapifyUp(h1, |h.entries|);
    return after, Success(());
  }

  /** `inc(key)`: inserts value 1 for an absent key, otherwise adds one. */
  method Inc<K>(h: HeapMap<K>, key: K) returns (h': HeapMap<K>)
    requires Valid(h)
    ensures Valid(h')
    ensures Contents(h') == Contents(h)[key := if key in Contents(h) then Contents(h)[key] + 1 else 1]
  {
    if key !in h.slot {
      var r := Push(h, key, 1);
      h' := r.value;
    } else {
      var i := h.slot[key];
      var h1 := SetValue(h, i, h.entries[i].value + 1);
      h' := Reposition(h1, i);
    }
  }

  /** `dec(key)`: fails for an absent key; otherwise subtracts one and
      removes the entry when it reaches zero. */
  method Dec<K>(h: HeapMap<K>, key: K) returns (r: Result<HeapMap<K>, HeapError>)
    requires Valid(h)
    ensures r.Failure? <==> key !in Contents(h)
    ensures r.Failure? ==> r.error == KeyMissing
    ensures r.Success? && Contents(h)[key] == 1 ==> Valid(r.value) && Contents(r.value) == Contents(h) - {key}
    ensures r.Success? && Contents(h)[key] != 1 ==>
      Valid(r.value) && Contents(r.value) == Contents(h)[key := Contents(h)[key] - 1]
  {
    if key !in h.slot {
      return Failure(KeyMissing);
    }
    var h' := DecAt(h, h.slot[key]);
    return Success(h');
  }

  lemma UpdateThenRemove<K>(m: map<K, int>, key: K, v: int)
    ensures m[key := v] - {key} == m - {key}
  {
    assert (m[key := v] - {key}).Keys == (m - {key}).Keys;
  }

  /** The body of `dec` once the key's slot `i` is known: the count drops by
      one, and an entry that reaches zero is removed. */
  method DecAt<K>(h: HeapMap<K>, i: nat) returns (h': HeapMap<K>)
    requires Valid(h) && i < |h.entries|
    ensures Valid(h')
    ensures h.entries[i].value == 1 ==> Contents(h') == Contents(h) - {h.entries[i].key}
    ensures h.entries[i].value != 1 ==>
      Contents(h') == Contents(h)[h.entries[i].key := h.entries[i].value - 1]
  {
    var key := h.entries[i].key;
    var v := h.entries[i].value - 1;
    var h1 := SetValue(h, i, v);
    if v == 0 {
      var item;
      item, h' := RemoveSlot(h1, i);
      UpdateThenRemove(Contents(h), key, v);
    } else {
      h' := Reposition(h1, i);
    }
  }

  /** `update(key, value)`: fails for an absent key; otherwise the key holds
      exactly `value` afterwards and nothing else changes. */
  method Update<K>(h: HeapMap<K>, key: K, value: int) returns (r: Result<HeapMap<K>, HeapError>)
    requires Valid(h)
    ensures r.Failure? <==> key !in Contents(h)
    ensures r.Failure? ==> r.error == KeyMissing
    ensures r.Success? ==> Valid(r.value) && Contents(r.value) == Contents(h)[key := value]
  {
    if key !in h.slot {
      return Failure(KeyMissing);
    }
    var i := h.slot[key];
    var h1 := SetValue(h, i, value);
    var h2 := Reposition(h1, i);
    return Success(h2);
  }

  /** `delete_by_map_key(key)`: fails for an absent key; otherwise removes
      exactly that key and returns its entry. */
  method DeleteByMapKey<K>(h: HeapMap<K>, key: K) returns (r: Result<(Entry<K>, HeapMap<K>), HeapError>)
    requires Valid(h)
    ensures r.Failure? <==> key !in Contents(h)
    ensures r.Failure? ==> r.error == KeyMissing
    ensures r.Success? ==> r.value.0 == Entry(key, Contents(h)[key])
    ensures r.Success? ==> Valid(r.value.1) && Contents(r.value.1) == Contents(h) - {key}
    ensures r.Success? ==> |Contents(r.value.1)| == |Contents(h)| - 1
  {
    if key !in h.slot {
      return Failure(KeyMissing);
    }
    OrderedIsOrderedExceptAt(h.entries, h.slot[key]);
    var item, h' := RemoveSlot(h, h.slot[key]);
    ContentsKeys(h);
    ContentsKeys(h');
    return Success((item, h'));
  }

  /** `pop()`: fails on an empty heap; otherwise removes and returns the
      root, which holds the largest value. */
  method Pop<K>(h: HeapMap<K>) returns (r: Result<(Entry<K>, HeapMap<K>), HeapError>)
    requires Valid(h)
    ensures r.Failure? <==> Contents(h) == map[]
    ensures r.Failure? ==> r.error == HeapEmpty
    ensures r.Success? ==> r.value.0.key in Contents(h) && Contents(h)[r.value.0.key] == r.value.0.value
    ensures r.Success? ==> forall k :: k in Contents(h) ==> Contents(h)[k] <= r.value.0.value
    ensures r.Success? ==> Valid(r.value.1) && Contents(r.value.1) == Contents(h) - {r.value.0.key}
    ensures r.Success? ==> |Contents(r.value.1)| == |Contents(h)| - 1
  {
    ContentsKeys(h);
    if |h.entries| == 0 {
      return Failure(HeapEmpty);
    }
    RootIsMaxOfContents(h);
    OrderedIsOrderedExceptAt(h.entries, 0);
    var detached := Detach(h, 0);
    var item, h1 := detached.0, detached.1;
    var h' := HeapifyDown(h1, 0);
    if !Ordered(h'.entries) {
      CompleteAt(h1.entries, 0);
    }
    ContentsKeys(h');
    return Success((item, h'));
  }
}
