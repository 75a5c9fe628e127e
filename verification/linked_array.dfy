/** A doubly-linked list whose nodes live in a stable-index array
    (linked_array.hpp).  The source keeps `Node*` pointers in a
    `vector<Node<T>*>` and nulls a slot when its node is fused away; here the
    array is an arena of optional nodes whose links are slot numbers. */
module LinkedArray {
  import opened Wrappers

  /** `Node<T>`: links by slot number, `index` is the node's own slot. */
  datatype Node<T> = Node(next: Option<nat>, prev: Option<nat>, index: nat, data: T)

  /** `nodes` is the backing vector (`None` is a retired, null slot);
      `length` is the public `length` member. */
  datatype LinkedArray<T> = LinkedArray(nodes: seq<Option<Node<T>>>, length: nat)

  datatype ArrayError = IndexOutOfRange | NodeIsNull | NoPrevIndex | NoNextIndex | NoNextNextIndex

  predicate Live<T>(a: LinkedArray<T>, i: nat) {
    i < |a.nodes| && a.nodes[i].Some?
  }

  function NodeAt<T>(a: LinkedArray<T>, i: nat): Node<T>
    requires Live(a, i)
  {
    a.nodes[i].value
  }

  ghost function LiveSet<T>(a: LinkedArray<T>): set<nat> {
    set i: nat | i < |a.nodes| && a.nodes[i].Some?
  }

  /** The list invariant: slot 0 is the live head, every node records its
      own slot, next links go strictly forward to a live node that links
      back, every live node other than the head has a predecessor that links
      forward to it, and `length` counts the live slots. */
  ghost predicate Valid<T>(a: LinkedArray<T>) {
    Linked(a) && a.length == |LiveSet(a)|
  }

  /** The link part of `Valid`. */
  ghost predicate Linked<T>(a: LinkedArray<T>) {
    && (|a.nodes| > 0 ==> Live(a, 0) && NodeAt(a, 0).prev == None)
    && (forall i: nat :: Live(a, i) ==> NodeAt(a, i).index == i)
    && (forall i: nat :: Live(a, i) && NodeAt(a, i).next.Some? ==>
          var j := NodeAt(a, i).next.value;
          i < j && Live(a, j) && NodeAt(a, j).prev == Some(i))
    && (forall i: nat :: Live(a, i) && i > 0 ==>
          NodeAt(a, i).prev.Some? &&
          var j := NodeAt(a, i).prev.value;
          j < i && Live(a, j) && NodeAt(a, j).next == Some(i))
  }

  // ---------------------------------------------------------------------
  // Forward traversal
  // ---------------------------------------------------------------------

  /** The slots visited by following next links from slot `i`. */
  function Walk<T>(a: LinkedArray<T>, i: nat): seq<nat>
    requires Live(a, i)
    decreases |a.nodes| - i
  {
    var nx := NodeAt(a, i).next;
    if nx.Some? && i < nx.value && Live(a, nx.value) then [i] + Walk(a, nx.value) else [i]
  }

  /** `Iterator`: the data visited by `++` from the node in slot `i` until
      the null link. */
  function IterateFrom<T>(a: LinkedArray<T>, i: nat): seq<T>
    requires Live(a, i)
    decreases |a.nodes| - i
  {
    var nx := NodeAt(a, i).next;
    if nx.Some? && i < nx.value && Live(a, nx.value)
    then [NodeAt(a, i).data] + IterateFrom(a, nx.value)
    else [NodeAt(a, i).data]
  }

  /** `for (x : arr)`: iteration from `begin()`, the node in `nodes.front()`. */
  function Iterate<T>(a: LinkedArray<T>): seq<T>
    requires Live(a, 0)
  {
    IterateFrom(a, 0)
  }

  ghost predicate StrictlyIncreasing(w: seq<nat>) {
    forall k, l :: 0 <= k < l < |w| ==> w[k] < w[l]
  }

  lemma {:induction false} WalkShape<T>(a: LinkedArray<T>, i: nat)
    requires Live(a, i)
    ensures |Walk(a, i)| >= 1 && Walk(a, i)[0] == i
    ensures forall k :: 0 <= k < |Walk(a, i)| ==> Live(a, Walk(a, i)[k]) && i <= Walk(a, i)[k]
    ensures StrictlyIncreasing(Walk(a, i))
    decreases |a.nodes| - i
  {
    var nx := NodeAt(a, i).next;
    if nx.Some? && i < nx.value && Live(a, nx.value) {
      WalkShape(a, nx.value);
    }
  }

  /** Iteration reads the data of the walked slots, in order. */
  lemma {:induction false} IterateFollowsWalk<T>(a: LinkedArray<T>, i: nat)
    requires Live(a, i)
    ensures |IterateFrom(a, i)| == |Walk(a, i)|
    ensures forall k :: 0 <= k < |Walk(a, i)| ==>
      Live(a, Walk(a, i)[k]) && IterateFrom(a, i)[k] == NodeAt(a, Walk(a, i)[k]).data
    decreases |a.nodes| - i
  {
    WalkShape(a, i);
    var nx := NodeAt(a, i).next;
    if nx.Some? && i < nx.value && Live(a, nx.value) {
      IterateFollowsWalk(a, nx.value);
    }
  }

  /** Following a next link from a walked slot stays on the walk. */
  lemma {:induction false} WalkClosed<T>(a: LinkedArray<T>, i: nat, k: nat)
    requires Linked(a) && Live(a, i) && k in Walk(a, i) && Live(a, k)
    requires NodeAt(a, k).next.Some?
    ensures NodeAt(a, k).next.value in Walk(a, i)
    decreases |a.nodes| - i
  {
    var nx := NodeAt(a, i).next;
    if k != i {
      assert nx.Some? && i < nx.value && Live(a, nx.value);
      WalkClosed(a, nx.value, k);
    }
  }

  /** Every live slot is reached from the head. */
  lemma {:induction false} LiveOnWalk<T>(a: LinkedArray<T>, k: nat)
    requires Linked(a) && Live(a, k)
    ensures Live(a, 0) && k in Walk(a, 0)
    decreases k
  {
    if k == 0 {
      WalkShape(a, 0);
    } else {
      var j := NodeAt(a, k).prev.value;
      LiveOnWalk(a, j);
      WalkClosed(a, 0, j);
    }
  }

  /** The set of elements of a sequence. */
  function Elements(w: seq<nat>): (r: set<nat>)
    ensures forall x :: x in r <==> x in w
  {
    if w == [] then {} else {w[0]} + Elements(w[1..])
  }

  lemma {:induction false} IncreasingCard(w: seq<nat>)
    requires StrictlyIncreasing(w)
    ensures |Elements(w)| == |w|
  {
    if |w| > 0 {
      var rest := w[1..];
      forall k, l | 0 <= k < l < |rest|
        ensures rest[k] < rest[l]
      {
        assert rest[k] == w[k + 1] && rest[l] == w[l + 1];
      }
      IncreasingCard(rest);
      forall k | 0 <= k < |rest|
        ensures rest[k] != w[0]
      {
        assert rest[k] == w[k + 1];
      }
      assert w[0] !in Elements(rest);
      assert Elements(w) == {w[0]} + Elements(rest);
    }
  }


  /** The slots on the walk from the head are exactly the live slots. */
  lemma WalkSetIsLive<T>(a: LinkedArray<T>)
    requires Linked(a) && |a.nodes| > 0
    ensures Live(a, 0) && Elements(Walk(a, 0)) == LiveSet(a)
  {
    WalkShape(a, 0);
    var w := Walk(a, 0);
    forall k | k in LiveSet(a)
      ensures k in Elements(w)
    {
      LiveOnWalk(a, k);
    }
    forall k | k in Elements(w)
      ensures k in LiveSet(a)
    {
      var q :| 0 <= q < |w| && w[q] == k;
      assert Live(a, w[q]);
    }
  }

  lemma WalkCountsLive<T>(a: LinkedArray<T>)
    requires Linked(a) && |a.nodes| > 0
    ensures Elements(Walk(a, 0)) == LiveSet(a)
    ensures |Walk(a, 0)| == |LiveSet(a)| == |Iterate(a)|
  {
    WalkSetIsLive(a);
    WalkShape(a, 0);
    IncreasingCard(Walk(a, 0));
    IterateFollowsWalk(a, 0);
  }

  /** The walk from the head visits exactly the live slots, so iteration
      produces `length` elements. */
  lemma WalkCoversLive<T>(a: LinkedArray<T>)
    requires Valid(a) && |a.nodes| > 0
    ensures Elements(Walk(a, 0)) == LiveSet(a)
    ensures |Walk(a, 0)| == a.length
    ensures |Iterate(a)| == a.length
  {
    WalkCountsLive(a);
  }

  // ---------------------------------------------------------------------
  // fill
  // ---------------------------------------------------------------------

  /** The node `fill` puts in slot `i` for input of length `n`. */
  function FilledNode<T>(i: nat, n: nat, d: T): Node<T> {
    Node(if i + 1 < n then Some(i + 1) else None, if i > 0 then Some(i - 1) else None, i, d)
  }

  /** `fill(data)` on an empty array: slot `i` holds `data[i]`, linked to
      `i - 1` and `i + 1` where those exist; iteration gives the data back. */
  method Fill<T>(data: seq<T>) returns (a: LinkedArray<T>)
    ensures |a.nodes| == |data| && a.length == |data|
    ensures forall i :: 0 <= i < |data| ==> a.nodes[i] == Some(FilledNode(i, |data|, data[i]))
    ensures Valid(a)
    ensures |data| > 0 ==> Iterate(a) == data
  {
    var nodes: seq<Option<Node<T>>> := [];
    var prev: Option<nat> := None;
    for i := 0 to |data|
      invariant |nodes| == i
      invariant prev == (if i > 0 then Some(i - 1) else None)
      invariant forall k :: 0 <= k < i ==> nodes[k] == Some(FilledNode(k, i, data[k]))
    {
      var node := Node(None, prev, i, data[i]);
      if prev.Some? {
        nodes := nodes[prev.value := Some(nodes[prev.value].value.(next := Some(i)))];
      }
      nodes := nodes + [Some(node)];
      prev := Some(i);
    }
    a := LinkedArray(nodes, |data|);
    FilledValid(a, data);
  }

  lemma FilledValid<T>(a: LinkedArray<T>, data: seq<T>)
    requires |a.nodes| == |data| && a.length == |data|
    requires forall k :: 0 <= k < |data| ==> a.nodes[k] == Some(FilledNode(k, |data|, data[k]))
    ensures Valid(a)
    ensures |data| > 0 ==> Iterate(a) == data
  {
    var n := |data|;
    forall i: nat | Live(a, i) && NodeAt(a, i).next.Some?
      ensures var j := NodeAt(a, i).next.value; i < j && Live(a, j) && NodeAt(a, j).prev == Some(i)
    {
      assert NodeAt(a, i) == FilledNode(i, n, data[i]);
      assert NodeAt(a, i + 1) == FilledNode(i + 1, n, data[i + 1]);
    }
    forall i: nat | Live(a, i) && i > 0
      ensures NodeAt(a, i).prev.Some? && var j := NodeAt(a, i).prev.value; j < i && Live(a, j) && NodeAt(a, j).next == Some(i)
    {
      assert NodeAt(a, i) == FilledNode(i, n, data[i]);
      assert NodeAt(a, i - 1) == FilledNode(i - 1, n, data[i - 1]);
    }
    assert Linked(a);
    if |data| > 0 {
      FillIterates(a, data, 0);
      WalkCountsLive(a);
    } else {
      assert LiveSet(a) == {};
    }
  }

  lemma {:induction false} FillIterates<T>(a: LinkedArray<T>, data: seq<T>, i: nat)
    requires |a.nodes| == |data| && i < |data|
    requires forall k :: 0 <= k < |data| ==> a.nodes[k] == Some(FilledNode(k, |data|, data[k]))
    ensures IterateFrom(a, i) == data[i..]
    decreases |data| - i
  {
    if i + 1 < |data| {
      FillIterates(a, data, i + 1);
    }
  }

  // ---------------------------------------------------------------------
  // Lookups
  // ---------------------------------------------------------------------

  /** `get_by_index(index)` (and `operator[]`). */
  function GetByIndex<T>(a: LinkedArray<T>, index: nat): (r: Result<T, ArrayError>)
    ensures index >= |a.nodes| <==> r == Failure(IndexOutOfRange)
    ensures r == Failure(NodeIsNull) <==> index < |a.nodes| && !Live(a, index)
    ensures r.Success? <==> Live(a, index)
    ensures r.Success? ==> r.value == NodeAt(a, index).data
  {
    if index >= |a.nodes| then Failure(IndexOutOfRange)
    else if a.nodes[index].None? then Failure(NodeIsNull)
    else Success(a.nodes[index].value.data)
  }

  /** The k-th element of an iteration is what `get_by_index` returns for
      the k-th walked slot. */
  lemma IterateMatchesLookup<T>(a: LinkedArray<T>, k: nat)
    requires Valid(a) && |a.nodes| > 0 && k < |Iterate(a)|
    ensures k < |Walk(a, 0)| && GetByIndex(a, Walk(a, 0)[k]) == Success(Iterate(a)[k])
  {
    IterateFollowsWalk(a, 0);
  }

  /** `get_prev_index(index)`: fails at slot 0, otherwise the predecessor's
      slot.  The source dereferences the node, so the slot must be live. */
  function GetPrevIndex<T>(a: LinkedArray<T>, index: nat): (r: Result<nat, ArrayError>)
    requires Valid(a) && Live(a, index)
    ensures r.Failure? <==> index == 0
    ensures r.Failure? ==> r.error == NoPrevIndex
    ensures r.Success? ==> r.value < index && Live(a, r.value) && NodeAt(a, r.value).next == Some(index)
  {
    if index == 0 then Failure(NoPrevIndex)
    else Success(NodeAt(a, index).prev.value)
  }

  /** The slot has a successor unless it is the positional last slot;
      `get_next_index` follows the link without checking it. */
  predicate HasNext<T>(a: LinkedArray<T>, index: nat)
    requires Live(a, index)
  {
    index == |a.nodes| - 1 || NodeAt(a, index).next.Some?
  }

  /** `get_next_index(index)`: fails only at the positional last slot. */
  function GetNextIndex<T>(a: LinkedArray<T>, index: nat): (r: Result<nat, ArrayError>)
    requires Valid(a) && Live(a, index) && HasNext(a, index)
    ensures r.Failure? <==> index == |a.nodes| - 1
    ensures r.Failure? ==> r.error == NoNextIndex
    ensures r.Success? ==> index < r.value && Live(a, r.value) && NodeAt(a, r.value).prev == Some(index)
  {
    if index == |a.nodes| - 1 then Failure(NoNextIndex)
    else Success(NodeAt(a, index).next.value)
  }

  /** Two next links exist unless the slot is positionally second-to-last;
      `get_second_next_index` follows both without checking them. */
  predicate HasSecondNext<T>(a: LinkedArray<T>, index: nat)
    requires Valid(a) && Live(a, index)
  {
    index == |a.nodes| - 2 ||
    (NodeAt(a, index).next.Some? && NodeAt(a, NodeAt(a, index).next.value).next.Some?)
  }

  function GetSecondNextIndex<T>(a: LinkedArray<T>, index: nat): (r: Result<nat, ArrayError>)
    requires Valid(a) && Live(a, index) && HasSecondNext(a, index)
    ensures r.Failure? <==> index == |a.nodes| - 2
    ensures r.Failure? ==> r.error == NoNextNextIndex
    ensures r.Success? ==> exists m :: NodeAt(a, index).next == Some(m) && Live(a, m) && NodeAt(a, m).next == Some(r.value)
    ensures r.Success? ==> index + 1 < r.value && Live(a, r.value)
  {
    if index == |a.nodes| - 2 then Failure(NoNextNextIndex)
    else Success(NodeAt(a, NodeAt(a, index).next.value).next.value)
  }

  // ---------------------------------------------------------------------
  // replace_pair
  // ---------------------------------------------------------------------

  /** The guard of `replace_pair` passes: `index` is at most capacity - 2,
      its slot is live and it has a successor. */
  predicate CanFuse<T>(a: LinkedArray<T>, index: nat) {
    index + 2 <= |a.nodes| && a.nodes[index].Some? && a.nodes[index].value.next.Some?
  }

  lemma TwoElements(s: set<nat>, i: nat, j: nat)
    requires i != j && i in s && j in s
    ensures |s| >= 2
  {
    var rest := s - {i, j};
    assert s == rest + {i, j};
    assert |{i, j}| == 2;
  }

  lemma TwoLive<T>(a: LinkedArray<T>, i: nat, j: nat)
    requires i != j && Live(a, i) && Live(a, j)
    ensures |LiveSet(a)| >= 2
  {
    assert i in LiveSet(a) && j in LiveSet(a);
    TwoElements(LiveSet(a), i, j);
  }

  /** The effect of `replace_pair` once its guard has passed. */
  function Fuse<T>(a: LinkedArray<T>, index: nat, v: T): LinkedArray<T>
    requires Valid(a) && CanFuse(a, index)
  {
    var node := NodeAt(a, index);
    var n := node.next.value;
    var nn := NodeAt(a, n).next;
    var nodes1 := a.nodes[index := Some(node.(data := v, next := nn))][n := None];
    var nodes2 := if nn.Some? then nodes1[nn.value := Some(a.nodes[nn.value].value.(prev := Some(index)))] else nodes1;
    TwoLive(a, index, n);
    LinkedArray(nodes2, a.length - 1)
  }

  /** Slot by slot: the fused slot, the retired successor, the re-linked
      node after it, and every other slot unchanged. */
  lemma FuseSlots<T>(a: LinkedArray<T>, index: nat, v: T)
    requires Valid(a) && CanFuse(a, index)
    ensures var node := NodeAt(a, index);
      var n := node.next.value;
      var nn := NodeAt(a, n).next;
      var a' := Fuse(a, index, v);
      && index < n < |a.nodes| && Live(a, n) && NodeAt(a, n).prev == Some(index)
      && (nn.Some? ==> n < nn.value && Live(a, nn.value) && NodeAt(a, nn.value).prev == Some(n))
      && |a'.nodes| == |a.nodes|
      && a'.nodes[index] == Some(node.(data := v, next := nn))
      && a'.nodes[n] == None
      && (nn.Some? ==> a'.nodes[nn.value] == Some(NodeAt(a, nn.value).(prev := Some(index))))
      && (forall k :: 0 <= k < |a.nodes| && k != index && k != n && (nn.None? || k != nn.value) ==> a'.nodes[k] == a.nodes[k])
  {
  }

  /** After a fuse, next links still go forward to a node linking back. */
  lemma FuseForward<T>(a: LinkedArray<T>, index: nat, v: T)
    requires Valid(a) && CanFuse(a, index)
    ensures var a' := Fuse(a, index, v);
      forall i: nat :: Live(a', i) && NodeAt(a', i).next.Some? ==>
        var j := NodeAt(a', i).next.value; i < j && Live(a', j) && NodeAt(a', j).prev == Some(i)
  {
    var a' := Fuse(a, index, v);
    var n := NodeAt(a, index).next.value;
    var nn := NodeAt(a, n).next;
    FuseSlots(a, index, v);
    forall i: nat | Live(a', i) && NodeAt(a', i).next.Some?
      ensures var j := NodeAt(a', i).next.value; i < j && Live(a', j) && NodeAt(a', j).prev == Some(i)
    {
      if i != index {
        if nn.Some? && i == nn.value {
          assert NodeAt(a', i).next == NodeAt(a, i).next;
        } else {
          assert a'.nodes[i] == a.nodes[i];
        }
        var j := NodeAt(a, i).next.value;
        assert NodeAt(a, j).prev == Some(i);
        assert j != n;
      }
    }
  }

  /** After a fuse, every live node but the head still has a predecessor
      linking forward to it. */
  lemma FuseBackward<T>(a: LinkedArray<T>, index: nat, v: T)
    requires Valid(a) && CanFuse(a, index)
    ensures var a' := Fuse(a, index, v);
      forall i: nat :: Live(a', i) && i > 0 ==>
        NodeAt(a', i).prev.Some? && var j := NodeAt(a', i).prev.value; j < i && Live(a', j) && NodeAt(a', j).next == Some(i)
  {
    var a' := Fuse(a, index, v);
    var n := NodeAt(a, index).next.value;
    var nn := NodeAt(a, n).next;
    FuseSlots(a, index, v);
    forall i: nat | Live(a', i) && i > 0
      ensures NodeAt(a', i).prev.Some? && var j := NodeAt(a', i).prev.value; j < i && Live(a', j) && NodeAt(a', j).next == Some(i)
    {
      if !(nn.Some? && i == nn.value) {
        assert i != n;
        if i != index {
          assert a'.nodes[i] == a.nodes[i];
        }
        var j := NodeAt(a, i).prev.value;
        assert NodeAt(a, j).next == Some(i);
        assert j != n;
        assert j != index;
      }
    }
  }

  lemma FuseLinked<T>(a: LinkedArray<T>, index: nat, v: T)
    requires Valid(a) && CanFuse(a, index)
    ensures Linked(Fuse(a, index, v))
  {
    FuseSlots(a, index, v);
    FuseForward(a, index, v);
    FuseBackward(a, index, v);
  }


  lemma FuseValid<T>(a: LinkedArray<T>, index: nat, v: T)
    requires Valid(a) && CanFuse(a, index)
    ensures var n := NodeAt(a, index).next.value;
      && var a' := Fuse(a, index, v);
      && |a'.nodes| == |a.nodes|
      && (forall k: nat :: Live(a', k) <==> Live(a, k) && k != n)
      && (forall k: nat :: Live(a', k) && k != index ==> NodeAt(a', k).data == NodeAt(a, k).data)
      && (forall k: nat :: Live(a', k) && k != index ==> NodeAt(a', k).next == NodeAt(a, k).next)
      && Live(a', index) && NodeAt(a', index).data == v && NodeAt(a', index).next == NodeAt(a, n).next
      && Valid(a')
  {
    var a' := Fuse(a, index, v);
    var n := NodeAt(a, index).next.value;
    FuseSlots(a, index, v);
    FuseLinked(a, index, v);
    assert LiveSet(a') == LiveSet(a) - {n};
  }

  /** `replace_pair(index, new_item)`: fails when `index` exceeds
      capacity - 2, when its slot is retired or when it has no successor;
      otherwise slot `index` takes the new value, the successor's slot is
      retired, the links skip it, and the length drops by one. */
  function ReplacePair<T>(a: LinkedArray<T>, index: nat, v: T): (r: Result<LinkedArray<T>, ArrayError>)
    requires Valid(a)
    ensures r.Failure? <==> !CanFuse(a, index)
    ensures r.Failure? ==> r.error == IndexOutOfRange
    ensures r.Success? ==>
      var a' := r.value;
      var n := NodeAt(a, index).next.value;
      && Valid(a')
      && |a'.nodes| == |a.nodes| && a'.length == a.length - 1
      && Live(a', index) && NodeAt(a', index).data == v
      && Live(a, n) && !Live(a', n)
      && NodeAt(a', index).next == NodeAt(a, n).next
      && (NodeAt(a, n).next.Some? ==> NodeAt(a', NodeAt(a, n).next.value).prev == Some(index))
      && (forall k: nat :: k != n ==> (Live(a', k) <==> Live(a, k)))
      && (forall k: nat :: Live(a', k) && k != index ==> NodeAt(a', k).data == NodeAt(a, k).data)
  {
    if !CanFuse(a, index) then Failure(IndexOutOfRange)
    else FuseValid(a, index, v); Success(Fuse(a, index, v))
  }

  /** `s` with element `x` removed. */
  function Without(s: seq<nat>, x: nat): seq<nat> {
    if s == [] then [] else (if s[0] == x then [] else [s[0]]) + Without(s[1..], x)
  }

  /** Consecutive walked slots are linked, and the walk ends at the node
      without a successor. */
  lemma {:induction false} WalkLinks<T>(a: LinkedArray<T>, i: nat)
    requires Linked(a) && Live(a, i)
    ensures forall q :: 0 <= q < |Walk(a, i)| ==> Live(a, Walk(a, i)[q])
    ensures forall q :: 0 <= q < |Walk(a, i)| - 1 ==> NodeAt(a, Walk(a, i)[q]).next == Some(Walk(a, i)[q + 1])
    ensures NodeAt(a, Walk(a, i)[|Walk(a, i)| - 1]).next.None?
    decreases |a.nodes| - i
  {
    WalkShape(a, i);
    var nx := NodeAt(a, i).next;
    if nx.Some? {
      WalkLinks(a, nx.value);
      WalkShape(a, nx.value);
    }
  }

  lemma WithoutCons(x: nat, s: seq<nat>, y: nat)
    ensures Without([x] + s, y) == (if x == y then [] else [x]) + Without(s, y)
  {
    assert ([x] + s)[0] == x && ([x] + s)[1..] == s;
  }

  /** After a fuse, every walk is the old walk without the retired slot. */
  lemma {:induction false} WalkAfterFuse<T>(a: LinkedArray<T>, index: nat, v: T, j: nat)
    requires Valid(a) && CanFuse(a, index)
    requires Live(Fuse(a, index, v), j)
    ensures Live(a, j)
    ensures Walk(Fuse(a, index, v), j) == Without(Walk(a, j), NodeAt(a, index).next.value)
    decreases |a.nodes| - j, 1
  {
    if j == index {
      WalkAfterFuseAtIndex(a, index, v);
    } else {
      WalkAfterFuseElsewhere(a, index, v, j);
    }
  }

  lemma {:induction false} WalkAfterFuseAtIndex<T>(a: LinkedArray<T>, index: nat, v: T)
    requires Valid(a) && CanFuse(a, index)
    ensures Live(Fuse(a, index, v), index)
    ensures Walk(Fuse(a, index, v), index) == Without(Walk(a, index), NodeAt(a, index).next.value)
    decreases |a.nodes| - index, 0
  {
    var a' := Fuse(a, index, v);
    var n := NodeAt(a, index).next.value;
    var nn := NodeAt(a, n).next;
    FuseSlots(a, index, v);
    FuseLinked(a, index, v);
    var rest := if nn.Some? then Walk(a, nn.value) else [];
    var rest' := if nn.Some? then Walk(a', nn.value) else [];
    assert Walk(a, index) == [index] + Walk(a, n);
    assert Walk(a, n) == [n] + rest;
    assert Walk(a', index) == [index] + rest';
    if nn.Some? {
      WalkAfterFuse(a, index, v, nn.value);
      WalkShape(a, nn.value);
      WithoutAbsent(rest, n);
    }
    assert rest' == rest;
    assert Without(rest, n) == rest;
    WithoutCons(n, rest, n);
    assert Without([n] + rest, n) == rest;
    WithoutCons(index, [n] + rest, n);
    assert Without([index] + ([n] + rest), n) == [index] + rest;
  }

  lemma {:induction false} WalkAfterFuseElsewhere<T>(a: LinkedArray<T>, index: nat, v: T, j: nat)
    requires Valid(a) && CanFuse(a, index)
    requires Live(Fuse(a, index, v), j) && j != index
    ensures Live(a, j)
    ensures Walk(Fuse(a, index, v), j) == Without(Walk(a, j), NodeAt(a, index).next.value)
    decreases |a.nodes| - j, 0
  {
    var a' := Fuse(a, index, v);
    var n := NodeAt(a, index).next.value;
    FuseSlots(a, index, v);
    FuseLinked(a, index, v);
    assert j != n;
    assert NodeAt(a', j).next == NodeAt(a, j).next;
    var nx := NodeAt(a, j).next;
    if nx.Some? {
      var m := nx.value;
      assert NodeAt(a, m).prev == Some(j);
      assert m != n;
      WalkAfterFuse(a, index, v, m);
      assert Walk(a, j) == [j] + Walk(a, m);
      assert Walk(a', j) == [j] + Walk(a', m);
      WithoutCons(j, Walk(a, m), n);
    } else {
      assert Walk(a, j) == [j];
      assert Walk(a', j) == [j];
      WithoutCons(j, [], n);
    }
  }

  lemma {:induction false} WithoutAbsent(s: seq<nat>, x: nat)
    requires forall k :: 0 <= k < |s| ==> s[k] > x
    ensures Without(s, x) == s
  {
    if s != [] {
      WithoutAbsent(s[1..], x);
    }
  }

  lemma {:induction false} WithoutAt(w: seq<nat>, q: nat)
    requires StrictlyIncreasing(w) && q < |w|
    ensures Without(w, w[q]) == w[..q] + w[q + 1..]
  {
    var rest := w[1..];
    assert StrictlyIncreasing(rest) by {
      forall k, l | 0 <= k < l < |rest|
        ensures rest[k] < rest[l]
      {
        assert rest[k] == w[k + 1] && rest[l] == w[l + 1];
      }
    }
    if q == 0 {
      forall k | 0 <= k < |rest|
        ensures rest[k] > w[0]
      {
        assert rest[k] == w[k + 1];
      }
      WithoutAbsent(rest, w[0]);
    } else {
      assert w[0] < w[q];
      assert Without(w, w[q]) == [w[0]] + Without(rest, w[q]);
      assert rest[q - 1] == w[q];
      WithoutAt(rest, q - 1);
      assert rest[..q - 1] + rest[q..] == w[1..q] + w[q + 1..];
      assert w[..q] == [w[0]] + w[1..q];
    }
  }

  /** The position of `x` in `w`. */
  ghost function PositionOf(w: seq<nat>, x: nat): (p: nat)
    requires x in w
    ensures p < |w| && w[p] == x
  {
    if w[0] == x then 0 else 1 + PositionOf(w[1..], x)
  }

  /** The successor of a walked slot is the next slot of the walk. */
  lemma NextOnWalk<T>(a: LinkedArray<T>, q: nat)
    requires Linked(a) && Live(a, 0) && q < |Walk(a, 0)|
    requires Live(a, Walk(a, 0)[q]) && NodeAt(a, Walk(a, 0)[q]).next.Some?
    ensures q + 1 < |Walk(a, 0)|
    ensures Walk(a, 0)[q + 1] == NodeAt(a, Walk(a, 0)[q]).next.value
  {
    WalkLinks(a, 0);
  }

  /** In a strictly increasing walk, every slot occurs at one position only. */
  lemma {:induction false} PositionOfUnique(w: seq<nat>, p: nat)
    requires StrictlyIncreasing(w) && p < |w|
    ensures w[p] in w && PositionOf(w, w[p]) == p
  {
    if p > 0 {
      assert w[0] < w[p];
      var rest := w[1..];
      assert StrictlyIncreasing(rest) by {
        forall k, l | 0 <= k < l < |rest|
          ensures rest[k] < rest[l]
        {
          assert rest[k] == w[k + 1] && rest[l] == w[l + 1];
        }
      }
      assert rest[p - 1] == w[p];
      PositionOfUnique(rest, p - 1);
    }
  }

  /** On the walk from the head, a node's successor comes right after it;
      `p` is the node's position on that walk. */
  lemma WalkSuccessor<T>(a: LinkedArray<T>, index: nat) returns (p: nat)
    requires Linked(a) && Live(a, index) && NodeAt(a, index).next.Some?
    ensures Live(a, 0)
    ensures p + 1 < |Walk(a, 0)| && Walk(a, 0)[p] == index
    ensures Walk(a, 0)[p + 1] == NodeAt(a, index).next.value
    ensures StrictlyIncreasing(Walk(a, 0))
  {
    LiveOnWalk(a, index);
    var w := Walk(a, 0);
    WalkShape(a, 0);
    p := PositionOf(w, index);
    NextOnWalk(a, p);
  }

  /** After a fuse, the walk from the head skips the retired successor. */
  lemma WalkSkips<T>(a: LinkedArray<T>, index: nat, v: T)
    requires Valid(a) && CanFuse(a, index)
    ensures Live(a, 0) && Live(Fuse(a, index, v), 0)
    ensures Walk(Fuse(a, index, v), 0) == Without(Walk(a, 0), NodeAt(a, index).next.value)
  {
    FuseSlots(a, index, v);
    WalkAfterFuse(a, index, v, 0);
  }

  /** After a fuse, the walk from the head skips exactly the retired
      successor, which sat right after `index` at position `p + 1`. */
  lemma WalkSplice<T>(a: LinkedArray<T>, index: nat, v: T) returns (p: nat)
    requires Valid(a) && CanFuse(a, index)
    ensures Live(a, 0) && Live(Fuse(a, index, v), 0)
    ensures p + 1 < |Walk(a, 0)| && Walk(a, 0)[p] == index
    ensures StrictlyIncreasing(Walk(a, 0))
    ensures Walk(Fuse(a, index, v), 0) == Walk(a, 0)[..p + 1] + Walk(a, 0)[p + 2..]
  {
    p := WalkSuccessor(a, index);
    WalkSkips(a, index, v);
    WithoutAt(Walk(a, 0), p + 1);
  }

  /** When the walk loses the slot after position `p`, and only the slot at
      `p` changes its data, iteration loses one element and replaces one. */
  lemma IterateSplice<T>(a: LinkedArray<T>, a': LinkedArray<T>, p: nat, v: T)
    requires Live(a, 0) && Live(a', 0)
    requires var w := Walk(a, 0);
      && p + 1 < |w| && StrictlyIncreasing(w)
      && Walk(a', 0) == w[..p + 1] + w[p + 2..]
      && Live(a', w[p]) && NodeAt(a', w[p]).data == v
      && (forall k: nat :: Live(a', k) && k != w[p] ==> Live(a, k) && NodeAt(a', k).data == NodeAt(a, k).data)
    ensures p + 1 < |Iterate(a)|
    ensures Iterate(a') == Iterate(a)[..p] + [v] + Iterate(a)[p + 2..]
  {
    var w, w' := Walk(a, 0), Walk(a', 0);
    IterateFollowsWalk(a, 0);
    IterateFollowsWalk(a', 0);
    var s, s' := Iterate(a), Iterate(a');
    var t := s[..p] + [v] + s[p + 2..];
    assert |s'| == |t|;
    forall k | 0 <= k < |s'|
      ensures s'[k] == t[k]
    {
      if k < p {
        assert w'[k] == w[k] && w[k] < w[p];
      } else if k > p {
        assert w'[k] == w[k + 1] && w[k + 1] > w[p];
      }
    }
  }

  /** Seen through iteration, `replace_pair` replaces the two adjacent
      elements starting at the fused slot with the single new value and
      leaves every other element, in order, as it was. */
  lemma ReplacePairSplices<T>(a: LinkedArray<T>, index: nat, v: T)
    requires Valid(a) && ReplacePair(a, index, v).Success?
    ensures Live(a, 0)
    ensures var w := Walk(a, 0);
      index in w &&
      var p := PositionOf(w, index);
      var a' := ReplacePair(a, index, v).value;
      p + 1 < |Iterate(a)| && Live(a', 0) &&
      Iterate(a') == Iterate(a)[..p] + [v] + Iterate(a)[p + 2..]
  {
    var p := FuseSplice(a, index, v);
    PositionOfUnique(Walk(a, 0), p);
    assert ReplacePair(a, index, v).value == Fuse(a, index, v);
  }

  /** `ReplacePairSplices` at the position `p` of the fused slot on the
      walk. */
  lemma FuseSplice<T>(a: LinkedArray<T>, index: nat, v: T) returns (p: nat)
    requires Valid(a) && CanFuse(a, index)
    ensures Live(a, 0) && Live(Fuse(a, index, v), 0)
    ensures p < |Walk(a, 0)| && Walk(a, 0)[p] == index && StrictlyIncreasing(Walk(a, 0))
    ensures p + 1 < |Iterate(a)|
    ensures Iterate(Fuse(a, index, v)) == Iterate(a)[..p] + [v] + Iterate(a)[p + 2..]
  {
    var a' := Fuse(a, index, v);
    FuseValid(a, index, v);
    p := WalkSplice(a, index, v);
    IterateSplice(a, a', p, v);
  }

  /** `size()`: the public length, which is the number of elements an
      iteration visits. */
  function Size<T>(a: LinkedArray<T>): (n: nat)
    requires Valid(a)
    ensures |a.nodes| > 0 ==> n == |Iterate(a)|
    ensures |a.nodes| == 0 ==> n == 0
  {
    if |a.nodes| > 0 then WalkCoversLive(a); a.length
    else assert LiveSet(a) == {}; a.length
  }

  /** A set of naturals below `n` has at most `n` elements. */
  lemma {:induction false} BoundedCard(s: set<nat>, n: nat)
    requires forall x :: x in s ==> x < n
    ensures |s| <= n
    decreases n
  {
    if n > 0 {
      BoundedCard(s - {n - 1}, n - 1);
    } else {
      assert s == {};
    }
  }

  /** `capacity()`: the number of slots ever allocated, which bounds the
      number of live elements. */
  function Capacity<T>(a: LinkedArray<T>): (n: nat)
    ensures Valid(a) ==> Size(a) <= n
  {
    BoundedCard(LiveSet(a), |a.nodes|);
    |a.nodes|
  }
}
