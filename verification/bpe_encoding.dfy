/** The incremental trainer `BPE_Encoding` (bytepair.cpp).  The priority
    queue of the source is kept abstract: `freqs` maps each `Pair` to its
    occurrence set (the `PairOccurences` record without its redundant copy
    of the pair), and the queue's weight of an entry is the size of that
    set.  The token sequence is the `LinkedArray` of linked_array.dfy. */
module BpeEncoding {
  import opened Wrappers
  import LA = LinkedArray

  /** An unsigned byte: the `unsigned char` view of an input character. */
  type Byte = b: nat | b < 256

  /** `Pair`: two token ids, compared structurally. */
  datatype Pair = Pair(l: nat, r: nat)

  /** Pair -> left positions of its occurrences. */
  type Freqs = map<Pair, set<nat>>

  datatype ReduceError =
    | TokenImpossible          // "Token is impossible"
    | Array(cause: LA.ArrayError)   // a `LinkedArray` lookup threw
    | PairNotFound             // `dec_pair` on an absent pair
    | Undefined                // a null link is dereferenced

  /** The fields of `BPE_Encoding` that the training step reads and writes. */
  datatype Encoding = Encoding(
    freqs: Freqs,
    mostFreqPair: Pair,
    highestFreq: nat,
    tokens: LA.LinkedArray<nat>,
    grammar: seq<Pair>,
    iterations: nat)

  // ---------------------------------------------------------------------
  // Occurrence maps
  // ---------------------------------------------------------------------

  /** No stored pair has an empty occurrence set. */
  ghost predicate NoEmptySets(f: Freqs) {
    forall p :: p in f ==> f[p] != {}
  }

  /** `f` records exactly the adjacent pairs of `t` whose left position is
      below `k`. */
  ghost predicate ExactUpTo(f: Freqs, t: seq<nat>, k: nat) {
    && (forall p, i :: p in f && i in f[p] ==> i < k && i + 1 < |t| && Pair(t[i], t[i + 1]) == p)
    && (forall i :: 0 <= i < k && i + 1 < |t| ==> Pair(t[i], t[i + 1]) in f && i in f[Pair(t[i], t[i + 1])])
  }

  /** `f` records exactly the adjacent pairs of `t`. */
  ghost predicate Exact(f: Freqs, t: seq<nat>) {
    ExactUpTo(f, t, |t|)
  }

  /** `inc_pair(pair, i)`: a new pair starts with `{i}`, a known one gains `i`. */
  function IncPair(f: Freqs, p: Pair, i: nat): (r: Freqs)
    ensures p in r && i in r[p]
    ensures p in f ==> r[p] == f[p] + {i}
    ensures p !in f ==> r[p] == {i}
    ensures forall q :: q != p ==> (q in r <==> q in f)
    ensures forall q :: q != p && q in f ==> r[q] == f[q]
    ensures NoEmptySets(f) ==> NoEmptySets(r)
  {
    if p !in f then f[p := {i}] else f[p := f[p] + {i}]
  }

  /** `dec_pair(pair, i)`: fails for an absent pair, otherwise drops `i`
      from its set and erases the pair once the set is empty. */
  function DecPair(f: Freqs, p: Pair, i: nat): (r: Result<Freqs, ReduceError>)
    ensures r.Failure? <==> p !in f
    ensures r.Failure? ==> r.error == PairNotFound
    ensures r.Success? ==> (p in r.value <==> f[p] - {i} != {})
    ensures r.Success? && p in r.value ==> r.value[p] == f[p] - {i}
    ensures r.Success? ==> forall q :: q != p ==> (q in r.value <==> q in f)
    ensures r.Success? ==> forall q :: q != p && q in f ==> r.value[q] == f[q]
    ensures r.Success? && NoEmptySets(f) ==> NoEmptySets(r.value)
  {
    if p !in f then Failure(PairNotFound)
    else
      var rest := f[p] - {i};
      if rest == {} then Success(f - {p}) else Success(f[p := rest])
  }

  /** Removing an occurrence that was just added gives the map back. */
  lemma IncThenDec(f: Freqs, p: Pair, i: nat)
    requires p in f ==> f[p] != {} && i !in f[p]
    ensures DecPair(IncPair(f, p, i), p, i) == Success(f)
  {
    var g := IncPair(f, p, i);
    var h := DecPair(g, p, i).value;
    if p in f {
      assert g[p] - {i} == f[p];
      assert g[p := f[p]] == f;
    } else {
      assert g[p] - {i} == {};
      assert g - {p} == f;
    }
  }

  /** Re-adding an occurrence that was just removed gives the map back. */
  lemma DecThenInc(f: Freqs, p: Pair, i: nat)
    requires p in f && i in f[p]
    ensures DecPair(f, p, i).Success?
    ensures IncPair(DecPair(f, p, i).value, p, i) == f
  {
    var g := DecPair(f, p, i).value;
    var h := IncPair(g, p, i);
    assert (f[p] - {i}) + {i} == f[p];
    assert h[p] == f[p];
    assert h.Keys == f.Keys;
  }

  // ---------------------------------------------------------------------
  // Seeding (the constructors)
  // ---------------------------------------------------------------------

  /** The 256 leaf rules `Pair{i, 0}`. */
  ghost predicate LeafGrammar(g: seq<Pair>) {
    |g| == 256 && forall c :: 0 <= c < 256 ==> g[c] == Pair(c, 0)
  }

  /** Each input byte becomes the token equal to its unsigned value. */
  method ToTokens(input: seq<Byte>) returns (tokens: seq<nat>)
    ensures |tokens| == |input|
    ensures forall i :: 0 <= i < |input| ==> tokens[i] == input[i] as nat
  {
    tokens := [];
    for i := 0 to |input|
      invariant |tokens| == i
      invariant forall k :: 0 <= k < i ==> tokens[k] == input[k] as nat
    {
      tokens := tokens + [input[i] as nat];
    }
  }

  /** The initial grammar: rule `c` is the leaf `Pair{c, 0}`. */
  method LeafRules() returns (grammar: seq<Pair>)
    ensures LeafGrammar(grammar)
  {
    grammar := [];
    for c := 0 to 256
      invariant |grammar| == c
      invariant forall k :: 0 <= k < c ==> grammar[k] == Pair(k, 0)
    {
      grammar := grammar + [Pair(c, 0)];
    }
  }

  /** Recording the pair at position `i` extends an exact prefix by one. */
  lemma RecordStep(f: Freqs, t: seq<nat>, i: nat)
    requires ExactUpTo(f, t, i) && i + 1 < |t|
    ensures ExactUpTo(IncPair(f, Pair(t[i], t[i + 1]), i), t, i + 1)
  {
    var f' := IncPair(f, Pair(t[i], t[i + 1]), i);
    forall q, j | q in f' && j in f'[q]
      ensures j < i + 1 && j + 1 < |t| && Pair(t[j], t[j + 1]) == q
    {
      if j != i {
        assert q in f && j in f[q];
      }
    }
  }

  /** The seeding scan: every adjacent pair of `tokens` is recorded at its
      left position. */
  method SeedFreqs(tokens: seq<nat>) returns (freqs: Freqs)
    ensures Exact(freqs, tokens) && NoEmptySets(freqs)
  {
    freqs := map[];
    for i := 0 to |tokens|
      invariant ExactUpTo(freqs, tokens, i) && NoEmptySets(freqs)
    {
      if i + 1 < |tokens| {
        RecordStep(freqs, tokens, i);
        freqs := IncPair(freqs, Pair(tokens[i], tokens[i + 1]), i);
      }
    }
  }

  /** `BPE_Encoding(input)`: the token array is filled with the input's
      tokens, the grammar holds the 256 leaf rules and the occurrence map
      records every adjacent pair.  The source leaves `most_freq_pair`
      uninitialised; here it is `Pair(0, 0)`. */
  method Seed(input: seq<Byte>) returns (e: Encoding)
    ensures |e.tokens.nodes| == |input| && e.tokens.length == |input|
    ensures forall i :: 0 <= i < |input| ==> LA.Live(e.tokens, i) && LA.NodeAt(e.tokens, i).data == input[i]
    ensures LA.Valid(e.tokens)
    ensures |input| > 0 ==> LA.Iterate(e.tokens) == input
    ensures LeafGrammar(e.grammar)
    ensures Exact(e.freqs, input) && NoEmptySets(e.freqs)
    ensures e.iterations == 0 && e.highestFreq == 0
  {
    var tokens := ToTokens(input);
    assert tokens == input;
    var arr := LA.Fill(tokens);
    var grammar := LeafRules();
    var freqs := SeedFreqs(tokens);
    e := Encoding(freqs, Pair(0, 0), 0, arr, grammar, 0);
  }

  // ---------------------------------------------------------------------
  // reduce
  // ---------------------------------------------------------------------

  /** `freqs.max()`: a pair of greatest weight with its occurrence set, or
      the default `Pair{0, 0}` with no occurrences when the queue is empty.
      Among pairs of equal weight any may be chosen. */
  method MostFrequent(f: Freqs) returns (p: Pair, occ: set<nat>)
    ensures |f| == 0 ==> p == Pair(0, 0) && occ == {}
    ensures |f| > 0 ==> p in f && occ == f[p]
    ensures forall q :: q in f ==> |f[q]| <= |occ|
  {
    p, occ := Pair(0, 0), {};
    var found := false;
    var todo := f.Keys;
    while todo != {}
      invariant todo <= f.Keys
      invariant found ==> p in f && occ == f[p]
      invariant !found ==> todo == f.Keys && p == Pair(0, 0) && occ == {}
      invariant forall q :: q in f && q !in todo ==> |f[q]| <= |occ|
      decreases |todo|
    {
      var q :| q in todo;
      if !found || |f[q]| > |occ| {
        p, occ, found := q, f[q], true;
      }
      todo := todo - {q};
    }
    assert f.Keys == {} ==> |f| == 0;
  }

  /** Every live token lies below `n`. */
  ghost predicate TokensBelow(a: LA.LinkedArray<nat>, n: nat) {
    forall i: nat :: LA.Live(a, i) ==> LA.NodeAt(a, i).data < n
  }

  /** Every live slot of `a'` other than `o` was live in `a` and holds the
      same token. */
  ghost predicate OthersKept(a: LA.LinkedArray<nat>, a': LA.LinkedArray<nat>, o: nat) {
    forall j: nat :: j != o && LA.Live(a', j) ==> LA.Live(a, j) && LA.NodeAt(a', j).data == LA.NodeAt(a, j).data
  }

  /** The array after a successful rewrite at `o`: still valid with the
      same capacity, one element shorter, `o` live and holding `z`, the
      slots before `o` untouched and no other slot's token changed. */
  ghost predicate RewroteAt(a: LA.LinkedArray<nat>, a': LA.LinkedArray<nat>, o: nat, z: nat) {
    && LA.Valid(a') && |a'.nodes| == |a.nodes| && a'.length == a.length - 1
    && LA.Live(a', o) && LA.NodeAt(a', o).data == z
    && a'.nodes[..o] == a.nodes[..o]
    && OthersKept(a, a', o)
  }

  /** The loop body of `reduce` for one occurrence `o`, as written: the
      token-bound check, the two decrements (left pair built from
      `most.r`, right pair keyed at the second successor), the two
      increments and the fuse.  `g` is the grammar after the new rule was
      appended, whose last index is the new token. */
  method RewriteOccurrence(f: Freqs, a: LA.LinkedArray<nat>, g: seq<Pair>, most: Pair, o: nat)
    returns (r: Result<(Freqs, LA.LinkedArray<nat>), ReduceError>)
    requires LA.Valid(a) && |g| > 0
    ensures r.Success? ==> 0 < o && LA.Live(a, o) && LA.NodeAt(a, o).data < |g|
    ensures o == 0 && LA.Live(a, 0) && LA.NodeAt(a, 0).data < |g| ==> r == Failure(Array(LA.NoPrevIndex))
    ensures !LA.Live(a, o) ==> r.Failure? && r.error.Array?
    ensures r == Failure(TokenImpossible) <==> LA.Live(a, o) && |g| <= LA.NodeAt(a, o).data
    ensures r.Success? ==> RewroteAt(a, r.value.1, o, |g| - 1)
    ensures r.Success? && TokensBelow(a, |g|) ==> TokensBelow(r.value.1, |g|)
    ensures r.Success? && NoEmptySets(f) ==> NoEmptySets(r.value.0)
  {
    var t := LA.GetByIndex<nat>(a, o);
    if t.Failure? {
      return Failure(Array(t.error));
    }
    if t.value >= |g| {
      return Failure(TokenImpossible);
    }
    r := RewriteChecked(f, a, g, most, o);
  }

  /** The loop body after the token-bound check passed: the decrements,
      the increments and the fuse, none of which reports
      `TokenImpossible`. */
  method RewriteChecked(f: Freqs, a: LA.LinkedArray<nat>, g: seq<Pair>, most: Pair, o: nat)
    returns (r: Result<(Freqs, LA.LinkedArray<nat>), ReduceError>)
    requires LA.Valid(a) && |g| > 0 && LA.Live(a, o) && LA.NodeAt(a, o).data < |g|
    ensures r != Failure(TokenImpossible)
    ensures r.Success? ==> 0 < o
    ensures o == 0 ==> r == Failure(Array(LA.NoPrevIndex))
    ensures r.Success? ==> RewroteAt(a, r.value.1, o, |g| - 1)
    ensures r.Success? && TokensBelow(a, |g|) ==> TokensBelow(r.value.1, |g|)
    ensures r.Success? && NoEmptySets(f) ==> NoEmptySets(r.value.0)
  {
    var prev := LA.GetPrevIndex(a, o);
    if prev.Failure? {
      return Failure(Array(prev.error));
    }
    var pi := prev.value;
    var left := LA.NodeAt(a, pi).data;
    var f1 := DecPair(f, Pair(left, most.r), pi);
    if f1.Failure? {
      return Failure(f1.error);
    }
    if !LA.HasSecondNext(a, o) {
      return Failure(Undefined);
    }
    var second := LA.GetSecondNextIndex(a, o);
    if second.Failure? {
      return Failure(Array(second.error));
    }
    var ni := second.value;
    var right := LA.NodeAt(a, ni).data;
    var f2 := DecPair(f1.value, Pair(most.r, right), ni);
    if f2.Failure? {
      return Failure(f2.error);
    }
    var z := |g| - 1;
    var f3 := IncPair(f2.value, Pair(left, z), pi);
    var f4 := IncPair(f3, Pair(z, right), ni);
    // The successor link was just followed, so the fuse's guard passes.
    assert LA.CanFuse(a, o);
    var fused := LA.ReplacePair(a, o, z);
    r := Success((f4, fused.value));
  }

  /** A set of naturals holding `y` has a least element. */
  lemma {:induction false} LeastExists(s: set<nat>, y: nat)
    requires y in s
    ensures exists m :: IsLeast(m, s)
    decreases y
  {
    if z :| z in s && z < y {
      LeastExists(s, z);
    } else {
      assert IsLeast(y, s);
    }
  }

  /** `m` is the least element of `s`. */
  ghost predicate IsLeast(m: nat, s: set<nat>) {
    m in s && forall x :: x in s ==> m <= x
  }

  /** The least occurrence in `s` is live in `a` and holds a token the
      check rejects: one at or above `n`. */
  ghost predicate LeastOutOfRange(a: LA.LinkedArray<nat>, s: set<nat>, n: nat) {
    forall m :: IsLeast(m, s) ==> LA.Live(a, m) && n <= LA.NodeAt(a, m).data
  }

  /** The next element a `std::set` iteration visits: the least one. */
  method Least(s: set<nat>) returns (m: nat)
    requires s != {}
    ensures IsLeast(m, s)
  {
    var some :| some in s;
    LeastExists(s, some);
    m :| m in s && forall x :: x in s ==> m <= x;
  }

  /** The state of the occurrence loop: `done` holds the occurrences
      already rewritten, all below `lo`, and `todo` the rest, all at or
      above `lo`; each rewritten slot is live and holds the new token `z`,
      and each rewrite shortened the array by one. */
  ghost predicate Progress(occ: set<nat>, a0: LA.LinkedArray<nat>, f0: Freqs, z: nat,
                           f: Freqs, a: LA.LinkedArray<nat>, todo: set<nat>, done: set<nat>, lo: nat)
  {
    && todo + done == occ && todo * done == {}
    && (forall d :: d in done ==> d < lo)
    && (forall x :: x in todo ==> lo <= x)
    && LA.Valid(a) && |a.nodes| == |a0.nodes|
    && a.length + |done| == a0.length
    && (forall d :: d in done ==> d < |a.nodes| && a.nodes[d].Some? && a.nodes[d].value.data == z)
    && (TokensBelow(a0, z + 1) ==> TokensBelow(a, z + 1))
    && (NoEmptySets(f0) ==> NoEmptySets(f))
    && Original(a0, a, done, lo, z + 1)
  }

  /** What the token-bound check has seen: each rewritten occurrence held
      a token below `n` in the original array, and every live slot from
      `lo` on still holds its original token. */
  ghost predicate Original(a0: LA.LinkedArray<nat>, a: LA.LinkedArray<nat>, done: set<nat>, lo: nat, n: nat) {
    && (forall d :: d in done ==> LA.Live(a0, d) && LA.NodeAt(a0, d).data < n)
    && (forall j: nat :: lo <= j && LA.Live(a, j) ==> LA.Live(a0, j) && LA.NodeAt(a, j).data == LA.NodeAt(a0, j).data)
  }

  /** A rewrite at `o` that passed the check and changed no other slot's
      token keeps `Original`. */
  lemma OriginalStep(a0: LA.LinkedArray<nat>, a: LA.LinkedArray<nat>, a': LA.LinkedArray<nat>,
                     done: set<nat>, lo: nat, o: nat, n: nat)
    requires Original(a0, a, done, lo, n) && lo <= o
    requires LA.Live(a, o) && LA.NodeAt(a, o).data < n
    requires OthersKept(a, a', o)
    ensures Original(a0, a', done + {o}, o + 1, n)
  {
    forall j: nat | o + 1 <= j && LA.Live(a', j)
      ensures LA.Live(a0, j) && LA.NodeAt(a', j).data == LA.NodeAt(a0, j).data
    {
      assert LA.Live(a, j);
    }
  }

  /** Moving the least remaining element `o` from `todo` to `done` keeps
      the partition and the bound `lo` between them. */
  lemma PartitionStep(occ: set<nat>, todo: set<nat>, done: set<nat>, lo: nat, o: nat)
    requires todo + done == occ && todo * done == {}
    requires (forall d :: d in done ==> d < lo) && (forall x :: x in todo ==> lo <= x)
    requires IsLeast(o, todo)
    ensures (todo - {o}) + (done + {o}) == occ && (todo - {o}) * (done + {o}) == {}
    ensures forall d :: d in done + {o} ==> d < o + 1
    ensures forall x :: x in todo - {o} ==> o + 1 <= x
    ensures |done + {o}| == |done| + 1
  {
    forall x | x in todo - {o}
      ensures o + 1 <= x
    {
      assert x in todo && x != o;
    }
  }

  /** Slots below `o` are untouched by the rewrite at `o`, so the earlier
      rewrites survive it. */
  lemma SlotsStep(a: LA.LinkedArray<nat>, a': LA.LinkedArray<nat>, done: set<nat>, lo: nat, o: nat, z: nat)
    requires forall d :: d in done ==> d < lo
    requires lo <= o < |a'.nodes| == |a.nodes| && a'.nodes[..o] == a.nodes[..o]
    requires forall d :: d in done ==> d < |a.nodes| && a.nodes[d].Some? && a.nodes[d].value.data == z
    requires a'.nodes[o].Some? && a'.nodes[o].value.data == z
    ensures forall d :: d in done + {o} ==> d < |a'.nodes| && a'.nodes[d].Some? && a'.nodes[d].value.data == z
  {
    forall d | d in done
      ensures a'.nodes[d] == a.nodes[d]
    {
      assert a'.nodes[d] == a'.nodes[..o][d];
    }
  }

  /** Rewriting the least remaining occurrence keeps `Progress`. */
  lemma ProgressStep(occ: set<nat>, a0: LA.LinkedArray<nat>, f0: Freqs, z: nat,
                     f: Freqs, a: LA.LinkedArray<nat>, todo: set<nat>, done: set<nat>, lo: nat,
                     o: nat, f': Freqs, a': LA.LinkedArray<nat>)
    requires Progress(occ, a0, f0, z, f, a, todo, done, lo)
    requires IsLeast(o, todo) && RewroteAt(a, a', o, z)
    requires TokensBelow(a, z + 1) ==> TokensBelow(a', z + 1)
    requires NoEmptySets(f) ==> NoEmptySets(f')
    requires LA.Live(a, o) && LA.NodeAt(a, o).data < z + 1
    ensures Progress(occ, a0, f0, z, f', a', todo - {o}, done + {o}, o + 1)
  {
    PartitionStep(occ, todo, done, lo, o);
    SlotsStep(a, a', done, lo, o, z);
    OriginalStep(a0, a, a', done, lo, o, z + 1);
  }

  /** The outcome of the occurrence loop: every occurrence slot is live and
      holds the new token `z`, the array stays valid with the same
      capacity and is shorter by the number of occurrences, and the token
      bound and the absence of empty sets carry over. */
  ghost predicate Rewritten(occ: set<nat>, a0: LA.LinkedArray<nat>, f0: Freqs, z: nat, result: (Freqs, LA.LinkedArray<nat>))
  {
    var (f, a) := result;
    && LA.Valid(a) && |a.nodes| == |a0.nodes|
    && a.length + |occ| == a0.length
    && (forall d :: d in occ ==> d < |a.nodes| && a.nodes[d].Some? && a.nodes[d].value.data == z)
    && (TokensBelow(a0, z + 1) ==> TokensBelow(a, z + 1))
    && (NoEmptySets(f0) ==> NoEmptySets(f))
    && (forall d :: d in occ ==> LA.Live(a0, d) && LA.NodeAt(a0, d).data < z + 1)
  }

  lemma ProgressDone(occ: set<nat>, a0: LA.LinkedArray<nat>, f0: Freqs, z: nat,
                     f: Freqs, a: LA.LinkedArray<nat>, todo: set<nat>, done: set<nat>, lo: nat)
    requires todo == {} && Progress(occ, a0, f0, z, f, a, todo, done, lo)
    ensures Rewritten(occ, a0, f0, z, (f, a))
  {
    assert done == occ;
  }

  /** What a successful `RewriteOccurrence` at the least remaining
      occurrence contributes to `Progress`. */
  lemma OccurrenceStep(occ: set<nat>, a0: LA.LinkedArray<nat>, f0: Freqs, g: seq<Pair>,
                       f: Freqs, a: LA.LinkedArray<nat>, todo: set<nat>, done: set<nat>, lo: nat,
                       o: nat, r: Result<(Freqs, LA.LinkedArray<nat>), ReduceError>)
    requires |g| > 0 && Progress(occ, a0, f0, |g| - 1, f, a, todo, done, lo)
    requires IsLeast(o, todo)
    requires r.Success? ==> RewroteAt(a, r.value.1, o, |g| - 1)
    requires r.Success? ==> LA.Live(a, o) && LA.NodeAt(a, o).data < |g|
    requires r.Success? && TokensBelow(a, |g|) ==> TokensBelow(r.value.1, |g|)
    requires r.Success? && NoEmptySets(f) ==> NoEmptySets(r.value.0)
    ensures r.Success? ==>
      Progress(occ, a0, f0, |g| - 1, r.value.0, r.value.1, todo - {o}, done + {o}, o + 1)
  {
    if r.Success? {
      ProgressStep(occ, a0, f0, |g| - 1, f, a, todo, done, lo, o, r.value.0, r.value.1);
    }
  }

  /** One turn of the occurrence loop: the least remaining occurrence is
      rewritten. */
  method RewriteLeast(ghost occ: set<nat>, a0: LA.LinkedArray<nat>, ghost f0: Freqs, g: seq<Pair>, most: Pair,
                      f: Freqs, a: LA.LinkedArray<nat>, todo: set<nat>, ghost done: set<nat>, ghost lo: nat)
    returns (r: Result<(Freqs, LA.LinkedArray<nat>, nat), ReduceError>)
    requires |g| > 0 && todo != {} && Progress(occ, a0, f0, |g| - 1, f, a, todo, done, lo)
    ensures TokensBelow(a0, |g|) ==> r != Failure(TokenImpossible)
    ensures forall m :: IsLeast(m, todo) && LA.Live(a, m) && |g| <= LA.NodeAt(a, m).data ==> r == Failure(TokenImpossible)
    ensures r.Success? ==> r.value.2 in todo && |todo - {r.value.2}| < |todo|
    ensures r.Success? ==>
      Progress(occ, a0, f0, |g| - 1, r.value.0, r.value.1, todo - {r.value.2}, done + {r.value.2}, r.value.2 + 1)
  {
    var o := Least(todo);
    assert forall m :: IsLeast(m, todo) ==> m == o;
    var step := RewriteOccurrence(f, a, g, most, o);
    OccurrenceStep(occ, a0, f0, g, f, a, todo, done, lo, o, step);
    if step.Failure? {
      return Failure(step.error);
    }
    return Success((step.value.0, step.value.1, o));
  }

  /** The occurrence loop of `reduce` from the state `Progress` describes:
      the remaining occurrences are rewritten in increasing order (a
      `std::set` iterates in order) and the first failing one ends the
      loop. */
  method RewriteFrom(ghost occ: set<nat>, a0: LA.LinkedArray<nat>, ghost f0: Freqs, g: seq<Pair>, most: Pair,
                     f: Freqs, a: LA.LinkedArray<nat>, todo: set<nat>, ghost done: set<nat>, ghost lo: nat)
    returns (r: Result<(Freqs, LA.LinkedArray<nat>), ReduceError>)
    requires |g| > 0 && Progress(occ, a0, f0, |g| - 1, f, a, todo, done, lo)
    ensures TokensBelow(a0, |g|) ==> r != Failure(TokenImpossible)
    ensures forall m :: IsLeast(m, todo) && LA.Live(a, m) && |g| <= LA.NodeAt(a, m).data ==> r == Failure(TokenImpossible)
    ensures r.Success? ==> Rewritten(occ, a0, f0, |g| - 1, r.value)
    decreases |todo|
  {
    if todo == {} {
      ProgressDone(occ, a0, f0, |g| - 1, f, a, todo, done, lo);
      return Success((f, a));
    }
    var step := RewriteLeast(occ, a0, f0, g, most, f, a, todo, done, lo);
    if step.Failure? {
      return Failure(step.error);
    }
    r := RewriteFrom(occ, a0, f0, g, most, step.value.0, step.value.1, todo - {step.value.2}, done + {step.value.2}, step.value.2 + 1);
  }

  /** The occurrence loop of `reduce`: every occurrence ends up live and
      holding the new token, and the array is shorter by their number. */
  method RewriteAll(f0: Freqs, a0: LA.LinkedArray<nat>, g: seq<Pair>, most: Pair, occ: set<nat>)
    returns (r: Result<(Freqs, LA.LinkedArray<nat>), ReduceError>)
    requires LA.Valid(a0) && |g| > 0
    ensures TokensBelow(a0, |g|) ==> r != Failure(TokenImpossible)
    ensures forall m :: IsLeast(m, occ) && LA.Live(a0, m) && |g| <= LA.NodeAt(a0, m).data ==> r == Failure(TokenImpossible)
    ensures r.Success? ==> forall o :: o in occ ==> LA.Live(a0, o) && LA.NodeAt(a0, o).data < |g|
    ensures r.Success? ==>
      var a := r.value.1;
      && LA.Valid(a) && |a.nodes| == |a0.nodes|
      && a.length == a0.length - |occ|
      && (forall o :: o in occ ==> LA.Live(a, o) && LA.NodeAt(a, o).data == |g| - 1)
      && (TokensBelow(a0, |g|) ==> TokensBelow(a, |g|))
      && (NoEmptySets(f0) ==> NoEmptySets(r.value.0))
  {
    r := RewriteFrom(occ, a0, f0, g, most, f0, a0, occ, {}, 0);
    if r.Success? {
      var a := r.value.1;
      assert Rewritten(occ, a0, f0, |g| - 1, r.value);
      forall o | o in occ
        ensures LA.Live(a, o) && LA.NodeAt(a, o).data == |g| - 1
      {
      }
    }
  }

  /** `reduce()`: one training step.  It counts the call, reads the most
      frequent pair and its weight, and stops there when the weight is at
      most 1.  Otherwise it appends the pair as a new grammar rule and
      rewrites each occurrence, in increasing order, with the new token.
      The occurrence map is updated as the source does it, which does not
      keep it exact; any throw inside the body ends the step with a
      failure. */
  method Reduce(e: Encoding) returns (r: Result<Encoding, ReduceError>)
    requires LA.Valid(e.tokens)
    ensures r.Success? ==> r.value.iterations == e.iterations + 1
    ensures r.Success? ==> |e.freqs| == 0 ==> r.value.mostFreqPair == Pair(0, 0) && r.value.highestFreq == 0
    ensures r.Success? ==> |e.freqs| > 0 ==>
      r.value.mostFreqPair in e.freqs && r.value.highestFreq == |e.freqs[r.value.mostFreqPair]|
    ensures r.Success? ==> forall q :: q in e.freqs ==> |e.freqs[q]| <= r.value.highestFreq
    ensures r.Success? && r.value.highestFreq <= 1 ==>
      r.value.grammar == e.grammar && r.value.tokens == e.tokens && r.value.freqs == e.freqs
    ensures (forall q :: q in e.freqs ==> |e.freqs[q]| <= 1) ==> r.Success?
    ensures r.Success? && r.value.highestFreq > 1 ==>
      var e' := r.value;
      && e'.grammar == e.grammar + [e'.mostFreqPair]
      && LA.Valid(e'.tokens) && |e'.tokens.nodes| == |e.tokens.nodes|
      && e'.tokens.length == e.tokens.length - e'.highestFreq
      && (forall o :: o in e.freqs[e'.mostFreqPair] ==>
            LA.Live(e'.tokens, o) && LA.NodeAt(e'.tokens, o).data == |e.grammar|)
    ensures r.Success? && r.value.highestFreq > 1 ==>
      forall o :: o in e.freqs[r.value.mostFreqPair] ==> LA.Live(e.tokens, o) && LA.NodeAt<nat>(e.tokens, o).data <= |e.grammar|
    ensures (exists q :: q in e.freqs && |e.freqs[q]| > 1) &&
            (forall q :: q in e.freqs && |e.freqs[q]| > 1 ==> LeastOutOfRange(e.tokens, e.freqs[q], |e.grammar| + 1))
            ==> r == Failure(TokenImpossible)
    ensures TokensBelow(e.tokens, |e.grammar|) ==> r != Failure(TokenImpossible)
    ensures TokensBelow(e.tokens, |e.grammar|) && r.Success? ==> TokensBelow(r.value.tokens, |r.value.grammar|)
    ensures NoEmptySets(e.freqs) && r.Success? ==> NoEmptySets(r.value.freqs)
  {
    var most, occ := MostFrequent(e.freqs);
    var e1 := e.(iterations := e.iterations + 1, mostFreqPair := most, highestFreq := |occ|);
    if |occ| <= 1 {
      return Success(e1);
    }
    var g := e.grammar + [most];
    var rewritten := RewriteAll(e.freqs, e.tokens, g, most, occ);
    if forall q :: q in e.freqs && |e.freqs[q]| > 1 ==> LeastOutOfRange(e.tokens, e.freqs[q], |g|) {
      var some :| some in occ;
      LeastExists(occ, some);
      var m :| IsLeast(m, occ);
      assert LeastOutOfRange(e.tokens, occ, |g|);
    }
    if rewritten.Failure? {
      return Failure(rewritten.error);
    }
    var (f, a) := rewritten.value;
    return Success(e1.(freqs := f, tokens := a, grammar := g));
  }
}
