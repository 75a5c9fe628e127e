/** Grammar expansion and the vocabularies built from it (bytepair.py):
    `get_terminals`, `generate_vocab`, `generate_reverse_vocab`,
    `tokenize` and the flattening step of `reverse_bpe`.  Python lists and
    tuples of ints are sequences of naturals, dicts are maps. */
module Grammar {
  import opened Wrappers

  /** A grammar rule `(left, right)`.  The same shape serves the trainer as
      a pair of adjacent tokens. */
  datatype Rule = Rule(l: nat, r: nat)

  datatype VocabError = UnknownToken(token: nat) | EmptyInput

  /** `grammar[t][0] == t`: token `t` is a terminal and renders as itself. */
  predicate IsLeaf(g: seq<Rule>, t: nat)
    requires t < |g|
  {
    g[t].l == t
  }

  /** Every token of `s` is below `n`. */
  predicate Below(s: seq<nat>, n: nat) {
    forall i :: 0 <= i < |s| ==> s[i] < n
  }

  /** A rule that is not a leaf refers to earlier tokens only, so expansion
      terminates.  Training only ever appends a pair of existing tokens. */
  ghost predicate WellFormed(g: seq<Rule>) {
    forall t :: 0 <= t < |g| ==> IsLeaf(g, t) || (g[t].l < t && g[t].r < t)
  }

  /** The 256 terminal rules `(i, 0)` that training starts from. */
  function Leaves(): (g: seq<Rule>)
    ensures |g| == 256
  {
    seq(256, i requires 0 <= i => Rule(i, 0))
  }

  /** A grammar whose first 256 rules are the terminals. */
  ghost predicate StartsWithLeaves(g: seq<Rule>) {
    |g| >= 256 && g[..256] == Leaves()
  }

  // ---------------------------------------------------------------------
  // Expansion: get_terminals
  // ---------------------------------------------------------------------

  /** The terminals a token stands for: a leaf stands for itself, any other
      token for the terminals of its left child followed by those of its
      right child. */
  ghost function Expand(g: seq<Rule>, t: nat): (s: seq<nat>)
    requires WellFormed(g) && t < |g|
    ensures |s| > 0
    decreases t
  {
    if IsLeaf(g, t) then [t] else Expand(g, g[t].l) + Expand(g, g[t].r)
  }

  /** Expansion bottoms out in terminals of the grammar. */
  lemma {:induction false} ExpandLeaves(g: seq<Rule>, t: nat)
    requires WellFormed(g) && t < |g|
    ensures forall x | x in Expand(g, t) :: x < |g| && IsLeaf(g, x)
    decreases t
  {
    if !IsLeaf(g, t) {
      ExpandLeaves(g, g[t].l);
      ExpandLeaves(g, g[t].r);
    }
  }

  /** The terminals of a token sequence: the expansions of its tokens, in
      order. */
  ghost function ExpandAll(g: seq<Rule>, toks: seq<nat>): (s: seq<nat>)
    requires WellFormed(g) && Below(toks, |g|)
    ensures |s| >= |toks|
  {
    if toks == [] then [] else Expand(g, toks[0]) + ExpandAll(g, toks[1..])
  }

  lemma {:induction false} ExpandAllAppend(g: seq<Rule>, x: seq<nat>, y: seq<nat>)
    requires WellFormed(g) && Below(x, |g|) && Below(y, |g|)
    ensures Below(x + y, |g|)
    ensures ExpandAll(g, x + y) == ExpandAll(g, x) + ExpandAll(g, y)
    decreases |x|
  {
    if x == [] {
      assert x + y == y;
    } else {
      assert (x + y)[0] == x[0] && (x + y)[1..] == x[1..] + y;
      ExpandAllAppend(g, x[1..], y);
    }
  }

  /** The terminal rules expand to themselves. */
  lemma LeavesExpand(g: seq<Rule>, b: nat)
    requires WellFormed(g) && StartsWithLeaves(g) && b < 256
    ensures Expand(g, b) == [b]
  {
    assert g[b] == g[..256][b] == Rule(b, 0);
  }

  /** Over the terminal grammar, a byte string is its own expansion. */
  lemma {:induction false} BytesExpand(g: seq<Rule>, s: seq<nat>)
    requires WellFormed(g) && StartsWithLeaves(g) && Below(s, 256)
    ensures Below(s, |g|) && ExpandAll(g, s) == s
    decreases |s|
  {
    if s != [] {
      LeavesExpand(g, s[0]);
      BytesExpand(g, s[1..]);
      assert s == [s[0]] + s[1..];
    }
  }

  lemma LeavesWellFormed()
    ensures WellFormed(Leaves()) && StartsWithLeaves(Leaves())
  {
    var g := Leaves();
    forall t | 0 <= t < |g|
      ensures IsLeaf(g, t)
    {
      assert g[t] == Rule(t, 0);
    }
    assert g[..256] == g;
  }

  /** The expansion of a token list that starts with `t`. */
  lemma ExpandAllCons(g: seq<Rule>, t: nat, toks: seq<nat>)
    requires WellFormed(g) && t < |g| && Below(toks, |g|)
    ensures Below([t] + toks, |g|)
    ensures ExpandAll(g, [t] + toks) == Expand(g, t) + ExpandAll(g, toks)
  {
    assert ([t] + toks)[1..] == toks;
  }

  /** Appending a pair of existing tokens keeps the grammar well formed and
      leaves the expansion of every existing token alone. */
  lemma {:induction false} AppendKeepsExpand(g: seq<Rule>, p: Rule, t: nat)
    requires WellFormed(g) && p.l < |g| && p.r < |g| && t < |g|
    ensures WellFormed(g + [p]) && Expand(g + [p], t) == Expand(g, t)
    decreases t
  {
    var g' := g + [p];
    assert WellFormed(g') by {
      forall u | 0 <= u < |g'|
        ensures IsLeaf(g', u) || (g'[u].l < u && g'[u].r < u)
      {
        if u < |g| {
          assert g'[u] == g[u];
        }
      }
    }
    assert g'[t] == g[t];
    if !IsLeaf(g, t) {
      AppendKeepsExpand(g, p, g[t].l);
      AppendKeepsExpand(g, p, g[t].r);
    }
  }

  /** The expansion of a token list that starts with `a, b`. */
  lemma ExpandAllPair(g: seq<Rule>, a: nat, b: nat, toks: seq<nat>)
    requires WellFormed(g) && a < |g| && b < |g| && Below(toks, |g|)
    ensures Below([b] + toks, |g|) && Below([a] + ([b] + toks), |g|)
    ensures ExpandAll(g, [a] + ([b] + toks)) == Expand(g, a) + Expand(g, b) + ExpandAll(g, toks)
  {
    ExpandAllCons(g, b, toks);
    ExpandAllCons(g, a, [b] + toks);
  }

  /** The token a new rule introduces stands for the terminals of its
      left half followed by those of its right half. */
  lemma ExpandNew(g: seq<Rule>, p: Rule)
    requires WellFormed(g) && p.l < |g| && p.r < |g|
    ensures WellFormed(g + [p]) && !IsLeaf(g + [p], |g|)
    ensures Expand(g + [p], |g|) == Expand(g, p.l) + Expand(g, p.r)
  {
    AppendKeepsExpand(g, p, p.l);
    AppendKeepsExpand(g, p, p.r);
  }

  /** Replacing the leading pair `a, b` by the token of the new rule
      `Rule(a, b)` keeps the expansion, given that the rest keeps it. */
  lemma ExpandNewCons(g: seq<Rule>, a: nat, b: nat, rest: seq<nat>, rest': seq<nat>)
    requires WellFormed(g) && a < |g| && b < |g| && Below(rest, |g|)
    requires WellFormed(g + [Rule(a, b)]) && Below(rest', |g| + 1)
    requires ExpandAll(g + [Rule(a, b)], rest') == ExpandAll(g, rest)
    ensures Below([|g|] + rest', |g| + 1) && Below([a] + ([b] + rest), |g|)
    ensures ExpandAll(g + [Rule(a, b)], [|g|] + rest') == ExpandAll(g, [a] + ([b] + rest))
  {
    ExpandNew(g, Rule(a, b));
    ExpandAllCons(g + [Rule(a, b)], |g|, rest');
    ExpandAllPair(g, a, b, rest);
  }

  /** Keeping a leading old token keeps the expansion after a rule is
      appended, given that the rest keeps it. */
  lemma ExpandOldCons(g: seq<Rule>, p: Rule, t: nat, rest: seq<nat>, rest': seq<nat>)
    requires WellFormed(g) && p.l < |g| && p.r < |g| && t < |g| && Below(rest, |g|)
    requires WellFormed(g + [p]) && Below(rest', |g| + 1)
    requires ExpandAll(g + [p], rest') == ExpandAll(g, rest)
    ensures Below([t] + rest', |g| + 1) && Below([t] + rest, |g|)
    ensures ExpandAll(g + [p], [t] + rest') == ExpandAll(g, [t] + rest)
  {
    AppendKeepsExpand(g, p, t);
    ExpandAllCons(g + [p], t, rest');
    ExpandAllCons(g, t, rest);
  }

  lemma {:induction false} AppendKeepsExpandAll(g: seq<Rule>, p: Rule, toks: seq<nat>)
    requires WellFormed(g) && p.l < |g| && p.r < |g| && Below(toks, |g|)
    ensures WellFormed(g + [p]) && Below(toks, |g + [p]|)
    ensures ExpandAll(g + [p], toks) == ExpandAll(g, toks)
    decreases |toks|
  {
    if toks == [] {
      AppendKeepsExpand(g, p, 0);
    } else {
      AppendKeepsExpand(g, p, toks[0]);
      AppendKeepsExpandAll(g, p, toks[1..]);
    }
  }

  /** Every memoised entry is the expansion of its token. */
  ghost predicate MemoOk(g: seq<Rule>, mem: map<nat, seq<nat>>)
    requires WellFormed(g)
  {
    forall t :: t in mem ==> t < |g| && mem[t] == Expand(g, t)
  }

  /** `mem'` is a correct memo that keeps every key of `mem` and gains `t`. */
  ghost predicate MemoGrows(g: seq<Rule>, mem: map<nat, seq<nat>>, mem': map<nat, seq<nat>>, t: nat)
    requires WellFormed(g)
  {
    MemoOk(g, mem') && t in mem' && mem.Keys <= mem'.Keys
  }

  /** `get_terminals(grammar, token, mem)`: a leaf is recorded as itself;
      any other token is looked up in `mem`, or else expanded through its
      two children and recorded. */
  method GetTerminals(g: seq<Rule>, t: nat, mem: map<nat, seq<nat>>) returns (s: seq<nat>, mem': map<nat, seq<nat>>)
    requires WellFormed(g) && t < |g| && MemoOk(g, mem)
    ensures s == Expand(g, t)
    ensures MemoGrows(g, mem, mem', t)
    decreases t
  {
    if g[t].l == t {
      return [t], mem[t := [t]];
    }
    if t in mem {
      return mem[t], mem;
    }
    var left, m1 := GetTerminals(g, g[t].l, mem);
    var right, m2 := GetTerminals(g, g[t].r, m1);
    s := left + right;
    mem' := m2[t := s];
  }

  /** `vocab` holds exactly the tokens `0..|g|-1`, each with its expansion. */
  ghost predicate VocabOf(g: seq<Rule>, v: map<nat, seq<nat>>)
    requires WellFormed(g)
  {
    && (forall t: nat :: t in v <==> t < |g|)
    && (forall t :: t in v ==> t < |g| && v[t] == Expand(g, t))
  }

  /** `generate_vocab(grammar)`: `get_terminals` for every token in turn,
      all sharing one memo, which is the vocabulary. */
  method GenerateVocab(g: seq<Rule>) returns (v: map<nat, seq<nat>>)
    requires WellFormed(g)
    ensures VocabOf(g, v) && |v| == |g|
  {
    v := map[];
    var i := 0;
    while i < |g|
      invariant i <= |g| && MemoOk(g, v)
      invariant forall t: nat :: t < i ==> t in v
    {
      var s, v' := GetTerminals(g, i, v);
      v := v';
      i := i + 1;
    }
    KeysCount(v, |g|);
  }

  /** A map whose keys are exactly `0..n-1` has `n` entries. */
  lemma {:induction false} KeysCount<T>(v: map<nat, T>, n: nat)
    requires forall t: nat :: t in v <==> t < n
    ensures |v| == n
    decreases n
  {
    if n == 0 {
      assert v == map[];
    } else {
      var v' := v - {n - 1};
      KeysCount(v', n - 1);
      assert v.Keys == v'.Keys + {n - 1};
    }
  }

  // ---------------------------------------------------------------------
  // The reverse vocabulary
  // ---------------------------------------------------------------------

  /** `rv` sends every vocab entry back to a token that has it, and of the
      tokens sharing an entry it keeps the largest. */
  ghost predicate ReverseOf(v: map<nat, seq<nat>>, rv: map<seq<nat>, nat>) {
    && (forall t :: t in v ==> v[t] in rv && t <= rv[v[t]])
    && (forall e :: e in rv ==> rv[e] in v && v[rv[e]] == e)
  }

  /** `generate_reverse_vocab(vocab)`: a dict comprehension over the vocab
      in insertion order, where a later token overwrites an earlier one with
      the same expansion.  `generate_vocab` inserts the tokens `0, 1, ...` in
      increasing order, which is the order modelled here. */
  method GenerateReverseVocab(v: map<nat, seq<nat>>) returns (rv: map<seq<nat>, nat>)
    requires forall t: nat :: t in v <==> t < |v|
    ensures ReverseOf(v, rv)
  {
    rv := map[];
    var k := 0;
    while k < |v|
      invariant k <= |v|
      invariant forall t :: t in v && t < k ==> v[t] in rv && t <= rv[v[t]]
      invariant forall e :: e in rv ==> rv[e] < k && rv[e] in v && v[rv[e]] == e
    {
      assert k in v;
      rv := rv[v[k] := k];
      k := k + 1;
    }
  }

  /** The vocabulary step of the script: the vocab of a grammar and its
      reverse, which meets the reverse's precondition. */
  method VocabPair(g: seq<Rule>) returns (v: map<nat, seq<nat>>, rv: map<seq<nat>, nat>)
    requires WellFormed(g)
    ensures VocabOf(g, v) && ReverseOf(v, rv)
  {
    v := GenerateVocab(g);
    rv := GenerateReverseVocab(v);
  }

  // ---------------------------------------------------------------------
  // reverse_bpe and tokenize
  // ---------------------------------------------------------------------

  /** The flattening step of `reverse_bpe`: the vocab entries of the tokens
      concatenated in order; a token the vocab lacks raises `KeyError`,
      reported for the first such token. */
  function ReverseBpe(toks: seq<nat>, v: map<nat, seq<nat>>): (r: Result<seq<nat>, VocabError>)
    ensures r.Success? <==> forall i :: 0 <= i < |toks| ==> toks[i] in v
    ensures r.Failure? ==> r.error.UnknownToken? && r.error.token !in v
  {
    if toks == [] then Success([])
    else if toks[0] !in v then Failure(UnknownToken(toks[0]))
    else
      match ReverseBpe(toks[1..], v)
      case Success(rest) => Success(v[toks[0]] + rest)
      case Failure(e) => Failure(e)
  }

  /** With a vocabulary built from `g`, flattening is the grammar's
      expansion. */
  lemma {:induction false} ReverseBpeExpands(g: seq<Rule>, v: map<nat, seq<nat>>, toks: seq<nat>)
    requires WellFormed(g) && VocabOf(g, v) && Below(toks, |g|)
    ensures ReverseBpe(toks, v) == Success(ExpandAll(g, toks))
    decreases |toks|
  {
    if toks != [] {
      assert toks[0] in v;
      ReverseBpeExpands(g, v, toks[1..]);
    }
  }

  /** The length of the longest prefix of `s`, at most `end` long, that
      `rv` holds; -1 when there is none. */
  ghost function Longest(rv: map<seq<nat>, nat>, s: seq<nat>, end: nat): (e: int)
    requires end <= |s|
    ensures -1 <= e <= end
    ensures e >= 0 ==> s[..e] in rv
    ensures forall k :: e < k <= end ==> s[..k] !in rv
    decreases end
  {
    if s[..end] in rv then end else if end == 0 then -1 else Longest(rv, s, end - 1)
  }

  /** Greedy longest-match tokenization: take the token of the longest
      known prefix and continue after it; stop when no prefix is known. */
  ghost function Greedy(rv: map<seq<nat>, nat>, s: seq<nat>): seq<nat>
    requires [] !in rv
    decreases |s|
  {
    var e := Longest(rv, s, |s|);
    if e <= 0 then [] else [rv[s[..e]]] + Greedy(rv, s[e..])
  }

  lemma {:induction false} LongestFrom(rv: map<seq<nat>, nat>, s: seq<nat>, end: nat)
    requires end <= |s|
    requires forall k :: end < k <= |s| ==> s[..k] !in rv
    ensures Longest(rv, s, |s|) == Longest(rv, s, end)
    decreases |s| - end
  {
    if end < |s| {
      assert s[..|s|] !in rv;
      LongestFrom(rv, s, end + 1);
    }
  }

  /** `tokenize(input, reverse_vocab)`: `input[0]` raises `IndexError` on
      empty input; otherwise `end` counts down from the input length, and
      whenever `input[0:end]` is known its token is emitted, that prefix is
      dropped and `end` restarts at the new length.  The loop ends once
      `end` passes zero, dropping whatever input is left.  The empty
      sequence must not be a key, or the loop never ends. */
  method Tokenize(input: seq<nat>, rv: map<seq<nat>, nat>) returns (r: Result<seq<nat>, VocabError>)
    requires [] !in rv
    ensures r.Failure? <==> input == []
    ensures r.Success? ==> r.value == Greedy(rv, input)
  {
    if input == [] {
      return Failure(EmptyInput);
    }
    var tokens := [];
    var rest := input;
    var end: int := |rest|;
    while end >= 0
      invariant -1 <= end <= |rest|
      invariant forall k :: end < k <= |rest| ==> rest[..k] !in rv
      invariant tokens + Greedy(rv, rest) == Greedy(rv, input)
      decreases |rest|, end + 1
    {
      if rest[..end] in rv {
        LongestFrom(rv, rest, end);
        assert end > 0 by {
          assert rest[..0] == [];
        }
        tokens := tokens + [rv[rest[..end]]];
        rest := rest[end..];
        end := |rest|;
      } else {
        end := end - 1;
      }
    }
    LongestFrom(rv, rest, 0);
    assert rest[..0] == [];
    return Success(tokens);
  }

  /** When every single element is a known entry, greedy tokenization
      consumes the whole input, and flattening through a vocabulary the
      reverse vocabulary inverts gives the input back. */
  lemma {:induction false} GreedyRoundTrip(v: map<nat, seq<nat>>, rv: map<seq<nat>, nat>, s: seq<nat>)
    requires [] !in rv && ReverseOf(v, rv)
    requires forall i :: 0 <= i < |s| ==> [s[i]] in rv
    ensures ReverseBpe(Greedy(rv, s), v) == Success(s)
    decreases |s|
  {
    if s != [] {
      assert s[..1] == [s[0]];
      var e := Longest(rv, s, |s|);
      var t := rv[s[..e]];
      var rest := s[e..];
      forall i | 0 <= i < |rest|
        ensures [rest[i]] in rv
      {
        assert rest[i] == s[e + i];
      }
      GreedyRoundTrip(v, rv, rest);
      var toks := Greedy(rv, s);
      assert toks == [t] + Greedy(rv, rest);
      assert toks[0] == t && toks[1..] == Greedy(rv, rest);
      assert v[t] == s[..e];
      assert s == s[..e] + rest;
    }
  }

  /** For a grammar that starts with the 256 terminals, every byte string
      tokenizes completely against the reverse of the grammar's vocabulary
      and flattens back to itself. */
  lemma BytesRoundTrip(g: seq<Rule>, v: map<nat, seq<nat>>, rv: map<seq<nat>, nat>, s: seq<nat>)
    requires WellFormed(g) && StartsWithLeaves(g) && VocabOf(g, v) && ReverseOf(v, rv)
    requires Below(s, 256)
    ensures [] !in rv
    ensures ReverseBpe(Greedy(rv, s), v) == Success(s)
  {
    forall e | e in rv
      ensures e != []
    {
      assert v[rv[e]] == Expand(g, rv[e]);
    }
    forall i | 0 <= i < |s|
      ensures [s[i]] in rv
    {
      LeavesExpand(g, s[i]);
      assert s[i] in v;
    }
    GreedyRoundTrip(v, rv, s);
  }
}
