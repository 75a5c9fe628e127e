/** The Python trainer `make_bpe_encoding` (bytepair.py): a double-buffered
    rewrite of the token list with a dict of pair counts that is updated in
    place.  The counts are modelled as a map from pairs to ints, and their
    meaning as the multiset of adjacent pairs of the token list. */
module PyTrainer {
  import opened Wrappers
  import opened Grammar

  datatype TrainError = TokenImpossible | MissingPair(pair: Rule)

  /** `pair_freqs`. */
  type Counts = map<Rule, int>

  // ---------------------------------------------------------------------
  // Adjacent pairs
  // ---------------------------------------------------------------------

  /** The adjacent pairs of `s`, with multiplicity. */
  ghost function Pairs(s: seq<nat>): multiset<Rule>
    decreases |s|
  {
    if |s| < 2 then multiset{} else multiset{Rule(s[0], s[1])} + Pairs(s[1..])
  }

  /** The pair across the seam of `x + y`, when both sides are non-empty. */
  ghost function Seam(x: seq<nat>, y: seq<nat>): multiset<Rule> {
    if |x| > 0 && |y| > 0 then multiset{Rule(x[|x| - 1], y[0])} else multiset{}
  }

  lemma DropFirst(x: seq<nat>, y: seq<nat>)
    requires |x| >= 2
    ensures (x + y)[0] == x[0] && (x + y)[1] == x[1] && (x + y)[1..] == x[1..] + y
    ensures x[1..][|x[1..]| - 1] == x[|x| - 1]
  {
  }

  lemma {:induction false} PairsAppend(x: seq<nat>, y: seq<nat>)
    ensures Pairs(x + y) == Pairs(x) + Seam(x, y) + Pairs(y)
    decreases |x|
  {
    var xy := x + y;
    if |x| == 0 {
      assert xy == y;
    } else if |y| == 0 {
      assert xy == x;
    } else if |x| == 1 {
      assert xy[0] == x[0] && xy[1] == y[0] && xy[1..] == y;
      assert Pairs(xy) == multiset{Rule(x[0], y[0])} + Pairs(y);
      assert Seam(x, y) == multiset{Rule(x[0], y[0])};
      assert Pairs(x) == multiset{};
    } else {
      var head := multiset{Rule(x[0], x[1])};
      var a, sm, b := Pairs(x[1..]), Seam(x, y), Pairs(y);
      PairsAppend(x[1..], y);
      DropFirst(x, y);
      assert Seam(x[1..], y) == sm;
      assert Pairs(xy) == head + (a + sm + b);
      assert Pairs(x) == head + a;
      assert head + (a + sm + b) == (head + a) + sm + b;
    }
  }

  /** Every adjacent pair of a token list below `n` has both halves below
      `n`. */
  lemma {:induction false} PairsBelow(s: seq<nat>, n: nat, p: Rule)
    requires Below(s, n) && Pairs(s)[p] > 0
    ensures p.l < n && p.r < n
    decreases |s|
  {
    if Rule(s[0], s[1]) != p {
      PairsBelow(s[1..], n, p);
    }
  }

  /** `d` holds exactly the positive counts of `m`: a pair is stored iff it
      occurs, with its multiplicity. */
  ghost predicate Represents(d: Counts, m: multiset<Rule>) {
    && (forall p :: p in d ==> d[p] > 0 && d[p] == m[p])
    && (forall p :: p !in d ==> m[p] == 0)
  }

  /** `pair_freqs` is a recount of the adjacent pairs of `s`. */
  ghost predicate Exact(d: Counts, s: seq<nat>) {
    Represents(d, Pairs(s))
  }

  /** No adjacent pair occurs twice: nothing is left to compress. */
  ghost predicate Converged(s: seq<nat>) {
    forall p :: Pairs(s)[p] <= 1
  }

  // ---------------------------------------------------------------------
  // The dict updates
  // ---------------------------------------------------------------------

  /** Counting one more occurrence of `p`: a pair seen for the first time
      enters the dict with count 1, and no other count moves. */
  function Bump(d: Counts, p: Rule): (r: Counts)
    ensures r.Keys == d.Keys + {p}
    ensures r[p] == 1 + (if p in d then d[p] else 0)
    ensures forall q :: q in d && q != p ==> r[q] == d[q]
  {
    if p in d then d[p := d[p] + 1] else d[p := 1]
  }

  /** Counting one occurrence fewer of `p`, deleting the entry at zero;
      an absent pair raises (an `AssertionError` or a `KeyError`). */
  function Drop(d: Counts, p: Rule): (r: Result<Counts, TrainError>)
    ensures r.Failure? <==> p !in d
  {
    if p !in d then Failure(MissingPair(p))
    else if d[p] - 1 == 0 then Success(d - {p})
    else Success(d[p := d[p] - 1])
  }

  /** Incrementing adds one occurrence to the represented multiset. */
  lemma BumpAdds(d: Counts, m: multiset<Rule>, p: Rule)
    requires Represents(d, m)
    ensures Represents(Bump(d, p), m + multiset{p})
  {
  }

  /** Decrementing a pair that occurs removes one occurrence and never
      raises; decrementing one that does not occur always raises. */
  lemma DropRemoves(d: Counts, m: multiset<Rule>, p: Rule)
    requires Represents(d, m)
    ensures Drop(d, p).Success? <==> p in m
    ensures p in m ==> Represents(Drop(d, p).value, m - multiset{p})
  {
    if p in m {
      var d' := Drop(d, p).value;
      forall q | q in d'
        ensures d'[q] > 0 && d'[q] == (m - multiset{p})[q]
      {
      }
    }
  }

  /** Incrementing then decrementing a pair restores the counts. */
  lemma BumpThenDrop(d: Counts, m: multiset<Rule>, p: Rule)
    requires Represents(d, m)
    ensures Drop(Bump(d, p), p) == Success(d)
  {
    if p in d {
      assert Bump(d, p)[p := d[p]] == d;
    } else {
      assert Bump(d, p) - {p} == d;
    }
  }

  // ---------------------------------------------------------------------
  // Seeding (lines 21-46)
  // ---------------------------------------------------------------------

  /** `s` is `input` with its last element removed (and empty when
      `input` is). */
  ghost predicate AllButLast(s: seq<nat>, input: seq<nat>) {
    if |input| == 0 then s == [] else s + [input[|input| - 1]] == input
  }

  /** Lines 27-31: the seeding loop stops one index short of the end of
      the input, so the last element never becomes a token. */
  method InitialTokens(input: seq<nat>) returns (s: seq<nat>)
    ensures AllButLast(s, input)
  {
    s := [];
    if |input| == 0 {
      return;
    }
    for i := 0 to |input| - 1
      invariant s == input[..i]
    {
      s := s + [input[i]];
    }
    assert input == input[..|input| - 1] + [input[|input| - 1]];
  }

  /** Lines 41-46: one count per adjacent pair of the tokens. */
  method CountPairs(s: seq<nat>) returns (d: Counts)
    ensures Exact(d, s)
  {
    d := map[];
    if |s| == 0 {
      return;
    }
    var i := 0;
    assert s[..1] == [s[0]];
    while i + 1 < |s|
      invariant i < |s| && Exact(d, s[..i + 1])
    {
      CountStep(d, s, i);
      d := Bump(d, Rule(s[i], s[i + 1]));
      i := i + 1;
    }
    assert s[..i + 1] == s;
  }

  /** Counting the pair that ends at `i + 1` extends the count of the
      prefix by one token. */
  lemma CountStep(d: Counts, s: seq<nat>, i: nat)
    requires i + 1 < |s| && Exact(d, s[..i + 1])
    ensures Exact(Bump(d, Rule(s[i], s[i + 1])), s[..i + 2])
  {
    var p := Rule(s[i], s[i + 1]);
    PairsAppend(s[..i + 1], [s[i + 1]]);
    assert s[..i + 2] == s[..i + 1] + [s[i + 1]];
    assert Seam(s[..i + 1], [s[i + 1]]) == multiset{p};
    BumpAdds(d, Pairs(s[..i + 1]), p);
  }

  // ---------------------------------------------------------------------
  // The most frequent pair (lines 62-67)
  // ---------------------------------------------------------------------

  /** The scan over `pair_freqs.items()` that keeps a pair whose count is
      strictly larger than the best so far, starting from 0 and `None`.
      Python visits the pairs in insertion order; the model visits them in
      an unspecified order. */
  method MostFrequent(d: Counts) returns (most: Option<Rule>, maxFreq: int)
    ensures maxFreq >= 0
    ensures forall p :: p in d ==> d[p] <= maxFreq
    ensures most.None? ==> maxFreq == 0
    ensures most.Some? ==> most.value in d && d[most.value] == maxFreq && maxFreq > 0
  {
    most, maxFreq := None, 0;
    var left := d.Keys;
    while left != {}
      invariant left <= d.Keys && maxFreq >= 0
      invariant forall p :: p in d && p !in left ==> d[p] <= maxFreq
      invariant most.None? ==> maxFreq == 0
      invariant most.Some? ==> most.value in d && d[most.value] == maxFreq && maxFreq > 0
      decreases |left|
    {
      var p :| p in left;
      if d[p] > maxFreq {
        most, maxFreq := Some(p), d[p];
      }
      left := left - {p};
    }
  }

  // ---------------------------------------------------------------------
  // The merge pass (lines 80-138)
  // ---------------------------------------------------------------------

  /** The pass as a function: scanning left to right, every occurrence of
      `p` that does not overlap an earlier replacement becomes `z`. */
  ghost function Merge(s: seq<nat>, p: Rule, z: nat): seq<nat>
    decreases |s|
  {
    if |s| < 2 then s
    else if Rule(s[0], s[1]) == p then [z] + Merge(s[2..], p, z)
    else [s[0]] + Merge(s[1..], p, z)
  }

  lemma Decompose(out: seq<nat>, b: nat, c: nat, tail: seq<nat>)
    ensures Pairs(out + ([b] + ([c] + tail)))
         == Pairs(out) + Seam(out, [b]) + multiset{Rule(b, c)} + Seam([c], tail) + Pairs(tail)
  {
    PairsAppend(out, [b] + ([c] + tail));
    assert Seam(out, [b] + ([c] + tail)) == Seam(out, [b]);
    assert ([b] + ([c] + tail))[1..] == [c] + tail;
    PairsAppend([c], tail);
  }

  lemma Recompose(out: seq<nat>, z: nat, tail: seq<nat>)
    ensures Pairs(out + [z] + tail) == Pairs(out) + Seam(out, [z]) + Seam([z], tail) + Pairs(tail)
  {
    PairsAppend(out + [z], tail);
    PairsAppend(out, [z]);
    assert Seam(out + [z], tail) == Seam([z], tail);
  }

  /** The bag `{x}` when `present`, else the empty bag. */
  function Opt(present: bool, x: Rule): (m: multiset<Rule>)
    ensures present ==> m[x] == 1 && |m| == 1
    ensures !present ==> m == multiset{}
  {
    if present then multiset{x} else multiset{}
  }

  /** Adding an element and taking it out again. */
  lemma Peel(a: multiset<Rule>, x: Rule)
    ensures x in a + multiset{x} && (a + multiset{x}) - multiset{x} == a
  {
  }

  /** An absent optional element adds nothing. */
  lemma NoneAdded(a: multiset<Rule>, x: Rule)
    ensures a + Opt(false, x) == a
  {
  }

  /** An element added before `n` may as well be added after it. */
  lemma Rotate(a: multiset<Rule>, p: Rule, n: multiset<Rule>)
    ensures a + multiset{p} + n == a + n + multiset{p}
  {
  }

  /** The adjacent pairs of `out + rest` and of `out + [z] + rest[2..]` in
      the terms of `BagSteps`. */
  lemma ReplaceBefore(out: seq<nat>, rest: seq<nat>)
    requires |rest| >= 2
    ensures Pairs(out + rest)
         == (Pairs(out) + Pairs(rest[2..]))
          + multiset{Rule(rest[0], rest[1])}
          + Opt(|rest| > 2, Rule(rest[1], if |rest| > 2 then rest[2] else 0))
          + Opt(|out| > 0, Rule(if |out| > 0 then out[|out| - 1] else 0, rest[0]))
  {
    var b, c, tail := rest[0], rest[1], rest[2..];
    assert rest == [b] + ([c] + tail);
    Decompose(out, b, c, tail);
    Reorder(Pairs(out), Seam(out, [b]), multiset{Rule(b, c)}, Seam([c], tail), Pairs(tail));
  }

  lemma ReplaceAfter(out: seq<nat>, z: nat, tail: seq<nat>)
    ensures Pairs(out + [z] + tail)
         == (Pairs(out) + Pairs(tail))
          + Opt(|out| > 0, Rule(if |out| > 0 then out[|out| - 1] else 0, z))
          + Opt(|tail| > 0, Rule(z, if |tail| > 0 then tail[0] else 0))
  {
    Recompose(out, z, tail);
    Reorder(Pairs(out), Seam(out, [z]), multiset{}, Seam([z], tail), Pairs(tail));
  }

  /** Rearranging the five parts of a split token list. */
  lemma Reorder(a: multiset<Rule>, s1: multiset<Rule>, p: multiset<Rule>, s2: multiset<Rule>, t: multiset<Rule>)
    ensures a + s1 + p + s2 + t == (a + t) + p + s2 + s1
    ensures a + s1 + s2 + t == (a + t) + s1 + s2
  {
  }

  /** A decrement of `x` when `present` (the guarded `pair_freqs[...] -= 1`
      of lines 100-111), applied to counts that hold `x` when `present`. */
  method DropIf(d: Counts, ghost m: multiset<Rule>, present: bool, x: Rule) returns (f: Counts)
    requires Represents(d, m + Opt(present, x))
    ensures Represents(f, m)
    ensures present ==> Drop(d, x) == Success(f)
    ensures !present ==> f == d
  {
    if present {
      Peel(m, x);
      DropRemoves(d, m + multiset{x}, x);
      f := Drop(d, x).value;
    } else {
      NoneAdded(m, x);
      f := d;
    }
  }

  /** An increment of `x` when `present` (lines 112-123). */
  method BumpIf(d: Counts, ghost m: multiset<Rule>, present: bool, x: Rule) returns (f: Counts)
    requires Represents(d, m)
    ensures Represents(f, m + Opt(present, x))
    ensures present ==> f == Bump(d, x)
    ensures !present ==> f == d
  {
    if present {
      BumpAdds(d, m, x);
      f := Bump(d, x);
    } else {
      NoneAdded(m, x);
      f := d;
    }
  }

  /** Lines 93-130, a match of `p` at the front of `rest`: the counts of the
      pairs the replacement destroys on the left and right are decremented,
      those it creates are incremented, and the replaced pair itself is
      decremented.  Every decremented pair is present, so no assertion
      fails, and the counts remain a recount. */
  method Replace(d: Counts, out: seq<nat>, rest: seq<nat>, p: Rule, z: nat) returns (r: Result<Counts, TrainError>)
    requires |rest| >= 2 && Rule(rest[0], rest[1]) == p
    requires Exact(d, out + rest)
    ensures r.Success? && Exact(r.value, out + [z] + rest[2..])
  {
    var left := if |out| > 0 then out[|out| - 1] else 0;
    var right := if |rest| > 2 then rest[2] else 0;
    ghost var base := Pairs(out) + Pairs(rest[2..]);
    ghost var x2 := base + multiset{p};
    ghost var y1 := base + Opt(|out| > 0, Rule(left, z));
    ReplaceBefore(out, rest);
    ReplaceAfter(out, z, rest[2..]);
    var f := DropIf(d, x2 + Opt(|rest| > 2, Rule(rest[1], right)), |out| > 0, Rule(left, rest[0]));
    f := DropIf(f, x2, |rest| > 2, Rule(rest[1], right));
    f := BumpIf(f, x2, |out| > 0, Rule(left, z));
    Rotate(base, p, Opt(|out| > 0, Rule(left, z)));
    f := BumpIf(f, y1 + multiset{p}, |rest| > 2, Rule(z, right));
    Rotate(y1, p, Opt(|rest| > 2, Rule(z, right)));
    f := DropIf(f, y1 + Opt(|rest| > 2, Rule(z, right)), true, p);
    return Success(f);
  }

  /** A token at or above `n` puts the list outside `Below(_, n)`. */
  lemma OutsideAt(s: seq<nat>, i: nat, n: nat)
    requires i < |s| && s[i] >= n
    ensures !Below(s, n)
  {
  }

  /** One iteration of the scan at `idx` (lines 85-134): a match of `p`
      becomes `z` and both halves are consumed, anything else is copied. */
  method PassStep(out: seq<nat>, f: Counts, tin: seq<nat>, idx: nat, p: Rule, z: nat)
    returns (out': seq<nat>, f': Counts, idx': nat)
    requires idx < |tin| && Exact(f, out + tin[idx..])
    requires out + Merge(tin[idx..], p, z) == Merge(tin, p, z)
    ensures idx < idx' <= |tin| && Exact(f', out' + tin[idx'..])
    ensures out' + Merge(tin[idx'..], p, z) == Merge(tin, p, z)
  {
    if idx < |tin| - 1 && Rule(tin[idx], tin[idx + 1]) == p {
      StepMatch(out, tin, idx, p, z);
      var r := Replace(f, out, tin[idx..], p, z);
      out', f', idx' := out + [z], r.value, idx + 2;
    } else {
      StepSkip(out, tin, idx, p, z);
      out', f', idx' := out + [tin[idx]], f, idx + 1;
    }
  }

  /** Lines 80-134 with the grammar `g` that already ends in the new rule:
      every visited token is checked against `len(grammar)`, a match of
      `grammar[-1]` is replaced by the new token `len(grammar) - 1` and the
      scan skips both halves, anything else is copied.  The result is the
      merged list with its counts recounted; the check fails only for a
      token outside the grammar. */
  method MergePass(tin: seq<nat>, d: Counts, g: seq<Rule>) returns (r: Result<(seq<nat>, Counts), TrainError>)
    requires |g| > 0 && Exact(d, tin)
    ensures Below(tin, |g|) ==> r.Success?
    ensures r.Failure? ==> r.error == TokenImpossible && !Below(tin, |g|)
    ensures r.Success? ==> r.value.0 == Merge(tin, g[|g| - 1], |g| - 1) && Exact(r.value.1, r.value.0)
  {
    var most, z := g[|g| - 1], |g| - 1;
    assert [] + tin[0..] == tin && [] + Merge(tin[0..], most, z) == Merge(tin, most, z);
    r := Scan([], d, tin, 0, most, z, |g|);
  }

  /** The `while idx < len(tokens_in)` loop of lines 81-134 from position
      `idx`, with `out` produced so far and counts `f` for
      `out + tin[idx..]`: every visited token is checked against `n`. */
  method Scan(out: seq<nat>, f: Counts, tin: seq<nat>, idx: nat, p: Rule, z: nat, n: nat)
    returns (r: Result<(seq<nat>, Counts), TrainError>)
    requires idx <= |tin| && Exact(f, out + tin[idx..])
    requires out + Merge(tin[idx..], p, z) == Merge(tin, p, z)
    ensures Below(tin, n) ==> r.Success?
    ensures r.Failure? ==> r.error == TokenImpossible && !Below(tin, n)
    ensures r.Success? ==> r.value.0 == Merge(tin, p, z) && Exact(r.value.1, r.value.0)
    decreases |tin| - idx
  {
    if idx == |tin| {
      PassDone(out, f, tin, p, z);
      return Success((out, f));
    }
    if tin[idx] >= n {
      OutsideAt(tin, idx, n);
      return Failure(TokenImpossible);
    }
    var out', f', idx' := PassStep(out, f, tin, idx, p, z);
    r := Scan(out', f', tin, idx', p, z, n);
  }

  /** The scan at the end of the list. */
  lemma PassDone(out: seq<nat>, f: Counts, tin: seq<nat>, p: Rule, z: nat)
    requires Exact(f, out + tin[|tin|..])
    requires out + Merge(tin[|tin|..], p, z) == Merge(tin, p, z)
    ensures out == Merge(tin, p, z) && Exact(f, out)
  {
    assert tin[|tin|..] == [] && out + [] == out;
  }

  /** One step of the pass over a match at `idx`. */
  lemma StepMatch(out: seq<nat>, tin: seq<nat>, idx: nat, p: Rule, z: nat)
    requires idx + 1 < |tin| && Rule(tin[idx], tin[idx + 1]) == p
    requires out + Merge(tin[idx..], p, z) == Merge(tin, p, z)
    ensures (out + [z]) + Merge(tin[idx + 2..], p, z) == Merge(tin, p, z)
    ensures |tin[idx..]| >= 2 && Rule(tin[idx..][0], tin[idx..][1]) == p
    ensures tin[idx..][2..] == tin[idx + 2..]
  {
    var rest := tin[idx..];
    assert rest[2..] == tin[idx + 2..];
    assert Merge(rest, p, z) == [z] + Merge(tin[idx + 2..], p, z);
  }

  /** One step of the pass over a token that does not start a match. */
  lemma StepSkip(out: seq<nat>, tin: seq<nat>, idx: nat, p: Rule, z: nat)
    requires idx < |tin| && (idx == |tin| - 1 || Rule(tin[idx], tin[idx + 1]) != p)
    requires out + Merge(tin[idx..], p, z) == Merge(tin, p, z)
    ensures (out + [tin[idx]]) + Merge(tin[idx + 1..], p, z) == Merge(tin, p, z)
    ensures out + tin[idx..] == (out + [tin[idx]]) + tin[idx + 1..]
  {
    var rest := tin[idx..];
    assert rest == [tin[idx]] + tin[idx + 1..];
    if idx == |tin| - 1 {
      assert tin[idx + 1..] == [];
    } else {
      assert rest[1..] == tin[idx + 1..];
    }
    assert Merge(rest, p, z) == [tin[idx]] + Merge(tin[idx + 1..], p, z);
  }

  // ---------------------------------------------------------------------
  // What a pass does to the tokens
  // ---------------------------------------------------------------------

  /** A pass never lengthens the list, and shortens it when the pair
      occurs. */
  lemma {:induction false} MergeShrinks(s: seq<nat>, p: Rule, z: nat)
    ensures |Merge(s, p, z)| <= |s|
    ensures Pairs(s)[p] > 0 ==> |Merge(s, p, z)| < |s|
    decreases |s|
  {
    if |s| >= 2 {
      if Rule(s[0], s[1]) == p {
        MergeShrinks(s[2..], p, z);
      } else {
        MergeShrinks(s[1..], p, z);
      }
    }
  }

  /** The output holds input tokens and the new token only. */
  lemma {:induction false} MergeElements(s: seq<nat>, p: Rule, z: nat)
    ensures forall i :: 0 <= i < |Merge(s, p, z)| ==> Merge(s, p, z)[i] == z || Merge(s, p, z)[i] in s
    decreases |s|
  {
    if |s| >= 2 {
      var m := Merge(s, p, z);
      if Rule(s[0], s[1]) == p {
        MergeElements(s[2..], p, z);
        forall i | 0 <= i < |m|
          ensures m[i] == z || m[i] in s
        {
          if i > 0 {
            assert m[i] == Merge(s[2..], p, z)[i - 1];
          }
        }
      } else {
        MergeElements(s[1..], p, z);
        forall i | 0 <= i < |m|
          ensures m[i] == z || m[i] in s
        {
          if i > 0 {
            assert m[i] == Merge(s[1..], p, z)[i - 1];
          }
        }
      }
    }
  }

  /** With a fresh new token, the output is the input shortened by one for
      every replacement, and the replacements are the new tokens. */
  lemma {:induction false} MergeLength(s: seq<nat>, p: Rule, z: nat)
    requires z !in s
    ensures |Merge(s, p, z)| + multiset(Merge(s, p, z))[z] == |s|
    decreases |s|
  {
    if |s| >= 2 {
      if Rule(s[0], s[1]) == p {
        MergeLength(s[2..], p, z);
        assert multiset([z] + Merge(s[2..], p, z)) == multiset{z} + multiset(Merge(s[2..], p, z));
      } else {
        assert s[0] != z;
        MergeLength(s[1..], p, z);
        assert multiset([s[0]] + Merge(s[1..], p, z)) == multiset{s[0]} + multiset(Merge(s[1..], p, z));
      }
    } else {
      assert multiset(s)[z] == 0;
    }
  }

  /** Tokens below `n` stay below `n + 1` when the new token is `n`. */
  lemma {:induction false} MergeBelow(s: seq<nat>, p: Rule, n: nat)
    requires Below(s, n)
    ensures Below(Merge(s, p, n), n + 1)
    decreases |s|
  {
    if |s| >= 2 {
      if Rule(s[0], s[1]) == p {
        MergeMatch(s, p, n);
        MergeBelow(s[2..], p, n);
      } else {
        MergeSkip(s, p, n);
        MergeBelow(s[1..], p, n);
      }
    }
  }

  /** The first token of a non-empty output is the new token or the
      first input token. */
  lemma MergeHead(s: seq<nat>, p: Rule, z: nat)
    requires |s| > 0
    ensures |Merge(s, p, z)| > 0
    ensures Merge(s, p, z)[0] == z || Merge(s, p, z)[0] == s[0]
  {
  }

  /** Line 128's comment: the merged pair no longer occurs once the pass is
      over, provided neither half is the new token. */
  lemma {:induction false} MergeClears(s: seq<nat>, p: Rule, z: nat)
    requires p.l != z && p.r != z
    ensures Pairs(Merge(s, p, z))[p] == 0
    decreases |s|
  {
    if |s| >= 2 {
      if Rule(s[0], s[1]) == p {
        var tail := Merge(s[2..], p, z);
        MergeClears(s[2..], p, z);
        PairsAppend([z], tail);
      } else {
        var tail := Merge(s[1..], p, z);
        MergeClears(s[1..], p, z);
        PairsAppend([s[0]], tail);
        if |tail| > 0 {
          MergeHead(s[1..], p, z);
        }
      }
    }
  }

  /** A pass with the rule just appended to the grammar keeps the terminals
      the tokens stand for. */
  lemma {:induction false} MergeExpands(g: seq<Rule>, s: seq<nat>, p: Rule)
    requires WellFormed(g) && Below(s, |g|) && p.l < |g| && p.r < |g|
    ensures WellFormed(g + [p]) && Below(Merge(s, p, |g|), |g| + 1)
    ensures ExpandAll(g + [p], Merge(s, p, |g|)) == ExpandAll(g, s)
    decreases |s|
  {
    ExpandNew(g, p);
    if |s| < 2 {
      AppendKeepsExpandAll(g, p, s);
    } else if Rule(s[0], s[1]) == p {
      MergeExpands(g, s[2..], p);
      ExpandsMatch(g, s, p);
    } else {
      MergeExpands(g, s[1..], p);
      ExpandsSkip(g, s, p);
    }
  }

  /** The pass over a list that starts with a match. */
  lemma MergeMatch(s: seq<nat>, p: Rule, z: nat)
    requires |s| >= 2 && Rule(s[0], s[1]) == p
    ensures s == [s[0]] + ([s[1]] + s[2..])
    ensures Merge(s, p, z) == [z] + Merge(s[2..], p, z)
  {
  }

  /** The pass over a list of two or more that does not start with a
      match. */
  lemma MergeSkip(s: seq<nat>, p: Rule, z: nat)
    requires |s| >= 2 && Rule(s[0], s[1]) != p
    ensures s == [s[0]] + s[1..]
    ensures Merge(s, p, z) == [s[0]] + Merge(s[1..], p, z)
  {
  }

  /** The step of `MergeExpands` for a match at the front. */
  lemma ExpandsMatch(g: seq<Rule>, s: seq<nat>, p: Rule)
    requires WellFormed(g) && Below(s, |g|) && |s| >= 2 && Rule(s[0], s[1]) == p
    requires WellFormed(g + [p]) && Below(Merge(s[2..], p, |g|), |g| + 1)
    requires ExpandAll(g + [p], Merge(s[2..], p, |g|)) == ExpandAll(g, s[2..])
    ensures Below(Merge(s, p, |g|), |g| + 1)
    ensures ExpandAll(g + [p], Merge(s, p, |g|)) == ExpandAll(g, s)
  {
    MergeMatch(s, p, |g|);
    ExpandNewCons(g, s[0], s[1], s[2..], Merge(s[2..], p, |g|));
  }

  /** The step of `MergeExpands` for a copied front token. */
  lemma ExpandsSkip(g: seq<Rule>, s: seq<nat>, p: Rule)
    requires WellFormed(g) && Below(s, |g|) && |s| >= 2 && Rule(s[0], s[1]) != p
    requires p.l < |g| && p.r < |g|
    requires WellFormed(g + [p]) && Below(Merge(s[1..], p, |g|), |g| + 1)
    requires ExpandAll(g + [p], Merge(s[1..], p, |g|)) == ExpandAll(g, s[1..])
    ensures Below(Merge(s, p, |g|), |g| + 1)
    ensures ExpandAll(g + [p], Merge(s, p, |g|)) == ExpandAll(g, s)
  {
    MergeSkip(s, p, |g|);
    ExpandOldCons(g, p, s[0], s[1..], Merge(s[1..], p, |g|));
  }

  // ---------------------------------------------------------------------
  // The training loop (lines 48-140)
  // ---------------------------------------------------------------------

  /** The `while True` loop from a state with tokens `tokens`, grammar `g`
      and counts `d`: stop when no pair occurs twice, otherwise append the
      most frequent pair as a rule and run a pass.  A pass always replaces
      at least one occurrence, so the loop ends. */
  method Train(tokens: seq<nat>, g: seq<Rule>, d: Counts) returns (r: Result<(seq<nat>, seq<Rule>), TrainError>)
    requires Exact(d, tokens)
    ensures Below(tokens, |g|) ==> r.Success?
    ensures r.Failure? ==> r.error == TokenImpossible && !Below(tokens, |g|)
    ensures r.Success? ==> |g| <= |r.value.1| && r.value.1[..|g|] == g && Converged(r.value.0)
    ensures r.Success? && WellFormed(g) && Below(tokens, |g|) ==>
      var (out, g') := r.value;
      WellFormed(g') && Below(out, |g'|) && ExpandAll(g', out) == ExpandAll(g, tokens)
    decreases |tokens|
  {
    var most, maxFreq := MostFrequent(d);
    if maxFreq <= 1 {
      forall p
        ensures Pairs(tokens)[p] <= 1
      {
        if p in d {
          assert d[p] <= maxFreq;
        }
      }
      return Success((tokens, g));
    }
    var p := most.value;
    var g1 := g + [p];
    var pass := MergePass(tokens, d, g1);
    if pass.Failure? {
      return Failure(pass.error);
    }
    var (out, d1) := pass.value;
    MergeShrinks(tokens, p, |g|);
    if Below(tokens, |g|) {
      MergeBelow(tokens, p, |g|);
    }
    r := Train(out, g1, d1);
    if r.Success? {
      assert r.value.1[..|g|] == r.value.1[..|g1|][..|g|];
      if WellFormed(g) && Below(tokens, |g|) {
        PairsBelow(tokens, |g|, p);
        MergeExpands(g, tokens, p);
      }
    }
  }

  /** `make_bpe_encoding(input)` as written: the tokens are all input
      elements but the last, the grammar starts with the 256 terminals, and
      training runs to convergence.  For byte input the grammar's expansion
      of the result is the input without its last byte. */
  method MakeBpeEncoding(input: seq<nat>) returns (r: Result<(seq<nat>, seq<Rule>), TrainError>)
    ensures Below(input, 256) ==> r.Success?
    ensures r.Failure? ==> r.error == TokenImpossible && !Below(input, 256)
    ensures r.Success? ==> StartsWithLeaves(r.value.1) && Converged(r.value.0)
    ensures r.Success? && Below(input, 256) ==>
      var (tokens, g) := r.value;
      WellFormed(g) && Below(tokens, |g|) && AllButLast(ExpandAll(g, tokens), input)
  {
    var tokens := InitialTokens(input);
    if Below(input, 256) && |input| > 0 {
      forall i | 0 <= i < |tokens|
        ensures tokens[i] < 256
      {
        assert tokens[i] == input[i];
      }
    }
    r := TrainFrom(tokens);
  }

  /** `make_bpe_encoding` with every input element turned into a token:
      for byte input the grammar's expansion of the result is the whole
      input. */
  method MakeBpeEncodingFixed(input: seq<nat>) returns (r: Result<(seq<nat>, seq<Rule>), TrainError>)
    ensures Below(input, 256) ==> r.Success?
    ensures r.Failure? ==> r.error == TokenImpossible && !Below(input, 256)
    ensures r.Success? ==> StartsWithLeaves(r.value.1) && Converged(r.value.0)
    ensures r.Success? && Below(input, 256) ==>
      var (tokens, g) := r.value;
      WellFormed(g) && Below(tokens, |g|) && ExpandAll(g, tokens) == input
  {
    r := TrainFrom(input);
  }

  /** Lines 35-46 and the loop: the terminal grammar, a first count, then
      training. */
  method TrainFrom(tokens: seq<nat>) returns (r: Result<(seq<nat>, seq<Rule>), TrainError>)
    ensures Below(tokens, 256) ==> r.Success?
    ensures r.Failure? ==> r.error == TokenImpossible && !Below(tokens, 256)
    ensures r.Success? ==> StartsWithLeaves(r.value.1) && Converged(r.value.0)
    ensures r.Success? && Below(tokens, 256) ==>
      var (out, g) := r.value;
      WellFormed(g) && Below(out, |g|) && ExpandAll(g, out) == tokens
  {
    var g := Leaves();
    var d := CountPairs(tokens);
    r := Train(tokens, g, d);
    if r.Success? {
      var g' := r.value.1;
      assert g'[..256] == g;
      if Below(tokens, 256) {
        LeavesWellFormed();
        BytesExpand(g, tokens);
      }
    }
  }

  /** The byte the as-written trainer loses: for any non-empty byte input,
      what its result expands to is the input's proper prefix that stops
      short of the last byte, so never the input itself. */
  lemma LastByteLost(input: seq<nat>, tokens: seq<nat>, g: seq<Rule>)
    requires |input| > 0 && WellFormed(g) && Below(tokens, |g|)
    requires AllButLast(ExpandAll(g, tokens), input)
    ensures ExpandAll(g, tokens) == input[..|input| - 1] && ExpandAll(g, tokens) != input
  {
  }
}
