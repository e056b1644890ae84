/**
 * `Sentence2Vec<D>`: a sentence's vector is the component-wise mean of the
 * vectors of its words that the store knows.
 *
 * Lower-casing, the alphanumeric class and the whitespace class are Unicode
 * operations in the source; here they are the parameters in `TextOps`.
 * Components are `real`, an idealisation of `f32`.
 */
module Sentences {
  import opened Wrappers
  import opened WordVecs
  import opened Word2Vecs

  /** `str::to_lowercase`, `char::is_alphanumeric` and `char::is_whitespace`. */
  datatype TextOps = TextOps(toLower: string -> string, isAlphanumeric: char -> bool, isWhitespace: char -> bool)

  /** The model: a store of word vectors (`new` just wraps it). */
  datatype Sentence2Vec = Sentence2Vec(word2vec: Word2Vec)

  // ---------------------------------------------------------------------------
  // Tokenising.

  /** The first index from `lo` on whose character `stop` accepts, or |s| when there is none. */
  function SkipUntil(s: string, lo: nat, stop: char -> bool): (i: nat)
    requires lo <= |s|
    ensures lo <= i <= |s|
    ensures forall k :: lo <= k < i ==> !stop(s[k])
    ensures i < |s| ==> stop(s[i])
    decreases |s| - lo
  {
    if lo == |s| || stop(s[lo]) then lo else SkipUntil(s, lo + 1, stop)
  }

  /** The last index up to `hi`, but not below `lo`, that follows a character `stop` accepts, or `lo`. */
  function BackUntil(s: string, lo: nat, hi: nat, stop: char -> bool): (j: nat)
    requires lo <= hi <= |s|
    ensures lo <= j <= hi
    ensures forall k :: j <= k < hi ==> !stop(s[k])
    ensures j > lo ==> stop(s[j - 1])
    decreases hi - lo
  {
    if hi == lo || stop(s[hi - 1]) then hi else BackUntil(s, lo, hi - 1, stop)
  }

  /**
   * `s[i..j]` is what remains of `s` once its rejected ends are removed: the
   * outside is all rejected characters and the ends, if any, are kept characters.
   */
  predicate TrimBounds(s: string, i: nat, j: nat, keep: char -> bool)
  {
    && i <= j <= |s|
    && (forall k :: 0 <= k < i ==> !keep(s[k]))
    && (forall k :: j <= k < |s| ==> !keep(s[k]))
    && (i < j ==> keep(s[i]) && keep(s[j - 1]))
  }

  /** `r` is `s` with every leading and trailing character that `keep` rejects removed. */
  ghost predicate Trimmed(s: string, r: string, keep: char -> bool)
  {
    exists i: nat, j: nat :: TrimBounds(s, i, j, keep) && r == s[i..j]
  }

  /** `trim_matches(|c| !keep(c))`: strips rejected characters from both ends. */
  function TrimMatches(s: string, keep: char -> bool): (r: string)
    ensures Trimmed(s, r, keep)
    ensures |r| > 0 ==> keep(r[0]) && keep(r[|r| - 1])
  {
    var i := SkipUntil(s, 0, keep);
    var j := BackUntil(s, i, |s|, keep);
    assert TrimBounds(s, i, j, keep);
    s[i..j]
  }

  /** The trimmed form is determined by the string: only one slice satisfies `Trimmed`. */
  lemma TrimmedUnique(s: string, r1: string, r2: string, keep: char -> bool)
    requires Trimmed(s, r1, keep) && Trimmed(s, r2, keep)
    ensures r1 == r2
  {
    var i1: nat, j1: nat :| TrimBounds(s, i1, j1, keep) && r1 == s[i1..j1];
    var i2: nat, j2: nat :| TrimBounds(s, i2, j2, keep) && r2 == s[i2..j2];
    BoundsUnique(s, i1, j1, i2, j2, keep);
  }

  /** Two non-empty trimmings of the same string have the same bounds; an empty one rules out a non-empty one. */
  lemma BoundsUnique(s: string, i1: nat, j1: nat, i2: nat, j2: nat, keep: char -> bool)
    requires TrimBounds(s, i1, j1, keep) && TrimBounds(s, i2, j2, keep)
    ensures i1 < j1 <==> i2 < j2
    ensures i1 < j1 ==> i1 == i2 && j1 == j2
  {
    if i1 < j1 {
      // Both ends of s[i1..j1] are kept, so the other slice cannot start later or end earlier, and conversely.
      if i2 > i1 || j2 < j1 { assert false; }
      if i2 < i1 || j2 > j1 { assert false; }
    } else if i2 < j2 {
      // s[i1..j1] is empty, so every character is rejected, but s[i2..j2] starts with a kept one.
      if i2 < i1 { assert false; }
      assert false;
    }
  }

  /** Trimming twice is trimming once. */
  lemma TrimIdempotent(s: string, keep: char -> bool)
    ensures TrimMatches(TrimMatches(s, keep), keep) == TrimMatches(s, keep)
  {
    var r := TrimMatches(s, keep);
    TrimmedWhole(r, keep);
    TrimmedUnique(r, TrimMatches(r, keep), r, keep);
  }

  /** A string that begins and ends with kept characters is its own trimmed form. */
  lemma TrimmedWhole(r: string, keep: char -> bool)
    requires |r| > 0 ==> keep(r[0]) && keep(r[|r| - 1])
    ensures Trimmed(r, r, keep)
  {
    assert TrimBounds(r, 0, |r|, keep) && r == r[0..|r|];
  }

  /** `split_whitespace`: the maximal runs of non-whitespace characters, in order. */
  function SplitWhitespace(s: string, isWhitespace: char -> bool): (tokens: seq<string>)
    ensures forall t :: t in tokens ==> |t| > 0 && forall k :: 0 <= k < |t| ==> !isWhitespace(t[k])
    decreases |s|
  {
    var i := SkipUntil(s, 0, c => !isWhitespace(c));
    if i == |s| then []
    else
      var j := SkipUntil(s, i, isWhitespace);
      [s[i..j]] + SplitWhitespace(s[j..], isWhitespace)
  }

  /** The characters of `s` that are not whitespace, in order. */
  function NonSpace(s: string, isWhitespace: char -> bool): string
  {
    if |s| == 0 then ""
    else NonSpace(s[..|s| - 1], isWhitespace) + (if isWhitespace(s[|s| - 1]) then "" else [s[|s| - 1]])
  }

  /** All the strings of `ts`, one after the other. */
  function Concat(ts: seq<string>): string
  {
    if |ts| == 0 then "" else ts[0] + Concat(ts[1..])
  }

  lemma {:induction false} NonSpaceAppend(a: string, b: string, isWhitespace: char -> bool)
    ensures NonSpace(a + b, isWhitespace) == NonSpace(a, isWhitespace) + NonSpace(b, isWhitespace)
  {
    if |b| == 0 {
      assert a + b == a;
    } else {
      assert (a + b)[..|a + b| - 1] == a + b[..|b| - 1];
      NonSpaceAppend(a, b[..|b| - 1], isWhitespace);
    }
  }

  lemma {:induction false} NonSpaceOf(s: string, isWhitespace: char -> bool, all: bool)
    requires forall k :: 0 <= k < |s| ==> isWhitespace(s[k]) == all
    ensures NonSpace(s, isWhitespace) == if all then "" else s
  {
    if |s| > 0 {
      NonSpaceOf(s[..|s| - 1], isWhitespace, all);
      assert s == s[..|s| - 1] + [s[|s| - 1]];
    }
  }

  /** Leading whitespace contributes nothing to the non-whitespace text. */
  lemma LeadingBlank(s: string, i: nat, isWhitespace: char -> bool)
    requires i <= |s| && forall k :: 0 <= k < i ==> isWhitespace(s[k])
    ensures NonSpace(s, isWhitespace) == NonSpace(s[i..], isWhitespace)
  {
    assert s == s[..i] + s[i..];
    NonSpaceAppend(s[..i], s[i..], isWhitespace);
    NonSpaceOf(s[..i], isWhitespace, true);
  }

  /** A run of non-whitespace characters is kept whole. */
  lemma LeadingRun(s: string, i: nat, j: nat, isWhitespace: char -> bool)
    requires i <= j <= |s| && forall k :: i <= k < j ==> !isWhitespace(s[k])
    ensures NonSpace(s[i..], isWhitespace) == s[i..j] + NonSpace(s[j..], isWhitespace)
  {
    assert s[i..] == s[i..j] + s[j..];
    NonSpaceAppend(s[i..j], s[j..], isWhitespace);
    NonSpaceOf(s[i..j], isWhitespace, false);
  }

  /** Splitting loses only whitespace: the tokens put together are the non-whitespace characters. */
  lemma {:induction false} SplitKeepsText(s: string, isWhitespace: char -> bool)
    ensures Concat(SplitWhitespace(s, isWhitespace)) == NonSpace(s, isWhitespace)
    decreases |s|
  {
    var i := SkipUntil(s, 0, c => !isWhitespace(c));
    LeadingBlank(s, i, isWhitespace);
    if i == |s| {
      assert s[i..] == "";
    } else {
      var j := SkipUntil(s, i, isWhitespace);
      LeadingRun(s, i, j, isWhitespace);
      SplitKeepsText(s[j..], isWhitespace);
      var ts := SplitWhitespace(s, isWhitespace);
      assert ts == [s[i..j]] + SplitWhitespace(s[j..], isWhitespace);
      assert ts[0] == s[i..j] && ts[1..] == SplitWhitespace(s[j..], isWhitespace);
    }
  }

  /** Every character of `g` is whitespace. */
  predicate Blank(g: string, isWhitespace: char -> bool)
  {
    forall k :: 0 <= k < |g| ==> isWhitespace(g[k])
  }

  /** `gaps[0] + tokens[0] + gaps[1] + ... + tokens[n-1] + gaps[n]`. */
  function Interleave(gaps: seq<string>, tokens: seq<string>): string
    requires |gaps| == |tokens| + 1
  {
    if |tokens| == 0 then gaps[0] else gaps[0] + tokens[0] + Interleave(gaps[1..], tokens[1..])
  }

  /**
   * `s` is the tokens with whitespace gaps around and between them, and the
   * gaps between two tokens are not empty. As the tokens hold no whitespace,
   * each token is then a maximal run of non-whitespace characters of `s`.
   */
  ghost predicate Separated(s: string, tokens: seq<string>, gaps: seq<string>, isWhitespace: char -> bool)
  {
    && |gaps| == |tokens| + 1
    && (forall m :: 0 <= m < |gaps| ==> Blank(gaps[m], isWhitespace))
    && (forall m :: 0 < m < |tokens| ==> |gaps[m]| > 0)
    && Interleave(gaps, tokens) == s
  }

  /** The tokens of `split_whitespace` are the maximal runs: whitespace separates any two of them in `s`. */
  lemma {:induction false} SplitMaximal(s: string, isWhitespace: char -> bool)
    ensures exists gaps :: Separated(s, SplitWhitespace(s, isWhitespace), gaps, isWhitespace)
    decreases |s|
  {
    var i := SkipUntil(s, 0, c => !isWhitespace(c));
    if i == |s| {
      assert SplitWhitespace(s, isWhitespace) == [];
      assert Blank(s, isWhitespace);
      assert Separated(s, [], [s], isWhitespace);
    } else {
      var j := SkipUntil(s, i, isWhitespace);
      var later := SplitWhitespace(s[j..], isWhitespace);
      SplitMaximal(s[j..], isWhitespace);
      var gaps' :| Separated(s[j..], later, gaps', isWhitespace);
      SeparatedCons(s, i, j, later, gaps', isWhitespace);
      assert SplitWhitespace(s, isWhitespace) == [s[i..j]] + later;
      assert Separated(s, SplitWhitespace(s, isWhitespace), [s[..i]] + gaps', isWhitespace);
    }
  }

  /** A leading gap and a run, followed by a separated rest that starts with whitespace, are separated. */
  lemma SeparatedCons(s: string, i: nat, j: nat, later: seq<string>, gaps': seq<string>, isWhitespace: char -> bool)
    requires i < j <= |s|
    requires forall k :: 0 <= k < i ==> isWhitespace(s[k])
    requires j < |s| ==> isWhitespace(s[j])
    requires forall t :: t in later ==> |t| > 0 && forall k :: 0 <= k < |t| ==> !isWhitespace(t[k])
    requires Separated(s[j..], later, gaps', isWhitespace)
    ensures Separated(s, [s[i..j]] + later, [s[..i]] + gaps', isWhitespace)
  {
    var tokens, gaps := [s[i..j]] + later, [s[..i]] + gaps';
    assert gaps[1..] == gaps' && tokens[1..] == later;
    assert Interleave(gaps, tokens) == s[..i] + s[i..j] + s[j..];
    assert s[..i] + s[i..j] + s[j..] == s;
    if |later| > 0 {
      assert later[0] in later;
      InterleaveStart(gaps', later);
      assert !isWhitespace(s[j..][|gaps'[0]|]);
      assert isWhitespace(s[j..][0]);
    }
    assert forall m :: 0 < m < |tokens| ==> |gaps[m]| > 0;
    assert Blank(s[..i], isWhitespace);
    assert forall m :: 0 <= m < |gaps| ==> Blank(gaps[m], isWhitespace);
  }

  /** An interleaving with at least one token begins with its first gap and then that token. */
  lemma InterleaveStart(gaps: seq<string>, tokens: seq<string>)
    requires |gaps| == |tokens| + 1 && |tokens| > 0 && |tokens[0]| > 0
    ensures |Interleave(gaps, tokens)| > |gaps[0]|
    ensures Interleave(gaps, tokens)[|gaps[0]|] == tokens[0][0]
    ensures forall k :: 0 <= k < |gaps[0]| ==> Interleave(gaps, tokens)[k] == gaps[0][k]
  {
  }

  /**
   * The tokens of a sentence: lower-case it, trim non-alphanumerics from both
   * ends, split on whitespace, and trim each piece the same way.
   */
  function Tokens(sentence: string, ops: TextOps): (tokens: seq<string>)
    ensures |tokens| == |SplitWhitespace(TrimMatches(ops.toLower(sentence), ops.isAlphanumeric), ops.isWhitespace)|
    ensures forall k :: 0 <= k < |tokens| && |tokens[k]| > 0 ==>
              ops.isAlphanumeric(tokens[k][0]) && ops.isAlphanumeric(tokens[k][|tokens[k]| - 1])
  {
    TrimEach(SplitWhitespace(TrimMatches(ops.toLower(sentence), ops.isAlphanumeric), ops.isWhitespace), ops.isAlphanumeric)
  }

  /** Each piece trimmed with `TrimMatches`, in order. */
  function TrimEach(pieces: seq<string>, keep: char -> bool): (ts: seq<string>)
    ensures |ts| == |pieces|
    ensures forall k :: 0 <= k < |ts| ==> ts[k] == TrimMatches(pieces[k], keep)
    ensures forall k :: 0 <= k < |ts| && |ts[k]| > 0 ==> keep(ts[k][0]) && keep(ts[k][|ts[k]| - 1])
  {
    seq(|pieces|, k requires 0 <= k < |pieces| => TrimMatches(pieces[k], keep))
  }

  /** One token per whitespace-separated piece of the trimmed sentence, trimmed at both ends. */
  lemma TokensTrimmed(sentence: string, ops: TextOps)
    ensures var pieces := SplitWhitespace(TrimMatches(ops.toLower(sentence), ops.isAlphanumeric), ops.isWhitespace);
            |Tokens(sentence, ops)| == |pieces| &&
            forall k :: 0 <= k < |pieces| ==>
              Trimmed(pieces[k], Tokens(sentence, ops)[k], ops.isAlphanumeric) &&
              (forall m :: 0 <= m < |pieces[k]| ==> !ops.isWhitespace(pieces[k][m]))
  {
  }

  /** Lower-casing keeps the empty sentence empty, which then has no tokens. */
  lemma EmptySentenceHasNoTokens(ops: TextOps)
    requires ops.toLower("") == ""
    ensures Tokens("", ops) == []
  {
    var t := TrimMatches("", ops.isAlphanumeric);
    assert t == "";
  }

  // ---------------------------------------------------------------------------
  // Counting and summing.

  /** `count`: the tokens, with repetitions, that the store knows. */
  function MatchCount(model: Word2Vec, tokens: seq<string>): (c: nat)
    ensures c <= |tokens|
    ensures c == 0 <==> forall i :: 0 <= i < |tokens| ==> tokens[i] !in model.wordVecs
  {
    if |tokens| == 0 then 0
    else MatchCount(model, tokens[..|tokens| - 1]) + (if tokens[|tokens| - 1] in model.wordVecs then 1 else 0)
  }

  /** Component k of the sum of the known tokens' vectors. */
  function ComponentSum(model: Word2Vec, tokens: seq<string>, k: nat): real
    requires Valid(model) && k < model.dim
  {
    if |tokens| == 0 then 0.0
    else
      var last := tokens[|tokens| - 1];
      ComponentSum(model, tokens[..|tokens| - 1], k) + (if last in model.wordVecs then model.wordVecs[last].vec[k] else 0.0)
  }

  /** The component-wise mean of the known tokens' vectors. */
  function Average(model: Word2Vec, tokens: seq<string>): (avg: WordVec)
    requires Valid(model) && MatchCount(model, tokens) > 0
    ensures HasDim(avg, model.dim)
  {
    WordVec(seq(model.dim, k requires 0 <= k < model.dim =>
      ComponentSum(model, tokens, k) / (MatchCount(model, tokens) as real)))
  }

  lemma {:induction false} SumsAppend(model: Word2Vec, a: seq<string>, b: seq<string>)
    requires Valid(model)
    ensures MatchCount(model, a + b) == MatchCount(model, a) + MatchCount(model, b)
    ensures forall k :: 0 <= k < model.dim ==>
              ComponentSum(model, a + b, k) == ComponentSum(model, a, k) + ComponentSum(model, b, k)
  {
    if |b| == 0 {
      assert a + b == a;
    } else {
      assert (a + b)[..|a + b| - 1] == a + b[..|b| - 1];
      SumsAppend(model, a, b[..|b| - 1]);
    }
  }

  lemma SumsOne(model: Word2Vec, t: string)
    requires Valid(model)
    ensures MatchCount(model, [t]) == if t in model.wordVecs then 1 else 0
    ensures forall k :: 0 <= k < model.dim ==>
              ComponentSum(model, [t], k) == if t in model.wordVecs then model.wordVecs[t].vec[k] else 0.0
  {
    assert [t][..0] == [];
  }

  /** A token the store does not know changes neither the count nor the sums, wherever it occurs. */
  lemma UnknownTokenIgnored(model: Word2Vec, a: seq<string>, t: string, b: seq<string>)
    requires Valid(model) && t !in model.wordVecs
    ensures MatchCount(model, a + [t] + b) == MatchCount(model, a + b)
    ensures forall k :: 0 <= k < model.dim ==> ComponentSum(model, a + [t] + b, k) == ComponentSum(model, a + b, k)
  {
    SumsAppend(model, a, [t]);
    SumsAppend(model, a + [t], b);
    SumsAppend(model, a, b);
    SumsOne(model, t);
  }

  /** Taking one token out of the middle and putting it at the end changes neither the count nor the sums. */
  lemma MoveToEnd(model: Word2Vec, b1: seq<string>, x: string, b2: seq<string>)
    requires Valid(model)
    ensures MatchCount(model, b1 + [x] + b2) == MatchCount(model, b1 + b2 + [x])
    ensures forall k :: 0 <= k < model.dim ==>
              ComponentSum(model, b1 + [x] + b2, k) == ComponentSum(model, b1 + b2 + [x], k)
  {
    SumsAppend(model, b1 + [x], b2);
    SumsAppend(model, b1, [x]);
    SumsAppend(model, b1 + b2, [x]);
    SumsAppend(model, b1, b2);
  }

  /** Removing the same element from the end of one sequence and from inside the other keeps them permutations. */
  lemma RemoveMatched<T>(a: seq<T>, b1: seq<T>, x: T, b2: seq<T>)
    requires multiset(a + [x]) == multiset(b1 + [x] + b2)
    ensures multiset(a) == multiset(b1 + b2)
  {
    assert multiset(a + [x]) == multiset(a) + multiset{x};
    calc {
      multiset(b1 + [x] + b2);
      multiset(b1) + multiset{x} + multiset(b2);
      multiset(b1 + b2) + multiset{x};
    }
    var A, B := multiset(a), multiset(b1 + b2);
    assert A + multiset{x} == B + multiset{x};
    assert forall y :: A[y] == (A + multiset{x})[y] - multiset{x}[y] == (B + multiset{x})[y] - multiset{x}[y] == B[y];
  }

  /** An element of a sequence splits it into the part before one of its occurrences and the part after. */
  lemma SplitAround<T>(b: seq<T>, x: T) returns (b1: seq<T>, b2: seq<T>)
    requires x in multiset(b)
    ensures b == b1 + [x] + b2
  {
    var m :| 0 <= m < |b| && b[m] == x;
    b1, b2 := b[..m], b[m + 1..];
  }

  /** Reordering the tokens changes neither the count nor the sums. */
  lemma {:induction false} SumsPermutation(model: Word2Vec, a: seq<string>, b: seq<string>)
    requires Valid(model) && multiset(a) == multiset(b)
    ensures MatchCount(model, a) == MatchCount(model, b)
    ensures forall k :: 0 <= k < model.dim ==> ComponentSum(model, a, k) == ComponentSum(model, b, k)
    decreases |a|
  {
    if |a| == 0 {
      assert |b| == |multiset(b)| == 0;
    } else {
      var x, a' := a[|a| - 1], a[..|a| - 1];
      assert a == a' + [x];
      var b1, b2 := SplitAround(b, x);
      RemoveMatched(a', b1, x, b2);
      SumsPermutation(model, a', b1 + b2);
      MoveToEnd(model, b1, x, b2);
      SumsAppend(model, a', [x]);
      SumsAppend(model, b1 + b2, [x]);
    }
  }

  /** The mean does not depend on the order of the words: any reordering gives the same vector. */
  lemma AverageOrderFree(model: Word2Vec, a: seq<string>, b: seq<string>)
    requires Valid(model) && multiset(a) == multiset(b) && MatchCount(model, a) > 0
    ensures MatchCount(model, b) > 0
    ensures Average(model, a) == Average(model, b)
  {
    SumsPermutation(model, a, b);
  }

  /** A sentence with a single known word gets that word's vector. */
  lemma AverageOfOne(model: Word2Vec, t: string)
    requires Valid(model) && t in model.wordVecs
    ensures MatchCount(model, [t]) == 1
    ensures Average(model, [t]) == model.wordVecs[t]
  {
    SumsOne(model, t);
    var avg := Average(model, [t]);
    assert HasDim(model.wordVecs[t], model.dim);
    assert forall k :: 0 <= k < model.dim ==> avg.vec[k] == model.wordVecs[t].vec[k];
  }

  // ---------------------------------------------------------------------------
  // The operations.

  /** Adding token t's vector, if the store knows t, moves every component sum one token on. */
  lemma SumStep(model: Word2Vec, tokens: seq<string>, t: nat)
    requires Valid(model) && t < |tokens|
    ensures tokens[..t + 1][..t] == tokens[..t]
    ensures MatchCount(model, tokens[..t + 1]) ==
              MatchCount(model, tokens[..t]) + (if tokens[t] in model.wordVecs then 1 else 0)
    ensures forall k :: 0 <= k < model.dim ==>
              ComponentSum(model, tokens[..t + 1], k) ==
              ComponentSum(model, tokens[..t], k) + (if tokens[t] in model.wordVecs then model.wordVecs[tokens[t]].vec[k] else 0.0)
  {
    assert tokens[..t + 1][..t] == tokens[..t];
  }

  /** Adds `v` to `acc` component by component (`for (v, w) in vec.iter_mut().zip(..) { *v += w }`). */
  method AddInto(acc: array<real>, v: seq<real>)
    requires acc.Length == |v|
    modifies acc
    ensures forall k :: 0 <= k < acc.Length ==> acc[k] == old(acc[k]) + v[k]
  {
    var k := 0;
    while k < acc.Length
      invariant 0 <= k <= acc.Length
      invariant forall m :: 0 <= m < k ==> acc[m] == old(acc[m]) + v[m]
      invariant forall m :: k <= m < acc.Length ==> acc[m] == old(acc[m])
    {
      acc[k] := acc[k] + v[k];
      k := k + 1;
    }
  }

  /** Divides every component of `acc` by `count` (`*v /= count as f32`). */
  method DivideBy(acc: array<real>, count: nat)
    requires count > 0
    modifies acc
    ensures forall k :: 0 <= k < acc.Length ==> acc[k] == old(acc[k]) / (count as real)
  {
    var k := 0;
    while k < acc.Length
      invariant 0 <= k <= acc.Length
      invariant forall m :: 0 <= m < k ==> acc[m] == old(acc[m]) / (count as real)
      invariant forall m :: k <= m < acc.Length ==> acc[m] == old(acc[m])
    {
      acc[k] := acc[k] / (count as real);
      k := k + 1;
    }
  }

  /** The mean is the vector whose every component is the component sum over the count. */
  lemma AverageIs(store: Word2Vec, tokens: seq<string>, v: seq<real>)
    requires Valid(store) && MatchCount(store, tokens) > 0 && |v| == store.dim
    requires forall k :: 0 <= k < |v| ==> v[k] == ComponentSum(store, tokens, k) / (MatchCount(store, tokens) as real)
    ensures WordVec(v) == Average(store, tokens)
  {
  }

  /** One iteration over the tokens: a known token's vector is added to `acc` and counted. */
  method AddToken(store: Word2Vec, tokens: seq<string>, t: nat, acc: array<real>, count: nat) returns (count': nat)
    requires Valid(store) && t < |tokens| && acc.Length == store.dim
    requires count == MatchCount(store, tokens[..t])
    requires forall k :: 0 <= k < store.dim ==> acc[k] == ComponentSum(store, tokens[..t], k)
    modifies acc
    ensures count' == MatchCount(store, tokens[..t + 1])
    ensures forall k :: 0 <= k < store.dim ==> acc[k] == ComponentSum(store, tokens[..t + 1], k)
  {
    SumStep(store, tokens, t);
    count' := count;
    var wordVec := Word2Vecs.GetVec(store, tokens[t]);
    if wordVec.Some? {
      AddInto(acc, wordVec.value.vec);
      count' := count + 1;
    }
  }

  /**
   * `Sentence2Vec::get_vec`: `None` when no token is a known word, else the
   * mean of the known tokens' vectors, with the store's dimension.
   */
  method GetVec(model: Sentence2Vec, sentence: string, ops: TextOps) returns (r: Option<WordVec>)
    requires Valid(model.word2vec)
    ensures r.None? <==> MatchCount(model.word2vec, Tokens(sentence, ops)) == 0
    ensures r.Some? ==> HasDim(r.value, model.word2vec.dim)
    ensures r.Some? ==> r.value == Average(model.word2vec, Tokens(sentence, ops))
  {
    r := MeanOfTokens(model.word2vec, Tokens(sentence, ops));
  }

  /** The loops of `get_vec` over the tokens: accumulate in a D-buffer, count, then divide. */
  method MeanOfTokens(store: Word2Vec, tokens: seq<string>) returns (r: Option<WordVec>)
    requires Valid(store)
    ensures r.None? <==> MatchCount(store, tokens) == 0
    ensures r.Some? ==> HasDim(r.value, store.dim)
    ensures r.Some? ==> r.value == Average(store, tokens)
  {
    var acc := new real[store.dim](_ => 0.0);
    var count := 0;
    var t := 0;
    assert tokens[..0] == [];
    while t < |tokens|
      invariant 0 <= t <= |tokens| && acc.Length == store.dim
      invariant count == MatchCount(store, tokens[..t])
      invariant forall k :: 0 <= k < store.dim ==> acc[k] == ComponentSum(store, tokens[..t], k)
    {
      count := AddToken(store, tokens, t, acc, count);
      t := t + 1;
    }
    assert tokens[..t] == tokens;
    if count == 0 {
      r := None;
    } else {
      DivideBy(acc, count);
      AverageIs(store, tokens, acc[..]);
      r := Some(New(store.dim, acc[..]));
    }
  }

  /**
   * `Sentence2Vec::cosine`: `None` unless both sentences have a vector, else
   * the similarity of the two means.
   */
  method Cosine(model: Sentence2Vec, sentence1: string, sentence2: string, ops: TextOps) returns (r: Option<Similarity>)
    requires Valid(model.word2vec)
    ensures r.None? <==> MatchCount(model.word2vec, Tokens(sentence1, ops)) == 0 ||
                         MatchCount(model.word2vec, Tokens(sentence2, ops)) == 0
    ensures r.Some? ==> r.value == CosineOf(Average(model.word2vec, Tokens(sentence1, ops)),
                                            Average(model.word2vec, Tokens(sentence2, ops)))
  {
    var vec1 := GetVec(model, sentence1, ops);
    var vec2 := GetVec(model, sentence2, ops);
    if vec1.Some? && vec2.Some? {
      var s := WordVecs.Cosine(vec1.value, vec2.value);
      r := Some(s);
    } else {
      r := None;
    }
  }

  /** The empty sentence has no vector (and so no similarity to anything). */
  lemma EmptySentenceHasNoVector(model: Sentence2Vec, ops: TextOps)
    requires ops.toLower("") == ""
    ensures MatchCount(model.word2vec, Tokens("", ops)) == 0
  {
    EmptySentenceHasNoTokens(ops);
  }

  lemma DivNonZero(x: real, y: real)
    requires x != 0.0 && y > 0.0
    ensures x / y != 0.0
  {
  }

  /** A sentence compared with itself scores 1 unless its mean is the zero vector. */
  lemma SentenceSelfSimilarity(model: Sentence2Vec, sentence: string, ops: TextOps)
    requires Valid(model.word2vec) && MatchCount(model.word2vec, Tokens(sentence, ops)) > 0
    requires exists k :: 0 <= k < model.word2vec.dim && ComponentSum(model.word2vec, Tokens(sentence, ops), k) != 0.0
    ensures var avg := Average(model.word2vec, Tokens(sentence, ops));
            CosineOf(avg, avg) == Score(1.0)
  {
    var tokens := Tokens(sentence, ops);
    var avg := Average(model.word2vec, tokens);
    var k :| 0 <= k < model.word2vec.dim && ComponentSum(model.word2vec, tokens, k) != 0.0;
    var sum, count := ComponentSum(model.word2vec, tokens, k), MatchCount(model.word2vec, tokens) as real;
    DivNonZero(sum, count);
    assert avg.vec[k] == sum / count;
    CosineSelf(avg);
  }
}
