/**
 * `WordVec<D>`: a word vector holding exactly D components, and its cosine
 * similarity. Components are `f32` in the source; here they are `real`, an
 * idealisation without rounding, overflow or NaN.
 */
module WordVecs {
  import opened Wrappers

  /** The component vector of one word. Its length is the store's dimension D (see `HasDim`). */
  datatype WordVec = WordVec(vec: seq<real>)

  /** The invariant of `WordVec<D>`: exactly D components. */
  predicate HasDim(w: WordVec, dim: nat)
  {
    |w.vec| == dim
  }

  /** `WordVec::new`: the argument is a `[f32; D]`, so its length is D by its type. */
  function New(dim: nat, components: seq<real>): (w: WordVec)
    requires |components| == dim
    ensures HasDim(w, dim)
    ensures w.vec == components
  {
    WordVec(components)
  }

  /** The slice-to-array conversion `try_into()` of `get_vec`: it succeeds exactly when the length is D. */
  function AsArray(w: WordVec, dim: nat): (r: Option<seq<real>>)
    ensures r.Some? <==> HasDim(w, dim)
    ensures r.Some? ==> r.value == w.vec
  {
    if |w.vec| == dim then Some(w.vec) else None
  }

  /** `get_vec`'s `unwrap` never panics: every record keeps its dimension from construction on. */
  lemma GetVecNeverFails(dim: nat, components: seq<real>)
    requires |components| == dim
    ensures AsArray(New(dim, components), dim) == Some(components)
  {
  }

  // ---------------------------------------------------------------------------
  // Cosine similarity as implemented: dot^2 / (norm1 * norm2), where norm1 and
  // norm2 are sums of squares. `zip` stops at the shorter vector, so the three
  // sums run over the common prefix.

  /**
   * Real multiplication. Keeping each product behind one function application
   * lets the solver treat it as a single term in the arithmetic below.
   */
  function Mul(x: real, y: real): real
  {
    x * y
  }

  /** Sum of `a[k] * b[k]` over the common indices of two equally long sequences. */
  function Dot(a: seq<real>, b: seq<real>): real
    requires |a| == |b|
  {
    if |a| == 0 then 0.0
    else Dot(a[..|a| - 1], b[..|b| - 1]) + Mul(a[|a| - 1], b[|b| - 1])
  }

  /** Sum of squares, the source's `norm1`/`norm2` (the square of the Euclidean norm). */
  function SumSq(a: seq<real>): real
  {
    if |a| == 0 then 0.0
    else SumSq(a[..|a| - 1]) + Mul(a[|a| - 1], a[|a| - 1])
  }

  /** The outcome of `WordVec::cosine`: a ratio, or the division by a zero norm product (NaN in f32). */
  datatype Similarity = Score(value: real) | Undefined

  function Min(x: nat, y: nat): nat
  {
    if x < y then x else y
  }

  /** The value `WordVec::cosine` computes, over the common prefix of the two vectors. */
  function CosineOf(u: WordVec, v: WordVec): Similarity
  {
    var n := Min(|u.vec|, |v.vec|);
    var a, b := u.vec[..n], v.vec[..n];
    var dot, norm1, norm2 := Dot(a, b), SumSq(a), SumSq(b);
    if Mul(norm1, norm2) == 0.0 then Undefined else Score(Mul(dot, dot) / Mul(norm1, norm2))
  }

  /** `WordVec::cosine`: accumulates `dot`, `norm1` and `norm2` in one pass over the zipped components. */
  method Cosine(u: WordVec, v: WordVec) returns (s: Similarity)
    ensures s == CosineOf(u, v)
  {
    var n := Min(|u.vec|, |v.vec|);
    var dot, norm1, norm2 := 0.0, 0.0, 0.0;
    var i := 0;
    while i < n
      invariant 0 <= i <= n
      invariant dot == Dot(u.vec[..i], v.vec[..i])
      invariant norm1 == SumSq(u.vec[..i])
      invariant norm2 == SumSq(v.vec[..i])
    {
      var v1, v2 := u.vec[i], v.vec[i];
      assert u.vec[..i + 1][..i] == u.vec[..i];
      assert v.vec[..i + 1][..i] == v.vec[..i];
      dot := dot + Mul(v1, v2);
      norm1 := norm1 + Mul(v1, v1);
      norm2 := norm2 + Mul(v2, v2);
      i := i + 1;
    }
    assert u.vec[..n][..n] == u.vec[..n] && v.vec[..n][..n] == v.vec[..n];
    if Mul(norm1, norm2) == 0.0 {
      s := Undefined;
    } else {
      s := Score(Mul(dot, dot) / Mul(norm1, norm2));
    }
  }

  // ---------------------------------------------------------------------------
  // Properties of the similarity.

  lemma {:induction false} DotSelf(a: seq<real>)
    ensures Dot(a, a) == SumSq(a)
  {
    if |a| > 0 {
      DotSelf(a[..|a| - 1]);
    }
  }

  lemma {:induction false} DotSymmetric(a: seq<real>, b: seq<real>)
    requires |a| == |b|
    ensures Dot(a, b) == Dot(b, a)
  {
    if |a| > 0 {
      DotSymmetric(a[..|a| - 1], b[..|b| - 1]);
    }
  }

  /** Sign rule for products; stated over two variables, then used for squares. */
  lemma MulPositive(x: real, y: real)
    requires (x > 0.0 && y > 0.0) || (x < 0.0 && y < 0.0)
    ensures Mul(x, y) > 0.0
  {
  }

  lemma MulNonNegative(x: real, y: real)
    requires (x >= 0.0 && y >= 0.0) || (x <= 0.0 && y <= 0.0)
    ensures Mul(x, y) >= 0.0
  {
  }

  lemma SquarePositive(x: real)
    requires x != 0.0
    ensures Mul(x, x) > 0.0
  {
    MulPositive(x, x);
  }

  lemma SquareNonNegative(x: real)
    ensures Mul(x, x) >= 0.0
  {
    MulNonNegative(x, x);
  }

  lemma {:induction false} SumSqNonNegative(a: seq<real>)
    ensures SumSq(a) >= 0.0
  {
    if |a| > 0 {
      SumSqNonNegative(a[..|a| - 1]);
    }
  }

  /** A non-zero component makes the sum of squares positive. */
  lemma {:induction false} SumSqPositive(a: seq<real>, k: nat)
    requires k < |a| && a[k] != 0.0
    ensures SumSq(a) > 0.0
  {
    var init := a[..|a| - 1];
    SumSqNonNegative(init);
    if k == |a| - 1 {
      SquarePositive(a[k]);
    } else {
      assert init[k] == a[k];
      SumSqPositive(init, k);
      SquareNonNegative(a[|a| - 1]);
    }
  }

  /** The all-zero vector has a zero sum of squares. */
  lemma {:induction false} SumSqOfZeros(a: seq<real>)
    requires forall k :: 0 <= k < |a| ==> a[k] == 0.0
    ensures SumSq(a) == 0.0
  {
    if |a| > 0 {
      SumSqOfZeros(a[..|a| - 1]);
    }
  }

  /** The sum of squares vanishes exactly on the all-zero vector. */
  lemma SumSqZero(a: seq<real>)
    ensures SumSq(a) == 0.0 <==> forall k :: 0 <= k < |a| ==> a[k] == 0.0
  {
    if forall k :: 0 <= k < |a| ==> a[k] == 0.0 {
      SumSqOfZeros(a);
    } else {
      var k :| 0 <= k < |a| && a[k] != 0.0;
      SumSqPositive(a, k);
    }
  }

  lemma DivSelf(t: real)
    requires t > 0.0
    ensures t / t == 1.0
  {
  }

  /** A vector compared with itself scores 1 unless it is all zeros (test at word2vec.rs:229). */
  lemma CosineSelf(u: WordVec)
    requires exists k :: 0 <= k < |u.vec| && u.vec[k] != 0.0
    ensures CosineOf(u, u) == Score(1.0)
  {
    var a := u.vec[..|u.vec|];
    assert a == u.vec;
    DotSelf(a);
    var k :| 0 <= k < |a| && a[k] != 0.0;
    SumSqPositive(a, k);
    SquarePositive(SumSq(a));
    DivSelf(Mul(SumSq(a), SumSq(a)));
  }

  /** The similarity does not depend on the order of its arguments. */
  lemma CosineSymmetric(u: WordVec, v: WordVec)
    ensures CosineOf(u, v) == CosineOf(v, u)
  {
    var n := Min(|u.vec|, |v.vec|);
    DotSymmetric(u.vec[..n], v.vec[..n]);
  }

  /** Orthogonal non-zero vectors score 0 (test at word2vec.rs:230). */
  lemma CosineOrthogonal(u: WordVec, v: WordVec)
    requires |u.vec| == |v.vec|
    requires Dot(u.vec, v.vec) == 0.0
    requires SumSq(u.vec) != 0.0 && SumSq(v.vec) != 0.0
    ensures CosineOf(u, v) == Score(0.0)
  {
    assert u.vec[..|u.vec|] == u.vec && v.vec[..|v.vec|] == v.vec;
  }

  /** The zero-norm case arises exactly when one of the compared prefixes is all zeros. */
  lemma CosineUndefined(u: WordVec, v: WordVec)
    requires |u.vec| == |v.vec|
    ensures CosineOf(u, v) == Undefined <==>
              (forall k :: 0 <= k < |u.vec| ==> u.vec[k] == 0.0) ||
              (forall k :: 0 <= k < |v.vec| ==> v.vec[k] == 0.0)
  {
    assert u.vec[..|u.vec|] == u.vec && v.vec[..|v.vec|] == v.vec;
    SumSqZero(u.vec);
    SumSqZero(v.vec);
  }

  function Negate(a: seq<real>): (r: seq<real>)
    ensures |r| == |a|
    ensures forall k :: 0 <= k < |a| ==> r[k] == -a[k]
  {
    seq(|a|, k requires 0 <= k < |a| => -a[k])
  }

  lemma {:induction false} DotNegate(a: seq<real>, b: seq<real>)
    requires |a| == |b|
    ensures Dot(a, Negate(b)) == -Dot(a, b)
    ensures SumSq(Negate(b)) == SumSq(b)
  {
    if |a| > 0 {
      var a', b' := a[..|a| - 1], b[..|b| - 1];
      DotNegate(a', b');
      assert Negate(b)[..|b| - 1] == Negate(b');
    }
  }

  /**
   * The squared formula loses the sign: a vector and its opposite get the same
   * score as the vector and itself would against any third vector.
   */
  lemma CosineIgnoresSign(u: WordVec, v: WordVec)
    requires |u.vec| == |v.vec|
    ensures CosineOf(u, WordVec(Negate(v.vec))) == CosineOf(u, v)
  {
    var a, b := u.vec, v.vec;
    assert a[..|a|] == a && b[..|b|] == b && Negate(b)[..|b|] == Negate(b);
    DotNegate(a, b);
    assert Mul(Dot(a, Negate(b)), Dot(a, Negate(b))) == Mul(Dot(a, b), Dot(a, b));
  }

  /** The unit tests' vectors: [1, 0] against itself scores 1, against [0, 1] scores 0 (word2vec.rs:221-230). */
  lemma CosineUnitExamples()
    ensures CosineOf(New(2, [1.0, 0.0]), New(2, [1.0, 0.0])) == Score(1.0)
    ensures CosineOf(New(2, [1.0, 0.0]), New(2, [0.0, 1.0])) == Score(0.0)
  {
    var e1, e2 := [1.0, 0.0], [0.0, 1.0];
    assert e1[..2] == e1 && e2[..2] == e2;
    assert e1[..1] == [1.0] && e2[..1] == [0.0];
    assert Dot(e1, e1) == 1.0 && SumSq(e1) == 1.0;
    assert Dot(e1, e2) == 0.0 && SumSq(e2) == 1.0;
  }
}
