/**
 * The similarity the upload route computes, `1 - scipy.spatial.distance.cosine(u, v)`,
 * which is `dot(u, v) / (|u| * |v|)`. Dafny has no square root, so the product
 * of the two Euclidean norms is an input (`normProduct`) that the model
 * constrains only where a property needs it.
 */
module Cosine {

  import opened FaceCollection

  function Dot(u: Vector, v: Vector): (d: real)
    requires |u| == |v|
    decreases |u|
  {
    if |u| == 0 then 0.0 else u[0] * v[0] + Dot(u[1..], v[1..])
  }

  /** The squared Euclidean norm, `|u| * |u|`. */
  function NormSq(u: Vector): (n: real)
  {
    Dot(u, u)
  }

  /** Cosine similarity of `u` and `v`, where `normProduct` is `|u| * |v|`. */
  function Similarity(u: Vector, v: Vector, normProduct: real): (s: real)
    requires |u| == |v| && normProduct > 0.0
    ensures s * normProduct == Dot(u, v)
  {
    Dot(u, v) / normProduct
  }

  /** Every element of `u` multiplied by `c`. */
  function Scale(c: real, u: Vector): (r: Vector)
    ensures |r| == |u|
    ensures forall i :: 0 <= i < |u| ==> r[i] == c * u[i]
  {
    seq(|u|, i requires 0 <= i < |u| => c * u[i])
  }

  lemma {:induction false} DotSymmetric(u: Vector, v: Vector)
    requires |u| == |v|
    ensures Dot(u, v) == Dot(v, u)
    decreases |u|
  {
    if |u| > 0 {
      DotSymmetric(u[1..], v[1..]);
    }
  }

  /** The score does not depend on which of the two vectors is the uploaded one. */
  lemma SimilaritySymmetric(u: Vector, v: Vector, normProduct: real)
    requires |u| == |v| && normProduct > 0.0
    ensures Similarity(u, v, normProduct) == Similarity(v, u, normProduct)
  {
    DotSymmetric(u, v);
  }

  /** A non-zero vector compared with itself scores exactly 1, since then
      `|u| * |u|` is `NormSq(u)`. */
  lemma SelfSimilarity(u: Vector)
    requires NormSq(u) > 0.0
    ensures Similarity(u, u, NormSq(u)) == 1.0
  {
  }

  lemma {:induction false} DotScale(c: real, u: Vector, v: Vector)
    requires |u| == |v|
    ensures Dot(Scale(c, u), v) == c * Dot(u, v)
    decreases |u|
  {
    if |u| > 0 {
      forall i | 0 <= i < |u| - 1
        ensures Scale(c, u)[1..][i] == Scale(c, u[1..])[i]
      {
      }
      assert Scale(c, u)[1..] == Scale(c, u[1..]);
      DotScale(c, u[1..], v[1..]);
    }
  }

  /** Scaling the uploaded vector by `c > 0` scales its norm, and so the norm
      product, by `c`, and leaves the score unchanged: no normalisation of the
      encodings is assumed. */
  lemma ScaleInvariant(c: real, u: Vector, v: Vector, normProduct: real)
    requires c > 0.0
    requires |u| == |v| && normProduct > 0.0
    requires normProduct * normProduct == NormSq(u) * NormSq(v)
    ensures c * normProduct > 0.0
    ensures (c * normProduct) * (c * normProduct) == NormSq(Scale(c, u)) * NormSq(v)
    ensures Similarity(Scale(c, u), v, c * normProduct) == Similarity(u, v, normProduct)
  {
    NormSqScale(c, u);
    ScaleSquare(c, normProduct, NormSq(u), NormSq(v));
    SquareBySame(c * normProduct, NormSq(Scale(c, u)), c * (c * NormSq(u)), NormSq(v));
    DotScale(c, u, v);
    ScoreByScale(c, Dot(Scale(c, u), v), Dot(u, v), normProduct);
    assert Similarity(Scale(c, u), v, c * normProduct) == Dot(Scale(c, u), v) / (c * normProduct);
  }

  /** Scaling a vector by `c` scales its squared norm by `c * c`. */
  lemma NormSqScale(c: real, u: Vector)
    ensures NormSq(Scale(c, u)) == c * (c * NormSq(u))
  {
    DotScale(c, u, Scale(c, u));
    DotSymmetric(u, Scale(c, u));
    DotScale(c, u, u);
  }

  /** If `p * p == a * b` then `(c * p) * (c * p) == (c * c * a) * b`. */
  lemma ScaleSquare(c: real, p: real, a: real, b: real)
    requires p * p == a * b
    ensures (c * p) * (c * p) == (c * (c * a)) * b
  {
    SquareOfScaled(c, p);
    ScaledProduct(c, a, b);
    ScaleCong(c, p * p, a * b);
  }

  lemma SquareOfScaled(c: real, p: real)
    ensures (c * p) * (c * p) == c * (c * (p * p))
  {
  }

  lemma ScaledProduct(c: real, a: real, b: real)
    ensures (c * (c * a)) * b == c * (c * (a * b))
  {
  }

  lemma ScaleCong(c: real, x: real, y: real)
    requires x == y
    ensures c * (c * x) == c * (c * y)
  {
  }

  lemma SquareBySame(q: real, s: real, t: real, b: real)
    requires s == t && q * q == t * b
    ensures q * q == s * b
  {
  }

  lemma ScoreByScale(c: real, d: real, x: real, p: real)
    requires c > 0.0 && p > 0.0 && d == c * x
    ensures c * p > 0.0
    ensures d / (c * p) == x / p
  {
    DivCancel(c, x, p);
  }

  lemma DivCancel(c: real, x: real, p: real)
    requires c > 0.0 && p > 0.0
    ensures c * p > 0.0
    ensures (c * x) / (c * p) == x / p
  {
  }

  /** A score exceeds `t` exactly when the dot product exceeds `t` times the
      norm product: the comparison needs no division. */
  lemma ExceedsIff(u: Vector, v: Vector, normProduct: real, t: real)
    requires |u| == |v| && normProduct > 0.0
    ensures Similarity(u, v, normProduct) > t <==> Dot(u, v) > t * normProduct
  {
    DivExceeds(Dot(u, v), normProduct, t);
  }

  lemma DivExceeds(x: real, p: real, t: real)
    requires p > 0.0
    ensures x / p > t <==> x > t * p
  {
  }
}
