/** The dense vector helpers the thermodynamics kernels call
    (griffon::blas::inner_product, scale_vector, vector_plus_scaled_vector).
    Their bodies are not part of this model; each is given its mathematical
    meaning over real vectors. */
module Blas {

  /** Σ a[i]·b[i] */
  function InnerProduct(a: seq<real>, b: seq<real>): real
    requires |a| == |b|
    decreases |a|
  {
    if |a| == 0 then 0.0 else a[0] * b[0] + InnerProduct(a[1..], b[1..])
  }

  /** Σ a[i] */
  function Sum(a: seq<real>): real
    decreases |a|
  {
    if |a| == 0 then 0.0 else a[0] + Sum(a[1..])
  }

  /** x ← k·x */
  function ScaleVector(x: seq<real>, k: real): seq<real>
  {
    seq(|x|, i requires 0 <= i < |x| => k * x[i])
  }

  /** x ← x + k·z */
  function VectorPlusScaledVector(x: seq<real>, k: real, z: seq<real>): seq<real>
    requires |x| == |z|
  {
    seq(|x|, i requires 0 <= i < |x| => x[i] + k * z[i])
  }

  /** Element-wise product a[i]·b[i] (the explicit `x[i] *= w[i]` loop). */
  function Hadamard(a: seq<real>, b: seq<real>): seq<real>
    requires |a| == |b|
  {
    seq(|a|, i requires 0 <= i < |a| => a[i] * b[i])
  }

  /** The inner product does not depend on the order of its arguments. */
  lemma {:induction false} InnerProductSymmetric(a: seq<real>, b: seq<real>)
    requires |a| == |b|
    ensures InnerProduct(a, b) == InnerProduct(b, a)
    decreases |a|
  {
    if |a| > 0 {
      InnerProductSymmetric(a[1..], b[1..]);
    }
  }

  /** The inner product is linear in its first argument:
      ⟨x + k·z, y⟩ = ⟨x, y⟩ + k·⟨z, y⟩. */
  lemma {:induction false} InnerProductPlusScaled(x: seq<real>, k: real, z: seq<real>, y: seq<real>)
    requires |x| == |z| == |y|
    ensures InnerProduct(VectorPlusScaledVector(x, k, z), y)
            == InnerProduct(x, y) + k * InnerProduct(z, y)
    decreases |x|
  {
    if |x| > 0 {
      var v := VectorPlusScaledVector(x, k, z);
      var rest := VectorPlusScaledVector(x[1..], k, z[1..]);
      assert v[1..] == rest by {
        assert forall i :: 0 <= i < |rest| ==> v[1..][i] == rest[i];
      }
      assert InnerProduct(v, y) == v[0] * y[0] + InnerProduct(rest, y[1..]);
      assert v[0] == x[0] + k * z[0];
      InnerProductPlusScaled(x[1..], k, z[1..], y[1..]);
      AffineTimes(x[0], k, z[0], y[0]);
      Distributes(k, z[0] * y[0], InnerProduct(z[1..], y[1..]));
    }
  }

  /** Scaling one argument scales the inner product: ⟨k·x, y⟩ = k·⟨x, y⟩. */
  lemma {:induction false} InnerProductScaled(x: seq<real>, k: real, y: seq<real>)
    requires |x| == |y|
    ensures InnerProduct(ScaleVector(x, k), y) == k * InnerProduct(x, y)
    decreases |x|
  {
    if |x| > 0 {
      assert forall i :: 0 <= i < |x| - 1 ==> ScaleVector(x, k)[1..][i] == ScaleVector(x[1..], k)[i];
      assert ScaleVector(x, k)[1..] == ScaleVector(x[1..], k);
      InnerProductScaled(x[1..], k, y[1..]);
      assert (k * x[0]) * y[0] == k * (x[0] * y[0]);
    }
  }

  /** The sum of an element-wise product is the inner product. */
  lemma {:induction false} SumHadamard(a: seq<real>, b: seq<real>)
    requires |a| == |b|
    ensures Sum(Hadamard(a, b)) == InnerProduct(a, b)
    decreases |a|
  {
    if |a| > 0 {
      assert forall i :: 0 <= i < |a| - 1 ==> Hadamard(a, b)[1..][i] == Hadamard(a[1..], b[1..])[i];
      assert Hadamard(a, b)[1..] == Hadamard(a[1..], b[1..]);
      SumHadamard(a[1..], b[1..]);
    }
  }

  /** Splitting off the first k terms of an inner product. */
  lemma {:induction false} InnerProductSplit(a: seq<real>, b: seq<real>, k: nat)
    requires |a| == |b| && k <= |a|
    ensures InnerProduct(a, b) == InnerProduct(a[..k], b[..k]) + InnerProduct(a[k..], b[k..])
    decreases k
  {
    if k > 0 {
      assert a[..k][1..] == a[1..][..k - 1];
      assert b[..k][1..] == b[1..][..k - 1];
      assert a[k..] == a[1..][k - 1..];
      assert b[k..] == b[1..][k - 1..];
      InnerProductSplit(a[1..], b[1..], k - 1);
    }
  }

  /** An inner product whose second argument is zero on a prefix only sees the rest. */
  lemma {:induction false} InnerProductZeroPrefix(a: seq<real>, b: seq<real>, k: nat)
    requires |a| == |b| && k <= |a|
    requires forall i :: 0 <= i < k ==> b[i] == 0.0
    ensures InnerProduct(a[..k], b[..k]) == 0.0
    decreases k
  {
    if k > 0 {
      assert a[..k][1..] == a[1..][..k - 1];
      assert b[..k][1..] == b[1..][..k - 1];
      InnerProductZeroPrefix(a[1..], b[1..], k - 1);
    }
  }

  /** The unit vector e_k of length n. */
  function Unit(n: nat, k: nat): (e: seq<real>)
    requires k < n
    ensures |e| == n
  {
    seq(n, i requires 0 <= i < n => if i == k then 1.0 else 0.0)
  }

  /** Pairing with a unit vector picks out one component. */
  lemma {:induction false} InnerProductUnit(w: seq<real>, k: nat)
    requires k < |w|
    ensures InnerProduct(Unit(|w|, k), w) == w[k]
    decreases |w|
  {
    var e := Unit(|w|, k);
    if k == 0 {
      assert forall i :: 0 <= i < |w| - 1 ==> e[1..][i] == 0.0;
      InnerProductZeroPrefix(w[1..], e[1..], |w| - 1);
      assert e[1..][..|w| - 1] == e[1..];
      assert w[1..][..|w| - 1] == w[1..];
      InnerProductSymmetric(w[1..], e[1..]);
    } else {
      assert e[1..] == Unit(|w| - 1, k - 1);
      InnerProductUnit(w[1..], k - 1);
    }
  }

  /** A vector given element-wise as e[i] = x[i] − k·z[i] pairs with y as
      ⟨y, x⟩ − k·⟨y, z⟩. */
  lemma {:induction false} InnerProductOfShift(e: seq<real>, x: seq<real>, k: real, z: seq<real>, y: seq<real>)
    requires |e| == |x| == |z| == |y|
    requires forall i :: 0 <= i < |e| ==> e[i] == x[i] - k * z[i]
    ensures InnerProduct(e, y) == InnerProduct(y, x) - k * InnerProduct(y, z)
    decreases |e|
  {
    if |e| > 0 {
      assert forall i :: 0 <= i < |e| - 1 ==> e[1..][i] == x[1..][i] - k * z[1..][i];
      InnerProductOfShift(e[1..], x[1..], k, z[1..], y[1..]);
      ShiftTimes(x[0], k, z[0], y[0]);
      Distributes(k, y[0] * z[0], InnerProduct(y[1..], z[1..]));
    }
  }

  // Field identities used as explicit steps, so that the inductive proofs
  // above only need linear reasoning over the products they name.

  lemma {:induction false} AffineTimes(a: real, k: real, b: real, c: real)
    ensures (a + k * b) * c == a * c + k * (b * c)
  {
  }

  lemma {:induction false} Distributes(k: real, a: real, b: real)
    ensures k * (a + b) == k * a + k * b
  {
  }

  lemma {:induction false} ShiftTimes(a: real, k: real, b: real, c: real)
    ensures (a - k * b) * c == c * a - k * (c * b)
  {
  }
}
