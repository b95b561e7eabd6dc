/** Real polynomials as coefficient sequences in ascending powers of t:
    p = [p0, p1, p2, …] stands for p0 + p1·t + p2·t² + …. This is the
    reference against which the kernels' hand-expanded Horner forms are
    checked. */
module Polynomial {

  /** p[i] + p[i+1]·t + p[i+2]·t² + … */
  function EvalFrom(p: seq<real>, i: nat, t: real): real
    decreases |p| - i
  {
    if i >= |p| then 0.0 else p[i] + t * EvalFrom(p, i + 1, t)
  }

  /** The value of p at t. */
  function Eval(p: seq<real>, t: real): real
  {
    EvalFrom(p, 0, t)
  }

  /** The formal derivative: coefficient k of Deriv(p) is (k+1)·p[k+1]. */
  function Deriv(p: seq<real>): (d: seq<real>)
    ensures |p| > 0 ==> |d| == |p| - 1
  {
    if |p| == 0 then [] else seq(|p| - 1, k requires 0 <= k < |p| - 1 => (k + 1) as real * p[k + 1])
  }

  /** Horner evaluation of a polynomial of degree at most four. */
  lemma {:induction false} Eval5(p: seq<real>, t: real)
    requires |p| == 5
    ensures Eval(p, t) == p[0] + t * (p[1] + t * (p[2] + t * (p[3] + t * p[4])))
  {
    assert EvalFrom(p, 5, t) == 0.0;
    assert EvalFrom(p, 4, t) == p[4] + t * EvalFrom(p, 5, t);
    assert EvalFrom(p, 3, t) == p[3] + t * EvalFrom(p, 4, t);
    assert EvalFrom(p, 2, t) == p[2] + t * EvalFrom(p, 3, t);
    assert EvalFrom(p, 1, t) == p[1] + t * EvalFrom(p, 2, t);
    assert EvalFrom(p, 0, t) == p[0] + t * EvalFrom(p, 1, t);
  }

  /** Horner evaluation of a polynomial of degree at most five. */
  lemma {:induction false} Eval6(p: seq<real>, t: real)
    requires |p| == 6
    ensures Eval(p, t) == p[0] + t * (p[1] + t * (p[2] + t * (p[3] + t * (p[4] + t * p[5]))))
  {
    assert EvalFrom(p, 6, t) == 0.0;
    assert EvalFrom(p, 5, t) == p[5] + t * EvalFrom(p, 6, t);
    assert EvalFrom(p, 4, t) == p[4] + t * EvalFrom(p, 5, t);
    assert EvalFrom(p, 3, t) == p[3] + t * EvalFrom(p, 4, t);
    assert EvalFrom(p, 2, t) == p[2] + t * EvalFrom(p, 3, t);
    assert EvalFrom(p, 1, t) == p[1] + t * EvalFrom(p, 2, t);
    assert EvalFrom(p, 0, t) == p[0] + t * EvalFrom(p, 1, t);
  }

  /** Horner evaluation of a polynomial of degree at most three. */
  lemma {:induction false} Eval4(p: seq<real>, t: real)
    requires |p| == 4
    ensures Eval(p, t) == p[0] + t * (p[1] + t * (p[2] + t * p[3]))
  {
    assert EvalFrom(p, 4, t) == 0.0;
    assert EvalFrom(p, 3, t) == p[3] + t * EvalFrom(p, 4, t);
    assert EvalFrom(p, 2, t) == p[2] + t * EvalFrom(p, 3, t);
    assert EvalFrom(p, 1, t) == p[1] + t * EvalFrom(p, 2, t);
    assert EvalFrom(p, 0, t) == p[0] + t * EvalFrom(p, 1, t);
  }
}
