/** Per-species heat-capacity closures of the griffon combustion kernels
    (spitfire/griffon/src/thermodynamics_kernels.cpp): one record per
    species and the four-way evaluation rule shared by cp, its temperature
    sensitivity and the enthalpy. Every quantity is a real number. */
module SpeciesThermo {
  import opened Polynomial

  /** The closure kind (griffon::HeatCapacityType). The kernels' `default:`
      branches for any other kind are unreachable with two constructors. */
  datatype HeatCapacityType = CONST | NASA7

  /** One species' thermodynamic data.
      CONST: c = [reference T, reference enthalpy, unused, constant cp].
      NASA7: c[0] is the range breakpoint, c[1..7] the high-range block and
      c[8..14] the low-range block; each block holds five polynomial
      coefficients followed by the enthalpy integration constant. */
  datatype Species = Species(polyType: HeatCapacityType, c: seq<real>, minT: real, maxT: real, invMW: real)

  /** The coefficient table has the length its closure kind reads. */
  predicate Shaped(s: Species)
  {
    match s.polyType
    case CONST => |s.c| == 4
    case NASA7 => |s.c| == 14
  }

  /** The data-model invariant of a NASA7 record: minT < breakpoint < maxT. */
  predicate Ordered(s: Species)
    requires Shaped(s)
  {
    s.polyType == NASA7 ==> s.minT < s.c[0] < s.maxT
  }

  /** The low-range block c[8..14] of a NASA7 table. */
  function LowBlock(c: seq<real>): (b: seq<real>)
    requires |c| == 14
    ensures |b| == 6
  {
    c[8..14]
  }

  /** The high-range block c[1..7] of a NASA7 table. */
  function HighBlock(c: seq<real>): (b: seq<real>)
    requires |c| == 14
    ensures |b| == 6
  {
    c[1..7]
  }

  /** The cp polynomial of a range block b, in ascending powers of t:
      b0 + 2·b1·t + 6·b2·t² + 12·b3·t³ + 20·b4·t⁴ (the Horner forms at
      lines 61, 65, 70 and 75 evaluate exactly this list). */
  function CpPoly(b: seq<real>): (p: seq<real>)
    requires |b| == 6
    ensures |p| == 5
  {
    [b[0], 2.0 * b[1], 6.0 * b[2], 12.0 * b[3], 20.0 * b[4]]
  }

  /** The cp-sensitivity polynomial of a range block (lines 141, 145):
      2·b1 + 12·b2·t + 36·b3·t² + 80·b4·t³. */
  function SensPoly(b: seq<real>): (p: seq<real>)
    requires |b| == 6
    ensures |p| == 4
  {
    [2.0 * b[1], 12.0 * b[2], 36.0 * b[3], 80.0 * b[4]]
  }

  /** The enthalpy polynomial of a range block (lines 182, 186):
      b5 + b0·t + b1·t² + 2·b2·t³ + 3·b3·t⁴ + 4·b4·t⁵. */
  function EnthalpyPoly(b: seq<real>): (p: seq<real>)
    requires |b| == 6
    ensures |p| == 6
  {
    [b[5], b[0], b[1], 2.0 * b[2], 3.0 * b[3], 4.0 * b[4]]
  }

  /** The out-of-range enthalpy of lines 190-197 and 201-208 is a Horner
      evaluation in the boundary temperature m whose coefficients are affine
      in the actual temperature t; this is that coefficient list. */
  function ExtrapolationPoly(b: seq<real>, t: real): (p: seq<real>)
    requires |b| == 6
    ensures |p| == 6
  {
    [b[5] + b[0] * t,
     2.0 * b[1] * t,
     3.0 * 2.0 * b[2] * t - b[1],
     4.0 * 3.0 * b[3] * t - 2.0 * 2.0 * b[2],
     5.0 * 4.0 * b[4] * t - 3.0 * 3.0 * b[3],
     -4.0 * 4.0 * b[4]]
  }

  /** Which of the kernels' branches a temperature falls into. */
  datatype Regime = Constant | LowRange | HighRange | BelowMin | AboveMax

  /** The branch rule of every per-species kernel: the CONST case, then the
      if / else-if chain of the NASA7 case. On an ordered record the four
      NASA7 branches partition the temperature axis at minT, c[0] and maxT,
      and the breakpoint itself belongs to the low range. */
  function RegimeAt(s: Species, t: real): (g: Regime)
    requires Shaped(s)
    ensures g == Constant <==> s.polyType == CONST
    ensures Ordered(s) && s.polyType == NASA7 ==>
      && (g == LowRange <==> s.minT <= t <= s.c[0])
      && (g == HighRange <==> s.c[0] < t <= s.maxT)
      && (g == BelowMin <==> t < s.minT)
      && (g == AboveMax <==> s.maxT < t)
  {
    if s.polyType == CONST then Constant
    else if t <= s.c[0] && t >= s.minT then LowRange
    else if t > s.c[0] && t <= s.maxT then HighRange
    else if t < s.minT then BelowMin
    else AboveMax
  }

  /** Mass-specific heat capacity of one species at t (the per-species body
      of cp_mix_and_species), following the kernels' branches; its value
      range by range is CpByRegime. */
  function Cp(s: Species, t: real): real
    requires Shaped(s)
  {
    match RegimeAt(s, t)
    case Constant => s.invMW * s.c[3]
    case LowRange => s.invMW * Eval(CpPoly(LowBlock(s.c)), t)
    case HighRange => s.invMW * Eval(CpPoly(HighBlock(s.c)), t)
    case BelowMin => s.invMW * Eval(CpPoly(LowBlock(s.c)), s.minT)
    case AboveMax => s.invMW * Eval(CpPoly(HighBlock(s.c)), s.maxT)
  }

  /** cp range by range. CONST: invMW·c[3] for every t. Ordered NASA7: the
      low polynomial on [minT, c[0]], the high one on (c[0], maxT], and
      outside that interval the value at the violated bound. */
  lemma {:induction false} CpByRegime(s: Species, t: real)
    requires Shaped(s)
    ensures s.polyType == CONST ==> Cp(s, t) == s.invMW * s.c[3]
    ensures s.polyType == NASA7 && Ordered(s) ==>
      && (s.minT <= t <= s.c[0] ==> Cp(s, t) == s.invMW * Eval(CpPoly(LowBlock(s.c)), t))
      && (s.c[0] < t <= s.maxT ==> Cp(s, t) == s.invMW * Eval(CpPoly(HighBlock(s.c)), t))
      && (t < s.minT ==> Cp(s, t) == s.invMW * Eval(CpPoly(LowBlock(s.c)), s.minT))
      && (s.maxT < t ==> Cp(s, t) == s.invMW * Eval(CpPoly(HighBlock(s.c)), s.maxT))
  {
    match RegimeAt(s, t)
    case _ =>
  }

  /** Temperature sensitivity of one species' cp (the per-species body of
      cp_sens_T): zero for CONST and, on an ordered NASA7 record, outside
      [minT, maxT]; inside it, the derivative of the active cp polynomial. */
  function CpSens(s: Species, t: real): (d: real)
    requires Shaped(s)
    ensures s.polyType == CONST ==> d == 0.0
    ensures s.polyType == NASA7 && Ordered(s) ==>
      && (s.minT <= t <= s.c[0] ==> d == s.invMW * Eval(Deriv(CpPoly(LowBlock(s.c))), t))
      && (s.c[0] < t <= s.maxT ==> d == s.invMW * Eval(Deriv(CpPoly(HighBlock(s.c))), t))
      && (t < s.minT || s.maxT < t ==> d == 0.0)
  {
    match RegimeAt(s, t)
    case Constant => 0.0
    case LowRange =>
      SensIsDerivative(LowBlock(s.c));
      s.invMW * Eval(SensPoly(LowBlock(s.c)), t)
    case HighRange =>
      SensIsDerivative(HighBlock(s.c));
      s.invMW * Eval(SensPoly(HighBlock(s.c)), t)
    case BelowMin => 0.0
    case AboveMax => 0.0
  }

  /** Mass-specific enthalpy of one species at t (the per-species body of
      species_enthalpies), following the kernels' branches; its value range
      by range is EnthalpyByRegime. */
  function Enthalpy(s: Species, t: real): real
    requires Shaped(s)
  {
    match RegimeAt(s, t)
    case Constant => s.invMW * (s.c[1] + s.c[3] * (t - s.c[0]))
    case LowRange => s.invMW * Eval(EnthalpyPoly(LowBlock(s.c)), t)
    case HighRange => s.invMW * Eval(EnthalpyPoly(HighBlock(s.c)), t)
    case BelowMin =>
      ExtrapolationIsTangent(LowBlock(s.c), s.minT, t);
      s.invMW * Eval(ExtrapolationPoly(LowBlock(s.c), t), s.minT)
    case AboveMax =>
      ExtrapolationIsTangent(HighBlock(s.c), s.maxT, t);
      s.invMW * Eval(ExtrapolationPoly(HighBlock(s.c), t), s.maxT)
  }

  /** The enthalpy range by range. CONST: linear in t through
      (c[0], invMW·c[1]). Ordered NASA7: the active range's enthalpy
      polynomial on [minT, maxT]; outside it, the polynomial's value at the
      violated bound plus the frozen cp times the distance from that bound.
      Kept apart from Enthalpy so that the vector kernels above it do not
      carry these cases. */
  lemma {:induction false} EnthalpyByRegime(s: Species, t: real)
    requires Shaped(s)
    ensures s.polyType == CONST ==> Enthalpy(s, t) == s.invMW * (s.c[1] + s.c[3] * (t - s.c[0]))
    ensures s.polyType == NASA7 && Ordered(s) ==>
      && (s.minT <= t <= s.c[0] ==> Enthalpy(s, t) == s.invMW * Eval(EnthalpyPoly(LowBlock(s.c)), t))
      && (s.c[0] < t <= s.maxT ==> Enthalpy(s, t) == s.invMW * Eval(EnthalpyPoly(HighBlock(s.c)), t))
      && (t < s.minT ==>
            Enthalpy(s, t) == s.invMW * (Eval(EnthalpyPoly(LowBlock(s.c)), s.minT)
                                         + Eval(CpPoly(LowBlock(s.c)), s.minT) * (t - s.minT)))
      && (s.maxT < t ==>
            Enthalpy(s, t) == s.invMW * (Eval(EnthalpyPoly(HighBlock(s.c)), s.maxT)
                                         + Eval(CpPoly(HighBlock(s.c)), s.maxT) * (t - s.maxT)))
  {
    if s.polyType == NASA7 && Ordered(s) {
      if t < s.minT {
        EnthalpyBelowMin(s, t);
      } else if s.maxT < t {
        EnthalpyAboveMax(s, t);
      }
    }
  }

  /** The BelowMin branch: the kernels' expanded expression at minT. */
  lemma {:induction false} EnthalpyBelowMin(s: Species, t: real)
    requires Shaped(s) && Ordered(s) && s.polyType == NASA7 && t < s.minT
    ensures Enthalpy(s, t) == s.invMW * (Eval(EnthalpyPoly(LowBlock(s.c)), s.minT)
                                         + Eval(CpPoly(LowBlock(s.c)), s.minT) * (t - s.minT))
  {
    assert RegimeAt(s, t) == BelowMin;
    ExtrapolationIsTangent(LowBlock(s.c), s.minT, t);
  }

  /** The AboveMax branch: the kernels' expanded expression at maxT. */
  lemma {:induction false} EnthalpyAboveMax(s: Species, t: real)
    requires Shaped(s) && Ordered(s) && s.polyType == NASA7 && s.maxT < t
    ensures Enthalpy(s, t) == s.invMW * (Eval(EnthalpyPoly(HighBlock(s.c)), s.maxT)
                                         + Eval(CpPoly(HighBlock(s.c)), s.maxT) * (t - s.maxT))
  {
    assert RegimeAt(s, t) == AboveMax;
    ExtrapolationIsTangent(HighBlock(s.c), s.maxT, t);
  }

  /** The sensitivity list is the formal derivative of the cp list. */
  lemma {:induction false} SensIsDerivative(b: seq<real>)
    requires |b| == 6
    ensures Deriv(CpPoly(b)) == SensPoly(b)
  {
    var d := Deriv(CpPoly(b));
    assert d[0] == SensPoly(b)[0] && d[1] == SensPoly(b)[1];
    assert d[2] == SensPoly(b)[2] && d[3] == SensPoly(b)[3];
  }

  /** The kernels' expanded out-of-range expression, read as a polynomial in
      the bound m, is the tangent line of the enthalpy polynomial at m
      evaluated at t. */
  lemma {:induction false} ExtrapolationIsTangent(b: seq<real>, m: real, t: real)
    requires |b| == 6
    ensures Eval(ExtrapolationPoly(b, t), m) == Eval(EnthalpyPoly(b), m) + Eval(CpPoly(b), m) * (t - m)
  {
    Eval6(ExtrapolationPoly(b, t), m);
    Eval6(EnthalpyPoly(b), m);
    Eval5(CpPoly(b), m);
  }

  /** The cp list evaluates to the kernel's literal Horner expression
      (line 61 for the low block; line 65 reads the same with c[1..7] in
      place of c[8..14]). */
  lemma {:induction false} CpHornerForm(b: seq<real>, t: real)
    requires |b| == 6
    ensures Eval(CpPoly(b), t) == b[0] + t * (2.0 * b[1] + t * (6.0 * b[2] + t * (12.0 * b[3] + 20.0 * t * b[4])))
  {
    var p := CpPoly(b);
    assert p == [b[0], 2.0 * b[1], 6.0 * b[2], 12.0 * b[3], 20.0 * b[4]];
    Eval5(p, t);
    assert t * (20.0 * b[4]) == 20.0 * t * b[4];
  }

  /** The cp-sensitivity list evaluates to the literal Horner expression
      of lines 141 and 145. */
  lemma {:induction false} SensHornerForm(b: seq<real>, t: real)
    requires |b| == 6
    ensures Eval(SensPoly(b), t) == 2.0 * b[1] + t * (12.0 * b[2] + t * (36.0 * b[3] + 80.0 * t * b[4]))
  {
    var p := SensPoly(b);
    assert p == [2.0 * b[1], 12.0 * b[2], 36.0 * b[3], 80.0 * b[4]];
    Eval4(p, t);
    assert t * (80.0 * b[4]) == 80.0 * t * b[4];
  }

  /** The enthalpy list evaluates to the literal Horner expression of
      lines 182 and 186. */
  lemma {:induction false} EnthalpyHornerForm(b: seq<real>, t: real)
    requires |b| == 6
    ensures Eval(EnthalpyPoly(b), t)
            == b[5] + t * (b[0] + t * (b[1] + t * (2.0 * b[2] + t * (3.0 * b[3] + t * 4.0 * b[4]))))
  {
    var p := EnthalpyPoly(b);
    assert p == [b[5], b[0], b[1], 2.0 * b[2], 3.0 * b[3], 4.0 * b[4]];
    Eval6(p, t);
    assert t * (4.0 * b[4]) == t * 4.0 * b[4];
  }

  /** The extrapolation list evaluates to the literal Horner expression in
      the boundary temperature m of lines 190-197 and 201-208. */
  lemma {:induction false} ExtrapolationHornerForm(b: seq<real>, t: real, m: real)
    requires |b| == 6
    ensures Eval(ExtrapolationPoly(b, t), m)
            == b[5] + b[0] * t
               + m * (2.0 * b[1] * t
                      + m * (3.0 * 2.0 * b[2] * t - b[1]
                             + m * (4.0 * 3.0 * b[3] * t - 2.0 * 2.0 * b[2]
                                    + m * (5.0 * 4.0 * b[4] * t - 3.0 * 3.0 * b[3] + m * -4.0 * 4.0 * b[4]))))
  {
    var p := ExtrapolationPoly(b, t);
    assert p[5] == -4.0 * 4.0 * b[4];
    Eval6(p, m);
    assert m * (-4.0 * 4.0 * b[4]) == m * -4.0 * 4.0 * b[4];
  }

  // ---------------------------------------------------------------------
  // Properties of the closures

  /** Each range's enthalpy polynomial is an antiderivative of its cp
      polynomial, with integration constant b[5] (c[13] low, c[6] high),
      and the sensitivity polynomial is the derivative of cp. */
  lemma {:induction false} EnthalpyIsAntiderivativeOfCp(c: seq<real>)
    requires |c| == 14
    ensures Deriv(EnthalpyPoly(LowBlock(c))) == CpPoly(LowBlock(c))
    ensures Deriv(EnthalpyPoly(HighBlock(c))) == CpPoly(HighBlock(c))
    ensures Eval(EnthalpyPoly(LowBlock(c)), 0.0) == c[13]
    ensures Eval(EnthalpyPoly(HighBlock(c)), 0.0) == c[6]
  {
    BlockAntiderivative(LowBlock(c));
    BlockAntiderivative(HighBlock(c));
  }

  /** Antiderivative relation for one range block. */
  lemma {:induction false} BlockAntiderivative(b: seq<real>)
    requires |b| == 6
    ensures Deriv(EnthalpyPoly(b)) == CpPoly(b)
    ensures Eval(EnthalpyPoly(b), 0.0) == b[5]
  {
    var d := Deriv(EnthalpyPoly(b));
    assert d[0] == b[0] && d[1] == 2.0 * b[1] && d[2] == 6.0 * b[2];
    assert d[3] == 12.0 * b[3] && d[4] == 20.0 * b[4];
    Eval6(EnthalpyPoly(b), 0.0);
  }

  /** k·(h + c·d) = k·h + (k·c)·d. */
  lemma {:induction false} ScaledLine(k: real, h: real, c: real, d: real)
    ensures k * (h + c * d) == k * h + (k * c) * d
  {
  }

  /** Below minT the enthalpy of an ordered NASA7 species is the tangent
      line at minT: it passes through the in-range value at minT (value
      continuity) with slope the frozen cp, which is the in-range cp at minT
      (slope continuity). */
  lemma {:induction false} EnthalpyTangentBelowMin(s: Species, t: real)
    requires Shaped(s) && Ordered(s) && s.polyType == NASA7
    requires t < s.minT
    ensures Enthalpy(s, t) == Enthalpy(s, s.minT) + Cp(s, s.minT) * (t - s.minT)
    ensures Cp(s, t) == Cp(s, s.minT)
  {
    var m := s.minT;
    EnthalpyBelowMin(s, t);
    EnthalpyByRegime(s, m);
    CpByRegime(s, m);
    CpByRegime(s, t);
    ScaledLine(s.invMW, Eval(EnthalpyPoly(LowBlock(s.c)), m), Eval(CpPoly(LowBlock(s.c)), m), t - m);
  }

  /** Above maxT the enthalpy of an ordered NASA7 species is the tangent
      line at maxT, with slope the frozen cp. */
  lemma {:induction false} EnthalpyTangentAboveMax(s: Species, t: real)
    requires Shaped(s) && Ordered(s) && s.polyType == NASA7
    requires s.maxT < t
    ensures Enthalpy(s, t) == Enthalpy(s, s.maxT) + Cp(s, s.maxT) * (t - s.maxT)
    ensures Cp(s, t) == Cp(s, s.maxT)
  {
    var m := s.maxT;
    EnthalpyAboveMax(s, t);
    EnthalpyByRegime(s, m);
    CpByRegime(s, m);
    CpByRegime(s, t);
    ScaledLine(s.invMW, Eval(EnthalpyPoly(HighBlock(s.c)), m), Eval(CpPoly(HighBlock(s.c)), m), t - m);
  }

  /** A CONST species has an affine enthalpy whose slope is its cp and which
      takes the reference enthalpy c[1]·invMW at the reference temperature c[0]. */
  lemma {:induction false} ConstEnthalpyIsAffine(s: Species, t: real, u: real)
    requires Shaped(s) && s.polyType == CONST
    ensures Enthalpy(s, u) - Enthalpy(s, t) == Cp(s, t) * (u - t)
    ensures Enthalpy(s, s.c[0]) == s.invMW * s.c[1]
  {
    EnthalpyByRegime(s, u);
    EnthalpyByRegime(s, t);
    EnthalpyByRegime(s, s.c[0]);
    CpByRegime(s, t);
    assert Enthalpy(s, u) - Enthalpy(s, t) == s.invMW * (s.c[3] * (u - s.c[0]) - s.c[3] * (t - s.c[0]));
    assert s.c[3] * (u - s.c[0]) - s.c[3] * (t - s.c[0]) == s.c[3] * (u - t);
  }

  /** The worked example: c = [300, 1000, 0, 2000], invMW = 0.1 and
      T = 500 give cp = 200 and h = 0.1·(1000 + 2000·200) = 40100. */
  lemma ConstSpeciesExample()
    ensures var s := Species(CONST, [300.0, 1000.0, 0.0, 2000.0], 0.0, 0.0, 0.1);
            Enthalpy(s, 500.0) == 40100.0 && Cp(s, 500.0) == 200.0
  {
    EnthalpyByRegime(Species(CONST, [300.0, 1000.0, 0.0, 2000.0], 0.0, 0.0, 0.1), 500.0);
    CpByRegime(Species(CONST, [300.0, 1000.0, 0.0, 2000.0], 0.0, 0.0, 0.1), 500.0);
  }
}
