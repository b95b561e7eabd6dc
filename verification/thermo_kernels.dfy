/** The mixture-level kernels of spitfire/griffon/src/thermodynamics_kernels.cpp:
    molecular weight and mole fractions, heat capacities at constant pressure
    and volume, the cp temperature sensitivity, enthalpies and internal
    energies. Output buffers become returned sequences; a kernel that fills
    both a mixture scalar and a per-species buffer returns a MixAndSpecies. */
module ThermoKernels {
  import opened Blas
  import opened SpeciesThermo

  /** The parts of mechanismData the kernels read: the species table (heat
      capacity type, coefficients, bounds, inverse molecular weight per
      species) and the universal gas constant Ru. */
  datatype Mechanism = Mechanism(species: seq<Species>, gasConstant: real)

  /** Every species table has the length its closure kind reads. */
  predicate Valid(m: Mechanism)
  {
    forall i :: 0 <= i < |m.species| ==> Shaped(m.species[i])
  }

  /** A kernel result with a mixture value and one value per species. */
  datatype MixAndSpecies = MixAndSpecies(mix: real, species: seq<real>)

  /** The vector of inverse molecular weights, 1/MW_i. */
  function InverseMolecularWeights(m: Mechanism): (w: seq<real>)
    ensures |w| == |m.species|
  {
    seq(|m.species|, i requires 0 <= i < |m.species| => m.species[i].invMW)
  }

  /** Σ y_i / MW_i, the moles per unit mass of the mixture. */
  function MolesPerMass(m: Mechanism, y: seq<real>): real
    requires |y| == |m.species|
  {
    InnerProduct(y, InverseMolecularWeights(m))
  }

  /** The running sum `acc += y[i]·v[i]` of the kernels' species loops,
      continued from index i: it adds up the inner product of the suffixes. */
  function Accumulate(y: seq<real>, v: seq<real>, i: nat, acc: real): (r: real)
    requires |y| == |v| && i <= |y|
    ensures r == acc + InnerProduct(y[i..], v[i..])
    decreases |y| - i
  {
    if i == |y| then acc
    else
      assert y[i..][1..] == y[i + 1..] && v[i..][1..] == v[i + 1..];
      Accumulate(y, v, i + 1, acc + y[i] * v[i])
  }

  // ---------------------------------------------------------------------
  // Molecular weight and mole fractions (lines 14-29)

  /** mixture_molecular_weight: the reciprocal of Σ y_i/MW_i, so that the
      mixture holds 1/MW moles per unit mass. No normalisation of y is done. */
  function MixtureMolecularWeight(m: Mechanism, y: seq<real>): (mmw: real)
    requires |y| == |m.species|
    requires MolesPerMass(m, y) != 0.0
    ensures mmw * MolesPerMass(m, y) == 1.0
  {
    1.0 / InnerProduct(y, InverseMolecularWeights(m))
  }

  /** A pure species (y the unit vector of species k) has the mixture
      molecular weight of that species. */
  lemma {:induction false} PureSpeciesMolecularWeight(m: Mechanism, k: nat)
    requires k < |m.species| && m.species[k].invMW != 0.0
    ensures MolesPerMass(m, Unit(|m.species|, k)) == m.species[k].invMW
    ensures MixtureMolecularWeight(m, Unit(|m.species|, k)) * m.species[k].invMW == 1.0
  {
    InnerProductUnit(InverseMolecularWeights(m), k);
  }

  /** mole_fractions: copy y, scale it by the mixture molecular weight, then
      multiply entry i by 1/MW_i. The fractions always add up to one. */
  function MoleFractions(m: Mechanism, y: seq<real>): (x: seq<real>)
    requires |y| == |m.species|
    requires MolesPerMass(m, y) != 0.0
    ensures |x| == |y|
    ensures forall i :: 0 <= i < |x| ==>
      x[i] == y[i] * m.species[i].invMW * MixtureMolecularWeight(m, y)
    ensures Sum(x) == 1.0
  {
    var mmw := MixtureMolecularWeight(m, y);
    var w := InverseMolecularWeights(m);
    var x := Hadamard(ScaleVector(y, mmw), w);
    SumHadamard(ScaleVector(y, mmw), w);
    InnerProductScaled(y, mmw, w);
    x
  }

  // ---------------------------------------------------------------------
  // Heat capacities (lines 43-121)

  /** cp_i(T) for every species. */
  function CpVector(m: Mechanism, t: real): (cp: seq<real>)
    requires Valid(m)
    ensures |cp| == |m.species|
  {
    seq(|m.species|, i requires 0 <= i < |m.species| => Cp(m.species[i], t))
  }

  /** cp_mix_and_species: the per-species cp, and the mass-weighted mixture
      cp Σ y_i·cp_i accumulated over the species loop. */
  function CpMixAndSpecies(m: Mechanism, t: real, y: seq<real>): (r: MixAndSpecies)
    requires Valid(m) && |y| == |m.species|
    ensures |r.species| == |m.species|
    ensures forall i :: 0 <= i < |m.species| ==> r.species[i] == Cp(m.species[i], t)
    ensures r.mix == InnerProduct(y, r.species)
  {
    var cp := CpVector(m, t);
    assert y[0..] == y && cp[0..] == cp;
    MixAndSpecies(Accumulate(y, cp, 0, 0.0), cp)
  }

  /** cp_mix: the mixture heat capacity Σ y_i·cp_i. */
  function CpMix(m: Mechanism, t: real, y: seq<real>): (cp: real)
    requires Valid(m) && |y| == |m.species|
    ensures cp == InnerProduct(y, CpVector(m, t))
  {
    CpMixAndSpecies(m, t, y).mix
  }

  /** species_cp: the output buffer is passed as the mass fractions too, and
      the per-species values never depend on what that buffer held. */
  function SpeciesCp(m: Mechanism, t: real, buffer: seq<real>): (cp: seq<real>)
    requires Valid(m) && |buffer| == |m.species|
    ensures cp == CpVector(m, t)
  {
    CpMixAndSpecies(m, t, buffer).species
  }

  /** cv_mix: cp_mix − Ru/MW, which is the mass-weighted sum of the species'
      own cv_i = cp_i − Ru/MW_i. The kernel divides Ru by the mixture
      molecular weight 1/(Σ y_i/MW_i); the model multiplies by Σ y_i/MW_i,
      which is the same number whenever the sum is non-zero, and is what the
      kernel's arithmetic gives when it is zero (Ru/∞ = 0), so y is not
      restricted. */
  function CvMix(m: Mechanism, t: real, y: seq<real>): (cv: real)
    requires Valid(m) && |y| == |m.species|
    ensures cv == CpMix(m, t, y) - m.gasConstant * MolesPerMass(m, y)
    ensures cv == InnerProduct(y, SpeciesCv(m, t, y))
  {
    var w := InverseMolecularWeights(m);
    InnerProductPlusScaled(CpVector(m, t), -m.gasConstant, w, y);
    InnerProductSymmetric(CpVector(m, t), y);
    InnerProductSymmetric(w, y);
    InnerProductSymmetric(SpeciesCv(m, t, y), y);
    CpMix(m, t, y) - m.gasConstant * MolesPerMass(m, y)
  }

  /** Where the mixture molecular weight exists, cv_mix is literally
      cp_mix − Ru/MW. */
  lemma {:induction false} CvMixThroughMolecularWeight(m: Mechanism, t: real, y: seq<real>)
    requires Valid(m) && |y| == |m.species|
    requires MolesPerMass(m, y) != 0.0
    ensures CvMix(m, t, y) == CpMix(m, t, y) - m.gasConstant / MixtureMolecularWeight(m, y)
  {
    var mmw := MixtureMolecularWeight(m, y);
    assert m.gasConstant / mmw == m.gasConstant * MolesPerMass(m, y);
  }

  /** species_cv: species_cp followed by cv_i = cp_i − Ru·(1/MW_i); the
      result does not depend on the buffer's incoming contents. */
  function SpeciesCv(m: Mechanism, t: real, buffer: seq<real>): (cv: seq<real>)
    requires Valid(m) && |buffer| == |m.species|
    ensures |cv| == |m.species|
    ensures forall i :: 0 <= i < |m.species| ==>
      cv[i] == Cp(m.species[i], t) - m.gasConstant * m.species[i].invMW
  {
    VectorPlusScaledVector(SpeciesCp(m, t, buffer), -m.gasConstant, InverseMolecularWeights(m))
  }

  /** cv_mix_and_species: the caller supplies the mixture molecular weight
      mmw; the mixture value subtracts Ru/mmw from Σ y_i·cp_i. */
  function CvMixAndSpecies(m: Mechanism, t: real, y: seq<real>, mmw: real): (r: MixAndSpecies)
    requires Valid(m) && |y| == |m.species|
    requires mmw != 0.0
    ensures r.mix == InnerProduct(y, CpVector(m, t)) - m.gasConstant / mmw
    ensures |r.species| == |m.species|
    ensures forall i :: 0 <= i < |m.species| ==>
      r.species[i] == Cp(m.species[i], t) - m.gasConstant * m.species[i].invMW
  {
    var cp := CpMixAndSpecies(m, t, y);
    MixAndSpecies(cp.mix - m.gasConstant / mmw,
                  VectorPlusScaledVector(cp.species, -m.gasConstant, InverseMolecularWeights(m)))
  }

  /** Given the true mixture molecular weight, cv_mix_and_species agrees
      with cv_mix and species_cv. */
  lemma {:induction false} CvMixAndSpeciesAgrees(m: Mechanism, t: real, y: seq<real>)
    requires Valid(m) && |y| == |m.species|
    requires MolesPerMass(m, y) != 0.0
    ensures CvMixAndSpecies(m, t, y, MixtureMolecularWeight(m, y))
            == MixAndSpecies(CvMix(m, t, y), SpeciesCv(m, t, y))
  {
  }

  // ---------------------------------------------------------------------
  // cp sensitivity to temperature (lines 123-162)

  /** d(cp_i)/dT for every species. */
  function CpSensVector(m: Mechanism, t: real): (d: seq<real>)
    requires Valid(m)
    ensures |d| == |m.species|
  {
    seq(|m.species|, i requires 0 <= i < |m.species| => CpSens(m.species[i], t))
  }

  /** The index just past the last CONST species (0 when there is none). */
  function AfterLastConst(sp: seq<Species>): (a: nat)
    ensures a <= |sp|
    ensures a > 0 ==> sp[a - 1].polyType == CONST
    ensures forall j :: a <= j < |sp| ==> sp[j].polyType == NASA7
  {
    if |sp| == 0 then 0
    else if sp[|sp| - 1].polyType == CONST then |sp|
    else
      var k := AfterLastConst(sp[..|sp| - 1]);
      assert forall j :: k <= j < |sp| - 1 ==> sp[..|sp| - 1][j] == sp[j];
      assert sp[|sp| - 1].polyType == NASA7;
      k
  }

  /** The mixture accumulator of cp_sens_T as written: a CONST species sets
      it back to zero (line 137) instead of adding zero. */
  function SensAccumulateAsWritten(sp: seq<Species>, y: seq<real>, d: seq<real>, i: nat, acc: real): (r: real)
    requires |sp| == |y| == |d| && i <= |y|
    ensures AfterLastConst(sp) > i ==>
      r == InnerProduct(y[AfterLastConst(sp)..], d[AfterLastConst(sp)..])
    ensures AfterLastConst(sp) <= i ==> r == acc + InnerProduct(y[i..], d[i..])
    decreases |y| - i
  {
    if i == |y| then acc
    else
      assert y[i..][1..] == y[i + 1..] && d[i..][1..] == d[i + 1..];
      SensAccumulateAsWritten(sp, y, d, i + 1, if sp[i].polyType == CONST then 0.0 else acc + y[i] * d[i])
  }

  /** cp_sens_T as written: per-species sensitivities, and a mixture value
      that only sums the species after the last CONST one. */
  function CpSensTAsWritten(m: Mechanism, t: real, y: seq<real>): (r: MixAndSpecies)
    requires Valid(m) && |y| == |m.species|
    ensures r.species == CpSensVector(m, t)
    ensures r.mix == InnerProduct(y[AfterLastConst(m.species)..], r.species[AfterLastConst(m.species)..])
  {
    var d := CpSensVector(m, t);
    assert y[0..] == y && d[0..] == d;
    MixAndSpecies(SensAccumulateAsWritten(m.species, y, d, 0, 0.0), d)
  }

  /** cp_sens_T with line 137 adding zero like the other zero-sensitivity
      branches: the mixture value is the mass-weighted sum Σ y_i·dcp_i/dT. */
  function CpSensT(m: Mechanism, t: real, y: seq<real>): (r: MixAndSpecies)
    requires Valid(m) && |y| == |m.species|
    ensures r.species == CpSensVector(m, t)
    ensures r.mix == InnerProduct(y, r.species)
  {
    var d := CpSensVector(m, t);
    assert y[0..] == y && d[0..] == d;
    MixAndSpecies(Accumulate(y, d, 0, 0.0), d)
  }

  /** The two versions agree exactly when the species before the last CONST
      one contribute nothing, e.g. when there is no CONST species at all. */
  lemma {:induction false} CpSensTAsWrittenAgreesWithoutConst(m: Mechanism, t: real, y: seq<real>)
    requires Valid(m) && |y| == |m.species|
    ensures CpSensTAsWritten(m, t, y).mix
            == CpSensT(m, t, y).mix - InnerProduct(y[..AfterLastConst(m.species)], CpSensVector(m, t)[..AfterLastConst(m.species)])
    ensures (forall i :: 0 <= i < |m.species| ==> m.species[i].polyType == NASA7) ==>
            CpSensTAsWritten(m, t, y) == CpSensT(m, t, y)
  {
    var d := CpSensVector(m, t);
    var a := AfterLastConst(m.species);
    InnerProductSplit(y, d, a);
    if forall i :: 0 <= i < |m.species| ==> m.species[i].polyType == NASA7 {
      assert y[0..] == y && d[0..] == d;
    }
  }

  /** A concrete mixture on which the reset loses a contribution: a NASA7
      species with d(cp)/dT = 2 followed by a CONST species, y = [1, 1].
      The as-written mixture value is 0; the mass-weighted sum is 2. */
  lemma CpSensResetCounterexample()
    ensures var nasa := Species(NASA7, [1000.0, 0.0, 0.0, 0.0, 0.0, 0.0, 0.0,
                                        0.0, 0.0, 1.0, 0.0, 0.0, 0.0, 0.0], 200.0, 3000.0, 1.0);
            var konst := Species(CONST, [300.0, 0.0, 0.0, 1000.0], 0.0, 0.0, 1.0);
            var m := Mechanism([nasa, konst], 8314.0);
            Valid(m)
            && CpSensTAsWritten(m, 500.0, [1.0, 1.0]).mix == 0.0
            && CpSensT(m, 500.0, [1.0, 1.0]).mix == 2.0
  {
    var nasa := Species(NASA7, [1000.0, 0.0, 0.0, 0.0, 0.0, 0.0, 0.0,
                                0.0, 0.0, 1.0, 0.0, 0.0, 0.0, 0.0], 200.0, 3000.0, 1.0);
    var konst := Species(CONST, [300.0, 0.0, 0.0, 1000.0], 0.0, 0.0, 1.0);
    var m := Mechanism([nasa, konst], 8314.0);
    var b := LowBlock(nasa.c);
    assert b[1] == 1.0 && b[2] == 0.0 && b[3] == 0.0 && b[4] == 0.0;
    Polynomial.Eval4(SensPoly(b), 500.0);
    assert CpSens(nasa, 500.0) == 2.0;
    assert CpSens(konst, 500.0) == 0.0;
    var d := CpSensVector(m, 500.0);
    assert d == [2.0, 0.0];
    assert AfterLastConst(m.species) == 2;
    var y := [1.0, 1.0];
    assert y[2..] == [] && d[2..] == [];
    assert InnerProduct(y, d) == 2.0;
  }

  // ---------------------------------------------------------------------
  // Enthalpies and internal energies (lines 164-239)

  /** species_enthalpies: h_i(T) for every species. */
  function SpeciesEnthalpies(m: Mechanism, t: real): (h: seq<real>)
    requires Valid(m)
    ensures |h| == |m.species|
    ensures forall i :: 0 <= i < |m.species| ==> h[i] == Enthalpy(m.species[i], t)
  {
    seq(|m.species|, i requires 0 <= i < |m.species| => Enthalpy(m.species[i], t))
  }

  /** The kernels' RT = Ru·T, the molar gas constant times the temperature. */
  function RT(m: Mechanism, t: real): real
  {
    m.gasConstant * t
  }

  /** species_energies: e_i = h_i − RT/MW_i for every species. */
  function SpeciesEnergies(m: Mechanism, t: real): (e: seq<real>)
    requires Valid(m)
    ensures |e| == |m.species|
    ensures forall i :: 0 <= i < |m.species| ==>
      e[i] == Enthalpy(m.species[i], t) - RT(m, t) * m.species[i].invMW
  {
    VectorPlusScaledVector(SpeciesEnthalpies(m, t), -RT(m, t), InverseMolecularWeights(m))
  }

  /** enthalpy_mix: Σ y_i·h_i. */
  function EnthalpyMix(m: Mechanism, t: real, y: seq<real>): (h: real)
    requires Valid(m) && |y| == |m.species|
    ensures h == InnerProduct(y, SpeciesEnthalpies(m, t))
  {
    InnerProductSymmetric(SpeciesEnthalpies(m, t), y);
    InnerProduct(SpeciesEnthalpies(m, t), y)
  }

  /** energy_mix: Σ y_i·e_i, which is the mixture enthalpy less
      RT·Σ y_i/MW_i. */
  function EnergyMix(m: Mechanism, t: real, y: seq<real>): (e: real)
    requires Valid(m) && |y| == |m.species|
    ensures e == EnthalpyMix(m, t, y) - RT(m, t) * MolesPerMass(m, y)
  {
    var h := SpeciesEnthalpies(m, t);
    var w := InverseMolecularWeights(m);
    assert SpeciesEnergies(m, t) == VectorPlusScaledVector(h, -RT(m, t), w);
    InnerProductPlusScaled(h, -RT(m, t), w, y);
    InnerProductSymmetric(h, y);
    InnerProductSymmetric(w, y);
    InnerProduct(SpeciesEnergies(m, t), y)
  }

  /** Weighting the species energies by y: Σ y_i·e_i is the weighted
      enthalpy less RT·Σ y_i/MW_i, whichever order the product is taken in. */
  lemma {:induction false} WeightedEnergies(m: Mechanism, t: real, y: seq<real>)
    requires Valid(m) && |y| == |m.species|
    ensures InnerProduct(SpeciesEnergies(m, t), y)
            == InnerProduct(y, SpeciesEnthalpies(m, t)) - RT(m, t) * MolesPerMass(m, y)
  {
    var e := EnergyMix(m, t, y);
    var h := EnthalpyMix(m, t, y);
    assert e == InnerProduct(SpeciesEnergies(m, t), y);
  }

  /** The ideal-gas relation between the mixture energies: when the mixture
      molecular weight exists, energy_mix = enthalpy_mix − Ru·T/MW. */
  lemma {:induction false} EnergyMixIsEnthalpyMixLessRTOverMW(m: Mechanism, t: real, y: seq<real>)
    requires Valid(m) && |y| == |m.species|
    requires MolesPerMass(m, y) != 0.0
    ensures EnergyMix(m, t, y) == EnthalpyMix(m, t, y) - m.gasConstant * t / MixtureMolecularWeight(m, y)
  {
    var mmw := MixtureMolecularWeight(m, y);
    assert 1.0 / mmw == MolesPerMass(m, y);
    assert m.gasConstant * t / mmw == m.gasConstant * t * (1.0 / mmw);
  }

  /** The worked example as a one-species mechanism: species_enthalpies at
      T = 500 gives [40100]. */
  lemma SingleConstSpeciesEnthalpy()
    ensures var m := Mechanism([Species(CONST, [300.0, 1000.0, 0.0, 2000.0], 0.0, 0.0, 0.1)], 8314.0);
            Valid(m) && SpeciesEnthalpies(m, 500.0) == [40100.0]
  {
    var m := Mechanism([Species(CONST, [300.0, 1000.0, 0.0, 2000.0], 0.0, 0.0, 0.1)], 8314.0);
    ConstSpeciesExample();
    assert Enthalpy(m.species[0], 500.0) == 40100.0;
  }
}
