# Spitfire thermodynamics kernels and tabulated-library container in Dafny

This project models two parts of Spitfire.

The first is the thermodynamic closure of the griffon kernel
(`spitfire/griffon/src/thermodynamics_kernels.cpp`). It covers:

- the mixture molecular weight and mole fractions;
- per-species heat capacity cp, cv, the temperature sensitivity of cp,
  enthalpy and internal energy;
- the mass-weighted mixture sums of those quantities.

A mechanism is a sequence of species records. Each record holds a CONST
(4 coefficients) or NASA7 (14 coefficients) heat-capacity closure, `minT`,
`maxT` and the inverse molecular weight. All quantities are Dafny `real`s.
The BLAS helpers the kernels call (`inner_product`, `scale_vector`,
`vector_plus_scaled_vector`) are given their mathematical meaning in module
`Blas`. The NASA7 polynomials are coefficient lists evaluated by Horner's
rule in module `Polynomial`.

The second is the tabulated-library container of
`spitfire/chemistry/library.py`: the `Dimension` and `Library` classes.

- Python dicts are modelled as insertion-ordered association lists
  (`OrderedDict.ODict`), because the library's dimension, property and
  extra-attribute order is the dicts' insertion order.
- A numpy array is a shape plus its data in C order (`NdArray.Array`).
- Every operation that can raise returns a `PyResult.Result`. Its error
  names the Python exception and, for `ValueError` and
  `LibraryIndexError`, which check raised it.

Modules, in dependency order:

| file | module | models |
|---|---|---|
| blas.dfy | `Blas` | the BLAS helpers, and linearity lemmas about them |
| polynomial.dfy | `Polynomial` | polynomial evaluation and the formal derivative |
| species_thermo.dfy | `SpeciesThermo` | one species' cp, d(cp)/dT and enthalpy, with the four-way range dispatch |
| thermo_kernels.dfy | `ThermoKernels` | the mixture kernels |
| py_result.dfy | `PyResult` | Python exceptions and the result type |
| ordered_dict.dfy | `OrderedDict` | insertion-ordered dicts: get, put, pop |
| ndarray.dfy | `NdArray` | shapes, meshgrid, squeeze, and basic-indexing gather |
| dimension.dfy | `Dimensions` | `Dimension`: constructor checks, grid getter/setter, saved fields |
| library.dfy | `Libraries` | `Library`: constructor, accessors, `__setitem__`, property read, `remove` |
| library_state.dfy | `LibraryState` | `__copy__`, `__getstate__`, `__setstate__` |
| library_squeeze.dfy | `LibrarySqueeze` | `Library.squeeze` |
| library_index.dfy | `LibraryIndex` | `__getitem__`: property read, and slicing with ints and slices |

The predicate `Libraries.Consistent` is the invariant shared by every
library the constructor builds from distinct dimension names. It says that:

- the dimensions dict lists the names in constructor order;
- rebuilding the library from its own `dims` gives it back, without
  properties and extra attributes;
- every property has the grid's shape.

`ConstructConsistent` proves that the constructor establishes it.
`SetItemPreserves` and `RemoveKeepsOthers` prove that assignment and removal
keep it. The round-trip lemmas (`CopyIsLibrary`, `StateRoundTrip`,
`SliceEverything`, `SqueezeUnstructured`) start from it.

As written, the constructor raises TypeError for every non-empty
unstructured library (see Findings). The library operations are modelled
through the corrected constructor. The members whose names end in
`AsWritten` give the program's own behaviour, and their lemmas state where
the two differ.

## Model

| member | source | states |
|---|---|---|
| ThermoKernels.MixtureMolecularWeight | spitfire/griffon/src/thermodynamics_kernels.cpp:14-18 | the result times Σ y_i/MW_i is one: the mixture holds 1/MW moles per unit mass |
| ThermoKernels.PureSpeciesMolecularWeight | spitfire/griffon/src/thermodynamics_kernels.cpp:14-18 | a pure species has Σ y_i/MW_i equal to its own 1/MW, so the mixture molecular weight is that species' |
| ThermoKernels.MoleFractions | spitfire/griffon/src/thermodynamics_kernels.cpp:20-29 | x_i = y_i·(1/MW_i)·MW(y), and the mole fractions always sum to one |
| ThermoKernels.Accumulate | spitfire/griffon/src/thermodynamics_kernels.cpp:47-48 | the running `acc += y[i]·v[i]` of a species loop adds the inner product of the remaining entries to its start value |
| ThermoKernels.CpMixAndSpecies | spitfire/griffon/src/thermodynamics_kernels.cpp:43-84 | species entry i is cp_i(T) of species i, and the mixture value is Σ y_i·cp_i |
| ThermoKernels.CpMix | spitfire/griffon/src/thermodynamics_kernels.cpp:86-92 | the mixture cp is the inner product of y with the species cp vector |
| ThermoKernels.SpeciesCp | spitfire/griffon/src/thermodynamics_kernels.cpp:94-97 | the per-species cp equals the cp vector whatever the output buffer, passed as y, held |
| ThermoKernels.CvMix | spitfire/griffon/src/thermodynamics_kernels.cpp:99-102 | for every mass-fraction vector, cv_mix = cp_mix − Ru·Σ y_i/MW_i, which equals Σ y_i·cv_i over the species cv |
| ThermoKernels.CvMixThroughMolecularWeight | spitfire/griffon/src/thermodynamics_kernels.cpp:101 | when Σ y_i/MW_i ≠ 0, cv_mix is cp_mix − Ru/MW(y), the kernel's own expression |
| ThermoKernels.SpeciesCv | spitfire/griffon/src/thermodynamics_kernels.cpp:104-111 | cv_i = cp_i − Ru/MW_i for every species, independent of the buffer's contents |
| ThermoKernels.CvMixAndSpecies | spitfire/griffon/src/thermodynamics_kernels.cpp:113-121 | the mixture value is Σ y_i·cp_i − Ru/mmw with the caller's mmw; species i is cp_i − Ru/MW_i |
| ThermoKernels.CvMixAndSpeciesAgrees | spitfire/griffon/src/thermodynamics_kernels.cpp:99-121 | given the true mixture molecular weight, cv_mix_and_species returns exactly cv_mix and species_cv |
| ThermoKernels.AfterLastConst | spitfire/griffon/src/thermodynamics_kernels.cpp:134-138 | the index just past the last CONST species: that species is CONST and every later one is NASA7 |
| ThermoKernels.SensAccumulateAsWritten | spitfire/griffon/src/thermodynamics_kernels.cpp:127-161 | the accumulator as written ends as the inner product over the species after the last CONST one |
| ThermoKernels.CpSensTAsWritten | spitfire/griffon/src/thermodynamics_kernels.cpp:123-162 | as written: species i gets d(cp_i)/dT, but the mixture value sums only the species after the last CONST one |
| ThermoKernels.CpSensT | spitfire/griffon/src/thermodynamics_kernels.cpp:123-162 | with line 137 adding zero like lines 150 and 154: the mixture value is Σ y_i·d(cp_i)/dT |
| ThermoKernels.CpSensTAsWrittenAgreesWithoutConst | spitfire/griffon/src/thermodynamics_kernels.cpp:134-138 | the two versions differ by the contributions of the species up to the last CONST one, and agree when every species is NASA7 |
| ThermoKernels.CpSensResetCounterexample | spitfire/griffon/src/thermodynamics_kernels.cpp:137 | a NASA7 species followed by a CONST species: the mixture sensitivity as written is 0 where the mass-weighted sum is 2 |
| ThermoKernels.SpeciesEnthalpies | spitfire/griffon/src/thermodynamics_kernels.cpp:164-216 | entry i is the enthalpy of species i at T |
| ThermoKernels.SpeciesEnergies | spitfire/griffon/src/thermodynamics_kernels.cpp:218-225 | e_i = h_i − RT/MW_i for every species, with RT = Ru·T |
| ThermoKernels.RT | spitfire/griffon/src/thermodynamics_kernels.cpp:223 | RT = Ru·T, the scale of the −RT/MW_i shift that SpeciesEnergies and EnergyMixIsEnthalpyMixLessRTOverMW state |
| ThermoKernels.EnthalpyMix | spitfire/griffon/src/thermodynamics_kernels.cpp:227-232 | the mixture enthalpy is Σ y_i·h_i |
| ThermoKernels.EnergyMix | spitfire/griffon/src/thermodynamics_kernels.cpp:234-239 | the mixture energy is the mixture enthalpy less Ru·T·Σ y_i/MW_i |
| ThermoKernels.WeightedEnergies | spitfire/griffon/src/thermodynamics_kernels.cpp:234-239 | weighting the species energies by y gives Σ y_i·h_i − Ru·T·Σ y_i/MW_i |
| ThermoKernels.EnergyMixIsEnthalpyMixLessRTOverMW | spitfire/griffon/src/thermodynamics_kernels.cpp:218-239 | energy_mix = enthalpy_mix − Ru·T/MW(y) whenever the mixture molecular weight exists |
| ThermoKernels.SingleConstSpeciesEnthalpy | spitfire/griffon/src/thermodynamics_kernels.cpp:176-178 | a one-species CONST mechanism with c = [300, 1000, 0, 2000] and 1/MW = 0.1 has enthalpy 40100 at T = 500 |
| SpeciesThermo.RegimeAt | spitfire/griffon/src/thermodynamics_kernels.cpp:54-78 | CONST exactly for a CONST species; for an ordered NASA7 record the low range is exactly minT ≤ T ≤ c[0], the high range exactly c[0] < T ≤ maxT, and below/above exactly T < minT / T > maxT |
| SpeciesThermo.Cp | spitfire/griffon/src/thermodynamics_kernels.cpp:54-78 | the per-species cp of the branch chain: invMW·c[3] for CONST, the low or high Horner polynomial inside the range, and the polynomial frozen at the violated bound outside it; its values range by range are stated by CpByRegime, for ordered records only |
| SpeciesThermo.Enthalpy | spitfire/griffon/src/thermodynamics_kernels.cpp:175-210 | the per-species enthalpy of the branch chain: invMW·(c[1] + c[3]·(T − c[0])) for CONST, the low or high enthalpy polynomial inside the range, and the expanded tangent expressions outside it; its values range by range are stated by EnthalpyByRegime, for ordered records only |
| SpeciesThermo.CpByRegime | spitfire/griffon/src/thermodynamics_kernels.cpp:54-78 | CONST: invMW·c[3] at every T; ordered NASA7: the low polynomial on [minT, c[0]], the high one on (c[0], maxT], and the value at the violated bound outside |
| SpeciesThermo.CpSens | spitfire/griffon/src/thermodynamics_kernels.cpp:134-156 | zero for CONST and outside [minT, maxT]; in range, invMW times the formal derivative of the active cp polynomial |
| SpeciesThermo.EnthalpyByRegime | spitfire/griffon/src/thermodynamics_kernels.cpp:175-210 | CONST: invMW·(c[1] + c[3]·(T − c[0])); ordered NASA7: the active enthalpy polynomial in range, and outside it the tangent line at the violated bound |
| SpeciesThermo.EnthalpyBelowMin | spitfire/griffon/src/thermodynamics_kernels.cpp:188-198 | below minT, the enthalpy is invMW times the low enthalpy polynomial at minT plus the low cp polynomial at minT times (T − minT) |
| SpeciesThermo.EnthalpyAboveMax | spitfire/griffon/src/thermodynamics_kernels.cpp:199-209 | above maxT, the enthalpy is invMW times the high enthalpy polynomial at maxT plus the high cp polynomial at maxT times (T − maxT) |
| SpeciesThermo.SensIsDerivative | spitfire/griffon/src/thermodynamics_kernels.cpp:141-145 | the sensitivity coefficients are the formal derivative of the cp coefficients |
| SpeciesThermo.ExtrapolationIsTangent | spitfire/griffon/src/thermodynamics_kernels.cpp:188-209 | the out-of-range expression equals the enthalpy polynomial at the bound plus the cp polynomial at the bound times (T − bound) |
| SpeciesThermo.CpHornerForm | spitfire/griffon/src/thermodynamics_kernels.cpp:61-65 | the cp coefficient list evaluates to the kernel's literal Horner expression for cp |
| SpeciesThermo.SensHornerForm | spitfire/griffon/src/thermodynamics_kernels.cpp:141-145 | the sensitivity list evaluates to the literal Horner expression for d(cp)/dT |
| SpeciesThermo.EnthalpyHornerForm | spitfire/griffon/src/thermodynamics_kernels.cpp:181-186 | the enthalpy list evaluates to the literal Horner expression for the in-range enthalpy |
| SpeciesThermo.ExtrapolationHornerForm | spitfire/griffon/src/thermodynamics_kernels.cpp:188-209 | the extrapolation list, as a polynomial in the bound, evaluates to the literal out-of-range expression |
| SpeciesThermo.EnthalpyIsAntiderivativeOfCp | spitfire/griffon/src/thermodynamics_kernels.cpp:180-187 | each range's enthalpy polynomial differentiates to its cp polynomial, with constant c[13] (low) or c[6] (high) |
| SpeciesThermo.BlockAntiderivative | spitfire/griffon/src/thermodynamics_kernels.cpp:182 | one range block: the enthalpy polynomial's derivative is the cp polynomial and its value at 0 is b[5] |
| SpeciesThermo.EnthalpyTangentBelowMin | spitfire/griffon/src/thermodynamics_kernels.cpp:188-198 | below minT, h(T) = h(minT) + cp(minT)·(T − minT) and cp(T) = cp(minT): value and slope continuity at minT |
| SpeciesThermo.EnthalpyTangentAboveMax | spitfire/griffon/src/thermodynamics_kernels.cpp:199-209 | above maxT, h(T) = h(maxT) + cp(maxT)·(T − maxT) and cp(T) = cp(maxT) |
| SpeciesThermo.ConstEnthalpyIsAffine | spitfire/griffon/src/thermodynamics_kernels.cpp:176-178 | a CONST enthalpy is affine with slope cp, and equals invMW·c[1] at T = c[0] |
| SpeciesThermo.ConstSpeciesExample | spitfire/griffon/src/thermodynamics_kernels.cpp:55-57 | c = [300, 1000, 0, 2000], invMW = 0.1 and T = 500 give cp = 200 and h = 40100 |
| Dimensions.SeqMin | spitfire/chemistry/library.py:39 | the minimum is one of the values and no value is below it |
| Dimensions.SeqMax | spitfire/chemistry/library.py:40 | the maximum is one of the values and no value is above it |
| Dimensions.NewDimension | spitfire/chemistry/library.py:36-57 | succeeds exactly for non-empty 1-D values and an identifier name, without duplicates when structured; each refusal is the ValueError of its check, in the constructor's order; on success min, max and npts are those of the values |
| Dimensions.ConstructedIsValid | spitfire/chemistry/library.py:36-57 | every dimension the constructor returns satisfies all of its checks |
| Dimensions.Restore | spitfire/chemistry/library.py:198 | a dimension rebuilt from saved fields saves back to the same fields, with the requested ownership |
| Dimensions.RestoreFacts | spitfire/chemistry/library.py:36-57 | rebuilding from saved fields succeeds exactly when they pass every check, and yields the ungridded dimension of those fields |
| Dimensions.RestoreSaved | spitfire/chemistry/library.py:114-115 | saving a valid dimension and rebuilding it gives it back, ungridded |
| Dimensions.DuplicatesOnlyRejectedWhenStructured | spitfire/chemistry/library.py:54-57 | repeated values are accepted when unstructured and refused with ValueError when structured |
| Dimensions.HyphenatedNameRejected | spitfire/chemistry/library.py:46-48 | the name "mixture-fraction" is refused as not an identifier |
| Dimensions.Grid | spitfire/chemistry/library.py:94-102 | the grid is the values until one is assigned, then the assigned grid |
| Dimensions.SetGrid | spitfire/chemistry/library.py:104-112 | assignment succeeds exactly on a library-owned dimension, else ValueError; only the grid changes |
| Dimensions.SetThenGet | spitfire/chemistry/library.py:102-112 | on an owned dimension the grid reads back what was set and the saved fields are unchanged |
| Dimensions.UserDimensionKeepsValues | spitfire/chemistry/library.py:102-112 | a dimension built outside a library refuses a grid and its grid stays its values |
| Dimensions.SaveDict | spitfire/chemistry/library.py:114-115 | the saved record carries the name, values and structured flag |
| Libraries.Reconstruct | spitfire/chemistry/library.py:144 | rebuilding each argument succeeds exactly when every one is buildable, and gives one rebuilt dimension per argument |
| Libraries.ReconstructSpecs | spitfire/chemistry/library.py:144 | the rebuilt dimensions save to the records they were built from |
| Libraries.ReconstructValid | spitfire/chemistry/library.py:144 | dimensions that passed the checks once pass them again when rebuilt |
| Libraries.SetGrids | spitfire/chemistry/library.py:160-161 | every grid assignment succeeds exactly when all dimensions are owned; each then has its meshgrid component as grid and nothing else changes |
| Libraries.Construct | spitfire/chemistry/library.py:143-177 | a built library has the arguments' names as its ordering, no properties or extra attributes, and a grid shape exactly when it has dimensions |
| Libraries.AttributeClash | spitfire/chemistry/library.py:171-173 | a dimension name raises exactly when it is a read-only property (extra_attributes, size, shape, props, dims: AttributeError) or _dims (TypeError) |
| Libraries.SetAttributes | spitfire/chemistry/library.py:171-175 | the attribute loop succeeds exactly when no name clashes, and changes nothing then |
| Libraries.SetAttributesFirstClash | spitfire/chemistry/library.py:171-173 | a failing attribute loop raises the exception of the first clashing name |
| Libraries.RebuiltDict | spitfire/chemistry/library.py:144 | the dimensions dict is keyed by the argument names and holds only valid dimensions |
| Libraries.Assemble | spitfire/chemistry/library.py:150-169 | after the structure check, no dimensions gives a structured library without a grid shape |
| Libraries.StructuredGrid | spitfire/chemistry/library.py:157-161 | the grid shape is the tuple of the dimension sizes, and every dimension's grid has that shape |
| Libraries.UnstructuredGrid | spitfire/chemistry/library.py:162-169 | accepted exactly when all grids share the first one's shape and are flat; the shape check's ValueError comes before the flatness check's |
| Libraries.ConstructAsWritten | spitfire/chemistry/library.py:162-164 | as written, a library that is built is structured and equals the intended one |
| Libraries.NewLibrary | spitfire/chemistry/library.py:143-148 | a library built from dimension objects has their names as its ordering |
| Libraries.NewLibraryAsWritten | spitfire/chemistry/library.py:143-177 | as written, `Library(*ds)` is the intended library when that is structured and TypeError when it is unstructured |
| Libraries.Dims | spitfire/chemistry/library.py:394-400 | entry i is the dimension stored under the i-th name of the ordering |
| Libraries.DictOfDistinct | spitfire/chemistry/library.py:144-148 | with distinct names, the dimensions dict lists the rebuilt arguments in argument order |
| Libraries.DimsAt | spitfire/chemistry/library.py:394-400 | when the dict's keys are the ordering, dims lists the dict's values in order |
| Libraries.StructuredConstruct | spitfire/chemistry/library.py:146-161 | a structured library keeps each argument's fields, and its grid shape and every dimension's grid shape are the tuple of sizes |
| Libraries.RebuiltAxes | spitfire/chemistry/library.py:150-158 | the meshgrid lengths are the argument sizes, and the dict is all structured exactly when the arguments are |
| Libraries.UnstructuredConstruct | spitfire/chemistry/library.py:162-169 | an unstructured library's arguments all have one length, which is the grid shape |
| Libraries.SpecsOfDims | spitfire/chemistry/library.py:394-400 | dims lists dimensions saving to the arguments' records |
| Libraries.ConstructDims | spitfire/chemistry/library.py:143-169 | with distinct names: dims gives back the arguments in order, the library is structured exactly when they are, and the grid shape is the sizes (structured) or the common length (unstructured) |
| Libraries.ConstructRefusesMixed | spitfire/chemistry/library.py:150-154 | a structured and an unstructured argument together give ValueError |
| Libraries.ConstructAcceptsStructured | spitfire/chemistry/library.py:150-175 | buildable structured arguments with distinct names, none of them the name of a Library attribute, are accepted as a structured library |
| Libraries.AssembleStructured | spitfire/chemistry/library.py:150-161 | buildable structured arguments with distinct names pass the structure check and the meshgrid |
| Libraries.ConstructRefusesClash | spitfire/chemistry/library.py:171-173 | a dimension named after a Library attribute is always refused, and otherwise acceptable structured arguments raise the first clashing name's exception |
| Libraries.FirstClashRaised | spitfire/chemistry/library.py:150-173 | acceptable structured dimensions with a clashing name get through the rebuild and the grid, and fail at the first clashing name |
| Libraries.AssembledThenAttributes | spitfire/chemistry/library.py:150-175 | once the grid is assembled, the constructor ends in the attribute loop over the dimension names |
| Libraries.ShapeNamedDimension | spitfire/chemistry/library.py:172 | a structured dimension named shape with values [0, 1] raises AttributeError |
| Libraries.ConstructEmpty | spitfire/chemistry/library.py:143-156 | no dimensions gives an empty structured library without a grid shape |
| Libraries.AsWrittenAgreesWhenStructured | spitfire/chemistry/library.py:156-169 | the constructor as written agrees with the intended one or raises TypeError, and only on non-empty unstructured libraries |
| Libraries.ConstructSingle | spitfire/chemistry/library.py:143-175 | a single buildable dimension whose name is not a Library attribute makes a library with its structured flag |
| Libraries.UnstructuredCounterexample | spitfire/chemistry/library.py:163 | one unstructured dimension Z = [0, 0.5] is accepted by the intended constructor and raises TypeError as written |
| Libraries.RebuildFromDims | spitfire/chemistry/library.py:143-169 | rebuilding a consistent library from its own dims gives it back without properties and extra attributes |
| Libraries.ConstructConsistent | spitfire/chemistry/library.py:143-177 | a library built from distinct names satisfies the invariant |
| Libraries.ConsistentGrid | spitfire/chemistry/library.py:150-169 | a consistent library is structured exactly when its dims are; its grid shape is the sizes, or the shared length, or absent without dimensions |
| Libraries.ConsistentFlags | spitfire/chemistry/library.py:150-152 | the structured flag of a consistent library is the conjunction of its dims' flags |
| Libraries.ConsistentShape | spitfire/chemistry/library.py:156-164 | the grid shape of a consistent library follows its dims |
| Libraries.ConsistentLengths | spitfire/chemistry/library.py:165-166 | the dims of a consistent unstructured library share one length |
| Libraries.DimsSpecs | spitfire/chemistry/library.py:146-148 | the names of a consistent library's dims are its ordering, without repeats |
| Libraries.Shape | spitfire/chemistry/library.py:385-387 | IndexError exactly when there is no dimension |
| Libraries.Size | spitfire/chemistry/library.py:381-383 | IndexError exactly when there is no dimension; otherwise the product of the shape |
| Libraries.ShapeIsGridShape | spitfire/chemistry/library.py:381-387 | a consistent library's shape is its grid shape (the sizes in order, or the common length) and its size their product |
| Libraries.SetItem | spitfire/chemistry/library.py:328-334 | succeeds exactly when the array has the grid's shape; ValueError for another shape, AttributeError without a grid shape; only the properties change |
| Libraries.SetItemPreserves | spitfire/chemistry/library.py:328-334 | a successful assignment of a well-formed array keeps a library well-formed and keeps the invariant |
| Libraries.SetItemWf | spitfire/chemistry/library.py:334 | after the assignment every property is still well-formed, and still of the grid's shape if all were |
| Libraries.WithProps | spitfire/chemistry/library.py:334 | replacing the properties by arrays of the grid's shape keeps the invariant |
| Libraries.PutValues | spitfire/chemistry/library.py:334 | after `d[k] = v` every value is v or was already there |
| Libraries.GetProp | spitfire/chemistry/library.py:342-344 | a property reads exactly when present, as the array stored under that name; KeyError otherwise |
| Libraries.Props | spitfire/chemistry/library.py:389-392 | the property names, each listed once and one per stored array |
| Libraries.Contains | spitfire/chemistry/library.py:367-368 | `prop in lib` holds exactly for the names the props property lists, which are also exactly the names lib[prop] reads (GetProp) |
| Libraries.SetThenGet | spitfire/chemistry/library.py:328-344 | after a successful `lib[q] = v`: `lib[q]` is v, `q in lib`, q is in props, and every other property reads as before |
| Libraries.SetEach | spitfire/chemistry/library.py:283-284 | assigning properties in turn changes only the properties |
| Libraries.SetEachFresh | spitfire/chemistry/library.py:283-284 | new names with arrays of the grid's shape are appended in order with their arrays |
| Libraries.SetEachCopies | spitfire/chemistry/library.py:283-284 | copying a dict of properties onto an empty library of matching grid gives that dict back, in order |
| Libraries.Remove | spitfire/chemistry/library.py:411-414 | removing only changes the properties |
| Libraries.RemoveSpec | spitfire/chemistry/library.py:411-414 | succeeds exactly when every name can be popped in turn, removing exactly those names; otherwise KeyError on the first missing name, earlier removals kept |
| Libraries.RemoveStep | spitfire/chemistry/library.py:413-414 | one pop followed by the rest is popping the whole prefix |
| Libraries.RemoveKeepsOthers | spitfire/chemistry/library.py:411-414 | after a successful remove a property is present exactly when it was and was not named, with its old array; the invariant is kept |
| LibraryState.Copy | spitfire/chemistry/library.py:277-285 | a copy has no extra attributes |
| LibraryState.CopyIsLibrary | spitfire/chemistry/library.py:277-285 | copying a consistent library gives the same dimensions, grid and properties in order, without extra attributes |
| LibraryState.CopyAsWritten | spitfire/chemistry/library.py:277-285 | as written, a copy is the intended copy or TypeError |
| LibraryState.CopyAsWrittenRaises | spitfire/chemistry/library.py:277-285 | as written, copying a consistent library succeeds exactly when it is structured, and raises TypeError otherwise |
| LibraryState.SavedDims | spitfire/chemistry/library.py:188 | the dimensions entry has the same keys, each mapped to that dimension's saved fields |
| LibraryState.GetState | spitfire/chemistry/library.py:187-191 | the state is well-formed and every name of dim_ordering is a key of dimensions |
| LibraryState.Place | spitfire/chemistry/library.py:194-198 | the slot-filling loop keeps the slot count and fills slots only with well-formed dimensions |
| LibraryState.Filled | spitfire/chemistry/library.py:199 | the filled slots, in order, when no slot is None |
| LibraryState.Load | spitfire/chemistry/library.py:193-201 | a restored library has no extra attributes before they are copied |
| LibraryState.SetState | spitfire/chemistry/library.py:193-204 | succeeds exactly when the rebuild does, adding the saved extra attributes, none when the entry is absent |
| LibraryState.LoadAsWritten | spitfire/chemistry/library.py:193-201 | as written, the rebuild is the intended one or TypeError |
| LibraryState.SetStateAsWritten | spitfire/chemistry/library.py:193-204 | as written, `__setstate__` gives the intended result or TypeError |
| LibraryState.Rebuilt0 | spitfire/chemistry/library.py:194-198 | the slots the loop fills from a library's state, one per dimension |
| LibraryState.NoSlots | spitfire/chemistry/library.py:194 | the list [None] * n: n slots, every one empty |
| LibraryState.PlaceStep | spitfire/chemistry/library.py:195-198 | one turn of the loop stores the rebuilt dimension in its slot |
| LibraryState.SavedAt | spitfire/chemistry/library.py:195-198 | the saved record the loop looks up at position i rebuilds the dimension of slot i |
| LibraryState.PlaceAll | spitfire/chemistry/library.py:194-198 | the loop over a library's own state fills every slot with the rebuilt dimension |
| LibraryState.FilledSpecs | spitfire/chemistry/library.py:194-199 | the filled slots save to the same records as the library's dims |
| LibraryState.SameLibrary | spitfire/chemistry/library.py:199 | dimensions with the same records build the same library |
| LibraryState.LoadFrom | spitfire/chemistry/library.py:199-201 | once the slots are filled and the constructor accepts them, loading assigns the properties in order |
| LibraryState.RebuiltLibrary | spitfire/chemistry/library.py:199 | the constructor rebuilds a consistent library, without properties and extra attributes, from the slots the loop fills |
| LibraryState.LoadOfLibrary | spitfire/chemistry/library.py:187-201 | loading a library's own state gives the rebuilt library with its properties assigned in order |
| LibraryState.LoadState | spitfire/chemistry/library.py:187-201 | loading a consistent library's state rebuilds the library without its extra attributes |
| LibraryState.StateRoundTrip | spitfire/chemistry/library.py:187-204 | `__setstate__(__getstate__(lib))` gives back lib: dimensions in order, grid, properties in order, and extra attributes |
| LibraryState.LoadAsWrittenOfLibrary | spitfire/chemistry/library.py:187-201 | on a library's own state, loading as written agrees with Load when the rebuilt library is structured and raises TypeError when it is not |
| LibraryState.StateRoundTripAsWritten | spitfire/chemistry/library.py:187-204 | as written, restoring a consistent library's state gives it back when it is structured and raises TypeError when it is not |
| LibrarySqueeze.Wide | spitfire/chemistry/library.py:315-318 | the kept dimensions have more than one value; when none is kept, every dimension has at most one |
| LibrarySqueeze.WideIndex | spitfire/chemistry/library.py:315-318 | each kept dimension is one of the library's |
| LibrarySqueeze.Kept | spitfire/chemistry/library.py:314-318 | one rebuilt dimension per dimension of more than one value |
| LibrarySqueeze.Reduce | spitfire/chemistry/library.py:322-326 | the library branch returns a library |
| LibrarySqueeze.SqueezeLibrary | spitfire/chemistry/library.py:307-326 | a dict of scalars is returned only when no dimension has more than one value |
| LibrarySqueeze.SqueezeAsWritten | spitfire/chemistry/library.py:319-321 | as written, a dict of scalars is returned only when no dimension has more than one value |
| LibrarySqueeze.ScalarProps | spitfire/chemistry/library.py:320 | the dict {p: np.squeeze(lib[p])}, a dict with distinct keys |
| LibrarySqueeze.ScalarDims | spitfire/chemistry/library.py:321 | the dict {d.name: np.squeeze(d.values)}, a dict with distinct keys; its entries for one-point dims are stated by ScalarDimsOfPoints |
| LibrarySqueeze.SqueezeSwapped | spitfire/chemistry/library.py:319-321 | the written and intended versions succeed together, agree on libraries, and have their scalar dict entries exchanged |
| LibrarySqueeze.SqueezeCounterexample | spitfire/chemistry/library.py:320-321 | squeezing a one-point library with dimension x and property T lists T under 'dimensions' as written, x as intended |
| LibrarySqueeze.OnePointKeepsNothing | spitfire/chemistry/library.py:314-319 | the one-point library has the single dimension x, and squeezing keeps none |
| LibrarySqueeze.SqueezeSizes | spitfire/chemistry/library.py:316-325 | squeezing the grid shape leaves the sizes of the dimensions kept |
| LibrarySqueeze.WideNames | spitfire/chemistry/library.py:315-318 | the kept dimensions have distinct names |
| LibrarySqueeze.WideValid | spitfire/chemistry/library.py:315-318 | the kept dimensions are valid, and structured if all were |
| LibrarySqueeze.AllWide | spitfire/chemistry/library.py:315-318 | when every dimension has more than one value, all are kept |
| LibrarySqueeze.ConsistentNames | spitfire/chemistry/library.py:394-400 | the dims of a consistent library carry its ordering as names, without repeats |
| LibrarySqueeze.WideConstruct | spitfire/chemistry/library.py:323 | the kept dimensions of a consistent structured library build a library whose grid is their sizes |
| LibrarySqueeze.SqueezeKeepsWide | spitfire/chemistry/library.py:314-326 | squeezing a structured library that keeps a dimension gives the kept dimensions in order, the old grid without axes of length one, and every property squeezed, in order |
| LibrarySqueeze.WideKept | spitfire/chemistry/library.py:314-323 | the kept dimensions build the library whose grid shape is the old one squeezed |
| LibrarySqueeze.SqueezeFlat | spitfire/chemistry/library.py:325 | flat arrays of more than one element squeeze to themselves |
| LibrarySqueeze.ReduceAccepts | spitfire/chemistry/library.py:323-326 | when every squeezed property fits the new grid, the library branch holds them all, squeezed, in order |
| LibrarySqueeze.ReduceAsWritten | spitfire/chemistry/library.py:322-326 | as written, the library branch of squeeze gives the intended result or TypeError |
| LibrarySqueeze.UnstructuredWide | spitfire/chemistry/library.py:316 | in a consistent unstructured library with a first dimension of several points, every dimension has several |
| LibrarySqueeze.UnstructuredFlat | spitfire/chemistry/library.py:325 | every property of a consistent unstructured library is flat, of the common length |
| LibrarySqueeze.KeptAll | spitfire/chemistry/library.py:315-318 | when every dimension is kept, squeeze rebuilds them all |
| LibrarySqueeze.SqueezeUnstructured | spitfire/chemistry/library.py:314-326 | squeezing a consistent unstructured library of several points gives it back, without extra attributes |
| LibrarySqueeze.SqueezeUnstructuredAsWritten | spitfire/chemistry/library.py:322-323 | as written, the library branch raises TypeError on every consistent unstructured library of several points |
| LibrarySqueeze.NoneWide | spitfire/chemistry/library.py:316 | with no dimension of more than one value none is kept |
| LibrarySqueeze.NoneKept | spitfire/chemistry/library.py:319 | with no dimension of more than one value, squeeze takes the dict branch |
| LibrarySqueeze.ScalarDimsOfPoints | spitfire/chemistry/library.py:320-321 | each dimension name maps to the 0-d array of its one value, in order |
| LibrarySqueeze.PointDict | spitfire/chemistry/library.py:321 | one-point dimensions under distinct names give the dict of their 0-d arrays, keyed and ordered by name |
| LibrarySqueeze.PointValues | spitfire/chemistry/library.py:321 | the values of a one-point dimension squeeze to the 0-d array of that value |
| LibrarySqueeze.SqueezeToScalars | spitfire/chemistry/library.py:319-321 | with no dimension of several values: each dimension's one value as a 0-d array under 'dimensions', every property squeezed under 'properties', both in order |
| LibraryIndex.Progression | spitfire/chemistry/library.py:357-359 | `range(start, stop, step)`: starts at start, advances by step, stays strictly before stop |
| LibraryIndex.SliceBound | spitfire/chemistry/library.py:359 | slice bounds are clamped to [0, n] for a positive step and [-1, n-1] for a negative one; in-range bounds are kept, and negative ones count from the end |
| LibraryIndex.Positions | spitfire/chemistry/library.py:359 | the kept positions lie in the axis and are distinct; an int is accepted exactly in [-n, n), a slice exactly when its step is not zero (ValueError), and a string or tuple is an IndexError |
| LibraryIndex.ProgressionDistinct | spitfire/chemistry/library.py:359 | a progression never repeats a position |
| LibraryIndex.UnitLength | spitfire/chemistry/library.py:359 | a unit-step walk from start to stop has stop − start terms |
| LibraryIndex.FullSlice | spitfire/chemistry/library.py:359 | `[:]` keeps every position in order |
| LibraryIndex.ReversedSlice | spitfire/chemistry/library.py:359 | `[::-1]` keeps every position, last first |
| LibraryIndex.ReversedLength | spitfire/chemistry/library.py:359 | a walk down by one from start to stop has start − stop terms |
| LibraryIndex.NegativeIndex | spitfire/chemistry/library.py:359 | index −1 is the last element and −n the first; n and −n−1 raise IndexError |
| LibraryIndex.ClampedSlice | spitfire/chemistry/library.py:359 | slice bounds past the axis are clamped, not refused |
| LibraryIndex.Select | spitfire/chemistry/library.py:359 | the selected values are the values at the given positions, in order |
| LibraryIndex.SelectDistinct | spitfire/chemistry/library.py:359 | distinct positions of distinct values select distinct values |
| LibraryIndex.SliceDim | spitfire/chemistry/library.py:357-361 | a sliced dimension keeps its name and has well-formed values |
| LibraryIndex.SliceDimSucceeds | spitfire/chemistry/library.py:357-361 | slicing a dimension succeeds exactly when the subscript is valid and keeps a position; keeping none is the constructor's ValueError |
| LibraryIndex.SliceDimValues | spitfire/chemistry/library.py:357-361 | a sliced dimension keeps name and flag, holds the selected values, is not owned, and passes every check |
| LibraryIndex.SliceEach | spitfire/chemistry/library.py:357-361 | entry i is dimension i sliced by subscript i |
| LibraryIndex.Collect | spitfire/chemistry/library.py:357-361 | a loop of turns that may raise succeeds exactly when every turn does, with their values; otherwise it raises the first turn's exception |
| LibraryIndex.CollectFirst | spitfire/chemistry/library.py:357-361 | a loop whose first turn raises raises that exception |
| LibraryIndex.SliceDims | spitfire/chemistry/library.py:356-361 | the sliced dimensions keep their names and have well-formed values, one per dimension |
| LibraryIndex.Selection | spitfire/chemistry/library.py:364 | numpy basic indexing succeeds exactly when every subscript does; axis k keeps the positions of subscript k, and the axes past the last subscript keep everything |
| LibraryIndex.AxisPositions | spitfire/chemistry/library.py:364 | per axis, the positions of its subscript, or every position past the last subscript |
| LibraryIndex.SliceProp | spitfire/chemistry/library.py:364 | the cut array has the new grid's shape and holds the selected elements in C order; more subscripts than axes is an IndexError |
| LibraryIndex.Unpack | spitfire/chemistry/library.py:351 | a first slice keeps all arguments; a first tuple is itself the subscripts; a first int raises TypeError at `len` |
| LibraryIndex.SliceLibrary | spitfire/chemistry/library.py:352-365 | a subscript count other than the dimension count raises LibraryIndexError; a sliced library keeps the dimension names in order |
| LibraryIndex.Refill | spitfire/chemistry/library.py:363-364 | refilling changes only the properties of the new library |
| LibraryIndex.SliceProps | spitfire/chemistry/library.py:363-364 | entry j is property j cut and reshaped |
| LibraryIndex.GetItem | spitfire/chemistry/library.py:336-365 | no arguments is IndexError; a lone string reads its property or raises KeyError; a string with more arguments raises LibraryIndexError; slicing needs a first dimension (IndexError) that is structured (LibraryIndexError); a first int raises TypeError; a sliced library keeps the dimension names |
| LibraryIndex.Colons | spitfire/chemistry/library.py:338 | n full slices |
| LibraryIndex.ColonDim | spitfire/chemistry/library.py:357-361 | `d.values[:]` rebuilds a valid dimension unchanged, outside any library |
| LibraryIndex.SliceEachRebuild | spitfire/chemistry/library.py:357-361 | dimensions that each slice to their own rebuild are together rebuilt |
| LibraryIndex.SelectionColons | spitfire/chemistry/library.py:364 | `:` on every axis selects every position |
| LibraryIndex.ColonProp | spitfire/chemistry/library.py:364 | an array cut by `:` everywhere and reshaped to its own shape is unchanged |
| LibraryIndex.SliceEverything | spitfire/chemistry/library.py:336-365 | `lib[:, …, :]` on a consistent structured library gives the same library, properties in order, without extra attributes |
| LibraryIndex.SliceOnlyDimension | spitfire/chemistry/library.py:351 | with one dimension, `lib[:]` gives the same library |
| LibraryIndex.OnlyDimensionBranch | spitfire/chemistry/library.py:351 | `lib[:]` and `lib[(:,)]` agree on a one-dimensional structured library |
| LibraryIndex.SlicingBranch | spitfire/chemistry/library.py:348-365 | a first tuple or slice on a structured library gives the slicing branch's library or exception |
| LibraryIndex.SliceLibraryColons | spitfire/chemistry/library.py:352-365 | the slicing branch with `:` for every dimension rebuilds the library |
| LibraryIndex.ColonsRebuild | spitfire/chemistry/library.py:357-361 | slicing valid dimensions by `:` rebuilds them |
| LibraryIndex.RefillColons | spitfire/chemistry/library.py:363-364 | every property cut by `:` goes back unchanged, in order |
| LibraryIndex.SetThenGetItem | spitfire/chemistry/library.py:328-344 | after `lib[q] = v` succeeds, `lib[q]` reads v |
| LibraryIndex.StringInTuple | spitfire/chemistry/library.py:341-359 | `lib['T', 0]` is a tuple, so it takes the slicing branch, where the string is an IndexError |
| OrderedDict.Put | spitfire/chemistry/library.py:334 | `d[k] = v` makes k read v; an existing key keeps its place, a new one is appended, other entries are unchanged |
| OrderedDict.Pop | spitfire/chemistry/library.py:414 | KeyError exactly when absent; otherwise the dict without k, the others in order with their values |
| OrderedDict.OmitMembers | spitfire/chemistry/library.py:414 | omitting keeps exactly the keys outside the set, without repeats |
| OrderedDict.OmitKeeps | spitfire/chemistry/library.py:414 | the keys omitting keeps keep their values |
| OrderedDict.FromListRebuilds | spitfire/chemistry/library.py:203-204 | putting a dict's pairs into an empty dict in order rebuilds it exactly |
| NdArray.Squeeze | spitfire/chemistry/library.py:320-325 | np.squeeze keeps the elements in order, drops every axis of length one, and keeps the element count |
| NdArray.SqueezeShapeKeeps | spitfire/chemistry/library.py:325 | a shape without axes of length one squeezes to itself |
| NdArray.Meshgrid | spitfire/chemistry/library.py:158-159 | one component per axis, each of the shape of the axis lengths |
| NdArray.MeshgridOfOneAxis | spitfire/chemistry/library.py:158 | the meshgrid of a single axis is that axis |
| NdArray.Gather | spitfire/chemistry/library.py:364 | the gathered elements number the product of the kept counts |
| NdArray.GatherEverything | spitfire/chemistry/library.py:364 | keeping every position gives the data back |

## Left out

- `ideal_gas_density` and `ideal_gas_pressure` (thermodynamics_kernels.cpp:31-41) delegate to overloads in a header that is not part of this model.
- The `default:` branches for heat-capacity types other than CONST and NASA7 leave their outputs untouched. The two-case polynomial type makes them unreachable.
- Floating-point rounding. Every kernel quantity is an exact `real`.
- ThermoKernels.MixtureMolecularWeight, ThermoKernels.MoleFractions, ThermoKernels.CvMixThroughMolecularWeight: require Σ y_i/MW_i ≠ 0, where IEEE arithmetic would give an infinity. CvMix itself takes every y: it is stated through Σ y_i/MW_i, which is the value IEEE gives (Ru/∞ = 0) when that sum is zero.
- ThermoKernels.CvMixAndSpecies: requires mmw ≠ 0 for the same reason.
- SpeciesThermo.Cp, SpeciesThermo.Enthalpy: carry no ensures of their own, so that the vector kernels stated in terms of them do not carry the range-by-range cases. Their values are stated by CpByRegime and EnthalpyByRegime, under the restriction on the next line.
- SpeciesThermo.CpByRegime, SpeciesThermo.CpSens, SpeciesThermo.EnthalpyByRegime: state the range-by-range values only for records with minT < c[0] < maxT. The bodies of Cp, CpSens and Enthalpy follow the kernels' if/else-if chain for every record.
- File I/O: `save_to_file`, `save_to_text_directory` (including its interactive prompt) and `load_from_file`.
- Libraries.SetAttributes: the attributes the constructor adds with `setattr` (library.py:171-175) are not stored; only the exceptions are modelled, for the read-only properties and `_dims`. A dimension named after another attribute (`_props`, `_dims_ordering`, `_structured`, `_grid_shape`, a method) is overwritten without an exception, and the damage that does to later calls is not modelled: the model builds the library as if the name were free. Names Python's `setattr` refuses for other reasons, such as `__class__`, are not modelled either.
- `__str__` and `__repr__`.
- Libraries.PyObject: an extra-attribute value can be any Python object. The model knows one only by an identity token, because the library only stores, copies and pickles these values. Extra-attribute keys are strings here, though a Python dict takes any hashable key.
- Libraries.NewLibrary: builds through the corrected constructor (the Findings row for library.py:163). The program as written raises TypeError there for every non-empty unstructured library; that is `NewLibraryAsWritten`. LibraryState.Copy, LibraryState.Load, LibrarySqueeze.Reduce and LibraryIndex.SliceLibrary call NewLibrary, and so do the lemmas about them: `CopyIsLibrary`, `LoadState`, `ReduceAccepts`, `SqueezeUnstructured` and `SqueezeKeepsWide`. The as-written behaviour of these is `CopyAsWritten` with `CopyAsWrittenRaises`, `LoadAsWritten`, and `ReduceAsWritten` with `SqueezeUnstructuredAsWritten`. Slicing refuses an unstructured library first (library.py:349), so SliceLibrary only builds structured libraries, on which the two constructors agree.
- LibraryState.SetState: restores through the corrected constructor, so `StateRoundTrip` holds for unstructured libraries too. As written, restoring the state of any non-empty unstructured library raises TypeError; that is `SetStateAsWritten` and `StateRoundTripAsWritten`.
- `__deepcopy__` and the `copy`/`deepcopy` class methods. Arrays are values here, so a deep copy would coincide with `__copy__`.
- `dim(name)` and `get_empty_dataset()`. The first is a dict lookup modelled by `OrderedDict.Get`. The second returns uninitialised memory.
- `str.isidentifier()` is modelled for ASCII names only.
- Library dimension values are `real`s. A numpy array of another dtype is not modelled, nor the float64/Python-float distinction at line 359.
- `_dims_ordering` is an int-keyed dict whose keys are always 0..n-1 when written by the constructor. It is modelled as the sequence of names. `__setstate__` on a dict whose `dim_ordering` keys are other integers is not modelled.
- `__setstate__` is modelled as acting on a fresh object (`Library()` in `load_from_file`), so no old extra attributes survive into it.
- Libraries.Construct: its own ensures gives only the shape of a successful result. What it builds is stated by `ConstructDims`, `StructuredConstruct` and `UnstructuredConstruct`.
- Libraries.SetEach: its own ensures says only that the properties alone change. What it assigns is stated by `SetEachFresh` and `SetEachCopies`.
- Libraries.Remove: its own ensures says only that the properties alone change. Its behaviour is stated by `RemoveSpec` and `RemoveKeepsOthers`.
- LibraryState.Load: its own ensures says only that no extra attributes are set. The round trip is stated by `LoadState`.
- LibraryState.Place: its own ensures gives only the slot count and well-formedness. What it fills is stated by `PlaceAll`.
- LibrarySqueeze.Reduce: its own ensures says only that a library comes back. What it holds is stated by `ReduceAccepts`.
- LibrarySqueeze.SqueezeLibrary: its own ensures says only when the dict branch is taken. Its results are stated by `SqueezeKeepsWide`, `SqueezeUnstructured` and `SqueezeToScalars`.
- LibraryIndex.SliceDim: its own ensures gives only the name and well-formedness. Success and contents are stated by `SliceDimSucceeds` and `SliceDimValues`.
- LibraryIndex.Refill: its own ensures says only that the properties alone change. The `:` case is stated by `RefillColons`.
- LibraryIndex.SliceLibrary: its own ensures gives only the count check and the names. The `:` case is stated by `SliceLibraryColons`.
- LibraryState.Copy: its ensures only says the copy has no extra attributes. What a copy holds is stated by `CopyIsLibrary`, for consistent libraries.
- Libraries.Construct: with repeated dimension names, the ordered-dict model keeps Python's behaviour (first position, last value). The lemmas about the result (`ConstructDims`, `ConstructConsistent` and the round trips built on them) require distinct names.
- LibraryIndex.GetItem: numpy's advanced (fancy) indexing, `Ellipsis`, `None` and boolean subscripts are not modelled. A nested tuple or a string inside the subscripts is modelled as an IndexError.
- LibraryIndex.SliceProp: numpy's refusal of more subscripts than axes is modelled as IndexError, without its message.
- The parts of numpy outside what the container uses (broadcasting, dtypes, views and copies) are not modelled.

## Findings

| source | as written | input that shows it | evidently intended | confidence | as-written member | corrected member |
|---|---|---|---|---|---|---|
| spitfire/griffon/src/thermodynamics_kernels.cpp:137 | a CONST species sets the mixture cp sensitivity back to 0, dropping every earlier species' contribution | a NASA7 species with d(cp)/dT = 2 followed by a CONST species, y = [1, 1]: the mixture value is 0 | add nothing, like lines 150 and 154, so the mixture value is Σ y_i·d(cp_i)/dT = 2 | high, not executed | ThermoKernels.CpSensResetCounterexample | ThermoKernels.CpSensT |
| spitfire/chemistry/library.py:163 | `next(self._dims.keys())` applies `next` to a dict keys view, which is not an iterator, so every non-empty unstructured library raises TypeError | `Library(Dimension('Z', np.array([0., .5]), structured=False))` | take the first dimension, then run the shape checks of lines 164-169 | high, not executed | Libraries.UnstructuredCounterexample | Libraries.Construct |
| spitfire/chemistry/library.py:320-321 | the dict of scalars puts the properties under 'dimensions' and the dimensions under 'properties', against the docstring at line 313 | a library with the single dimension x = [0.5] and property T: 'dimensions' holds T | 'dimensions' maps each dimension name to its value, 'properties' each property name | high, not executed | LibrarySqueeze.SqueezeCounterexample | LibrarySqueeze.SqueezeLibrary |
