/** Library.squeeze of spitfire/chemistry/library.py: a new library without
    the dimensions that hold a single value, or, when no dimension is left,
    the scalar values of the dimensions and properties. */
module LibrarySqueeze {
  import opened PyResult
  import opened NdArray
  import opened Dimensions
  import opened OrderedDict
  import opened Libraries

  /** The dimensions holding more than one value, in order. */
  function Wide(ds: seq<Dimension>): (w: seq<Dimension>)
    ensures |w| <= |ds|
    ensures forall i :: 0 <= i < |w| ==> |w[i].values.data| > 1
    ensures |w| == 0 ==> forall i :: 0 <= i < |ds| ==> |ds[i].values.data| <= 1
    decreases |ds|
  {
    if |ds| == 0 then []
    else
      var rest := Wide(ds[1..]);
      assert forall i :: 1 <= i < |ds| ==> ds[i] == ds[1..][i - 1];
      if |ds[0].values.data| > 1 then [ds[0]] + rest else rest
  }

  /** The position in ds of the i-th wide dimension. */
  function WideIndex(ds: seq<Dimension>, i: nat): (k: nat)
    requires i < |Wide(ds)|
    ensures k < |ds| && ds[k] == Wide(ds)[i]
    decreases |ds|
  {
    if |ds[0].values.data| > 1 then
      if i == 0 then 0 else 1 + WideIndex(ds[1..], i - 1)
    else 1 + WideIndex(ds[1..], i)
  }

  /** np.squeeze of each array. */
  function SqueezeAll(arrays: seq<Array>): (s: seq<Array>)
    ensures |s| == |arrays| && forall j :: 0 <= j < |arrays| ==> s[j] == Squeeze(arrays[j])
  {
    seq(|arrays|, j requires 0 <= j < |arrays| => Squeeze(arrays[j]))
  }

  /** np.squeeze(d.values) of each dimension. */
  function SqueezedValues(ds: seq<Dimension>): (s: seq<Array>)
    ensures |s| == |ds| && forall j :: 0 <= j < |ds| ==> s[j] == Squeeze(ds[j].values)
  {
    seq(|ds|, j requires 0 <= j < |ds| => Squeeze(ds[j].values))
  }

  /** [Dimension(d.name, d.values, d.structured) for d in lib.dims if
      d.values.size > 1] */
  function Kept(lib: Library): (r: Result<seq<Dimension>>)
    requires Wf(lib)
    ensures r.Ok? ==> |r.value| == |Wide(Dims(lib))|
    ensures r.Ok? ==> forall i :: 0 <= i < |r.value| ==> WellFormed(r.value[i].values)
  {
    WideValid(Dims(lib));
    Reconstruct(Specs(Wide(Dims(lib))), false)
  }

  /** What squeeze returns: the dict of scalars when no dimension is left,
      a new library otherwise. */
  datatype Squeezed =
    | Scalars(dimensions: ODict<string, Array>, properties: ODict<string, Array>)
    | Reduced(lib: Library)

  /** {d.name: np.squeeze(d.values) for d in lib.dims} */
  function ScalarDims(lib: Library): (d: ODict<string, Array>)
    requires Wf(lib)
    ensures OrderedDict.Valid(d)
  {
    FromList(DimNames(Dims(lib)), SqueezedValues(Dims(lib)))
  }

  /** {p: np.squeeze(lib[p]) for p in lib.props} */
  function ScalarProps(lib: Library): (d: ODict<string, Array>)
    requires Wf(lib)
    ensures OrderedDict.Valid(d)
  {
    FromList(lib.props.keys, SqueezeAll(lib.props.vals))
  }

  /** The library branch of squeeze: Library(*kept), then every property
      squeezed and assigned in order. */
  function Reduce(lib: Library, kept: seq<Dimension>): (r: Result<Squeezed>)
    requires Wf(lib) && forall i :: 0 <= i < |kept| ==> WellFormed(kept[i].values)
    ensures r.Ok? ==> r.value.Reduced?
  {
    var built :- NewLibrary(kept);
    var r :- SetEach(built, lib.props.keys, AllOk(SqueezeAll(lib.props.vals)));
    Ok(Reduced(r))
  }

  /** The library branch of squeeze as the program is written, with the
      constructor raising TypeError for a non-empty unstructured library. */
  function ReduceAsWritten(lib: Library, kept: seq<Dimension>): (r: Result<Squeezed>)
    requires Wf(lib) && forall i :: 0 <= i < |kept| ==> WellFormed(kept[i].values)
    ensures r == Reduce(lib, kept) || r == Fail(TypeError)
  {
    var built :- NewLibraryAsWritten(kept);
    var r :- SetEach(built, lib.props.keys, AllOk(SqueezeAll(lib.props.vals)));
    Ok(Reduced(r))
  }

  /** Library.squeeze(lib) as evidently intended: the dimensions with more
      than one value are rebuilt (not library-owned) into a new library
      that receives every property squeezed; when there are none, each
      dimension name maps to its squeezed values under 'dimensions' and
      each property name to its squeezed array under 'properties'. */
  function SqueezeLibrary(lib: Library): (r: Result<Squeezed>)
    requires Wf(lib)
    ensures r.Ok? && r.value.Scalars? ==> forall i :: 0 <= i < |lib.ordering| ==> |Dims(lib)[i].values.data| <= 1
  {
    var kept :- Kept(lib);
    if |kept| == 0 then Ok(Scalars(ScalarDims(lib), ScalarProps(lib)))
    else Reduce(lib, kept)
  }

  /** Library.squeeze as written: the scalars dict puts the properties under
      'dimensions' and the dimensions under 'properties'. */
  function SqueezeAsWritten(lib: Library): (r: Result<Squeezed>)
    requires Wf(lib)
    ensures r.Ok? && r.value.Scalars? ==> forall i :: 0 <= i < |lib.ordering| ==> |Dims(lib)[i].values.data| <= 1
  {
    var kept :- Kept(lib);
    if |kept| == 0 then Ok(Scalars(ScalarProps(lib), ScalarDims(lib)))
    else Reduce(lib, kept)
  }

  /** The two differ only in the scalars dict, whose entries are exchanged. */
  lemma {:induction false} SqueezeSwapped(lib: Library)
    requires Wf(lib)
    ensures SqueezeAsWritten(lib).Ok? <==> SqueezeLibrary(lib).Ok?
    ensures SqueezeLibrary(lib).Ok? && SqueezeLibrary(lib).value.Reduced? ==>
              SqueezeAsWritten(lib) == SqueezeLibrary(lib)
    ensures SqueezeLibrary(lib).Ok? && SqueezeLibrary(lib).value.Scalars? ==>
              SqueezeAsWritten(lib) == Ok(Scalars(SqueezeLibrary(lib).value.properties,
                                                  SqueezeLibrary(lib).value.dimensions))
  {
  }

  /** A one-point library: dimension x at 0.5 and property T. */
  function OnePoint(): (lib: Library)
    ensures Wf(lib)
  {
    var x := Dimension("x", Vector([0.5]), 0.5, 0.5, 1, true, Some(Vector([0.5])), true);
    Library(ODict(["x"], [x]), ["x"], ODict(["T"], [Vector([300.0])]), true, Some([1]), Empty())
  }

  /** The input that shows it: squeezing the one-point library as written
      lists T as a dimension and x as a property. */
  lemma SqueezeCounterexample()
    ensures SqueezeAsWritten(OnePoint()).Ok? && SqueezeAsWritten(OnePoint()).value.Scalars?
    ensures SqueezeAsWritten(OnePoint()).value.dimensions.keys == ["T"]
    ensures SqueezeLibrary(OnePoint()).Ok? && SqueezeLibrary(OnePoint()).value.Scalars?
    ensures SqueezeLibrary(OnePoint()).value.dimensions.keys == ["x"]
  {
    var lib := OnePoint();
    OnePointKeepsNothing();
    assert DimNames(Dims(lib)) == ["x"];
    FromListDistinct(["x"], SqueezedValues(Dims(lib)));
    FromListDistinct(["T"], SqueezeAll(lib.props.vals));
  }

  /** The one-point library has the single dimension x, and squeezing it
      keeps no dimension. */
  lemma OnePointKeepsNothing()
    ensures Dims(OnePoint()) == [OnePoint().dims.vals[0]]
    ensures Kept(OnePoint()) == Ok([])
  {
    var ds := Dims(OnePoint());
    assert ds == [OnePoint().dims.vals[0]];
    assert Wide(ds) == [] by {
      assert Wide(ds[1..]) == [];
    }
    assert Reconstruct([], false) == Ok([]);
  }

  /** Squeezing the shape of sizes of non-empty dimensions leaves the sizes
      of the wide ones. */
  lemma {:induction false} SqueezeSizes(ds: seq<Dimension>)
    requires forall i :: 0 <= i < |ds| ==> |ds[i].values.data| > 0
    ensures SqueezeShape(Npts(Specs(ds))) == Npts(Specs(Wide(ds)))
    decreases |ds|
  {
    if |ds| > 0 {
      var tail := ds[1..];
      assert Npts(Specs(ds))[1..] == Npts(Specs(tail));
      SqueezeSizes(tail);
      if |ds[0].values.data| > 1 {
        assert Npts(Specs(Wide(ds))) == [|ds[0].values.data|] + Npts(Specs(Wide(tail)));
      }
    }
  }

  /** The wide dimensions of dimensions with distinct names have distinct
      names. */
  lemma {:induction false} WideNames(ds: seq<Dimension>)
    requires Distinct(DimNames(ds))
    ensures Distinct(DimNames(Wide(ds)))
    decreases |ds|
  {
    if |ds| > 0 {
      var tail := ds[1..];
      assert DimNames(tail) == DimNames(ds)[1..];
      WideNames(tail);
      var rest := Wide(tail);
      if |ds[0].values.data| > 1 {
        var names := DimNames([ds[0]] + rest);
        forall a, b | 0 <= a < b < |names|
          ensures names[a] != names[b]
        {
          if a == 0 {
            var k := WideIndex(tail, b - 1);
            assert names[b] == DimNames(ds)[k + 1];
          } else {
            assert names[a] == DimNames(rest)[a - 1] && names[b] == DimNames(rest)[b - 1];
          }
        }
        assert Wide(ds) == [ds[0]] + rest;
      } else {
        assert Wide(ds) == rest;
      }
    }
  }

  /** The wide dimensions are dimensions of ds, so they share what all of
      those have. */
  lemma {:induction false} WideValid(ds: seq<Dimension>)
    requires forall i :: 0 <= i < |ds| ==> ValidDimension(ds[i])
    ensures forall k :: 0 <= k < |Wide(ds)| ==> ValidDimension(Wide(ds)[k])
    ensures (forall i :: 0 <= i < |ds| ==> ds[i].structured) ==>
              forall k :: 0 <= k < |Wide(ds)| ==> Wide(ds)[k].structured
  {
    forall k | 0 <= k < |Wide(ds)|
      ensures Wide(ds)[k] == ds[WideIndex(ds, k)]
    {
    }
  }

  /** When every dimension is wide, all are kept. */
  lemma {:induction false} AllWide(ds: seq<Dimension>)
    requires forall i :: 0 <= i < |ds| ==> |ds[i].values.data| > 1
    ensures Wide(ds) == ds
    decreases |ds|
  {
    if |ds| > 0 {
      AllWide(ds[1..]);
    }
  }

  /** Keeping only the wide dimensions keeps names free of clashes. */
  lemma {:induction false} WideNoClash(ds: seq<Dimension>)
    requires NoClash(DimNames(ds))
    ensures NoClash(DimNames(Wide(ds)))
    decreases |ds|
  {
    if |ds| > 0 {
      var tail := ds[1..];
      assert DimNames(ds) == [ds[0].name] + DimNames(tail);
      NoClashAppend([ds[0].name], DimNames(tail));
      WideNoClash(tail);
      if |ds[0].values.data| > 1 {
        assert DimNames(Wide(ds)) == [ds[0].name] + DimNames(Wide(tail));
        NoClashAppend([ds[0].name], DimNames(Wide(tail)));
      }
    }
  }

  /** The dims of a consistent library are listed under their own names. */
  lemma {:induction false} ConsistentNames(lib: Library)
    requires Consistent(lib)
    ensures DimNames(Dims(lib)) == lib.ordering && Distinct(lib.ordering)
  {
  }

  /** The wide dimensions of a consistent structured library are accepted
      by the constructor, which gives them the grid of their sizes. */
  lemma {:induction false} WideConstruct(lib: Library)
    requires Consistent(lib) && lib.structured
    requires exists i :: 0 <= i < |lib.ordering| && |Dims(lib)[i].values.data| > 1
    ensures SpecsWellFormed(Specs(Wide(Dims(lib))))
    ensures Construct(Specs(Wide(Dims(lib)))).Ok?
    ensures Construct(Specs(Wide(Dims(lib)))).value.gridShape == Some(Npts(Specs(Wide(Dims(lib)))))
    ensures Construct(Specs(Wide(Dims(lib)))).value.ordering == DimNames(Wide(Dims(lib)))
  {
    var ds := Dims(lib);
    var w := Wide(ds);
    var specs := Specs(w);
    ConsistentNames(lib);
    ConsistentGrid(lib);
    WideNames(ds);
    WideValid(ds);
    ConsistentNoClash(lib);
    WideNoClash(ds);
    assert Names(specs) == DimNames(w);
    forall k | 0 <= k < |specs|
      ensures Buildable(specs[k]) && specs[k].structured
    {
      assert ValidDimension(w[k]);
    }
    ConstructAcceptsStructured(specs);
    StructuredConstruct(specs);
  }

  /** Squeezing a consistent structured library that keeps a dimension
      gives a library of the wide dimensions, in order, whose grid is the
      old grid without its axes of length one, holding every property,
      squeezed, in the same order, and no extra attributes. */
  lemma {:induction false} SqueezeKeepsWide(lib: Library)
    requires Consistent(lib) && lib.structured
    requires exists i :: 0 <= i < |lib.ordering| && |Dims(lib)[i].values.data| > 1
    ensures SqueezeLibrary(lib).Ok? && SqueezeLibrary(lib).value.Reduced?
    ensures SqueezeLibrary(lib).value.lib.ordering == DimNames(Wide(Dims(lib)))
    ensures SqueezeLibrary(lib).value.lib.gridShape == Some(SqueezeShape(lib.gridShape.value))
    ensures SqueezeLibrary(lib).value.lib.props == ODict(lib.props.keys, SqueezeAll(lib.props.vals))
    ensures SqueezeLibrary(lib).value.lib.extra == Empty()
  {
    WideKept(lib);
    var built := Construct(Specs(Wide(Dims(lib)))).value;
    ConsistentShape(lib);
    ReduceAccepts(lib, Kept(lib).value, built);
  }

  /** The dimensions squeeze keeps from a consistent structured library
      with a wide dimension build the library of the wide dimensions, whose
      grid shape is the old one squeezed. */
  lemma {:induction false} WideKept(lib: Library)
    requires Consistent(lib) && lib.structured
    requires exists i :: 0 <= i < |lib.ordering| && |Dims(lib)[i].values.data| > 1
    ensures SpecsWellFormed(Specs(Wide(Dims(lib)))) && Construct(Specs(Wide(Dims(lib)))).Ok?
    ensures Kept(lib).Ok? && |Kept(lib).value| > 0
    ensures NewLibrary(Kept(lib).value) == Construct(Specs(Wide(Dims(lib))))
    ensures Construct(Specs(Wide(Dims(lib)))).value.ordering == DimNames(Wide(Dims(lib)))
    ensures Construct(Specs(Wide(Dims(lib)))).value.gridShape == Some(SqueezeShape(lib.gridShape.value))
  {
    var ds := Dims(lib);
    var w := Wide(ds);
    WideValid(ds);
    ReconstructValid(w, false);
    WideConstruct(lib);
    ConsistentShape(lib);
    SqueezeSizes(ds);
  }

  /** Flat arrays of more than one element squeeze to themselves. */
  lemma {:induction false} SqueezeFlat(arrays: seq<Array>, n: nat)
    requires n > 1 && forall j :: 0 <= j < |arrays| ==> arrays[j].shape == [n]
    ensures SqueezeAll(arrays) == arrays
  {
    SqueezeShapeKeeps([n]);
  }

  /** The library branch, once the constructor has accepted the kept
      dimensions and every squeezed property has the new grid's shape: the
      properties arrive squeezed, in order. */
  lemma {:induction false} ReduceAccepts(lib: Library, kept: seq<Dimension>, built: Library)
    requires Wf(lib) && forall i :: 0 <= i < |kept| ==> WellFormed(kept[i].values)
    requires NewLibrary(kept) == Ok(built) && built.props == Empty()
    requires forall j :: 0 <= j < |lib.props.vals| ==> built.gridShape == Some(Squeeze(lib.props.vals[j]).shape)
    ensures Reduce(lib, kept) == Ok(Reduced(built.(props := ODict(lib.props.keys, SqueezeAll(lib.props.vals)))))
  {
    var squeezed := SqueezeAll(lib.props.vals);
    SetEachCopies(built, lib.props, squeezed, AllOk(squeezed));
  }

  /** In a consistent unstructured library whose first dimension is wide,
      every dimension is wide ... */
  lemma {:induction false} UnstructuredWide(lib: Library)
    requires Consistent(lib) && !lib.structured && |lib.ordering| > 0
    requires |Dims(lib)[0].values.data| > 1
    ensures forall i :: 0 <= i < |lib.ordering| ==> |Dims(lib)[i].values.data| > 1
  {
    ConsistentGrid(lib);
    var ds := Dims(lib);
    forall i | 0 <= i < |lib.ordering|
      ensures |ds[i].values.data| > 1
    {
      assert ValidDimension(ds[i]) && ds[i].npts == ds[0].npts;
    }
  }

  /** ... and every property is flat, of that length. */
  lemma {:induction false} UnstructuredFlat(lib: Library)
    requires Consistent(lib) && !lib.structured && |lib.ordering| > 0
    ensures forall j :: 0 <= j < |lib.props.vals| ==> lib.props.vals[j].shape == [Dims(lib)[0].npts]
  {
    ConsistentGrid(lib);
  }

  /** When every dimension is wide, all are kept. */
  lemma {:induction false} KeptAll(lib: Library)
    requires Wf(lib) && forall i :: 0 <= i < |lib.ordering| ==> |Dims(lib)[i].values.data| > 1
    ensures Kept(lib) == Reconstruct(Specs(Dims(lib)), false)
  {
    AllWide(Dims(lib));
  }

  /** Squeezing a consistent unstructured library of more than one point
      keeps every dimension and every property as they are; only the extra
      attributes are lost. */
  lemma {:induction false} SqueezeUnstructured(lib: Library)
    requires Consistent(lib) && !lib.structured && |lib.ordering| > 0
    requires |Dims(lib)[0].values.data| > 1
    ensures SqueezeLibrary(lib) == Ok(Reduced(lib.(extra := Empty())))
  {
    UnstructuredWide(lib);
    UnstructuredFlat(lib);
    KeptAll(lib);
    RebuildFromDims(lib, false);
    var kept := Reconstruct(Specs(Dims(lib)), false).value;
    SqueezeFlat(lib.props.vals, Dims(lib)[0].npts);
    ReduceAccepts(lib, kept, lib.(props := Empty(), extra := Empty()));
  }

  /** As written, the library branch of squeeze raises TypeError on every
      consistent unstructured library of more than one point. */
  lemma {:induction false} SqueezeUnstructuredAsWritten(lib: Library)
    requires Consistent(lib) && !lib.structured && |lib.ordering| > 0
    requires |Dims(lib)[0].values.data| > 1
    ensures Kept(lib).Ok? && ReduceAsWritten(lib, Kept(lib).value) == Fail(TypeError)
  {
    UnstructuredWide(lib);
    KeptAll(lib);
    RebuildFromDims(lib, false);
  }

  /** Without dimensions of more than one value there is none to keep. */
  lemma {:induction false} NoneWide(ds: seq<Dimension>)
    requires forall i :: 0 <= i < |ds| ==> |ds[i].values.data| <= 1
    ensures Wide(ds) == []
    decreases |ds|
  {
    if |ds| > 0 {
      assert forall i :: 0 <= i < |ds| - 1 ==> ds[1..][i] == ds[i + 1];
      NoneWide(ds[1..]);
    }
  }

  /** With no wide dimension nothing is kept. */
  lemma {:induction false} NoneKept(lib: Library)
    requires Wf(lib)
    requires forall i :: 0 <= i < |lib.ordering| ==> |Dims(lib)[i].values.data| <= 1
    ensures Kept(lib) == Ok([])
  {
    NoneWide(Dims(lib));
    assert Reconstruct([], false) == Ok([]);
  }

  /** The dimensions of a consistent library with a single value each, as
      0-d arrays under their names, in order. */
  lemma {:induction false} ScalarDimsOfPoints(lib: Library)
    requires Consistent(lib)
    requires forall i :: 0 <= i < |lib.ordering| ==> |Dims(lib)[i].values.data| <= 1
    ensures ScalarDims(lib).keys == lib.ordering && |ScalarDims(lib).vals| == |lib.ordering|
    ensures forall i :: 0 <= i < |lib.ordering| ==>
              && |Dims(lib)[i].values.data| == 1
              && ScalarDims(lib).vals[i] == Array([], [Dims(lib)[i].values.data[0]])
  {
    var ds := Dims(lib);
    ConsistentNames(lib);
    assert forall i :: 0 <= i < |ds| ==> ValidDimension(ds[i]) && |ds[i].values.data| == 1;
    PointDict(ds);
  }

  /** Dimensions of one point each, under distinct names, squeeze to the
      dict of their 0-d arrays in order. */
  lemma {:induction false} PointDict(ds: seq<Dimension>)
    requires Distinct(DimNames(ds))
    requires forall i :: 0 <= i < |ds| ==> ValidDimension(ds[i]) && |ds[i].values.data| == 1
    ensures FromList(DimNames(ds), SqueezedValues(ds)).keys == DimNames(ds)
    ensures forall i :: 0 <= i < |ds| ==>
              FromList(DimNames(ds), SqueezedValues(ds)).vals[i] == Array([], [ds[i].values.data[0]])
  {
    FromListDistinct(DimNames(ds), SqueezedValues(ds));
    PointValues(ds);
  }

  /** A valid dimension of one value squeezes to the 0-d array of it. */
  lemma {:induction false} PointValues(ds: seq<Dimension>)
    requires forall i :: 0 <= i < |ds| ==> ValidDimension(ds[i]) && |ds[i].values.data| == 1
    ensures forall i :: 0 <= i < |ds| ==> SqueezedValues(ds)[i] == Array([], [ds[i].values.data[0]])
  {
    forall i | 0 <= i < |ds|
      ensures SqueezedValues(ds)[i] == Array([], [ds[i].values.data[0]])
    {
      OneDimensionalIsVector(ds[i].values);
      assert SqueezeShape([1]) == [];
    }
  }

  /** Squeezing a consistent library in which no dimension is wide gives,
      under 'dimensions', each dimension's one value as a 0-d array, in
      order, and under 'properties' every property squeezed, in order. */
  lemma {:induction false} SqueezeToScalars(lib: Library)
    requires Consistent(lib)
    requires forall i :: 0 <= i < |lib.ordering| ==> |Dims(lib)[i].values.data| <= 1
    ensures var r := SqueezeLibrary(lib);
            && r.Ok? && r.value.Scalars?
            && r.value.dimensions.keys == lib.ordering
            && |r.value.dimensions.vals| == |lib.ordering|
            && (forall i :: 0 <= i < |lib.ordering| ==>
                  && |Dims(lib)[i].values.data| == 1
                  && r.value.dimensions.vals[i] == Array([], [Dims(lib)[i].values.data[0]]))
            && r.value.properties == ODict(lib.props.keys, SqueezeAll(lib.props.vals))
  {
    NoneKept(lib);
    assert SqueezeLibrary(lib) == Ok(Scalars(ScalarDims(lib), ScalarProps(lib)));
    ScalarDimsOfPoints(lib);
    FromListDistinct(lib.props.keys, SqueezeAll(lib.props.vals));
  }
}
