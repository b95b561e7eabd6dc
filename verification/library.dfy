/** The tabulated-library container (class Library of
    spitfire/chemistry/library.py): an ordered set of dimensions spanning a
    grid, and an ordered map from property names to arrays of the grid's
    shape. */
module Libraries {
  import opened PyResult
  import opened NdArray
  import opened Dimensions
  import opened OrderedDict

  /** A Python object kept as the value of an extra attribute. The library
      stores, copies and pickles these values without looking inside them,
      so an object is known here only by its identity. */
  datatype PyObject = PyObject(id: nat)

  /** The state of a Library instance. */
  datatype Library = Library(
    dims: ODict<string, Dimension>,   // self._dims, keyed by dimension name
    ordering: seq<string>,            // self._dims_ordering: position i holds the i-th argument's name
    props: ODict<string, Array>,      // self._props
    structured: bool,                 // self._structured
    gridShape: Option<seq<nat>>,      // self._grid_shape; never assigned when built without dimensions
    extra: ODict<string, PyObject>)   // self._extra_attributes

  // -----------------------------------------------------------------------
  // Construction

  /** The saved fields of each dimension, in order. */
  function Specs(ds: seq<Dimension>): (s: seq<SavedDimension>)
    ensures |s| == |ds| && forall i :: 0 <= i < |ds| ==> s[i] == SaveDict(ds[i])
  {
    seq(|ds|, i requires 0 <= i < |ds| => SaveDict(ds[i]))
  }

  /** The names of the dimensions, in order. */
  function Names(specs: seq<SavedDimension>): (n: seq<string>)
    ensures |n| == |specs| && forall i :: 0 <= i < |specs| ==> n[i] == specs[i].name
  {
    seq(|specs|, i requires 0 <= i < |specs| => specs[i].name)
  }

  /** The number of values of each dimension, in order. */
  function Npts(specs: seq<SavedDimension>): (n: seq<nat>)
    ensures |n| == |specs| && forall i :: 0 <= i < |specs| ==> n[i] == |specs[i].values.data|
  {
    seq(|specs|, i requires 0 <= i < |specs| => |specs[i].values.data|)
  }

  /** Every value array is a well-formed ndarray. */
  predicate SpecsWellFormed(specs: seq<SavedDimension>)
  {
    forall i :: 0 <= i < |specs| ==> WellFormed(specs[i].values)
  }

  /** Dimension(d.name, d.values, d.structured, _library_owned=owned) for
      each saved record, in order; the first refusal is raised. */
  function Reconstruct(specs: seq<SavedDimension>, owned: bool): (r: Result<seq<Dimension>>)
    requires SpecsWellFormed(specs)
    ensures r.Ok? <==> forall i :: 0 <= i < |specs| ==> Buildable(specs[i])
    ensures r.Ok? ==> |r.value| == |specs|
                      && forall i :: 0 <= i < |specs| ==> Rebuilt(r.value[i], specs[i], owned)
    decreases |specs|
  {
    if |specs| == 0 then Ok([])
    else
      assert SpecsWellFormed(specs[1..]);
      assert forall i :: 1 <= i < |specs| ==> specs[i] == specs[1..][i - 1];
      RestoreFacts(specs[0], owned);
      var d :- Restore(specs[0], owned);
      var rest :- Reconstruct(specs[1..], owned);
      Ok([d] + rest)
  }

  /** Rebuilding gives dimensions that save to the same records. */
  lemma {:induction false} ReconstructSpecs(specs: seq<SavedDimension>, owned: bool)
    requires SpecsWellFormed(specs) && Reconstruct(specs, owned).Ok?
    ensures Specs(Reconstruct(specs, owned).value) == specs
  {
    var rs := Reconstruct(specs, owned).value;
    forall i | 0 <= i < |specs|
      ensures Specs(rs)[i] == specs[i]
    {
      assert Rebuilt(rs[i], specs[i], owned);
    }
  }

  /** Dimensions that passed the checks once pass them again when rebuilt
      from their saved fields. */
  lemma {:induction false} ReconstructValid(ds: seq<Dimension>, owned: bool)
    requires forall i :: 0 <= i < |ds| ==> ValidDimension(ds[i])
    ensures SpecsWellFormed(Specs(ds)) && Reconstruct(Specs(ds), owned).Ok?
    ensures Specs(Reconstruct(Specs(ds), owned).value) == Specs(ds)
  {
    forall i | 0 <= i < |ds|
      ensures Buildable(Specs(ds)[i])
    {
      RestoreSaved(ds[i], owned);
      RestoreFacts(SaveDict(ds[i]), owned);
    }
    ReconstructSpecs(Specs(ds), owned);
  }

  /** The names of the dimensions, in order. */
  function DimNames(ds: seq<Dimension>): (n: seq<string>)
    ensures |n| == |ds| && forall i :: 0 <= i < |ds| ==> n[i] == ds[i].name
  {
    seq(|ds|, i requires 0 <= i < |ds| => ds[i].name)
  }

  /** all(d.structured for d in self._dims) */
  predicate AllStructured(d: ODict<string, Dimension>)
  {
    forall j :: 0 <= j < |d.vals| ==> d.vals[j].structured
  }

  /** all(not d.structured for d in self._dims) */
  predicate NoneStructured(d: ODict<string, Dimension>)
  {
    forall j :: 0 <= j < |d.vals| ==> !d.vals[j].structured
  }

  /** Every dimension of the dict passed the Dimension constructor's checks. */
  predicate ValidDims(d: ODict<string, Dimension>)
  {
    forall j :: 0 <= j < |d.vals| ==> ValidDimension(d.vals[j])
  }

  /** The value arrays of the dict's dimensions, in key order. */
  function Axes(d: ODict<string, Dimension>): (a: seq<seq<real>>)
    ensures |a| == |d.vals| && forall j :: 0 <= j < |d.vals| ==> a[j] == d.vals[j].values.data
  {
    seq(|d.vals|, j requires 0 <= j < |d.vals| => d.vals[j].values.data)
  }

  /** for i, k in enumerate(d): d[k].grid = grids[i], each assignment going
      through the Dimension grid setter; the constructor raises if any of
      them refuses. */
  function SetGrids(d: ODict<string, Dimension>, grids: seq<Array>): (r: Result<ODict<string, Dimension>>)
    requires |d.vals| == |grids|
    ensures r.Ok? <==> forall j :: 0 <= j < |d.vals| ==> d.vals[j].libraryOwned
    ensures r.Fail? ==> r.error == ValueError(GridNotSettable)
    ensures r.Ok? ==> && r.value.keys == d.keys && |r.value.vals| == |d.vals|
                      && forall j :: 0 <= j < |d.vals| ==>
                           && Grid(r.value.vals[j]) == grids[j]
                           && SaveDict(r.value.vals[j]) == SaveDict(d.vals[j])
                           && r.value.vals[j] == d.vals[j].(grid := Some(grids[j]))
  {
    if exists j :: 0 <= j < |d.vals| && !d.vals[j].libraryOwned then
      Fail(ValueError(GridNotSettable))
    else
      Ok(ODict(d.keys, seq(|d.vals|, j requires 0 <= j < |d.vals| => SetGrid(d.vals[j], grids[j]).value)))
  }

  /** Library(*dimensions), on the saved fields of its arguments. The steps
      and their refusals come in the constructor's order: rebuilding each
      dimension as library-owned, mixing structured with unstructured
      dimensions, then the grid: a meshgrid of the values for a structured
      library, or the common flat shape of an unstructured one; last, the
      attributes named after the dimensions. */
  function Construct(specs: seq<SavedDimension>): (r: Result<Library>)
    requires SpecsWellFormed(specs)
    ensures r.Ok? ==> && r.value.ordering == Names(specs)
                      && r.value.props == Empty() && r.value.extra == Empty()
                      && Wf(r.value)
    ensures r.Ok? && |specs| == 0 ==> r.value.gridShape.None? && r.value.structured
    ensures r.Ok? && |specs| > 0 ==> r.value.gridShape.Some?
    ensures r.Ok? ==> forall i :: 0 <= i < |specs| ==> Buildable(specs[i])
  {
    var rs :- Reconstruct(specs, true);
    RebuiltDict(specs, rs);
    var lib :- Assemble(FromList(DimNames(rs), rs), Names(specs));
    SetAttributes(lib, lib.dims.keys)
  }

  /** The exception the constructor's setattr(self, name, name) (line 172)
      and the lookup self._dims[name] after it (line 173) raise for a
      dimension name: AttributeError for a read-only property of Library
      (lines 178-184 and 381-395), TypeError for _dims, which setattr
      replaces by the name itself so that the lookup indexes a string. */
  function AttributeClash(name: string): (e: Option<Error>)
    ensures e.Some? <==> name in {"extra_attributes", "size", "shape", "props", "dims", "_dims"}
    ensures e.Some? ==> e.value == (if name == "_dims" then TypeError else AttributeError)
  {
    if name in {"extra_attributes", "size", "shape", "props", "dims"} then Some(AttributeError)
    else if name == "_dims" then Some(TypeError)
    else None
  }

  /** No name clashes with an attribute of Library. */
  predicate NoClash(names: seq<string>)
  {
    forall i :: 0 <= i < |names| ==> AttributeClash(names[i]).None?
  }

  /** A concatenation clashes exactly when one of its parts does. */
  lemma {:induction false} NoClashAppend(a: seq<string>, b: seq<string>)
    ensures NoClash(a + b) <==> NoClash(a) && NoClash(b)
  {
    var c := a + b;
    if NoClash(a) && NoClash(b) {
      forall k | 0 <= k < |c|
        ensures AttributeClash(c[k]).None?
      {
        if k < |a| { assert c[k] == a[k]; } else { assert c[k] == b[k - |a|]; }
      }
    }
    if NoClash(c) {
      forall k | 0 <= k < |a|
        ensures AttributeClash(a[k]).None?
      {
        assert c[k] == a[k];
      }
      forall k | 0 <= k < |b|
        ensures AttributeClash(b[k]).None?
      {
        assert c[|a| + k] == b[k];
      }
    }
  }

  /** The constructor's loop over the dimension names in dict order (lines
      171-175): the built library when no name clashes, else the exception
      of the first name that does. */
  function SetAttributes(lib: Library, names: seq<string>): (r: Result<Library>)
    ensures r.Ok? <==> NoClash(names)
    ensures r.Ok? ==> r.value == lib
    decreases |names|
  {
    if |names| == 0 then Ok(lib)
    else if AttributeClash(names[0]).Some? then
      assert !NoClash(names);
      Fail(AttributeClash(names[0]).value)
    else
      assert names == [names[0]] + names[1..];
      NoClashAppend([names[0]], names[1..]);
      SetAttributes(lib, names[1..])
  }

  /** A failing attribute loop raises the exception of the first clashing
      name: the one with no clash before it. */
  lemma {:induction false} SetAttributesFirstClash(lib: Library, names: seq<string>, i: nat)
    requires i < |names| && AttributeClash(names[i]).Some? && NoClash(names[..i])
    ensures SetAttributes(lib, names) == Fail(AttributeClash(names[i]).value)
    decreases i
  {
    if i > 0 {
      assert names[..i][0] == names[0];
      assert names[1..][..i - 1] == names[..i][1..];
      assert NoClash(names[1..][..i - 1]) by {
        NoClashAppend([names[..i][0]], names[..i][1..]);
        assert names[..i] == [names[..i][0]] + names[..i][1..];
      }
      SetAttributesFirstClash(lib, names[1..], i - 1);
    }
  }

  /** The dict of rebuilt dimensions is keyed by the arguments' names and
      holds only dimensions that passed the checks. */
  lemma {:induction false} RebuiltDict(specs: seq<SavedDimension>, rs: seq<Dimension>)
    requires |rs| == |specs| && forall i :: 0 <= i < |specs| ==> Rebuilt(rs[i], specs[i], true)
    ensures DimNames(rs) == Names(specs)
    ensures ValidDims(FromList(DimNames(rs), rs))
  {
    var d := FromList(DimNames(rs), rs);
    forall j | 0 <= j < |d.vals|
      ensures ValidDimension(d.vals[j])
    {
      var i :| 0 <= i < |rs| && rs[i] == d.vals[j];
      assert Rebuilt(rs[i], specs[i], true);
    }
  }

  /** The constructor after its dimensions dict is built: the structure
      check, then the grid. */
  function Assemble(d: ODict<string, Dimension>, ordering: seq<string>): (r: Result<Library>)
    requires OrderedDict.Valid(d) && ValidDims(d) && (|d.keys| == 0 <==> |ordering| == 0)
    requires forall i :: 0 <= i < |ordering| ==> ordering[i] in d.keys
    ensures r.Ok? ==> && r.value.ordering == ordering
                      && r.value.props == Empty() && r.value.extra == Empty()
                      && r.value.dims.keys == d.keys && Wf(r.value)
    ensures r.Ok? && |ordering| == 0 ==> r.value.gridShape.None? && r.value.structured
    ensures r.Ok? && |ordering| > 0 ==> r.value.gridShape.Some?
  {
    var structured := AllStructured(d);
    if !structured && !NoneStructured(d) then Fail(ValueError(MixedStructure))
    else if |ordering| == 0 then Ok(Library(d, ordering, Empty(), structured, None, Empty()))
    else if structured then StructuredGrid(d, ordering)
    else UnstructuredGrid(d, ordering)
  }

  /** The structured branch of the constructor: each dimension's grid is its
      component of the meshgrid of all their values, and the grid shape is
      the meshgrid's shape. */
  function StructuredGrid(d: ODict<string, Dimension>, ordering: seq<string>): (r: Result<Library>)
    requires OrderedDict.Valid(d) && ValidDims(d) && |d.keys| > 0
    requires forall i :: 0 <= i < |ordering| ==> ordering[i] in d.keys
    ensures r.Ok? <==> forall j :: 0 <= j < |d.vals| ==> d.vals[j].libraryOwned
    ensures r.Ok? ==> && r.value.ordering == ordering && r.value.structured
                      && r.value.props == Empty() && r.value.extra == Empty()
                      && r.value.dims.keys == d.keys && Wf(r.value)
                      && r.value.gridShape == Some(Lengths(Axes(d)))
                      && forall j :: 0 <= j < |d.vals| ==>
                           && SaveDict(r.value.dims.vals[j]) == SaveDict(d.vals[j])
                           && Grid(r.value.dims.vals[j]).shape == Lengths(Axes(d))
  {
    var grids := Meshgrid(Axes(d));
    var gd :- SetGrids(d, grids);
    Ok(Library(gd, ordering, Empty(), true, Some(grids[0].shape), Empty()))
  }

  /** The unstructured branch of the constructor, as evidently intended:
      every dimension's grid (its flat values) must share the first one's
      shape, which becomes the grid shape. */
  function UnstructuredGrid(d: ODict<string, Dimension>, ordering: seq<string>): (r: Result<Library>)
    requires OrderedDict.Valid(d) && ValidDims(d) && |d.keys| > 0
    requires forall i :: 0 <= i < |ordering| ==> ordering[i] in d.keys
    ensures r.Ok? <==> forall j :: 0 <= j < |d.vals| ==>
                         Grid(d.vals[j]).shape == Grid(d.vals[0]).shape && |Grid(d.vals[j]).shape| == 1
    ensures r.Fail? && (forall j :: 0 <= j < |d.vals| ==> Grid(d.vals[j]).shape == Grid(d.vals[0]).shape)
            ==> r.error == ValueError(UnstructuredNotFlat)
    ensures r.Fail? && !(forall j :: 0 <= j < |d.vals| ==> Grid(d.vals[j]).shape == Grid(d.vals[0]).shape)
            ==> r.error == ValueError(UnstructuredShapes)
    ensures r.Ok? ==> && r.value == Library(d, ordering, Empty(), false, r.value.gridShape, Empty())
                      && r.value.gridShape == Some(Grid(d.vals[0]).shape)
                      && Wf(r.value)
  {
    var shape := Grid(d.vals[0]).shape;
    if exists j :: 0 <= j < |d.vals| && Grid(d.vals[j]).shape != shape then
      Fail(ValueError(UnstructuredShapes))
    else if exists j :: 0 <= j < |d.vals| && |Grid(d.vals[j]).shape| != 1 then
      Fail(ValueError(UnstructuredNotFlat))
    else Ok(Library(d, ordering, Empty(), false, Some(shape), Empty()))
  }

  /** The constructor as written: the unstructured branch begins with
      next(self._dims.keys()), and a dict keys view is not an iterator, so
      every non-empty unstructured library raises TypeError there. */
  function ConstructAsWritten(specs: seq<SavedDimension>): (r: Result<Library>)
    requires SpecsWellFormed(specs)
    ensures r.Ok? ==> r == Construct(specs) && r.value.structured
  {
    var rs :- Reconstruct(specs, true);
    var d := FromList(DimNames(rs), rs);
    if !AllStructured(d) && !NoneStructured(d) then Fail(ValueError(MixedStructure))
    else if |specs| > 0 && !AllStructured(d) then Fail(TypeError)
    else Construct(specs)
  }

  /** Library(*ds) */
  function NewLibrary(ds: seq<Dimension>): (r: Result<Library>)
    requires forall i :: 0 <= i < |ds| ==> WellFormed(ds[i].values)
    ensures r.Ok? ==> r.value.ordering == DimNames(ds) && Wf(r.value)
  {
    Construct(Specs(ds))
  }

  /** Library(*ds) as the program is written: the same library when it is
      structured, and TypeError (line 163) for every non-empty unstructured
      one. */
  function NewLibraryAsWritten(ds: seq<Dimension>): (r: Result<Library>)
    requires forall i :: 0 <= i < |ds| ==> WellFormed(ds[i].values)
    ensures r == NewLibrary(ds) || r == Fail(TypeError)
    ensures NewLibrary(ds).Ok? ==> (r == NewLibrary(ds) <==> NewLibrary(ds).value.structured)
  {
    AsWrittenAgreesWhenStructured(Specs(ds));
    ConstructAsWritten(Specs(ds))
  }

  // -----------------------------------------------------------------------
  // Accessors

  /** What every Library the constructor builds satisfies: each dict is a
      dict, every name in the ordering has a dimension, every dimension
      passed the Dimension checks, and every property is a well-formed
      ndarray. */
  predicate Wf(lib: Library)
  {
    && OrderedDict.Valid(lib.dims) && OrderedDict.Valid(lib.props) && OrderedDict.Valid(lib.extra)
    && (forall i :: 0 <= i < |lib.ordering| ==> lib.ordering[i] in lib.dims.keys)
    && ValidDims(lib.dims)
    && (forall j :: 0 <= j < |lib.props.vals| ==> WellFormed(lib.props.vals[j]))
  }

  /** The dims property: the dimensions in constructor order. */
  function Dims(lib: Library): (ds: seq<Dimension>)
    requires Wf(lib)
    ensures |ds| == |lib.ordering|
    ensures forall i :: 0 <= i < |ds| ==> ds[i] == Get(lib.dims, lib.ordering[i]) && ValidDimension(ds[i])
  {
    seq(|lib.ordering|, i requires 0 <= i < |lib.ordering| => Get(lib.dims, lib.ordering[i]))
  }

  /** With distinct names the dimensions dict lists the rebuilt arguments
      in argument order, each under its own name. */
  lemma {:induction false} DictOfDistinct(specs: seq<SavedDimension>)
    requires SpecsWellFormed(specs) && Distinct(Names(specs)) && Reconstruct(specs, true).Ok?
    ensures var a := Assemble(ODict(Names(specs), Reconstruct(specs, true).value), Names(specs));
            Construct(specs) == if a.Ok? then SetAttributes(a.value, Names(specs)) else a
  {
    var rs := Reconstruct(specs, true).value;
    RebuiltDict(specs, rs);
    FromListDistinct(DimNames(rs), rs);
  }

  /** When the names are the keys, dims lists the dict's values in order. */
  lemma {:induction false} DimsAt(lib: Library, i: nat)
    requires Wf(lib) && lib.dims.keys == lib.ordering && i < |lib.ordering|
    ensures Dims(lib)[i] == lib.dims.vals[i]
  {
    GetAt(lib.dims, i);
  }

  /** The library's dimensions carry the saved fields they were built from. */
  predicate DimsFrom(lib: Library, specs: seq<SavedDimension>)
    requires Wf(lib)
  {
    && lib.dims.keys == lib.ordering
    && |lib.ordering| == |specs|
    && forall i :: 0 <= i < |specs| ==> SaveDict(lib.dims.vals[i]) == specs[i]
  }

  /** A structured library from distinct names: each argument keeps its
      saved fields and its grid has the shape of the argument sizes. */
  lemma {:induction false} StructuredConstruct(specs: seq<SavedDimension>)
    requires SpecsWellFormed(specs) && Distinct(Names(specs)) && Construct(specs).Ok?
    requires |specs| > 0 && Construct(specs).value.structured
    ensures DimsFrom(Construct(specs).value, specs)
    ensures Construct(specs).value.gridShape == Some(Npts(specs))
    ensures forall i :: 0 <= i < |specs| ==> specs[i].structured
    ensures forall i :: 0 <= i < |specs| ==> Grid(Construct(specs).value.dims.vals[i]).shape == Npts(specs)
  {
    var rs := Reconstruct(specs, true).value;
    var names := Names(specs);
    var d := ODict(names, rs);
    DictOfDistinct(specs);
    assert AllStructured(d);
    assert Construct(specs) == StructuredGrid(d, names);
    RebuiltAxes(specs, rs);
  }

  /** The rebuilt dimensions have the arguments' sizes and flags. */
  lemma {:induction false} RebuiltAxes(specs: seq<SavedDimension>, rs: seq<Dimension>)
    requires |rs| == |specs| && forall i :: 0 <= i < |specs| ==> Rebuilt(rs[i], specs[i], true)
    ensures Lengths(Axes(ODict(Names(specs), rs))) == Npts(specs)
    ensures AllStructured(ODict(Names(specs), rs)) <==> forall i :: 0 <= i < |specs| ==> specs[i].structured
  {
    var d := ODict(Names(specs), rs);
    forall i | 0 <= i < |specs|
      ensures Lengths(Axes(d))[i] == Npts(specs)[i]
      ensures specs[i].structured == d.vals[i].structured
    {
      assert Rebuilt(rs[i], specs[i], true);
    }
  }

  /** An unstructured library from distinct names: the dimensions are kept
      as rebuilt, all of one length, which is the grid shape. */
  lemma {:induction false} UnstructuredConstruct(specs: seq<SavedDimension>)
    requires SpecsWellFormed(specs) && Distinct(Names(specs)) && Construct(specs).Ok?
    requires |specs| > 0 && !Construct(specs).value.structured
    ensures DimsFrom(Construct(specs).value, specs)
    ensures forall i :: 0 <= i < |specs| ==> !specs[i].structured
    ensures forall i :: 0 <= i < |specs| ==> |specs[i].values.data| == |specs[0].values.data|
    ensures Construct(specs).value.gridShape == Some([|specs[0].values.data|])
    ensures forall i :: 0 <= i < |specs| ==> Grid(Construct(specs).value.dims.vals[i]).shape == [|specs[0].values.data|]
  {
    var rs := Reconstruct(specs, true).value;
    var names := Names(specs);
    var d := ODict(names, rs);
    DictOfDistinct(specs);
    assert !AllStructured(d);
    assert NoneStructured(d);
    assert Construct(specs) == UnstructuredGrid(d, names);
    assert Rebuilt(rs[0], specs[0], true);
    OneDimensionalIsVector(rs[0].values);
    forall i | 0 <= i < |specs|
      ensures !specs[i].structured
      ensures |specs[i].values.data| == |specs[0].values.data|
    {
      assert Rebuilt(rs[i], specs[i], true);
      OneDimensionalIsVector(rs[i].values);
    }
  }

  /** Dimensions whose saved fields are specs, as the dims property lists
      them. */
  lemma {:induction false} SpecsOfDims(lib: Library, specs: seq<SavedDimension>)
    requires Wf(lib) && DimsFrom(lib, specs)
    ensures Specs(Dims(lib)) == specs
  {
    forall i | 0 <= i < |specs|
      ensures Specs(Dims(lib))[i] == specs[i]
    {
      DimsAt(lib, i);
    }
  }

  /** What the constructor builds from dimensions with distinct names: the
      dims property lists the arguments in order (same names, values and
      structured flags), the library is structured exactly when they all
      are, and the grid shape is the tuple of their sizes when structured,
      or the common length of their values when not. */
  lemma {:induction false} ConstructDims(specs: seq<SavedDimension>)
    requires SpecsWellFormed(specs) && Distinct(Names(specs)) && Construct(specs).Ok?
    ensures Construct(specs).value.dims.keys == Names(specs)
    ensures Specs(Dims(Construct(specs).value)) == specs
    ensures Construct(specs).value.structured <==> forall i :: 0 <= i < |specs| ==> specs[i].structured
    ensures |specs| > 0 && Construct(specs).value.structured ==>
              Construct(specs).value.gridShape == Some(Npts(specs))
    ensures |specs| > 0 && !Construct(specs).value.structured ==>
              && (forall i :: 0 <= i < |specs| ==> |specs[i].values.data| == |specs[0].values.data|)
              && Construct(specs).value.gridShape == Some([|specs[0].values.data|])
  {
    var lib := Construct(specs).value;
    if |specs| == 0 {
      DictOfDistinct(specs);
      assert lib.dims.keys == [];
    } else if lib.structured {
      StructuredConstruct(specs);
    } else {
      UnstructuredConstruct(specs);
    }
    SpecsOfDims(lib, specs);
  }

  /** Dimensions with distinct names that are neither all structured nor all
      unstructured are refused. */
  lemma {:induction false} ConstructRefusesMixed(specs: seq<SavedDimension>, i: nat, j: nat)
    requires SpecsWellFormed(specs) && Distinct(Names(specs))
    requires forall k :: 0 <= k < |specs| ==> Buildable(specs[k])
    requires i < |specs| && j < |specs| && specs[i].structured && !specs[j].structured
    ensures Construct(specs) == Fail(ValueError(MixedStructure))
  {
    var rs := Reconstruct(specs, true).value;
    DictOfDistinct(specs);
    var d := ODict(Names(specs), rs);
    assert Rebuilt(rs[i], specs[i], true) && Rebuilt(rs[j], specs[j], true);
    assert d.vals[i].structured && !d.vals[j].structured;
  }

  /** Buildable structured dimensions with distinct names, none of which
      clashes with an attribute of Library, are accepted, and make a
      structured library. */
  lemma {:induction false} ConstructAcceptsStructured(specs: seq<SavedDimension>)
    requires SpecsWellFormed(specs) && Distinct(Names(specs)) && |specs| > 0
    requires forall k :: 0 <= k < |specs| ==> Buildable(specs[k]) && specs[k].structured
    requires NoClash(Names(specs))
    ensures Construct(specs).Ok? && Construct(specs).value.structured
  {
    AssembleStructured(specs);
    DictOfDistinct(specs);
  }

  /** The structure check and the grid accept buildable structured
      dimensions with distinct names. */
  lemma {:induction false} AssembleStructured(specs: seq<SavedDimension>)
    requires SpecsWellFormed(specs) && Distinct(Names(specs)) && |specs| > 0
    requires forall k :: 0 <= k < |specs| ==> Buildable(specs[k]) && specs[k].structured
    ensures Reconstruct(specs, true).Ok?
    ensures Assemble(ODict(Names(specs), Reconstruct(specs, true).value), Names(specs)).Ok?
    ensures Assemble(ODict(Names(specs), Reconstruct(specs, true).value), Names(specs)).value.structured
  {
    var rs := Reconstruct(specs, true).value;
    var d := ODict(Names(specs), rs);
    RebuiltAxes(specs, rs);
    RebuiltDict(specs, rs);
    FromListDistinct(DimNames(rs), rs);
    assert Assemble(d, Names(specs)) == StructuredGrid(d, Names(specs));
    assert forall j :: 0 <= j < |d.vals| ==> Rebuilt(rs[j], specs[j], true);
  }

  /** A dimension named after an attribute of Library is refused; when the
      dimensions are otherwise acceptable structured ones, the exception is
      the one of the first such name. */
  lemma {:induction false} ConstructRefusesClash(specs: seq<SavedDimension>, i: nat)
    requires SpecsWellFormed(specs) && Distinct(Names(specs))
    requires i < |specs| && AttributeClash(specs[i].name).Some?
    ensures Construct(specs).Fail?
    ensures (forall k :: 0 <= k < |specs| ==> Buildable(specs[k]) && specs[k].structured) && NoClash(Names(specs)[..i]) ==>
              Construct(specs) == Fail(AttributeClash(specs[i].name).value)
  {
    var names := Names(specs);
    assert !NoClash(names) by { assert names[i] == specs[i].name; }
    if Reconstruct(specs, true).Ok? {
      DictOfDistinct(specs);
    }
    if (forall k :: 0 <= k < |specs| ==> Buildable(specs[k]) && specs[k].structured) && NoClash(names[..i]) {
      FirstClashRaised(specs, i);
    }
  }

  /** Acceptable structured dimensions fail only at the attribute loop,
      with the exception of the first clashing name. */
  lemma {:induction false} FirstClashRaised(specs: seq<SavedDimension>, i: nat)
    requires SpecsWellFormed(specs) && Distinct(Names(specs))
    requires forall k :: 0 <= k < |specs| ==> Buildable(specs[k]) && specs[k].structured
    requires i < |specs| && AttributeClash(Names(specs)[i]).Some? && NoClash(Names(specs)[..i])
    ensures Construct(specs) == Fail(AttributeClash(Names(specs)[i]).value)
  {
    AssembleStructured(specs);
    AssembledFirstClash(specs, i);
  }

  /** Once the grid is assembled, the constructor's outcome is the
      attribute loop's: the first clashing name's exception. */
  lemma {:induction false} AssembledFirstClash(specs: seq<SavedDimension>, i: nat)
    requires SpecsWellFormed(specs) && Distinct(Names(specs)) && Reconstruct(specs, true).Ok?
    requires Assemble(ODict(Names(specs), Reconstruct(specs, true).value), Names(specs)).Ok?
    requires i < |specs| && AttributeClash(Names(specs)[i]).Some? && NoClash(Names(specs)[..i])
    ensures Construct(specs) == Fail(AttributeClash(Names(specs)[i]).value)
  {
    var names := Names(specs);
    var lib := Assemble(ODict(names, Reconstruct(specs, true).value), names).value;
    AssembledThenAttributes(specs);
    SetAttributesFirstClash(lib, names, i);
  }

  /** Once the grid is assembled, the constructor's outcome is the
      attribute loop's over the dimension names. */
  lemma {:induction false} AssembledThenAttributes(specs: seq<SavedDimension>)
    requires SpecsWellFormed(specs) && Distinct(Names(specs)) && Reconstruct(specs, true).Ok?
    requires Assemble(ODict(Names(specs), Reconstruct(specs, true).value), Names(specs)).Ok?
    ensures Construct(specs) == SetAttributes(Assemble(ODict(Names(specs), Reconstruct(specs, true).value), Names(specs)).value, Names(specs))
  {
    DictOfDistinct(specs);
  }

  /** A structured dimension named shape: Library(Dimension('shape',
      np.array([0., 1.]))) raises AttributeError at its setattr. */
  lemma ShapeNamedDimension()
    ensures Construct([SavedDimension("shape", Vector([0.0, 1.0]), true)]) == Fail(AttributeError)
  {
    var s := SavedDimension("shape", Vector([0.0, 1.0]), true);
    assert IsIdentifier(s.name);
    assert Buildable(s);
    assert Distinct(Names([s]));
    assert NoClash(Names([s])[..0]);
    ConstructRefusesClash([s], 0);
  }

  /** A library without dimensions: nothing in it, structured, and without
      a grid shape. */
  lemma ConstructEmpty()
    ensures Construct([]) == Ok(Library(Empty(), [], Empty(), true, None, Empty()))
  {
    assert Names([]) == [];
    assert DimNames([]) == [];
  }

  /** The constructor as written agrees with the intended one except on
      non-empty unstructured libraries, which it always refuses. */
  lemma {:induction false} AsWrittenAgreesWhenStructured(specs: seq<SavedDimension>)
    requires SpecsWellFormed(specs)
    ensures ConstructAsWritten(specs) == Construct(specs) || ConstructAsWritten(specs) == Fail(TypeError)
    ensures Construct(specs).Ok? ==>
              (ConstructAsWritten(specs) == Construct(specs) <==> Construct(specs).value.structured)
  {
  }

  /** A single dimension that passes its own checks, and whose name clashes
      with no attribute of Library, makes a library. */
  lemma {:induction false} ConstructSingle(s: SavedDimension)
    requires Buildable(s) && AttributeClash(s.name).None?
    ensures Construct([s]).Ok? && Construct([s]).value.structured == s.structured
  {
    var specs := [s];
    RestoreFacts(s, true);
    assert Distinct(Names(specs));
    assert NoClash(Names(specs));
    DictOfDistinct(specs);
    var rs := Reconstruct(specs, true).value;
    assert Rebuilt(rs[0], s, true);
    OneDimensionalIsVector(rs[0].values);
    var a := Assemble(ODict(Names(specs), rs), Names(specs));
    assert a.Ok? && a.value.structured == s.structured;
    assert Construct(specs) == SetAttributes(a.value, Names(specs));
  }

  /** The input that shows it: a single unstructured dimension. */
  lemma UnstructuredCounterexample()
    ensures Construct([SavedDimension("Z", Vector([0.0, 0.5]), false)]).Ok?
    ensures ConstructAsWritten([SavedDimension("Z", Vector([0.0, 0.5]), false)]) == Fail(TypeError)
  {
    var z := SavedDimension("Z", Vector([0.0, 0.5]), false);
    assert IsIdentifier(z.name);
    assert Buildable(z);
    ConstructSingle(z);
  }

  // -----------------------------------------------------------------------
  // The state every library reaches

  /** The invariant of every Library with distinct dimension names that the
      operations produce: the dimensions dict lists the names in constructor
      order, rebuilding the library from its dims gives it back without its
      properties and extra attributes, and every property has the grid's
      shape. */
  predicate Consistent(lib: Library)
  {
    && Wf(lib)
    && lib.dims.keys == lib.ordering
    && Construct(Specs(Dims(lib))) == Ok(lib.(props := Empty(), extra := Empty()))
    && forall j :: 0 <= j < |lib.props.vals| ==> lib.gridShape == Some(lib.props.vals[j].shape)
  }

  /** Rebuilding a consistent library from its own dimensions gives it back
      without properties and extra attributes. */
  lemma {:induction false} RebuildFromDims(lib: Library, owned: bool)
    requires Consistent(lib)
    ensures SpecsWellFormed(Specs(Dims(lib))) && Reconstruct(Specs(Dims(lib)), owned).Ok?
    ensures NewLibrary(Reconstruct(Specs(Dims(lib)), owned).value) == Ok(lib.(props := Empty(), extra := Empty()))
  {
    ReconstructValid(Dims(lib), owned);
  }

  /** A freshly built library with distinct dimension names is consistent. */
  lemma {:induction false} ConstructConsistent(specs: seq<SavedDimension>)
    requires SpecsWellFormed(specs) && Distinct(Names(specs)) && Construct(specs).Ok?
    ensures Consistent(Construct(specs).value)
  {
    ConstructDims(specs);
  }

  /** What a consistent library's dimensions say about its grid: the facts
      of ConstructDims, read off the library itself. */
  lemma {:induction false} ConsistentGrid(lib: Library)
    requires Consistent(lib)
    ensures lib.structured <==> forall i :: 0 <= i < |lib.ordering| ==> Dims(lib)[i].structured
    ensures |lib.ordering| > 0 && lib.structured ==> lib.gridShape == Some(Npts(Specs(Dims(lib))))
    ensures |lib.ordering| > 0 && !lib.structured ==> lib.gridShape == Some([Dims(lib)[0].npts])
    ensures |lib.ordering| > 0 && !lib.structured ==>
              forall i :: 0 <= i < |lib.ordering| ==> Dims(lib)[i].npts == Dims(lib)[0].npts
    ensures |lib.ordering| == 0 ==> lib.gridShape.None?
  {
    ConsistentFlags(lib);
    ConsistentShape(lib);
    ConsistentLengths(lib);
  }

  /** A consistent library is structured exactly when its dimensions are. */
  lemma {:induction false} ConsistentFlags(lib: Library)
    requires Consistent(lib)
    ensures lib.structured <==> forall i :: 0 <= i < |lib.ordering| ==> Dims(lib)[i].structured
  {
    DimsSpecs(lib);
    ConstructDims(Specs(Dims(lib)));
  }

  /** The grid shape of a consistent library: none without dimensions, the
      dimension sizes when structured, the first one's length when not. */
  lemma {:induction false} ConsistentShape(lib: Library)
    requires Consistent(lib)
    ensures |lib.ordering| > 0 && lib.structured ==> lib.gridShape == Some(Npts(Specs(Dims(lib))))
    ensures |lib.ordering| > 0 && !lib.structured ==> lib.gridShape == Some([Dims(lib)[0].npts])
    ensures |lib.ordering| == 0 ==> lib.gridShape.None?
  {
    DimsSpecs(lib);
    ConstructDims(Specs(Dims(lib)));
  }

  /** The dimensions of a consistent unstructured library share one
      length. */
  lemma {:induction false} ConsistentLengths(lib: Library)
    requires Consistent(lib)
    ensures |lib.ordering| > 0 && !lib.structured ==>
              forall i :: 0 <= i < |lib.ordering| ==> Dims(lib)[i].npts == Dims(lib)[0].npts
  {
    DimsSpecs(lib);
    ConstructDims(Specs(Dims(lib)));
  }

  /** The saved fields of a library's dims carry its ordering as their
      names, with no name twice. */
  lemma {:induction false} ConsistentNoClash(lib: Library)
    requires Consistent(lib)
    ensures NoClash(lib.ordering)
  {
    DimsSpecs(lib);
    DictOfDistinct(Specs(Dims(lib)));
  }

  lemma {:induction false} DimsSpecs(lib: Library)
    requires Consistent(lib)
    ensures SpecsWellFormed(Specs(Dims(lib)))
    ensures Names(Specs(Dims(lib))) == lib.ordering && Distinct(lib.ordering)
  {
  }

  // -----------------------------------------------------------------------
  // Accessors

  /** The props property: the property names in insertion order, each
      listed once, one per stored array. */
  function Props(lib: Library): (names: seq<string>)
    ensures OrderedDict.Valid(lib.props) ==> Distinct(names) && |names| == |lib.props.vals|
  {
    lib.props.keys
  }

  /** prop in lib: holds exactly for the names the props property lists. */
  function Contains(lib: Library, prop: string): (b: bool)
    ensures b <==> prop in Props(lib)
  {
    prop in lib.props.keys
  }

  /** The shape property: the grid shape of the first dimension; IndexError
      on a library without dimensions. */
  function Shape(lib: Library): (r: Result<seq<nat>>)
    requires Wf(lib)
    ensures r.Fail? <==> |lib.ordering| == 0
    ensures r.Fail? ==> r.error == IndexError
  {
    if |lib.ordering| == 0 then Fail(IndexError) else Ok(Grid(Dims(lib)[0]).shape)
  }

  /** The size property: the number of grid points. */
  function Size(lib: Library): (r: Result<nat>)
    requires Wf(lib)
    ensures r.Fail? <==> |lib.ordering| == 0
    ensures r.Ok? ==> r.value == Product(Shape(lib).value)
  {
    var shape :- Shape(lib);
    Ok(Product(shape))
  }

  /** The shape of a consistent library is its grid shape: the tuple of the
      dimension sizes in constructor order when structured, the common
      length when not; the size is their product. */
  lemma {:induction false} ShapeIsGridShape(lib: Library)
    requires Consistent(lib) && |lib.ordering| > 0
    ensures Shape(lib) == Ok(lib.gridShape.value)
    ensures lib.structured ==> Shape(lib) == Ok(Npts(Specs(Dims(lib))))
    ensures !lib.structured ==> Shape(lib) == Ok([Dims(lib)[0].npts])
    ensures Size(lib) == Ok(Product(lib.gridShape.value))
  {
    var specs := Specs(Dims(lib));
    DimsSpecs(lib);
    ConsistentGrid(lib);
    ConstructDims(specs);
    var built := Construct(specs).value;
    DimsAt(lib, 0);
    if lib.structured {
      StructuredConstruct(specs);
    } else {
      UnstructuredConstruct(specs);
    }
    assert built.dims == lib.dims;
  }

  // -----------------------------------------------------------------------
  // The property map

  /** lib[quantity] = values: the array must have the grid's shape. A library
      built without dimensions has no grid shape attribute at all. */
  function SetItem(lib: Library, quantity: string, values: Array): (r: Result<Library>)
    requires OrderedDict.Valid(lib.props)
    ensures r.Ok? <==> lib.gridShape == Some(values.shape)
    ensures lib.gridShape.None? ==> r == Fail(AttributeError)
    ensures lib.gridShape.Some? && lib.gridShape.value != values.shape ==> r == Fail(ValueError(ShapeMismatch))
    ensures r.Ok? ==> && r.value == lib.(props := r.value.props)
                      && OrderedDict.Valid(r.value.props)
                      && Contains(r.value, quantity) && Get(r.value.props, quantity) == values
                      && (forall p :: p != quantity ==> (Contains(r.value, p) <==> Contains(lib, p)))
                      && (forall p :: p != quantity && Contains(lib, p) ==>
                            Get(r.value.props, p) == Get(lib.props, p))
                      && (Contains(lib, quantity) ==> Props(r.value) == Props(lib))
                      && (!Contains(lib, quantity) ==> Props(r.value) == Props(lib) + [quantity])
  {
    if lib.gridShape.None? then Fail(AttributeError)
    else if values.shape != lib.gridShape.value then Fail(ValueError(ShapeMismatch))
    else Ok(lib.(props := Put(lib.props, quantity, values)))
  }

  /** A successful assignment of a well-formed array keeps a library
      well-formed and consistent. */
  lemma {:induction false} SetItemPreserves(lib: Library, quantity: string, values: Array)
    requires OrderedDict.Valid(lib.props) && WellFormed(values) && SetItem(lib, quantity, values).Ok?
    ensures Wf(lib) ==> Wf(SetItem(lib, quantity, values).value)
    ensures Consistent(lib) ==> Consistent(SetItem(lib, quantity, values).value)
  {
    if Wf(lib) {
      SetItemWf(lib, quantity, values);
    }
    if Consistent(lib) {
      SetItemWf(lib, quantity, values);
      WithProps(lib, SetItem(lib, quantity, values).value.props);
    }
  }

  /** After a successful assignment of a well-formed array the library is
      still well-formed, and its arrays still all have the grid's shape if
      they did before. */
  lemma {:induction false} SetItemWf(lib: Library, quantity: string, values: Array)
    requires Wf(lib) && WellFormed(values) && SetItem(lib, quantity, values).Ok?
    ensures Wf(SetItem(lib, quantity, values).value)
    ensures (forall j :: 0 <= j < |lib.props.vals| ==> lib.gridShape == Some(lib.props.vals[j].shape)) ==>
              forall j :: 0 <= j < |SetItem(lib, quantity, values).value.props.vals| ==>
                lib.gridShape == Some(SetItem(lib, quantity, values).value.props.vals[j].shape)
  {
    PutValues(lib.props, quantity, values);
  }

  /** Replacing the properties of a consistent library by well-formed
      arrays of the grid's shape keeps it consistent. */
  lemma {:induction false} WithProps(lib: Library, props: ODict<string, Array>)
    requires Consistent(lib) && OrderedDict.Valid(props)
    requires forall j :: 0 <= j < |props.vals| ==>
               WellFormed(props.vals[j]) && lib.gridShape == Some(props.vals[j].shape)
    ensures Consistent(lib.(props := props))
  {
    var r := lib.(props := props);
    assert Dims(r) == Dims(lib);
    assert r.(props := Empty(), extra := Empty()) == lib.(props := Empty(), extra := Empty());
  }

  /** After d[k] = v every value is v or one that was there. */
  lemma {:induction false} PutValues<V>(d: ODict<string, V>, k: string, v: V)
    requires OrderedDict.Valid(d)
    ensures forall j :: 0 <= j < |Put(d, k, v).vals| ==> Put(d, k, v).vals[j] == v || Put(d, k, v).vals[j] in d.vals
  {
  }

  /** lib[quantity] for a string: the stored array, KeyError when absent. */
  function GetProp(lib: Library, quantity: string): (r: Result<Array>)
    requires OrderedDict.Valid(lib.props)
    ensures r.Ok? <==> Contains(lib, quantity)
    ensures r.Fail? ==> r.error == KeyError(quantity)
    ensures r.Ok? ==> exists j :: 0 <= j < |lib.props.keys| && lib.props.keys[j] == quantity && r.value == lib.props.vals[j]
  {
    if quantity in lib.props.keys then Ok(Get(lib.props, quantity)) else Fail(KeyError(quantity))
  }

  /** After lib[q] = v succeeds, lib[q] is v, q in lib holds, and q is among
      the props; every other property reads as before. */
  lemma {:induction false} SetThenGet(lib: Library, q: string, v: Array, p: string)
    requires OrderedDict.Valid(lib.props)
    ensures SetItem(lib, q, v).Ok? ==>
              && GetProp(SetItem(lib, q, v).value, q) == Ok(v)
              && Contains(SetItem(lib, q, v).value, q)
              && q in Props(SetItem(lib, q, v).value)
              && (p != q ==> GetProp(SetItem(lib, q, v).value, p) == GetProp(lib, p))
  {
  }


  /** Arrays that are computed without raising. */
  function AllOk(arrays: seq<Array>): (c: seq<Result<Array>>)
    ensures |c| == |arrays| && forall j :: 0 <= j < |arrays| ==> c[j] == Ok(arrays[j])
  {
    seq(|arrays|, j requires 0 <= j < |arrays| => Ok(arrays[j]))
  }

  /** for j, p in enumerate(names): lib[p] = <array j> — each array is
      computed (which may raise) and then assigned (which may raise), in
      order, and the first exception propagates. */
  function SetEach(lib: Library, names: seq<string>, computed: seq<Result<Array>>): (r: Result<Library>)
    requires OrderedDict.Valid(lib.props) && |names| == |computed|
    ensures r.Ok? ==> r.value == lib.(props := r.value.props) && OrderedDict.Valid(r.value.props)
    decreases |names|
  {
    if |names| == 0 then Ok(lib)
    else
      var a :- computed[0];
      var next :- SetItem(lib, names[0], a);
      SetEach(next, names[1..], computed[1..])
  }

  /** When every array is computed, has the grid's shape and goes under a
      new name, the names are appended with their arrays, in order. */
  lemma {:induction false} SetEachFresh(lib: Library, names: seq<string>, arrays: seq<Array>, computed: seq<Result<Array>>)
    requires OrderedDict.Valid(lib.props) && |names| == |arrays| == |computed|
    requires forall j :: 0 <= j < |names| ==> computed[j] == Ok(arrays[j]) && lib.gridShape == Some(arrays[j].shape)
    requires Distinct(lib.props.keys + names)
    ensures SetEach(lib, names, computed) == Ok(lib.(props := ODict(lib.props.keys + names, lib.props.vals + arrays)))
    decreases |names|
  {
    if |names| > 0 {
      var k := names[0];
      assert k !in lib.props.keys by {
        assert (lib.props.keys + names)[|lib.props.keys|] == k;
        forall i | 0 <= i < |lib.props.keys|
          ensures lib.props.keys[i] != k
        {
          assert (lib.props.keys + names)[i] == lib.props.keys[i];
        }
      }
      PutNew(lib.props, k, arrays[0]);
      var next := lib.(props := ODict(lib.props.keys + [k], lib.props.vals + [arrays[0]]));
      assert SetItem(lib, k, arrays[0]) == Ok(next);
      assert lib.props.keys + names == next.props.keys + names[1..];
      assert lib.props.vals + arrays == next.props.vals + arrays[1..];
      SetEachFresh(next, names[1..], arrays[1..], computed[1..]);
    } else {
      assert lib.props.keys + names == lib.props.keys;
      assert lib.props.vals + arrays == lib.props.vals;
    }
  }

  /** Copying the properties of a consistent library, each array possibly
      transformed, onto a library without properties whose grid has the
      transformed arrays' shape puts them back in the same order. */
  lemma {:induction false} SetEachCopies(target: Library, from: ODict<string, Array>, arrays: seq<Array>, computed: seq<Result<Array>>)
    requires OrderedDict.Valid(from) && target.props == Empty()
    requires |arrays| == |computed| == |from.keys|
    requires forall j :: 0 <= j < |from.keys| ==> computed[j] == Ok(arrays[j]) && target.gridShape == Some(arrays[j].shape)
    ensures SetEach(target, from.keys, computed) == Ok(target.(props := ODict(from.keys, arrays)))
  {
    assert [] + from.keys == from.keys;
    assert [] + arrays == arrays;
    SetEachFresh(target, from.keys, arrays, computed);
  }

  /** The outcome of a method that may raise part-way: the state reached,
      and the exception, if one was raised. */
  datatype Outcome = Outcome(lib: Library, raised: Option<Error>)

  /** The names of qs, as a set. */
  function Elements(qs: seq<string>): (e: set<string>)
    ensures forall q :: q in e <==> q in qs
  {
    set i | 0 <= i < |qs| :: qs[i]
  }

  /** The first n names can each be popped in turn: each is present and not
      popped already. */
  predicate Poppable(keys: seq<string>, qs: seq<string>, n: nat)
    requires n <= |qs|
  {
    forall i :: 0 <= i < n ==> qs[i] in keys && qs[i] !in qs[..i]
  }

  /** lib.remove(*quantities): pops each name in turn, stopping at the
      first KeyError. */
  function Remove(lib: Library, quantities: seq<string>): (r: Outcome)
    requires OrderedDict.Valid(lib.props)
    ensures r.lib == lib.(props := r.lib.props) && OrderedDict.Valid(r.lib.props)
    decreases |quantities|
  {
    if |quantities| == 0 then Outcome(lib, None)
    else
      match Pop(lib.props, quantities[0])
      case Fail(e) => Outcome(lib, Some(e))
      case Ok(p) => Remove(lib.(props := p), quantities[1..])
  }

  /** What remove does: it succeeds exactly when every name can be popped
      in turn, and then the named properties are gone; otherwise the first
      name that is not (or no longer) present raises KeyError, and the names
      popped before it stay removed. */
  lemma {:induction false} RemoveSpec(lib: Library, quantities: seq<string>)
    requires OrderedDict.Valid(lib.props)
    ensures Remove(lib, quantities).raised.None? <==> Poppable(lib.props.keys, quantities, |quantities|)
    ensures Remove(lib, quantities).raised.None? ==>
              Remove(lib, quantities).lib.props == Omit(lib.props, Elements(quantities))
    ensures Remove(lib, quantities).raised.Some? ==>
              exists n :: && 0 <= n < |quantities| && Poppable(lib.props.keys, quantities, n)
                          && Remove(lib, quantities).raised == Some(KeyError(quantities[n]))
                          && Remove(lib, quantities).lib.props == Omit(lib.props, Elements(quantities[..n]))
                          && quantities[n] !in Remove(lib, quantities).lib.props.keys
    decreases |quantities|
  {
    var r := Remove(lib, quantities);
    if |quantities| == 0 {
      assert Elements(quantities) == {};
      OmitNothing(lib.props, {});
    } else if quantities[0] !in lib.props.keys {
      assert Poppable(lib.props.keys, quantities, 0);
      assert Elements(quantities[..0]) == {};
      OmitNothing(lib.props, {});
    } else {
      var p := Omit(lib.props, {quantities[0]});
      var tail := lib.(props := p);
      assert r == Remove(tail, quantities[1..]);
      RemoveSpec(tail, quantities[1..]);
      RemoveStep(lib.props, quantities);
      if r.raised.Some? {
        var n :| && 0 <= n < |quantities| - 1 && Poppable(p.keys, quantities[1..], n)
                 && r.raised == Some(KeyError(quantities[1..][n]))
                 && r.lib.props == Omit(p, Elements(quantities[1..][..n]))
                 && quantities[1..][n] !in r.lib.props.keys;
        assert quantities[1..][n] == quantities[n + 1];
        assert Poppable(lib.props.keys, quantities, n + 1);
      } else {
        assert quantities[..|quantities|] == quantities;
        assert Omit(p, Elements(quantities[1..][..|quantities| - 1])) == Omit(lib.props, Elements(quantities));
      }
    }
  }

  /** One pop in front of a run of pops: the bookkeeping behind Remove. */
  lemma {:induction false} RemoveStep(d: ODict<string, Array>, qs: seq<string>)
    requires OrderedDict.Valid(d) && |qs| > 0 && qs[0] in d.keys
    ensures forall n :: 0 <= n <= |qs| - 1 ==>
              (Poppable(Omit(d, {qs[0]}).keys, qs[1..], n) <==> Poppable(d.keys, qs, n + 1))
    ensures forall n :: 0 <= n <= |qs| - 1 ==>
              Omit(Omit(d, {qs[0]}), Elements(qs[1..][..n])) == Omit(d, Elements(qs[..n + 1]))
    ensures Elements(qs[1..][..|qs| - 1]) == Elements(qs[1..])
  {
    var p := Omit(d, {qs[0]});
    OmitMembers(d, {qs[0]});
    forall n | 0 <= n <= |qs| - 1
      ensures Omit(p, Elements(qs[1..][..n])) == Omit(d, Elements(qs[..n + 1]))
    {
      assert qs[..n + 1] == [qs[0]] + qs[1..][..n];
      assert Elements(qs[..n + 1]) == {qs[0]} + Elements(qs[1..][..n]);
      OmitTwice(d, {qs[0]}, Elements(qs[1..][..n]));
    }
    forall n | 0 <= n <= |qs| - 1
      ensures Poppable(p.keys, qs[1..], n) <==> Poppable(d.keys, qs, n + 1)
    {
      forall i | 0 <= i < n
        ensures qs[1..][..i] == qs[1..i + 1]
        ensures qs[..i + 1] == [qs[0]] + qs[1..i + 1]
      {
      }
    }
    assert qs[1..][..|qs| - 1] == qs[1..];
  }

  /** After a successful remove, the named properties are gone and every
      other one is still there with its array, in its old place in the
      order; a consistent library stays consistent. */
  lemma {:induction false} RemoveKeepsOthers(lib: Library, quantities: seq<string>, p: string)
    requires OrderedDict.Valid(lib.props) && Poppable(lib.props.keys, quantities, |quantities|)
    ensures Remove(lib, quantities).raised.None?
    ensures Contains(Remove(lib, quantities).lib, p) <==> Contains(lib, p) && p !in quantities
    ensures Contains(lib, p) && p !in quantities ==>
              Get(Remove(lib, quantities).lib.props, p) == Get(lib.props, p)
    ensures Consistent(lib) ==> Consistent(Remove(lib, quantities).lib)
  {
    var r := Remove(lib, quantities).lib;
    RemoveSpec(lib, quantities);
    OmitMembers(lib.props, Elements(quantities));
    if Contains(lib, p) && p !in quantities {
      OmitKeeps(lib.props, Elements(quantities), p);
    }
    if Consistent(lib) {
      forall j | 0 <= j < |r.props.vals|
        ensures lib.gridShape == Some(r.props.vals[j].shape) && WellFormed(r.props.vals[j])
      {
        var k := r.props.keys[j];
        OmitKeeps(lib.props, Elements(quantities), k);
        var i := IndexOf(lib.props.keys, k);
        assert r.props.vals[j] == lib.props.vals[i];
      }
      assert Dims(r) == Dims(lib);
      assert r.(props := Empty(), extra := Empty()) == lib.(props := Empty(), extra := Empty());
    }
  }
}
