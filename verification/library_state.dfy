/** Copying and pickling a Library (Library.__copy__, __getstate__ and
    __setstate__ of spitfire/chemistry/library.py): each rebuilds the library
    through its constructor and then assigns the properties one by one. */
module LibraryState {
  import opened PyResult
  import opened NdArray
  import opened Dimensions
  import opened OrderedDict
  import opened Libraries

  // -----------------------------------------------------------------------
  // copy

  /** copy(lib): a new, not library-owned Dimension per entry of dims, a new
      Library of them, then lib's properties assigned in order. The extra
      attributes are not copied. */
  function Copy(lib: Library): (r: Result<Library>)
    requires Wf(lib)
    ensures r.Ok? ==> r.value.extra == Empty()
  {
    var ds :- Reconstruct(Specs(Dims(lib)), false);
    var built :- NewLibrary(ds);
    SetEach(built, lib.props.keys, AllOk(lib.props.vals))
  }

  /** A copy has the same dimensions, grid and properties, in the same
      order, and no extra attributes. */
  lemma {:induction false} CopyIsLibrary(lib: Library)
    requires Consistent(lib)
    ensures Copy(lib) == Ok(lib.(extra := Empty()))
  {
    RebuildFromDims(lib, false);
    var built := lib.(props := Empty(), extra := Empty());
    SetEachCopies(built, lib.props, lib.props.vals, AllOk(lib.props.vals));
  }

  /** copy(lib) as the program is written, with the constructor raising
      TypeError for a non-empty unstructured library. */
  function CopyAsWritten(lib: Library): (r: Result<Library>)
    requires Wf(lib)
    ensures r == Copy(lib) || r == Fail(TypeError)
  {
    var ds :- Reconstruct(Specs(Dims(lib)), false);
    var built :- NewLibraryAsWritten(ds);
    SetEach(built, lib.props.keys, AllOk(lib.props.vals))
  }

  /** As written, copying succeeds exactly for the structured consistent
      libraries; every unstructured one raises TypeError. */
  lemma {:induction false} CopyAsWrittenRaises(lib: Library)
    requires Consistent(lib)
    ensures CopyAsWritten(lib) == if lib.structured then Ok(lib.(extra := Empty())) else Fail(TypeError)
  {
    RebuildFromDims(lib, false);
    CopyIsLibrary(lib);
  }

  // -----------------------------------------------------------------------
  // __getstate__ / __setstate__

  /** The dict __getstate__ returns: the saved fields of each dimension by
      name, the dimension order, the properties, and the extra attributes
      (absent from dicts written by older versions). */
  datatype State = State(
    dimensions: ODict<string, SavedDimension>,
    dimOrdering: seq<string>,
    properties: ODict<string, Array>,
    extraAttributes: Option<ODict<string, PyObject>>)

  /** Every dict in the state is a dict and every array a well-formed
      ndarray. */
  predicate StateWf(st: State)
  {
    && OrderedDict.Valid(st.dimensions) && OrderedDict.Valid(st.properties)
    && (forall j :: 0 <= j < |st.dimensions.vals| ==> WellFormed(st.dimensions.vals[j].values))
    && (st.extraAttributes.Some? ==> OrderedDict.Valid(st.extraAttributes.value))
  }

  /** The saved fields of each value of a dimensions dict. */
  function SavedDims(d: ODict<string, Dimension>): (s: ODict<string, SavedDimension>)
    ensures s.keys == d.keys && |s.vals| == |d.vals|
    ensures forall j :: 0 <= j < |d.vals| ==> s.vals[j] == SaveDict(d.vals[j])
  {
    ODict(d.keys, seq(|d.vals|, j requires 0 <= j < |d.vals| => SaveDict(d.vals[j])))
  }

  /** lib.__getstate__() */
  function GetState(lib: Library): (st: State)
    requires Wf(lib)
    ensures StateWf(st)
    ensures forall i :: 0 <= i < |st.dimOrdering| ==> st.dimOrdering[i] in st.dimensions.keys
  {
    State(SavedDims(lib.dims), lib.ordering, lib.props, Some(lib.extra))
  }

  /** Every filled slot holds a dimension with well-formed values. */
  predicate SlotsWf(slots: seq<Option<Dimension>>)
  {
    forall j :: 0 <= j < |slots| && slots[j].Some? ==> WellFormed(slots[j].value.values)
  }

  /** The loop of __setstate__ over dim_ordering, from position i on: look
      the name up (KeyError), rebuild the Dimension from its saved fields
      (its own errors), and store it at its position of the list of
      len(dimensions) slots (IndexError past the end). */
  function Place(st: State, slots: seq<Option<Dimension>>, i: nat): (r: Result<seq<Option<Dimension>>>)
    requires StateWf(st) && i <= |st.dimOrdering|
    requires SlotsWf(slots)
    ensures r.Ok? ==> |r.value| == |slots|
    ensures r.Ok? ==> SlotsWf(r.value)
    decreases |st.dimOrdering| - i
  {
    if i == |st.dimOrdering| then Ok(slots)
    else
      var name := st.dimOrdering[i];
      if name !in st.dimensions.keys then Fail(KeyError(name))
      else
        var s := Get(st.dimensions, name);
        ConstructedIsValid(s.name, s.values, s.structured, false);
        var d :- NewDimension(s.name, s.values, s.structured, false);
        if i >= |slots| then Fail(IndexError)
        else Place(st, slots[i := Some(d)], i + 1)
  }

  /** No slot is None. */
  predicate AllFilled(slots: seq<Option<Dimension>>)
  {
    forall j :: 0 <= j < |slots| ==> slots[j].Some?
  }

  /** The filled slots, in order. */
  function Filled(slots: seq<Option<Dimension>>): (ds: seq<Dimension>)
    requires AllFilled(slots)
    ensures |ds| == |slots| && forall j :: 0 <= j < |slots| ==> Some(ds[j]) == slots[j]
    ensures SlotsWf(slots) ==> forall j :: 0 <= j < |ds| ==> WellFormed(ds[j].values)
  {
    seq(|slots|, j requires 0 <= j < |slots| => slots[j].value)
  }

  /** The list [None] * len(dimensions) the loop starts from. */
  function NoSlots(n: nat): (slots: seq<Option<Dimension>>)
    ensures |slots| == n && forall j :: 0 <= j < n ==> slots[j].None?
  {
    seq(n, j => None)
  }

  /** The part of Library.__setstate__ that rebuilds the library: the
      dimensions in their saved order through the constructor (a slot the
      loop never filled is None, and the constructor's d.name raises
      AttributeError on it), then each property assigned in order. */
  function Load(st: State): (r: Result<Library>)
    requires StateWf(st)
    ensures r.Ok? ==> r.value.extra == Empty()
  {
    var slots :- Place(st, NoSlots(|st.dimensions.keys|), 0);
    if !AllFilled(slots) then Fail(AttributeError)
    else
      var built :- NewLibrary(Filled(slots));
      SetEach(built, st.properties.keys, AllOk(st.properties.vals))
  }

  /** Library.__setstate__ on a fresh Library: the library rebuilt, then
      the extra attributes copied in, none when the state has no such
      entry. */
  function SetState(st: State): (r: Result<Library>)
    requires StateWf(st)
    ensures r.Ok? <==> Load(st).Ok?
    ensures r.Ok? ==> r.value.(extra := Empty()) == Load(st).value
    ensures r.Ok? && st.extraAttributes.None? ==> r.value.extra == Empty()
  {
    var lib :- Load(st);
    var ea := if st.extraAttributes.Some? then st.extraAttributes.value else Empty();
    Ok(lib.(extra := PutAll(lib.extra, ea.keys, ea.vals)))
  }

  /** Load as the program is written, with the constructor raising
      TypeError for a non-empty unstructured library. */
  function LoadAsWritten(st: State): (r: Result<Library>)
    requires StateWf(st)
    ensures r == Load(st) || r == Fail(TypeError)
  {
    var slots :- Place(st, NoSlots(|st.dimensions.keys|), 0);
    if !AllFilled(slots) then Fail(AttributeError)
    else
      var built :- NewLibraryAsWritten(Filled(slots));
      SetEach(built, st.properties.keys, AllOk(st.properties.vals))
  }

  /** Library.__setstate__ as the program is written. */
  function SetStateAsWritten(st: State): (r: Result<Library>)
    requires StateWf(st)
    ensures r == SetState(st) || r == Fail(TypeError)
  {
    var lib :- LoadAsWritten(st);
    var ea := if st.extraAttributes.Some? then st.extraAttributes.value else Empty();
    Ok(lib.(extra := PutAll(lib.extra, ea.keys, ea.vals)))
  }

  /** The slots the loop fills from the state of a consistent library: slot
      j holds the j-th dimension rebuilt without a grid and not owned. */
  function Rebuilt0(lib: Library): (slots: seq<Option<Dimension>>)
    requires Wf(lib)
    ensures |slots| == |lib.dims.vals| && AllFilled(slots) && SlotsWf(slots)
  {
    seq(|lib.dims.vals|, j requires 0 <= j < |lib.dims.vals| => Some(lib.dims.vals[j].(grid := None, libraryOwned := false)))
  }

  /** One turn of the loop: a name present in the state whose saved fields
      build d fills slot i with d. */
  lemma {:induction false} PlaceStep(st: State, slots: seq<Option<Dimension>>, i: nat, d: Dimension)
    requires StateWf(st) && i < |st.dimOrdering| && i < |slots|
    requires SlotsWf(slots)
    requires st.dimOrdering[i] in st.dimensions.keys
    requires Restore(Get(st.dimensions, st.dimOrdering[i]), false) == Ok(d)
    ensures ValidDimension(d)
    ensures Place(st, slots, i) == Place(st, slots[i := Some(d)], i + 1)
  {
    var s := Get(st.dimensions, st.dimOrdering[i]);
    ConstructedIsValid(s.name, s.values, s.structured, false);
  }

  /** The loop over the state of a library whose dimensions dict follows
      its ordering fills every slot in turn, from position i on. */
  lemma {:induction false} PlaceAll(lib: Library, slots: seq<Option<Dimension>>, i: nat)
    requires Wf(lib) && lib.dims.keys == lib.ordering && i <= |lib.ordering|
    requires |slots| == |lib.ordering| && slots[..i] == Rebuilt0(lib)[..i]
    requires SlotsWf(slots)
    ensures Place(GetState(lib), slots, i) == Ok(Rebuilt0(lib))
    decreases |lib.ordering| - i
  {
    var st := GetState(lib);
    var target := Rebuilt0(lib);
    if i == |lib.ordering| {
      assert slots == slots[..i] == target[..i] == target;
    } else {
      SavedAt(lib, i);
      PlaceStep(st, slots, i, target[i].value);
      PrefixExtended(slots, target, i);
      PlaceAll(lib, slots[i := target[i]], i + 1);
    }
  }

  /** The saved record at position i of a library's state rebuilds the
      dimension of slot i. */
  lemma {:induction false} SavedAt(lib: Library, i: nat)
    requires Wf(lib) && lib.dims.keys == lib.ordering && i < |lib.ordering|
    ensures lib.ordering[i] in GetState(lib).dimensions.keys
    ensures Restore(Get(GetState(lib).dimensions, lib.ordering[i]), false) == Ok(Rebuilt0(lib)[i].value)
  {
    GetAt(GetState(lib).dimensions, i);
    RestoreSaved(lib.dims.vals[i], false);
  }

  /** Filling position i with the target's entry extends the agreeing
      prefix by one. */
  lemma {:induction false} PrefixExtended<T>(slots: seq<T>, target: seq<T>, i: nat)
    requires i < |slots| == |target| && slots[..i] == target[..i]
    ensures slots[i := target[i]][..i + 1] == target[..i + 1]
  {
    var next := slots[i := target[i]];
    forall j | 0 <= j < i
      ensures next[j] == target[j]
    {
      assert slots[..i][j] == target[..i][j];
    }
  }

  /** The filled slots save to the same records as the library's
      dimensions. */
  lemma {:induction false} FilledSpecs(lib: Library)
    requires Wf(lib) && lib.dims.keys == lib.ordering
    ensures Specs(Filled(Rebuilt0(lib))) == Specs(Dims(lib))
  {
    var ds := Filled(Rebuilt0(lib));
    forall i | 0 <= i < |lib.ordering|
      ensures Specs(ds)[i] == Specs(Dims(lib))[i]
    {
      DimsAt(lib, i);
    }
  }

  /** Dimensions saving to the same records build the same library. */
  lemma {:induction false} SameLibrary(ds: seq<Dimension>, specs: seq<SavedDimension>)
    requires forall i :: 0 <= i < |ds| ==> WellFormed(ds[i].values)
    requires Specs(ds) == specs
    ensures NewLibrary(ds) == Construct(specs)
  {
  }

  /** The constructor rebuilds a consistent library, without properties
      and extra attributes, from the slots the loop fills. */
  lemma {:induction false} RebuiltLibrary(lib: Library)
    requires Consistent(lib)
    ensures NewLibrary(Filled(Rebuilt0(lib))) == Ok(lib.(props := Empty(), extra := Empty()))
  {
    FilledSpecs(lib);
    SameLibrary(Filled(Rebuilt0(lib)), Specs(Dims(lib)));
  }

  /** Load once the loop has filled every slot and the constructor has
      accepted the dimensions. */
  lemma {:induction false} LoadFrom(st: State, slots: seq<Option<Dimension>>, built: Library)
    requires StateWf(st) && AllFilled(slots) && SlotsWf(slots)
    requires Place(st, NoSlots(|st.dimensions.keys|), 0) == Ok(slots)
    requires NewLibrary(Filled(slots)) == Ok(built)
    ensures Load(st) == SetEach(built, st.properties.keys, AllOk(st.properties.vals))
  {
  }

  /** Load on the state of a library whose dimensions the constructor
      accepts back: the rebuilt library, then its properties in order. */
  lemma {:induction false} LoadOfLibrary(lib: Library, built: Library)
    requires Wf(lib) && lib.dims.keys == lib.ordering
    requires NewLibrary(Filled(Rebuilt0(lib))) == Ok(built)
    ensures Load(GetState(lib)) == SetEach(built, lib.props.keys, AllOk(lib.props.vals))
  {
    var st := GetState(lib);
    PlaceAll(lib, NoSlots(|st.dimensions.keys|), 0);
    LoadFrom(st, Rebuilt0(lib), built);
  }

  /** Loading the state of a consistent library rebuilds it, without its
      extra attributes. */
  lemma {:induction false} LoadState(lib: Library)
    requires Consistent(lib)
    ensures Load(GetState(lib)) == Ok(lib.(extra := Empty()))
  {
    var built := lib.(props := Empty(), extra := Empty());
    RebuiltLibrary(lib);
    LoadOfLibrary(lib, built);
    SetEachCopies(built, lib.props, lib.props.vals, AllOk(lib.props.vals));
  }

  /** Restoring the state of a consistent library gives the same library:
      its dimensions in order, its grid, its properties in order, and its
      extra attributes. */
  lemma {:induction false} StateRoundTrip(lib: Library)
    requires Consistent(lib)
    ensures SetState(GetState(lib)) == Ok(lib)
  {
    LoadState(lib);
    FromListRebuilds(lib.extra);
  }

  /** As written, unpickling restores exactly the structured consistent
      libraries; the state of every unstructured one raises TypeError. */
  lemma {:induction false} StateRoundTripAsWritten(lib: Library)
    requires Consistent(lib)
    ensures SetStateAsWritten(GetState(lib)) == if lib.structured then Ok(lib) else Fail(TypeError)
  {
    var st := GetState(lib);
    RebuiltLibrary(lib);
    LoadAsWrittenOfLibrary(lib);
    StateRoundTrip(lib);
    if lib.structured {
      assert LoadAsWritten(st) == Load(st);
    } else {
      assert LoadAsWritten(st) == Fail(TypeError);
    }
  }

  /** On the state of a library whose dimensions the constructor accepts
      back, loading as written agrees with Load for a structured result and
      raises TypeError otherwise. */
  lemma {:induction false} LoadAsWrittenOfLibrary(lib: Library)
    requires Wf(lib) && lib.dims.keys == lib.ordering
    requires NewLibrary(Filled(Rebuilt0(lib))).Ok?
    ensures LoadAsWritten(GetState(lib))
            == if NewLibrary(Filled(Rebuilt0(lib))).value.structured then Load(GetState(lib)) else Fail(TypeError)
  {
    var st := GetState(lib);
    PlaceAll(lib, NoSlots(|st.dimensions.keys|), 0);
  }
}
