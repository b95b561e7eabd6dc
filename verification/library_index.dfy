/** Library.__getitem__ of spitfire/chemistry/library.py: a property by
    name, or a new library cut out of a structured one by one index or slice
    per dimension, with Python's and numpy's rules for negative indices and
    out-of-range slice bounds. */
module LibraryIndex {
  import opened PyResult
  import opened NdArray
  import opened Dimensions
  import opened OrderedDict
  import opened Libraries

  /** The Python values a subscript is made of: a string, an int, a slice
      start:stop:step with any part omitted, or a tuple of them. */
  datatype Subscript =
    | Str(s: string)
    | Int(k: int)
    | Slice(start: Option<int>, stop: Option<int>, step: Option<int>)
    | Tuple(items: seq<Subscript>)

  /** What lib[...] returns: a stored property, or a new library. */
  datatype Item = Property(array: Array) | Sliced(lib: Library)

  // -----------------------------------------------------------------------
  // Positions along one axis

  /** range(start, stop, step) for a step that is not zero, started inside
      the axis: start first, each term one step past the previous, up to
      but not including stop. */
  function Progression(start: int, stop: int, step: int): (r: seq<nat>)
    requires step != 0
    requires step > 0 ==> start >= 0
    requires step < 0 ==> stop >= -1
    ensures |r| > 0 ==> r[0] == start
    ensures forall j :: 0 <= j < |r| - 1 ==> r[j + 1] == r[j] + step
    ensures step > 0 ==> forall j :: 0 <= j < |r| ==> start <= r[j] < stop
    ensures step < 0 ==> forall j :: 0 <= j < |r| ==> stop < r[j] <= start
    ensures step == 1 ==> forall j :: 0 <= j < |r| ==> r[j] == start + j
    ensures step == -1 ==> forall j :: 0 <= j < |r| ==> r[j] == start - j
    decreases if step > 0 then stop - start else start - stop
  {
    if (step > 0 && start >= stop) || (step < 0 && start <= stop) then []
    else
      assert start >= 0;
      [start] + Progression(start + step, stop, step)
  }

  /** slice.indices(n) for one bound: an omitted bound is the end the step
      walks from or to; a negative one counts from the end; either is then
      clamped to [0, n] for a positive step and to [-1, n - 1] for a
      negative one. */
  function SliceBound(v: Option<int>, n: nat, step: int, isStart: bool): (b: int)
    requires step != 0
    ensures step > 0 ==> 0 <= b <= n
    ensures step < 0 ==> -1 <= b <= n - 1
    ensures v.Some? && 0 <= v.value <= n && step > 0 ==> b == v.value
    ensures v.Some? && -(n as int) <= v.value < 0 && step > 0 ==> b == v.value + n
  {
    var lower := if step < 0 then -1 else 0;
    var upper := if step < 0 then n - 1 else n;
    match v
    case None => if (step < 0) == isStart then upper else lower
    case Some(k) =>
      if k < 0 then (if k + n < lower then lower else k + n)
      else if k > upper then upper else k
  }

  /** The positions of an axis of length n that one subscript keeps: an
      int keeps one (counted from the end when negative; IndexError outside
      the axis), a slice keeps those of range(*slice.indices(n)) (ValueError
      for a zero step), and a string or a nested tuple is not a valid
      index. */
  function Positions(s: Subscript, n: nat): (r: Result<seq<nat>>)
    ensures r.Ok? ==> forall j :: 0 <= j < |r.value| ==> r.value[j] < n
    ensures r.Ok? ==> Distinct(r.value)
    ensures s.Int? ==> (r.Ok? <==> -(n as int) <= s.k < n)
    ensures s.Slice? ==> (r.Ok? <==> s.step != Some(0))
    ensures s.Slice? && s.step == Some(0) ==> r == Fail(ValueError(ZeroStep))
    ensures s.Str? || s.Tuple? ==> r == Fail(IndexError)
  {
    match s
    case Int(k) =>
      if -(n as int) <= k < n then Ok([if k < 0 then k + n else k]) else Fail(IndexError)
    case Slice(start, stop, step) =>
      var st := if step.None? then 1 else step.value;
      if st == 0 then Fail(ValueError(ZeroStep))
      else
        var r := Progression(SliceBound(start, n, st, true), SliceBound(stop, n, st, false), st);
        ProgressionDistinct(SliceBound(start, n, st, true), SliceBound(stop, n, st, false), st);
        Ok(r)
    case _ => Fail(IndexError)
  }

  /** The terms of a progression differ, its step not being zero. */
  lemma {:induction false} ProgressionDistinct(start: int, stop: int, step: int)
    requires step != 0
    requires step > 0 ==> start >= 0
    requires step < 0 ==> stop >= -1
    ensures Distinct(Progression(start, stop, step))
    decreases if step > 0 then stop - start else start - stop
  {
    var r := Progression(start, stop, step);
    if |r| > 0 {
      var rest := Progression(start + step, stop, step);
      ProgressionDistinct(start + step, stop, step);
      assert r == [start] + rest;
      forall j | 0 <= j < |rest|
        ensures rest[j] != start
      {
      }
    }
  }

  /** A walk up by one from start to stop has stop - start terms. */
  lemma {:induction false} UnitLength(start: nat, stop: int)
    requires start <= stop
    ensures |Progression(start, stop, 1)| == stop - start
    decreases stop - start
  {
    if start < stop {
      UnitLength(start + 1, stop);
    }
  }

  /** x[:] keeps every position, in order. */
  lemma {:induction false} FullSlice(n: nat)
    ensures Positions(Slice(None, None, None), n) == Ok(All(n))
  {
    assert SliceBound(None, n, 1, true) == 0 && SliceBound(None, n, 1, false) == n;
    UnitLength(0, n);
    var r := Progression(0, n, 1);
    assert r == All(n);
  }

  /** x[::-1] keeps every position, last first. */
  lemma {:induction false} ReversedSlice(n: nat)
    ensures Positions(Slice(None, None, Some(-1)), n) == Ok(seq(n, j requires 0 <= j < n => n - 1 - j))
  {
    assert SliceBound(None, n, -1, true) == n - 1 && SliceBound(None, n, -1, false) == -1;
    ReversedLength(n - 1, -1);
    var r := Progression(n - 1, -1, -1);
    assert r == seq(n, j requires 0 <= j < n => n - 1 - j);
  }

  /** A walk down by one from start to just above stop has start - stop
      terms. */
  lemma {:induction false} ReversedLength(start: int, stop: int)
    requires stop >= -1 && stop <= start
    ensures |Progression(start, stop, -1)| == start - stop
    decreases start - stop
  {
    if start > stop {
      ReversedLength(start - 1, stop);
    }
  }

  /** x[-1] is the last element and x[-n] the first; x[n] and x[-n - 1] are
      out of range. */
  lemma {:induction false} NegativeIndex(n: nat)
    requires n > 0
    ensures Positions(Int(-1), n) == Ok([n - 1])
    ensures Positions(Int(-(n as int)), n) == Ok([0])
    ensures Positions(Int(n), n) == Fail(IndexError)
    ensures Positions(Int(-(n as int) - 1), n) == Fail(IndexError)
  {
  }

  /** Slice bounds beyond the axis are clamped rather than refused. */
  lemma {:induction false} ClampedSlice(n: nat, k: nat)
    requires n <= k
    ensures Positions(Slice(None, Some(k), None), n) == Ok(All(n))
    ensures Positions(Slice(Some(k), None, None), n) == Ok([])
  {
    FullSlice(n);
    UnitLength(0, n);
    UnitLength(n, n);
  }

  // -----------------------------------------------------------------------
  // Slicing the dimensions

  /** The elements of data at the given positions, in their order. */
  function Select(data: seq<real>, pos: seq<nat>): (r: seq<real>)
    requires forall j :: 0 <= j < |pos| ==> pos[j] < |data|
    ensures |r| == |pos| && forall j :: 0 <= j < |pos| ==> r[j] == data[pos[j]]
  {
    seq(|pos|, j requires 0 <= j < |pos| => data[pos[j]])
  }

  /** Distinct values at distinct positions stay distinct. */
  lemma {:induction false} SelectDistinct(data: seq<real>, pos: seq<nat>)
    requires forall j :: 0 <= j < |pos| ==> pos[j] < |data|
    requires Distinct(pos)
    ensures DistinctValues(data) ==> DistinctValues(Select(data, pos))
  {
    var r := Select(data, pos);
    forall i, j | 0 <= i < j < |r| && DistinctValues(data)
      ensures r[i] != r[j]
    {
      if pos[i] < pos[j] {
        assert data[pos[i]] != data[pos[j]];
      } else {
        assert data[pos[j]] != data[pos[i]];
      }
    }
  }

  /** Dimension(d.name, d.values[s], d.structured), where a single element
      is first wrapped into an array of one. Slicing never breaks the
      constructor's checks except by keeping nothing: the name was already
      an identifier, and distinct positions of distinct values hold
      distinct values. */
  function SliceDim(d: Dimension, s: Subscript): (r: Result<Dimension>)
    requires |d.values.data| == d.npts
    ensures r.Ok? ==> r.value.name == d.name && WellFormed(r.value.values)
  {
    var pos :- Positions(s, d.npts);
    var v := Vector(Select(d.values.data, pos));
    SelectDistinct(d.values.data, pos);
    NewDimension(d.name, v, d.structured, false)
  }

  /** Slicing a dimension succeeds exactly when the subscript is valid
      and keeps at least one position; keeping none raises the
      constructor's ValueError. */
  lemma {:induction false} SliceDimSucceeds(d: Dimension, s: Subscript)
    requires ValidDimension(d)
    ensures SliceDim(d, s).Ok? <==> Positions(s, d.npts).Ok? && |Positions(s, d.npts).value| > 0
    ensures Positions(s, d.npts).Ok? && |Positions(s, d.npts).value| == 0 ==>
              SliceDim(d, s) == Fail(ValueError(EmptyValues))
  {
  }

  /** A sliced dimension keeps its name and flag, holds the selected
      values, belongs to no library, and passes every check. */
  lemma {:induction false} SliceDimValues(d: Dimension, s: Subscript)
    requires ValidDimension(d) && SliceDim(d, s).Ok?
    ensures Positions(s, d.npts).Ok?
    ensures SliceDim(d, s).value.name == d.name && SliceDim(d, s).value.structured == d.structured
    ensures SliceDim(d, s).value.values == Vector(Select(d.values.data, Positions(s, d.npts).value))
    ensures !SliceDim(d, s).value.libraryOwned && ValidDimension(SliceDim(d, s).value)
  {
    var v := Vector(Select(d.values.data, Positions(s, d.npts).value));
    ConstructedIsValid(d.name, v, d.structured, false);
  }

  /** Each dimension sliced by its subscript, in order. */
  function SliceEach(ds: seq<Dimension>, slices: seq<Subscript>): (c: seq<Result<Dimension>>)
    requires |ds| == |slices| && forall i :: 0 <= i < |ds| ==> |ds[i].values.data| == ds[i].npts
    ensures |c| == |ds| && forall i :: 0 <= i < |ds| ==> c[i] == SliceDim(ds[i], slices[i])
  {
    seq(|ds|, i requires 0 <= i < |ds| => SliceDim(ds[i], slices[i]))
  }

  /** The loop over zip(self.dims, slices), each turn of which may raise:
      the values of all turns, or the exception of the first that raised. */
  function Collect<T>(rs: seq<Result<T>>): (r: Result<seq<T>>)
    ensures r.Ok? <==> forall i :: 0 <= i < |rs| ==> rs[i].Ok?
    ensures r.Ok? ==> |r.value| == |rs| && forall i :: 0 <= i < |rs| ==> rs[i] == Ok(r.value[i])
    ensures r.Fail? ==> exists i :: 0 <= i < |rs| && rs[i] == Fail(r.error) && forall j :: 0 <= j < i ==> rs[j].Ok?
    decreases |rs|
  {
    if |rs| == 0 then Ok([])
    else
      assert forall i :: 1 <= i < |rs| ==> rs[i] == rs[1..][i - 1];
      var first :- rs[0];
      var rest := Collect(rs[1..]);
      if rest.Fail? then
        var i :| 0 <= i < |rs| - 1 && rs[1..][i] == Fail(rest.error) && forall j :: 0 <= j < i ==> rs[1..][j].Ok?;
        assert rs[i + 1] == Fail(rest.error);
        Fail(rest.error)
      else
        Ok([first] + rest.value)
  }

  /** A loop whose first turn raised raises that exception. */
  lemma {:induction false} CollectFirst<T>(rs: seq<Result<T>>)
    requires |rs| > 0 && rs[0].Fail?
    ensures Collect(rs) == Fail(rs[0].error)
  {
  }

  /** The dimensions sliced in turn: each keeps its name and has
      well-formed values. */
  function SliceDims(ds: seq<Dimension>, slices: seq<Subscript>): (r: Result<seq<Dimension>>)
    requires |ds| == |slices| && forall i :: 0 <= i < |ds| ==> |ds[i].values.data| == ds[i].npts
    ensures r.Ok? ==> |r.value| == |ds|
    ensures r.Ok? ==> forall i :: 0 <= i < |ds| ==> r.value[i].name == ds[i].name && WellFormed(r.value[i].values)
  {
    var each := SliceEach(ds, slices);
    var r := Collect(each);
    assert r.Ok? ==> forall i :: 0 <= i < |ds| ==> each[i] == Ok(r.value[i]);
    r
  }

  // -----------------------------------------------------------------------
  // Slicing a property

  /** numpy basic indexing of an array of the given shape: the positions the
      k-th subscript keeps along axis k, every position along the axes past
      the last subscript. */
  function Selection(shape: seq<nat>, slices: seq<Subscript>): (r: Result<seq<seq<nat>>>)
    requires |slices| <= |shape|
    ensures r.Ok? ==> InBounds(shape, r.value)
    ensures r.Ok? <==> forall k :: 0 <= k < |slices| ==> Positions(slices[k], shape[k]).Ok?
    ensures r.Ok? ==> forall k :: 0 <= k < |slices| ==> r.value[k] == Positions(slices[k], shape[k]).value
    ensures r.Ok? ==> forall k :: |slices| <= k < |shape| ==> r.value[k] == All(shape[k])
  {
    Collect(AxisPositions(shape, slices))
  }

  /** The positions kept along each axis, or the exception its subscript
      raises. */
  function AxisPositions(shape: seq<nat>, slices: seq<Subscript>): (c: seq<Result<seq<nat>>>)
    requires |slices| <= |shape|
    ensures |c| == |shape|
    ensures forall k :: 0 <= k < |slices| ==> c[k] == Positions(slices[k], shape[k])
    ensures forall k :: |slices| <= k < |shape| ==> c[k] == Ok(All(shape[k]))
  {
    seq(|shape|, k requires 0 <= k < |shape| => if k < |slices| then Positions(slices[k], shape[k]) else Ok(All(shape[k])))
  }

  /** props[p][slices].reshape(shape): the elements the subscripts keep, in
      C order, laid out in the new grid's shape. IndexError for more
      subscripts than axes; ValueError when the shape holds a different
      number of elements. */
  function SliceProp(a: Array, slices: seq<Subscript>, shape: seq<nat>): (r: Result<Array>)
    requires WellFormed(a)
    ensures r.Ok? ==> r.value.shape == shape && WellFormed(r.value)
    ensures |slices| > |a.shape| ==> r == Fail(IndexError)
    ensures r.Ok? ==> && |slices| <= |a.shape| && Selection(a.shape, slices).Ok?
                      && r.value.data == Gather(a.shape, a.data, Selection(a.shape, slices).value)
  {
    if |slices| > |a.shape| then Fail(IndexError)
    else
      var sel :- Selection(a.shape, slices);
      var data := Gather(a.shape, a.data, sel);
      if Product(shape) != |data| then Fail(ValueError(ReshapeMismatch))
      else Ok(Array(shape, data))
  }

  // -----------------------------------------------------------------------
  // lib[...]

  /** The subscripts the slicing branch zips with the dimensions: all the
      arguments when the first is a slice, else the first argument itself,
      whose len() raises TypeError when it is an int. */
  function Unpack(args: seq<Subscript>): (r: Result<seq<Subscript>>)
    requires |args| > 0 && !args[0].Str?
    ensures args[0].Slice? ==> r == Ok(args)
    ensures args[0].Tuple? ==> r == Ok(args[0].items)
    ensures args[0].Int? ==> r == Fail(TypeError)
  {
    match args[0]
    case Slice(_, _, _) => Ok(args)
    case Tuple(items) => Ok(items)
    case _ => Fail(TypeError)
  }

  /** The slicing branch once the subscripts are known: one per dimension,
      each dimension sliced, a new library of them, then every property cut
      the same way and reshaped to the new grid. */
  function SliceLibrary(lib: Library, slices: seq<Subscript>): (r: Result<Library>)
    requires Wf(lib)
    ensures |slices| != |lib.ordering| ==> r == Fail(LibraryIndexError(SliceCount))
    ensures r.Ok? ==> && |r.value.ordering| == |lib.ordering|
                      && forall i :: 0 <= i < |lib.ordering| ==> r.value.ordering[i] == Dims(lib)[i].name
  {
    if |slices| != |lib.ordering| then Fail(LibraryIndexError(SliceCount))
    else
      var ds :- SliceDims(Dims(lib), slices);
      var built :- NewLibrary(ds);
      Refill(lib, built, slices)
  }

  /** The properties of lib, each cut by the subscripts and reshaped to the
      grid of the new library's first dimension, assigned to it in order. */
  function Refill(lib: Library, built: Library, slices: seq<Subscript>): (r: Result<Library>)
    requires Wf(lib) && Wf(built)
    ensures r.Ok? ==> r.value == built.(props := r.value.props)
  {
    if |built.ordering| == 0 then Fail(IndexError)
    else SetEach(built, lib.props.keys, SliceProps(lib.props.vals, slices, Grid(Dims(built)[0]).shape))
  }

  /** Each array cut by the subscripts and reshaped, in order. */
  function SliceProps(arrays: seq<Array>, slices: seq<Subscript>, shape: seq<nat>): (c: seq<Result<Array>>)
    requires forall j :: 0 <= j < |arrays| ==> WellFormed(arrays[j])
    ensures |c| == |arrays| && forall j :: 0 <= j < |arrays| ==> c[j] == SliceProp(arrays[j], slices, shape)
  {
    seq(|arrays|, j requires 0 <= j < |arrays| => SliceProp(arrays[j], slices, shape))
  }

  /** lib[...] for the tuple of arguments Python passes: a single string
      reads a property; a string with more arguments is refused; anything
      else slices, which needs a first dimension (IndexError without one)
      that is structured. */
  function GetItem(lib: Library, args: seq<Subscript>): (r: Result<Item>)
    requires Wf(lib)
    ensures |args| == 0 ==> r == Fail(IndexError)
    ensures |args| == 1 && args[0].Str? ==>
              r == (if Contains(lib, args[0].s) then Ok(Property(Get(lib.props, args[0].s)))
                    else Fail(KeyError(args[0].s)))
    ensures |args| > 1 && args[0].Str? ==> r == Fail(LibraryIndexError(StringWithExtraArguments))
    ensures |args| > 0 && !args[0].Str? && |lib.ordering| == 0 ==> r == Fail(IndexError)
    ensures |args| > 0 && !args[0].Str? && |lib.ordering| > 0 && !Dims(lib)[0].structured ==>
              r == Fail(LibraryIndexError(UnstructuredSlicing))
    ensures |args| > 0 && args[0].Int? && |lib.ordering| > 0 && Dims(lib)[0].structured ==>
              r == Fail(TypeError)
    ensures r.Ok? && r.value.Property? ==> |args| == 1 && args[0].Str?
    ensures r.Ok? && r.value.Sliced? ==> r.value.lib.ordering == DimNames(Dims(lib))
  {
    if |args| == 0 then Fail(IndexError)
    else if args[0].Str? then
      if |args| == 1 then
        var a :- GetProp(lib, args[0].s);
        Ok(Property(a))
      else Fail(LibraryIndexError(StringWithExtraArguments))
    else if |lib.ordering| == 0 then Fail(IndexError)
    else if !Dims(lib)[0].structured then Fail(LibraryIndexError(UnstructuredSlicing))
    else
      var slices :- Unpack(args);
      var sliced :- SliceLibrary(lib, slices);
      Ok(Sliced(sliced))
  }

  // -----------------------------------------------------------------------
  // Properties of lib[...]

  /** The full slice ':'. */
  const Colon: Subscript := Slice(None, None, None)

  /** (:, :, …, :) with n entries. */
  function Colons(n: nat): (s: seq<Subscript>)
    ensures |s| == n && forall k :: 0 <= k < n ==> s[k] == Colon
  {
    seq(n, k => Colon)
  }

  /** ':' keeps a dimension as it is, rebuilt outside any library. */
  lemma {:induction false} ColonDim(d: Dimension)
    requires ValidDimension(d)
    ensures SliceDim(d, Colon) == Restore(SaveDict(d), false)
  {
    FullSlice(d.npts);
    assert Select(d.values.data, All(d.npts)) == d.values.data;
    OneDimensionalIsVector(d.values);
  }

  /** Slicing dimensions that each come out as rebuilt is rebuilding them. */
  lemma {:induction false} SliceEachRebuild(ds: seq<Dimension>, slices: seq<Subscript>)
    requires |ds| == |slices|
    requires forall i :: 0 <= i < |ds| ==> WellFormed(ds[i].values) && |ds[i].values.data| == ds[i].npts
    requires forall i :: 0 <= i < |ds| ==> SliceDim(ds[i], slices[i]) == Restore(SaveDict(ds[i]), false)
    ensures SpecsWellFormed(Specs(ds)) && SliceDims(ds, slices) == Reconstruct(Specs(ds), false)
    decreases |ds|
  {
    if |ds| > 0 {
      var specs := Specs(ds);
      var each := SliceEach(ds, slices);
      assert specs[1..] == Specs(ds[1..]);
      assert each[1..] == SliceEach(ds[1..], slices[1..]);
      forall i | 0 <= i < |ds| - 1
        ensures SliceDim(ds[1..][i], slices[1..][i]) == Restore(SaveDict(ds[1..][i]), false)
      {
        assert ds[1..][i] == ds[i + 1] && slices[1..][i] == slices[i + 1];
      }
      SliceEachRebuild(ds[1..], slices[1..]);
      assert each[0] == Restore(specs[0], false);
    }
  }

  /** ':' along every axis selects everything. */
  lemma {:induction false} SelectionColons(shape: seq<nat>)
    ensures Selection(shape, Colons(|shape|)) == Ok(Everything(shape))
  {
    var slices := Colons(|shape|);
    forall k | 0 <= k < |shape|
      ensures Positions(slices[k], shape[k]) == Ok(Everything(shape)[k])
    {
      FullSlice(shape[k]);
    }
    assert Selection(shape, slices).value == Everything(shape);
  }

  /** An array cut by ':' along every axis and reshaped to its own shape is
      unchanged. */
  lemma {:induction false} ColonProp(a: Array)
    requires WellFormed(a)
    ensures SliceProp(a, Colons(|a.shape|), a.shape) == Ok(a)
  {
    SelectionColons(a.shape);
    GatherEverything(a.shape, a.data);
  }

  /** Slicing every dimension of a consistent structured library with ':'
      gives the same library: the same dimensions in the same order, the
      same grid, every property unchanged and in the same order, and no
      extra attributes. */
  lemma {:induction false} SliceEverything(lib: Library)
    requires Consistent(lib) && lib.structured && |lib.ordering| > 0
    ensures GetItem(lib, [Tuple(Colons(|lib.ordering|))]) == Ok(Sliced(lib.(extra := Empty())))
  {
    ConsistentFlags(lib);
    SliceLibraryColons(lib);
    SlicingBranch(lib, [Tuple(Colons(|lib.ordering|))]);
  }

  /** With a single dimension, lib[:] is that same slice. */
  lemma {:induction false} SliceOnlyDimension(lib: Library)
    requires Consistent(lib) && lib.structured && |lib.ordering| == 1
    ensures GetItem(lib, [Colon]) == Ok(Sliced(lib.(extra := Empty())))
  {
    SliceEverything(lib);
    OnlyDimensionBranch(lib);
  }

  /** lib[:] and lib[(:,)] take the same slicing branch when there is one
      structured dimension. */
  lemma {:induction false} OnlyDimensionBranch(lib: Library)
    requires Wf(lib) && |lib.ordering| == 1 && Dims(lib)[0].structured
    ensures GetItem(lib, [Colon]) == GetItem(lib, [Tuple(Colons(1))])
  {
    assert [Colon] == Colons(1);
    SlicingBranch(lib, [Colon]);
    SlicingBranch(lib, [Tuple(Colons(1))]);
  }

  /** A subscript that is neither a string nor an int, on a library whose
      first dimension is structured, is the slicing branch's result. */
  lemma {:induction false} SlicingBranch(lib: Library, args: seq<Subscript>)
    requires Wf(lib) && |args| > 0 && (args[0].Tuple? || args[0].Slice?)
    requires |lib.ordering| > 0 && Dims(lib)[0].structured
    ensures Unpack(args).Ok?
    ensures SliceLibrary(lib, Unpack(args).value).Ok? ==>
              GetItem(lib, args) == Ok(Sliced(SliceLibrary(lib, Unpack(args).value).value))
    ensures SliceLibrary(lib, Unpack(args).value).Fail? ==>
              GetItem(lib, args) == Fail(SliceLibrary(lib, Unpack(args).value).error)
  {
  }

  /** The slicing branch with ':' for every dimension. */
  lemma {:induction false} SliceLibraryColons(lib: Library)
    requires Consistent(lib) && lib.structured && |lib.ordering| > 0
    ensures SliceLibrary(lib, Colons(|lib.ordering|)) == Ok(lib.(extra := Empty()))
  {
    ColonsRebuild(Dims(lib));
    RebuildFromDims(lib, false);
    RefillColons(lib);
  }

  /** Slicing valid dimensions by ':' each rebuilds them. */
  lemma {:induction false} ColonsRebuild(ds: seq<Dimension>)
    requires forall i :: 0 <= i < |ds| ==> ValidDimension(ds[i])
    ensures SpecsWellFormed(Specs(ds)) && forall i :: 0 <= i < |ds| ==> |ds[i].values.data| == ds[i].npts
    ensures SliceDims(ds, Colons(|ds|)) == Reconstruct(Specs(ds), false)
  {
    var slices := Colons(|ds|);
    forall i | 0 <= i < |ds|
      ensures SliceDim(ds[i], slices[i]) == Restore(SaveDict(ds[i]), false)
    {
      ColonDim(ds[i]);
    }
    SliceEachRebuild(ds, slices);
  }

  /** Refilling the rebuilt library with every property cut by ':' puts
      them all back unchanged. */
  lemma {:induction false} RefillColons(lib: Library)
    requires Consistent(lib) && lib.structured && |lib.ordering| > 0
    ensures Refill(lib, lib.(props := Empty(), extra := Empty()), Colons(|lib.ordering|)) == Ok(lib.(extra := Empty()))
  {
    var base := lib.(props := Empty(), extra := Empty());
    var slices := Colons(|lib.ordering|);
    ShapeIsGridShape(lib);
    ConsistentShape(lib);
    assert Dims(base)[0] == Dims(lib)[0];
    var shape := Grid(Dims(base)[0]).shape;
    assert shape == lib.gridShape.value;
    var computed := SliceProps(lib.props.vals, slices, shape);
    forall j | 0 <= j < |lib.props.vals|
      ensures computed[j] == Ok(lib.props.vals[j]) && base.gridShape == Some(lib.props.vals[j].shape)
    {
      ColonProp(lib.props.vals[j]);
    }
    SetEachCopies(base, lib.props, lib.props.vals, computed);
  }

  /** After lib[q] = v succeeds, lib[q] reads v back. */
  lemma {:induction false} SetThenGetItem(lib: Library, q: string, v: Array)
    requires Wf(lib) && WellFormed(v) && SetItem(lib, q, v).Ok?
    ensures Wf(SetItem(lib, q, v).value)
    ensures GetItem(SetItem(lib, q, v).value, [Str(q)]) == Ok(Property(v))
  {
    SetItemPreserves(lib, q, v);
  }

  /** lib['T', 0] passes Python the tuple ('T', 0), which goes to the
      slicing branch; there the string is not a valid index for the first
      dimension. Only lib.__getitem__('T', 0), with two arguments, meets
      the check for a string with extra arguments (see GetItem). */
  lemma {:induction false} StringInTuple(lib: Library, q: string, rest: seq<Subscript>)
    requires Wf(lib) && |lib.ordering| == |rest| + 1 && Dims(lib)[0].structured
    ensures GetItem(lib, [Tuple([Str(q)] + rest)]) == Fail(IndexError)
  {
    var slices := [Str(q)] + rest;
    var ds := Dims(lib);
    SlicingBranch(lib, [Tuple(slices)]);
    var each := SliceEach(ds, slices);
    assert each[0] == Fail(IndexError);
    CollectFirst(each);
  }
}
