/** One independent variable of a tabulated library (class Dimension of
    spitfire/chemistry/library.py): a named one-dimensional array of grid
    values, flagged structured or unstructured, with a multidimensional
    "grid" that only an owning Library may assign. */
module Dimensions {
  import opened PyResult
  import opened NdArray

  /** The state of a Dimension instance after its constructor returned. */
  datatype Dimension = Dimension(
    name: string,
    values: Array,
    min: real,
    max: real,
    npts: nat,
    structured: bool,
    grid: Option<Array>,
    libraryOwned: bool)

  /** The three fields a Dimension is saved with (_get_dict_for_file_save),
      which are also the three arguments it is built from. */
  datatype SavedDimension = SavedDimension(name: string, values: Array, structured: bool)

  predicate IsLetter(c: char)
  {
    ('a' <= c <= 'z') || ('A' <= c <= 'Z') || c == '_'
  }

  predicate IsDigit(c: char)
  {
    '0' <= c <= '9'
  }

  /** str.isidentifier() restricted to ASCII: a letter or underscore followed
      by letters, digits and underscores. */
  predicate IsIdentifier(s: string)
  {
    && |s| > 0
    && IsLetter(s[0])
    && forall i :: 1 <= i < |s| ==> IsLetter(s[i]) || IsDigit(s[i])
  }

  /** np.unique(v).size == v.size: no value occurs twice. */
  predicate DistinctValues(v: seq<real>)
  {
    forall i, j :: 0 <= i < j < |v| ==> v[i] != v[j]
  }

  /** np.min of a non-empty array. */
  function SeqMin(v: seq<real>): (m: real)
    requires |v| > 0
    ensures m in v && forall i :: 0 <= i < |v| ==> m <= v[i]
    decreases |v|
  {
    if |v| == 1 then v[0]
    else
      var rest := SeqMin(v[1..]);
      assert forall i :: 1 <= i < |v| ==> v[i] == v[1..][i - 1];
      if v[0] <= rest then v[0] else rest
  }

  /** np.max of a non-empty array. */
  function SeqMax(v: seq<real>): (m: real)
    requires |v| > 0
    ensures m in v && forall i :: 0 <= i < |v| ==> v[i] <= m
    decreases |v|
  {
    if |v| == 1 then v[0]
    else
      var rest := SeqMax(v[1..]);
      assert forall i :: 1 <= i < |v| ==> v[i] == v[1..][i - 1];
      if v[0] >= rest then v[0] else rest
  }

  /** Dimension(name, values, structured, _library_owned). The checks run in
      the constructor's order: np.min/np.max of an empty array, the name, the
      rank of the values, and duplicates in a structured dimension. */
  function NewDimension(name: string, values: Array, structured: bool, libraryOwned: bool): (r: Result<Dimension>)
    requires WellFormed(values)
    ensures r.Ok? <==> |values.data| > 0 && IsIdentifier(name) && |values.shape| == 1
                       && (structured ==> DistinctValues(values.data))
    ensures |values.data| == 0 ==> r == Fail(ValueError(EmptyValues))
    ensures |values.data| > 0 && !IsIdentifier(name) ==> r == Fail(ValueError(NotIdentifier))
    ensures |values.data| > 0 && IsIdentifier(name) && |values.shape| != 1
            ==> r == Fail(ValueError(NotOneDimensional))
    ensures |values.data| > 0 && IsIdentifier(name) && |values.shape| == 1
            && structured && !DistinctValues(values.data)
            ==> r == Fail(ValueError(DuplicateValues))
    ensures r.Ok? ==> && r.value.name == name && r.value.values == values
                      && r.value.structured == structured && r.value.libraryOwned == libraryOwned
                      && r.value.grid.None? && r.value.npts == |values.data|
                      && r.value.min in values.data && r.value.max in values.data
                      && forall i :: 0 <= i < |values.data| ==>
                           r.value.min <= values.data[i] <= r.value.max
  {
    if |values.data| == 0 then Fail(ValueError(EmptyValues))
    else
      var d := Dimension(name, values, SeqMin(values.data), SeqMax(values.data),
                         |values.data|, structured, None, libraryOwned);
      if !IsIdentifier(name) then Fail(ValueError(NotIdentifier))
      else if |values.shape| != 1 then Fail(ValueError(NotOneDimensional))
      else if structured && !DistinctValues(values.data) then Fail(ValueError(DuplicateValues))
      else Ok(d)
  }

  /** The saved fields pass every check of the constructor. */
  predicate Buildable(s: SavedDimension)
  {
    && WellFormed(s.values)
    && |s.values.data| > 0
    && IsIdentifier(s.name)
    && |s.values.shape| == 1
    && (s.structured ==> DistinctValues(s.values.data))
  }

  /** d is the ungridded dimension built from s, owned as requested. */
  predicate Rebuilt(d: Dimension, s: SavedDimension, libraryOwned: bool)
  {
    && SaveDict(d) == s
    && d.libraryOwned == libraryOwned
    && d.grid.None?
    && ValidDimension(d)
  }

  /** Dimension(s['name'], s['values'], s['structured']) for a saved record. */
  function Restore(s: SavedDimension, libraryOwned: bool): (r: Result<Dimension>)
    requires WellFormed(s.values)
    ensures r.Ok? ==> SaveDict(r.value) == s && r.value.libraryOwned == libraryOwned
  {
    NewDimension(s.name, s.values, s.structured, libraryOwned)
  }

  /** What a successfully built Dimension looks like, field by field. */
  predicate ValidDimension(d: Dimension)
  {
    && WellFormed(d.values)
    && IsIdentifier(d.name)
    && |d.values.shape| == 1
    && |d.values.data| > 0
    && (d.structured ==> DistinctValues(d.values.data))
    && d.npts == |d.values.data|
    && d.min == SeqMin(d.values.data)
    && d.max == SeqMax(d.values.data)
  }

  /** Constructing never yields anything but a valid dimension … */
  lemma {:induction false} ConstructedIsValid(name: string, values: Array, structured: bool, libraryOwned: bool)
    requires WellFormed(values)
    ensures NewDimension(name, values, structured, libraryOwned).Ok? ==>
              && ValidDimension(NewDimension(name, values, structured, libraryOwned).value)
              && NewDimension(name, values, structured, libraryOwned).value.values == Vector(values.data)
  {
    if |values.shape| == 1 {
      OneDimensionalIsVector(values);
    }
  }

  /** Building from saved fields succeeds exactly when they pass every
      check, and then yields a valid dimension carrying those fields. */
  lemma {:induction false} RestoreFacts(s: SavedDimension, libraryOwned: bool)
    requires WellFormed(s.values)
    ensures Restore(s, libraryOwned).Ok? <==> Buildable(s)
    ensures Restore(s, libraryOwned).Ok? ==> Rebuilt(Restore(s, libraryOwned).value, s, libraryOwned)
  {
    ConstructedIsValid(s.name, s.values, s.structured, libraryOwned);
  }

  /** … and a valid dimension is rebuilt exactly from its saved fields,
      ungridded and with the requested ownership. */
  lemma {:induction false} RestoreSaved(d: Dimension, libraryOwned: bool)
    requires ValidDimension(d)
    ensures Restore(SaveDict(d), libraryOwned) == Ok(d.(grid := None, libraryOwned := libraryOwned))
  {
  }

  /** Unstructured dimensions may repeat values; structured ones may not. */
  lemma DuplicatesOnlyRejectedWhenStructured()
    ensures NewDimension("Z", Vector([0.5, 0.5]), false, false).Ok?
    ensures NewDimension("Z", Vector([0.5, 0.5]), true, false) == Fail(ValueError(DuplicateValues))
  {
    var v := Vector([0.5, 0.5]);
    assert !DistinctValues(v.data) by {
      assert v.data[0] == v.data[1];
    }
  }

  /** A name with a hyphen is refused before the values are looked at. */
  lemma HyphenatedNameRejected()
    ensures NewDimension("mixture-fraction", Array([1, 2], [0.0, 1.0]), true, false)
            == Fail(ValueError(NotIdentifier))
  {
    var s := "mixture-fraction";
    assert !IsIdentifier(s) by {
      assert s[7] == '-';
    }
  }

  /** The grid getter: the values until a grid has been assigned. */
  function Grid(d: Dimension): (g: Array)
    ensures d.grid.None? ==> g == d.values
    ensures d.grid.Some? ==> g == d.grid.value
  {
    if d.grid.None? then d.values else d.grid.value
  }

  /** The grid setter: allowed only on a dimension a Library owns. */
  function SetGrid(d: Dimension, g: Array): (r: Result<Dimension>)
    ensures r.Ok? <==> d.libraryOwned
    ensures r.Fail? ==> r.error == ValueError(GridNotSettable)
    ensures r.Ok? ==> r.value == d.(grid := Some(g))
  {
    if d.libraryOwned then Ok(d.(grid := Some(g)))
    else Fail(ValueError(GridNotSettable))
  }

  /** Setting then getting the grid gives back what was set, and nothing
      but the grid changes. */
  lemma {:induction false} SetThenGet(d: Dimension, g: Array)
    requires d.libraryOwned
    ensures SetGrid(d, g).Ok? && Grid(SetGrid(d, g).value) == g
    ensures SaveDict(SetGrid(d, g).value) == SaveDict(d)
  {
  }

  /** A dimension built outside a Library refuses a grid and keeps
      reporting its values. */
  lemma {:induction false} UserDimensionKeepsValues(name: string, values: Array, structured: bool, g: Array)
    requires WellFormed(values) && NewDimension(name, values, structured, false).Ok?
    ensures SetGrid(NewDimension(name, values, structured, false).value, g).Fail?
    ensures Grid(NewDimension(name, values, structured, false).value) == values
  {
  }

  /** _get_dict_for_file_save: name, values and the structured flag. */
  function SaveDict(d: Dimension): (s: SavedDimension)
    ensures s.name == d.name && s.values == d.values && s.structured == d.structured
  {
    SavedDimension(d.name, d.values, d.structured)
  }
}
