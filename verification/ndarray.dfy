/** The slice of numpy the library container uses: an n-dimensional array of
    reals stored as a shape and its row-major (C-order) data, `np.squeeze`,
    `np.meshgrid(..., indexing='ij')`, and basic indexing that keeps a list
    of positions along every axis. */
module NdArray {

  /** An ndarray: its shape and its elements in C order. */
  datatype Array = Array(shape: seq<nat>, data: seq<real>)

  /** The number of elements of an array of the given shape (1 for shape ()). */
  function Product(s: seq<nat>): nat
    decreases |s|
  {
    if |s| == 0 then 1 else s[0] * Product(s[1..])
  }

  /** The data holds exactly one element per position of the shape. */
  predicate WellFormed(a: Array)
  {
    |a.data| == Product(a.shape)
  }

  /** A one-dimensional array holding v. */
  function Vector(v: seq<real>): (a: Array)
    ensures WellFormed(a) && a.shape == [|v|] && a.data == v
  {
    Array([|v|], v)
  }

  /** A well-formed one-dimensional array is the vector of its data. */
  lemma {:induction false} OneDimensionalIsVector(a: Array)
    requires WellFormed(a) && |a.shape| == 1
    ensures a == Vector(a.data)
  {
    assert a.shape[1..] == [];
    assert Product(a.shape) == a.shape[0] * Product(a.shape[1..]) == a.shape[0];
    assert a.shape == [a.shape[0]];
  }

  /** The shape with every axis of length one removed. */
  function SqueezeShape(s: seq<nat>): (r: seq<nat>)
    ensures Product(r) == Product(s)
    ensures forall i :: 0 <= i < |r| ==> r[i] != 1
    ensures |r| <= |s|
    decreases |s|
  {
    if |s| == 0 then []
    else if s[0] == 1 then SqueezeShape(s[1..])
    else [s[0]] + SqueezeShape(s[1..])
  }

  /** np.squeeze: the same elements in the same order, without the axes of
      length one. */
  function Squeeze(a: Array): (r: Array)
    ensures r.data == a.data
    ensures WellFormed(a) ==> WellFormed(r)
    ensures forall i :: 0 <= i < |r.shape| ==> r.shape[i] != 1
  {
    Array(SqueezeShape(a.shape), a.data)
  }

  /** A shape with no axis of length one squeezes to itself. */
  lemma {:induction false} SqueezeShapeKeeps(s: seq<nat>)
    requires forall i :: 0 <= i < |s| ==> s[i] != 1
    ensures SqueezeShape(s) == s
    decreases |s|
  {
    if |s| > 0 {
      SqueezeShapeKeeps(s[1..]);
    }
  }

  /** A positive product of naturals has positive factors. */
  lemma {:induction false} PositiveFactors(a: nat, b: nat)
    requires a * b > 0
    ensures a > 0 && b > 0
  {
  }

  /** A positive product has no zero factor. */
  lemma {:induction false} ProductPositive(s: seq<nat>)
    requires Product(s) > 0
    ensures forall i :: 0 <= i < |s| ==> s[i] > 0
    decreases |s|
  {
    if |s| > 0 {
      PositiveFactors(s[0], Product(s[1..]));
      ProductPositive(s[1..]);
      assert forall i :: 1 <= i < |s| ==> s[i] == s[1..][i - 1];
    }
  }

  /** The lengths of a list of axes. */
  function Lengths(axes: seq<seq<real>>): (l: seq<nat>)
    ensures |l| == |axes| && forall i :: 0 <= i < |axes| ==> l[i] == |axes[i]|
  {
    seq(|axes|, i requires 0 <= i < |axes| => |axes[i]|)
  }

  /** Element f of a C-order array of shape s advances along axis i once
      every Product(s[i+1..]) elements. */
  function Stride(s: seq<nat>, i: nat): nat
    requires i < |s|
  {
    Product(s[i + 1..])
  }

  /** Component i of np.meshgrid(*axes, indexing='ij'): an array of shape
      (|axes[0]|, …, |axes[n-1]|) whose element at multi-index (j0, …, jn-1)
      is axes[i][ji]. */
  function MeshgridAxis(axes: seq<seq<real>>, i: nat): (g: Array)
    requires i < |axes|
    ensures g.shape == Lengths(axes) && WellFormed(g)
  {
    var s := Lengths(axes);
    var n := Product(s);
    if n == 0 then Array(s, [])
    else
      ProductPositive(s);
      assert Stride(s, i) > 0 by {
        ProductTail(s, i + 1);
      }
      Array(s, seq(n, f requires 0 <= f < n => axes[i][(f / Stride(s, i)) % |axes[i]|]))
  }

  /** A positive product has positive tail products. */
  lemma {:induction false} ProductTail(s: seq<nat>, k: nat)
    requires Product(s) > 0 && k <= |s|
    ensures Product(s[k..]) > 0
    decreases k
  {
    if k > 0 {
      PositiveFactors(s[0], Product(s[1..]));
      assert s[1..][k - 1..] == s[k..];
      ProductTail(s[1..], k - 1);
    }
  }

  /** np.meshgrid(*axes, indexing='ij'): one component per axis. */
  function Meshgrid(axes: seq<seq<real>>): (g: seq<Array>)
    ensures |g| == |axes|
    ensures forall i :: 0 <= i < |g| ==> g[i].shape == Lengths(axes) && WellFormed(g[i])
  {
    seq(|axes|, i requires 0 <= i < |axes| => MeshgridAxis(axes, i))
  }

  /** The meshgrid of a single axis is that axis itself. */
  lemma {:induction false} MeshgridOfOneAxis(v: seq<real>)
    ensures Meshgrid([v])[0] == Vector(v)
  {
    var s := Lengths([v]);
    assert s == [|v|];
    assert s[1..] == [];
    assert Product(s) == |v| * Product(s[1..]) == |v|;
    var g := Meshgrid([v])[0];
    assert g == MeshgridAxis([v], 0);
    if |v| > 0 {
      assert Stride(s, 0) == 1;
      forall f | 0 <= f < |v|
        ensures g.data[f] == v[f]
      {
        DivOneMod(f, |v|);
      }
    }
    assert g.data == v;
  }

  lemma {:induction false} DivOneMod(f: nat, n: nat)
    requires f < n
    ensures (f / 1) % n == f
  {
  }

  // -----------------------------------------------------------------------
  // Basic indexing: keeping a list of positions along every axis

  /** The parts laid end to end. */
  function Concat(parts: seq<seq<real>>): (r: seq<real>)
    decreases |parts|
  {
    if |parts| == 0 then [] else parts[0] + Concat(parts[1..])
  }

  /** Laying end to end n parts of length w gives n·w elements. */
  lemma {:induction false} ConcatUniform(parts: seq<seq<real>>, w: nat)
    requires forall j :: 0 <= j < |parts| ==> |parts[j]| == w
    ensures |Concat(parts)| == |parts| * w
    decreases |parts|
  {
    if |parts| > 0 {
      ConcatUniform(parts[1..], w);
      assert |parts| * w == w + (|parts| - 1) * w;
    }
  }

  /** The n consecutive blocks of length w of a sequence of n·w elements:
      the sub-arrays at each position of axis 0. */
  function Chunks(data: seq<real>, w: nat, n: nat): (c: seq<seq<real>>)
    requires |data| == n * w
    ensures |c| == n && forall j :: 0 <= j < n ==> |c[j]| == w
    decreases n
  {
    if n == 0 then []
    else
      assert n * w == (n - 1) * w + w;
      [data[..w]] + Chunks(data[w..], w, n - 1)
  }

  /** Laying the blocks end to end gives the sequence back. */
  lemma {:induction false} ConcatChunks(data: seq<real>, w: nat, n: nat)
    requires |data| == n * w
    ensures Concat(Chunks(data, w, n)) == data
    decreases n
  {
    if n > 0 {
      assert n * w == (n - 1) * w + w;
      var c := Chunks(data, w, n);
      assert c[0] == data[..w] && c[1..] == Chunks(data[w..], w, n - 1);
      ConcatChunks(data[w..], w, n - 1);
      assert data == data[..w] + data[w..];
    }
  }

  /** Every listed position lies inside its axis. */
  predicate InBounds(shape: seq<nat>, sel: seq<seq<nat>>)
  {
    && |sel| == |shape|
    && forall k, j :: 0 <= k < |sel| && 0 <= j < |sel[k]| ==> sel[k][j] < shape[k]
  }

  /** The number of positions kept along each axis. */
  function Counts(sel: seq<seq<nat>>): (c: seq<nat>)
    ensures |c| == |sel| && forall k :: 0 <= k < |sel| ==> c[k] == |sel[k]|
  {
    seq(|sel|, k requires 0 <= k < |sel| => |sel[k]|)
  }

  /** a[sel[0], sel[1], …] in the open-mesh sense: the elements at every
      combination of kept positions, in C order. */
  function Gather(shape: seq<nat>, data: seq<real>, sel: seq<seq<nat>>): (r: seq<real>)
    requires |data| == Product(shape) && InBounds(shape, sel)
    ensures |r| == Product(Counts(sel))
    decreases |shape|, 1
  {
    if |shape| == 0 then data
    else
      var parts := Parts(shape, data, sel);
      ConcatUniform(parts, Product(Counts(sel[1..])));
      assert Counts(sel)[1..] == Counts(sel[1..]);
      Concat(parts)
  }

  /** The sub-arrays a[sel[0][j], sel[1], …] for each kept position j of
      axis 0. */
  function Parts(shape: seq<nat>, data: seq<real>, sel: seq<seq<nat>>): (p: seq<seq<real>>)
    requires |shape| > 0 && |data| == Product(shape) && InBounds(shape, sel)
    ensures |p| == |sel[0]|
    ensures forall j :: 0 <= j < |p| ==> |p[j]| == Product(Counts(sel[1..]))
    decreases |shape|, 0
  {
    var chunks := Chunks(data, Product(shape[1..]), shape[0]);
    assert InBounds(shape[1..], sel[1..]);
    seq(|sel[0]|, j requires 0 <= j < |sel[0]| => Gather(shape[1..], chunks[sel[0][j]], sel[1..]))
  }

  /** All positions of an axis of length n, in order. */
  function All(n: nat): (r: seq<nat>)
    ensures |r| == n && forall j :: 0 <= j < n ==> r[j] == j
  {
    seq(n, j requires 0 <= j < n => j)
  }

  /** Keeping every position of every axis. */
  function Everything(shape: seq<nat>): (sel: seq<seq<nat>>)
    ensures InBounds(shape, sel) && Counts(sel) == shape
  {
    seq(|shape|, k requires 0 <= k < |shape| => All(shape[k]))
  }

  /** Keeping every position is the identity: a[:, :, …] has a's data. */
  lemma {:induction false} GatherEverything(shape: seq<nat>, data: seq<real>)
    requires |data| == Product(shape)
    ensures Gather(shape, data, Everything(shape)) == data
    decreases |shape|
  {
    if |shape| > 0 {
      var w := Product(shape[1..]);
      var sel := Everything(shape);
      assert sel[1..] == Everything(shape[1..]);
      var chunks := Chunks(data, w, shape[0]);
      var parts := Parts(shape, data, sel);
      forall j | 0 <= j < shape[0]
        ensures parts[j] == chunks[j]
      {
        assert sel[0][j] == j;
        GatherEverything(shape[1..], chunks[j]);
      }
      assert parts == chunks;
      ConcatChunks(data, w, shape[0]);
    }
  }
}
