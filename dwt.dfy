/** The two-dimensional Haar pyramid of the DWT codec (utils/ImageUtils.java, forwardDWT and
    inverseDWTTransform) on a plane of doubles data[i][j], row i and column j.

    forwardDWT transforms the rows and then the columns of the top-left rows x cols extent and
    halves both extents, while both are at least 2. inverseDWTTransform starts from a 2 x 2
    extent and, while the extent fits, undoes the columns and then the rows and doubles both. */
module Dwt {
  import opened Haar

  datatype Direction = Forward | Inverse

  /** transformRow or inverseTransformRow as a value. */
  function HaarStep(v: seq<real>, len: nat, s: real, d: Direction): (r: seq<real>)
    requires len <= |v|
    ensures |r| == |v|
  {
    if d == Forward then HaarForward(v, len, s) else HaarInverse(v, len, s)
  }

  /** Every row of the plane has w entries. */
  predicate Rect(g: seq<seq<real>>, w: nat) {
    forall i :: 0 <= i < |g| ==> |g[i]| == w
  }

  /** Column j of the plane. */
  function Column(g: seq<seq<real>>, w: nat, j: nat): (c: seq<real>)
    requires Rect(g, w) && j < w
    ensures |c| == |g|
  {
    seq(|g|, i requires 0 <= i < |g| => g[i][j])
  }

  /** One row pass over the extent: each of the first rows rows goes through the Haar step of
      length cols. */
  function RowStep(g: seq<seq<real>>, w: nat, rows: nat, cols: nat, s: real, d: Direction): (r: seq<seq<real>>)
    requires Rect(g, w) && rows <= |g| && cols <= w
    ensures |r| == |g| && Rect(r, w)
  {
    seq(|g|, i requires 0 <= i < |g| => if i < rows then HaarStep(g[i], cols, s, d) else g[i])
  }

  /** One column pass over the extent: each of the first cols columns goes through the Haar
      step of length rows. */
  function ColStep(g: seq<seq<real>>, w: nat, rows: nat, cols: nat, s: real, d: Direction): (r: seq<seq<real>>)
    requires Rect(g, w) && rows <= |g| && cols <= w
    ensures |r| == |g| && Rect(r, w)
  {
    seq(|g|, i requires 0 <= i < |g| =>
      seq(w, j requires 0 <= j < w => if j < cols then HaarStep(Column(g, w, j), rows, s, d)[i] else g[i][j]))
  }

  /** One level of forwardDWT: rows, then columns. */
  function ForwardLevel(g: seq<seq<real>>, w: nat, n: nat, s: real): (r: seq<seq<real>>)
    requires Rect(g, w) && n <= |g| && n <= w
    ensures |r| == |g| && Rect(r, w)
  {
    ColStep(RowStep(g, w, n, n, s, Forward), w, n, n, s, Forward)
  }

  /** One level of inverseDWTTransform: columns, then rows. */
  function InverseLevel(g: seq<seq<real>>, w: nat, n: nat, s: real): (r: seq<seq<real>>)
    requires Rect(g, w) && n <= |g| && n <= w
    ensures |r| == |g| && Rect(r, w)
  {
    RowStep(ColStep(g, w, n, n, s, Inverse), w, n, n, s, Inverse)
  }

  /** forwardDWT from extent rows x cols on: both passes, then both extents halve, while both
      are at least 2. */
  function ForwardFrom(g: seq<seq<real>>, w: nat, rows: nat, cols: nat, s: real): (r: seq<seq<real>>)
    requires Rect(g, w) && rows <= |g| && cols <= w
    ensures |r| == |g| && Rect(r, w)
    decreases rows
  {
    if rows >= 2 && cols >= 2 then
      ForwardFrom(ColStep(RowStep(g, w, rows, cols, s, Forward), w, rows, cols, s, Forward), w, rows / 2, cols / 2, s)
    else g
  }

  /** inverseDWTTransform from extent rows x cols on: both inverse passes, then both extents
      double, while the extent fits in the plane. */
  function InverseFrom(g: seq<seq<real>>, w: nat, rows: nat, cols: nat, s: real): (r: seq<seq<real>>)
    requires Rect(g, w) && 1 <= rows
    ensures |r| == |g| && Rect(r, w)
    decreases |g| - rows
  {
    if rows <= |g| && cols <= w then
      InverseFrom(RowStep(ColStep(g, w, rows, cols, s, Inverse), w, rows, cols, s, Inverse), w, 2 * rows, 2 * cols, s)
    else g
  }

  /** forwardDWT at an extent of at least 2 x 2 is one level followed by forwardDWT at half the
      extent. */
  lemma ForwardFromStep(g: seq<seq<real>>, w: nat, rows: nat, cols: nat, s: real)
    requires Rect(g, w) && 2 <= rows <= |g| && 2 <= cols <= w
    ensures ForwardFrom(g, w, rows, cols, s) ==
      ForwardFrom(ColStep(RowStep(g, w, rows, cols, s, Forward), w, rows, cols, s, Forward), w, rows / 2, cols / 2, s)
  {
  }

  /** inverseDWTTransform at an extent that fits is one level followed by inverseDWTTransform at
      twice the extent. */
  lemma InverseFromStep(g: seq<seq<real>>, g': seq<seq<real>>, w: nat, rows: nat, cols: nat, s: real)
    requires Rect(g, w) && 1 <= rows <= |g| && cols <= w
    requires g' == RowStep(ColStep(g, w, rows, cols, s, Inverse), w, rows, cols, s, Inverse)
    ensures InverseFrom(g', w, 2 * rows, 2 * cols, s) == InverseFrom(g, w, rows, cols, s)
  {
  }

  /** A pass changes only cells inside the rows x cols extent. */
  lemma StepsStayInExtent(g: seq<seq<real>>, w: nat, rows: nat, cols: nat, s: real, d: Direction)
    requires Rect(g, w) && rows <= |g| && cols <= w
    ensures forall i, j :: 0 <= i < |g| && 0 <= j < w && !(i < rows && j < cols) ==>
      RowStep(g, w, rows, cols, s, d)[i][j] == g[i][j] && ColStep(g, w, rows, cols, s, d)[i][j] == g[i][j]
  {
  }

  /** With an exact scale and an even number of columns, the inverse row pass undoes the
      forward row pass. */
  lemma {:induction false} RowStepRoundTrip(g: seq<seq<real>>, w: nat, rows: nat, cols: nat, s: real)
    requires Rect(g, w) && rows <= |g| && cols <= w && cols % 2 == 0 && ExactHaarScale(s)
    ensures RowStep(RowStep(g, w, rows, cols, s, Forward), w, rows, cols, s, Inverse) == g
  {
    var f := RowStep(g, w, rows, cols, s, Forward);
    var r := RowStep(f, w, rows, cols, s, Inverse);
    forall i | 0 <= i < |g|
      ensures r[i] == g[i]
    {
      if i < rows {
        HaarInverseForward(g[i], cols, s);
      }
    }
    assert r == g;
  }

  /** With an exact scale and an even number of rows, the inverse column pass undoes the
      forward column pass. */
  lemma {:induction false} ColStepRoundTrip(g: seq<seq<real>>, w: nat, rows: nat, cols: nat, s: real)
    requires Rect(g, w) && rows <= |g| && cols <= w && rows % 2 == 0 && ExactHaarScale(s)
    ensures ColStep(ColStep(g, w, rows, cols, s, Forward), w, rows, cols, s, Inverse) == g
  {
    var f := ColStep(g, w, rows, cols, s, Forward);
    var r := ColStep(f, w, rows, cols, s, Inverse);
    forall j | 0 <= j < cols
      ensures HaarInverse(Column(f, w, j), rows, s) == Column(g, w, j)
    {
      assert Column(f, w, j) == HaarForward(Column(g, w, j), rows, s);
      HaarInverseForward(Column(g, w, j), rows, s);
    }
    forall i | 0 <= i < |g|
      ensures r[i] == g[i]
    {
      forall j | 0 <= j < w
        ensures r[i][j] == g[i][j]
      {
        if j < cols {
          assert r[i][j] == HaarInverse(Column(f, w, j), rows, s)[i];
          assert Column(g, w, j)[i] == g[i][j];
        }
      }
    }
    assert r == g;
  }

  /** With an exact scale, one inverse level undoes one forward level of even extent. */
  lemma LevelRoundTrip(g: seq<seq<real>>, w: nat, n: nat, s: real)
    requires Rect(g, w) && n <= |g| && n <= w && n % 2 == 0 && ExactHaarScale(s)
    ensures InverseLevel(ForwardLevel(g, w, n, s), w, n, s) == g
  {
    var a := RowStep(g, w, n, n, s, Forward);
    ColStepRoundTrip(a, w, n, n, s);
    RowStepRoundTrip(g, w, n, n, s);
  }

  function Pow2(e: nat): (p: nat)
    ensures p >= 1
  {
    if e == 0 then 1 else 2 * Pow2(e - 1)
  }

  /** The inverse pyramid started at extent 2 undoes the forward pyramid started at extent
      2^e: what remains is the inverse pyramid from extent 2^(e+1) on. */
  lemma {:induction false} PyramidRoundTrip(g: seq<seq<real>>, w: nat, e: nat, s: real)
    requires Rect(g, w) && Pow2(e) <= |g| && Pow2(e) <= w && ExactHaarScale(s)
    ensures InverseFrom(ForwardFrom(g, w, Pow2(e), Pow2(e), s), w, 2, 2, s) == InverseFrom(g, w, 2 * Pow2(e), 2 * Pow2(e), s)
    decreases e
  {
    var n := Pow2(e);
    if e == 0 {
      assert ForwardFrom(g, w, n, n, s) == g;
    } else {
      var h := Pow2(e - 1);
      assert n == 2 * h && n / 2 == h;
      var a := ForwardLevel(g, w, n, s);
      assert ForwardFrom(g, w, n, n, s) == ForwardFrom(a, w, h, h, s);
      PyramidRoundTrip(a, w, e - 1, s);
      var b := RowStep(ColStep(a, w, n, n, s, Inverse), w, n, n, s, Inverse);
      assert InverseFrom(a, w, n, n, s) == InverseFrom(b, w, 2 * n, 2 * n, s);
      assert b == InverseLevel(a, w, n, s);
      LevelRoundTrip(g, w, n, s);
    }
  }

  /** With an exact scale, the inverse pyramid undoes the forward pyramid on a square plane
      whose side is a power of two, such as the codec's 512 x 512 planes. */
  lemma DwtRoundTrip(g: seq<seq<real>>, e: nat, s: real)
    requires |g| == Pow2(e) && Rect(g, Pow2(e)) && ExactHaarScale(s)
    ensures InverseFrom(ForwardFrom(g, |g|, |g|, |g|, s), |g|, 2, 2, s) == g
  {
    PyramidRoundTrip(g, |g|, e, s);
  }

  // The extents the two pyramids visit.

  /** The extents forwardDWT visits on an n x n plane: n, n / 2, ..., down to 2. */
  function ForwardExtents(n: nat): seq<nat>
    decreases n
  {
    if n >= 2 then [n] + ForwardExtents(n / 2) else []
  }

  /** The extents inverseDWTTransform visits on a side-N plane from extent n on: n, 2n, ...,
      up to N. */
  function InverseExtents(n: nat, side: nat): seq<nat>
    requires n >= 1
    decreases side - n
  {
    if n <= side then [n] + InverseExtents(2 * n, side) else []
  }

  function Reverse(xs: seq<nat>): (r: seq<nat>)
    ensures |r| == |xs|
    ensures forall k :: 0 <= k < |xs| ==> r[k] == xs[|xs| - 1 - k]
  {
    if xs == [] then [] else Reverse(xs[1..]) + [xs[0]]
  }

  /** On a square plane of side 2^e the inverse visits the forward's extents in the mirror
      order: 2, 4, ..., 2^e against 2^e, ..., 4, 2. */
  lemma {:induction false} ExtentsMirror(e: nat)
    ensures InverseExtents(2, Pow2(e)) == Reverse(ForwardExtents(Pow2(e)))
    ensures |ForwardExtents(Pow2(e))| == e
  {
    if e > 0 {
      ExtentsMirror(e - 1);
      var n := Pow2(e);
      var h := Pow2(e - 1);
      assert n == 2 * h && n / 2 == h;
      assert Pow2(1) == 2;
      InverseExtentsStep(1, e - 1);
      var f := ForwardExtents(n);
      assert f == [n] + ForwardExtents(h);
      assert f[1..] == ForwardExtents(h);
    }
  }

  lemma {:induction false} Pow2Monotone(a: nat, b: nat)
    requires a <= b
    ensures Pow2(a) <= Pow2(b)
    decreases b
  {
    if a < b {
      Pow2Monotone(a, b - 1);
    }
  }

  /** Doubling the limit from 2^b to 2^(b+1) appends 2^(b+1) to the inverse extents started at
      2^a. */
  lemma {:induction false} InverseExtentsStep(a: nat, b: nat)
    requires 1 <= a <= b + 1
    ensures InverseExtents(Pow2(a), Pow2(b + 1)) == InverseExtents(Pow2(a), Pow2(b)) + [Pow2(b + 1)]
    decreases b + 1 - a
  {
    assert Pow2(a + 1) == 2 * Pow2(a);
    Pow2Monotone(a, b + 1);
    if a <= b {
      Pow2Monotone(a, b);
      InverseExtentsStep(a + 1, b);
    } else {
      assert InverseExtents(Pow2(a + 1), Pow2(b + 1)) == [];
    }
  }

  // The methods work in place on the plane, as double[height][width]: data[i, j] is row i,
  // column j.

  /** The plane's contents as a value. */
  function GridOf(a: array2<real>): (g: seq<seq<real>>)
    reads a
    ensures |g| == a.Length0 && Rect(g, a.Length1)
  {
    seq(a.Length0, i requires 0 <= i < a.Length0 reads a =>
      seq(a.Length1, j requires 0 <= j < a.Length1 reads a => a[i, j]))
  }

  lemma GridOfCells(a: array2<real>, g: seq<seq<real>>)
    requires |g| == a.Length0 && Rect(g, a.Length1)
    requires forall i, j :: 0 <= i < a.Length0 && 0 <= j < a.Length1 ==> a[i, j] == g[i][j]
    ensures GridOf(a) == g
  {
    forall i | 0 <= i < a.Length0
      ensures GridOf(a)[i] == g[i]
    {
    }
  }

  /** The Haar step of a prefix agrees with the step of the whole row on that prefix. */
  lemma HaarStepPrefix(v: seq<real>, len: nat, n: nat, s: real, d: Direction)
    requires len <= n <= |v|
    ensures forall k :: 0 <= k < n ==> HaarStep(v[..n], len, s, d)[k] == HaarStep(v, len, s, d)[k]
  {
  }

  /** Row i through the Haar step, as forwardDWT and inverseDWTTransform do it: the first cols
      entries are copied into a new row, transformed, and copied back. */
  method StepGridRow(data: array2<real>, i: int, cols: int, d: Direction)
    requires 0 <= i < data.Length0 && 0 <= cols <= data.Length1
    modifies data
    ensures forall i', j :: 0 <= i' < data.Length0 && 0 <= j < data.Length1 ==>
      data[i', j] == if i' == i then HaarStep(old(GridOf(data))[i], cols, HaarScale, d)[j] else old(data[i', j])
  {
    ghost var v := GridOf(data)[i];
    var row := new real[cols];
    forall j | 0 <= j < cols {
      row[j] := data[i, j];
    }
    assert row[..] == v[..cols];
    if d == Forward {
      TransformRow(row, cols);
    } else {
      InverseTransformRow(row, cols);
    }
    forall j | 0 <= j < cols {
      data[i, j] := row[j];
    }
    HaarStepPrefix(v, cols, cols, HaarScale, d);
  }

  /** Column j through the Haar step: its first rows entries are copied into a new array,
      transformed, and copied back. */
  method StepGridColumn(data: array2<real>, j: int, rows: int, d: Direction)
    requires 0 <= j < data.Length1 && 0 <= rows <= data.Length0
    modifies data
    ensures forall i, j' :: 0 <= i < data.Length0 && 0 <= j' < data.Length1 ==>
      data[i, j'] == if j' == j then HaarStep(Column(old(GridOf(data)), data.Length1, j), rows, HaarScale, d)[i]
        else old(data[i, j'])
  {
    ghost var v := Column(GridOf(data), data.Length1, j);
    var col := new real[rows];
    forall i | 0 <= i < rows {
      col[i] := data[i, j];
    }
    assert col[..] == v[..rows];
    if d == Forward {
      TransformRow(col, rows);
    } else {
      InverseTransformRow(col, rows);
    }
    forall i | 0 <= i < rows {
      data[i, j] := col[i];
    }
    HaarStepPrefix(v, rows, rows, HaarScale, d);
  }

  /** The row pass of one level: rows 0 .. rows - 1 through the Haar step of length cols. */
  method RowPass(data: array2<real>, rows: int, cols: int, d: Direction)
    requires 0 <= rows <= data.Length0 && 0 <= cols <= data.Length1
    modifies data
    ensures GridOf(data) == RowStep(old(GridOf(data)), data.Length1, rows, cols, HaarScale, d)
  {
    ghost var g := GridOf(data);
    ghost var r := RowStep(g, data.Length1, rows, cols, HaarScale, d);
    for i := 0 to rows
      invariant forall i', j :: 0 <= i' < data.Length0 && 0 <= j < data.Length1 ==>
        data[i', j] == if i' < i then r[i'][j] else g[i'][j]
    {
      assert forall j :: 0 <= j < data.Length1 ==> GridOf(data)[i][j] == g[i][j];
      assert GridOf(data)[i] == g[i];
      StepGridRow(data, i, cols, d);
    }
    GridOfCells(data, r);
  }

  /** The column pass of one level: columns 0 .. cols - 1 through the Haar step of length
      rows. */
  method ColPass(data: array2<real>, rows: int, cols: int, d: Direction)
    requires 0 <= rows <= data.Length0 && 0 <= cols <= data.Length1
    modifies data
    ensures GridOf(data) == ColStep(old(GridOf(data)), data.Length1, rows, cols, HaarScale, d)
  {
    ghost var g := GridOf(data);
    ghost var r := ColStep(g, data.Length1, rows, cols, HaarScale, d);
    for j := 0 to cols
      invariant forall i, j' :: 0 <= i < data.Length0 && 0 <= j' < data.Length1 ==>
        data[i, j'] == if j' < j then r[i][j'] else g[i][j']
    {
      assert forall i :: 0 <= i < data.Length0 ==> Column(GridOf(data), data.Length1, j)[i] == Column(g, data.Length1, j)[i];
      assert Column(GridOf(data), data.Length1, j) == Column(g, data.Length1, j);
      StepGridColumn(data, j, rows, d);
    }
    GridOfCells(data, r);
  }

  /** One level of forwardDWT: rows, then columns, of the rows x cols extent. */
  method ForwardLevelPass(data: array2<real>, rows: int, cols: int)
    requires 0 <= rows <= data.Length0 && 0 <= cols <= data.Length1
    modifies data
    ensures GridOf(data) ==
      ColStep(RowStep(old(GridOf(data)), data.Length1, rows, cols, HaarScale, Forward), data.Length1, rows, cols, HaarScale, Forward)
  {
    RowPass(data, rows, cols, Forward);
    ColPass(data, rows, cols, Forward);
  }

  /** One level of inverseDWTTransform: columns, then rows, of the rows x cols extent. */
  method InverseLevelPass(data: array2<real>, rows: int, cols: int)
    requires 0 <= rows <= data.Length0 && 0 <= cols <= data.Length1
    modifies data
    ensures GridOf(data) ==
      RowStep(ColStep(old(GridOf(data)), data.Length1, rows, cols, HaarScale, Inverse), data.Length1, rows, cols, HaarScale, Inverse)
  {
    ColPass(data, rows, cols, Inverse);
    RowPass(data, rows, cols, Inverse);
  }

  /** forwardDWT: rows, then columns, over an extent that starts as the whole plane and halves
      while both sides are at least 2. */
  method ForwardDwt(data: array2<real>)
    requires data.Length0 >= 1
    modifies data
    ensures GridOf(data) == ForwardFrom(old(GridOf(data)), data.Length1, data.Length0, data.Length1, HaarScale)
  {
    ghost var target := ForwardFrom(GridOf(data), data.Length1, data.Length0, data.Length1, HaarScale);
    var rows := data.Length0;
    var cols := data.Length1;
    while rows >= 2 && cols >= 2
      invariant 0 <= rows <= data.Length0 && 0 <= cols <= data.Length1
      invariant ForwardFrom(GridOf(data), data.Length1, rows, cols, HaarScale) == target
      decreases rows
    {
      ForwardFromStep(GridOf(data), data.Length1, rows, cols, HaarScale);
      ForwardLevelPass(data, rows, cols);
      rows := rows / 2;
      cols := cols / 2;
    }
  }

  /** inverseDWTTransform: columns, then rows, over an extent that starts at 2 x 2 and doubles
      while it fits in the plane. */
  method InverseDwt(data: array2<real>)
    modifies data
    ensures GridOf(data) == InverseFrom(old(GridOf(data)), data.Length1, 2, 2, HaarScale)
  {
    ghost var target := InverseFrom(GridOf(data), data.Length1, 2, 2, HaarScale);
    var rows := 2;
    var cols := 2;
    while rows <= data.Length0 && cols <= data.Length1
      invariant 2 <= rows && cols == rows
      invariant InverseFrom(GridOf(data), data.Length1, rows, cols, HaarScale) == target
      decreases data.Length0 - rows
    {
      InverseLevelStep(data, rows, cols);
      rows := rows * 2;
      cols := cols * 2;
    }
    InverseFromDone(GridOf(data), data.Length1, rows, cols, HaarScale);
  }

  /** Past the plane, inverseDWTTransform leaves the grid as it is. */
  lemma InverseFromDone(g: seq<seq<real>>, w: nat, rows: nat, cols: nat, s: real)
    requires Rect(g, w) && 1 <= rows && (|g| < rows || w < cols)
    ensures InverseFrom(g, w, rows, cols, s) == g
  {
  }

  /** One iteration of inverseDWTTransform's loop: what remains to be done from extent
      rows x cols on is what remains from twice that extent after this level. */
  method InverseLevelStep(data: array2<real>, rows: int, cols: int)
    requires 1 <= rows <= data.Length0 && 0 <= cols <= data.Length1
    modifies data
    ensures InverseFrom(GridOf(data), data.Length1, 2 * rows, 2 * cols, HaarScale) ==
      InverseFrom(old(GridOf(data)), data.Length1, rows, cols, HaarScale)
  {
    ghost var g := GridOf(data);
    InverseLevelPass(data, rows, cols);
    InverseFromStep(g, GridOf(data), data.Length1, rows, cols, HaarScale);
  }
}
