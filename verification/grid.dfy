/** Row-major layout of an image: numpy's `flatten()` of a `height x width`
    array and `reshape((height, width))` of a flat one. */
module Grid {
  import opened Wrappers

  /** `g` has `h` rows of `w` samples each. */
  predicate IsRect<T>(g: seq<seq<T>>, h: nat, w: nat) {
    |g| == h && forall r :: 0 <= r < h ==> |g[r]| == w
  }

  lemma MulSucc(r: nat, w: nat)
    ensures 0 <= r * w
    ensures (r + 1) * w == r * w + w
  {
  }

  lemma MulMono(a: nat, b: nat, w: nat)
    requires a <= b
    ensures a * w <= b * w
    decreases b - a
  {
    if a < b {
      MulMono(a, b - 1, w);
      MulSucc(b - 1, w);
    }
  }

  /** Row `r` of an `h x w` grid starts at `r * w` and ends by `h * w`. */
  lemma RowOffset(r: nat, h: nat, w: nat)
    requires r < h
    ensures 0 <= r * w && (r + 1) * w == r * w + w
    ensures r * w + w <= h * w
  {
    MulSucc(r, w);
    MulMono(r + 1, h, w);
  }

  /** `flatten()`: row 0 left to right, then row 1, and so on. */
  function Flatten<T>(g: seq<seq<T>>): seq<T> {
    if g == [] then [] else g[0] + Flatten(g[1..])
  }

  lemma {:induction false} FlattenLength<T>(g: seq<seq<T>>, h: nat, w: nat)
    requires IsRect(g, h, w)
    ensures |Flatten(g)| == h * w
    decreases h
  {
    if h > 0 {
      assert IsRect(g[1..], h - 1, w);
      FlattenLength(g[1..], h - 1, w);
      MulSucc(h - 1, w);
    }
  }

  /** The sample at row `r`, column `c` lands at flat index `r * w + c`. */
  lemma {:induction false} FlattenCell<T>(g: seq<seq<T>>, h: nat, w: nat, r: nat, c: nat)
    requires IsRect(g, h, w) && r < h && c < w
    ensures |Flatten(g)| == h * w
    ensures 0 <= r * w + c < |Flatten(g)| && Flatten(g)[r * w + c] == g[r][c]
    decreases r
  {
    FlattenLength(g, h, w);
    RowOffset(r, h, w);
    if r > 0 {
      assert IsRect(g[1..], h - 1, w);
      FlattenCell(g[1..], h - 1, w, r - 1, c);
      MulSucc(r - 1, w);
      assert Flatten(g) == g[0] + Flatten(g[1..]);
    }
  }

  /** Cell `(r, c)` of `g` is the element at flat index `r * w + c` of `d`. */
  ghost predicate CellAt<T>(g: seq<seq<T>>, d: seq<T>, w: nat, r: nat, c: nat)
    requires r < |g| && c < |g[r]|
  {
    0 <= r * w + c < |d| && d[r * w + c] == g[r][c]
  }

  /** The row-major index law of `flatten()`, for every cell. */
  lemma FlattenIndex<T>(g: seq<seq<T>>, h: nat, w: nat)
    requires IsRect(g, h, w)
    ensures |Flatten(g)| == h * w
    ensures forall r: nat, c: nat :: r < h && c < w ==> CellAt(g, Flatten(g), w, r, c)
  {
    FlattenLength(g, h, w);
    forall r: nat, c: nat | r < h && c < w
      ensures CellAt(g, Flatten(g), w, r, c)
    {
      FlattenCell(g, h, w, r, c);
    }
  }

  /** Why reshaping fails: numpy's "cannot reshape array of size N into shape (h,w)". */
  datatype ShapeError = CannotReshape(size: nat, height: nat, width: nat)

  /** The rows of a flat sequence of exactly `h * w` samples. */
  function Rows<T>(data: seq<T>, h: nat, w: nat): (g: seq<seq<T>>)
    requires |data| == h * w
    ensures IsRect(g, h, w)
    decreases h
  {
    if h == 0 then []
    else
      MulSucc(h - 1, w);
      [data[..w]] + Rows(data[w..], h - 1, w)
  }

  /** Cell `(r, c)` of the rows is the sample at flat index `r * w + c`. */
  lemma {:induction false} RowsCell<T>(data: seq<T>, h: nat, w: nat, r: nat, c: nat)
    requires |data| == h * w && r < h && c < w
    ensures 0 <= r * w + c < |data| && Rows(data, h, w)[r][c] == data[r * w + c]
    decreases r
  {
    RowOffset(r, h, w);
    MulSucc(h - 1, w);
    if r > 0 {
      RowsCell(data[w..], h - 1, w, r - 1, c);
      MulSucc(r - 1, w);
      assert Rows(data, h, w)[r] == Rows(data[w..], h - 1, w)[r - 1];
    }
  }

  /** `reshape((h, w))`: succeeds exactly when the size matches, and then the
      cell at row `r`, column `c` is the sample at flat index `r * w + c`. */
  function Reshape<T>(data: seq<T>, h: nat, w: nat): (res: Result<seq<seq<T>>, ShapeError>)
    ensures res.Ok? <==> |data| == h * w
    ensures res.Ok? ==> IsRect(res.value, h, w)
    ensures res.Ok? ==> forall r: nat, c: nat :: r < h && c < w ==> CellAt(res.value, data, w, r, c)
    ensures res.Err? ==> res.error == CannotReshape(|data|, h, w)
  {
    if |data| != h * w then Err(CannotReshape(|data|, h, w))
    else
      assert forall r: nat, c: nat :: r < h && c < w ==> CellAt(Rows(data, h, w), data, w, r, c) by {
        forall r: nat, c: nat | r < h && c < w
          ensures CellAt(Rows(data, h, w), data, w, r, c)
        {
          RowsCell(data, h, w, r, c);
        }
      }
      Ok(Rows(data, h, w))
  }

  /** Flattening the reshaped rows gives back the flat sequence. */
  lemma {:induction false} FlattenRows<T>(data: seq<T>, h: nat, w: nat)
    requires |data| == h * w
    ensures Flatten(Rows(data, h, w)) == data
    decreases h
  {
    if h > 0 {
      MulSucc(h - 1, w);
      FlattenRows(data[w..], h - 1, w);
      var g := Rows(data, h, w);
      assert g[0] == data[..w] && g[1..] == Rows(data[w..], h - 1, w);
      assert data[..w] + data[w..] == data;
    }
  }

  /** Reshaping a flattened grid gives back the grid. */
  lemma {:induction false} RowsOfFlatten<T>(g: seq<seq<T>>, h: nat, w: nat)
    requires IsRect(g, h, w)
    ensures |Flatten(g)| == h * w
    ensures Rows(Flatten(g), h, w) == g
    decreases h
  {
    FlattenLength(g, h, w);
    if h > 0 {
      var d := Flatten(g);
      assert IsRect(g[1..], h - 1, w);
      RowsOfFlatten(g[1..], h - 1, w);
      MulSucc(h - 1, w);
      assert d[..w] == g[0] && d[w..] == Flatten(g[1..]);
      assert g == [g[0]] + g[1..];
    }
  }

  /** `reshape` is inverse to `flatten` on grids of the right shape. */
  lemma ReshapeFlatten<T>(g: seq<seq<T>>, h: nat, w: nat)
    requires IsRect(g, h, w)
    ensures Reshape(Flatten(g), h, w) == Ok(g)
  {
    RowsOfFlatten(g, h, w);
  }

  /** `flatten` is inverse to a successful `reshape`. */
  lemma FlattenReshape<T>(data: seq<T>, h: nat, w: nat)
    requires Reshape(data, h, w).Ok?
    ensures Flatten(Reshape(data, h, w).value) == data
  {
    FlattenRows(data, h, w);
  }

  /** Values 0, 1, 2, 3 reshaped to 2 x 2 fill the first row, then the second. */
  lemma ReshapeRowMajorExample()
    ensures Reshape([0, 1, 2, 3], 2, 2) == Ok([[0, 1], [2, 3]])
  {
    var d := [0, 1, 2, 3];
    var res := Reshape(d, 2, 2);
    assert res.Ok?;
    var g := res.value;
    assert CellAt(g, d, 2, 0, 0) && CellAt(g, d, 2, 0, 1);
    assert CellAt(g, d, 2, 1, 0) && CellAt(g, d, 2, 1, 1);
    assert g[0] == [0, 1] && g[1] == [2, 3];
    assert g == [[0, 1], [2, 3]];
  }
}
