/** Pixels, pixel grids and the row-major index arithmetic shared by both
    image transforms. A grid is a two-dimensional array indexed
    [row, column], so Length0 is the height and Length1 the width. */
module Pixels {

  /** One 8-bit colour channel. */
  newtype Byte = x: int | 0 <= x < 256

  /** An RGB pixel, as PIL's 'RGB' mode and a (height, width, 3) numpy array hold it. */
  datatype Pixel = Pixel(r: Byte, g: Byte, b: Byte)

  /** The background of a freshly created 'RGB' image. */
  const Black: Pixel := Pixel(0, 0, 0)

  /** The exceptions the transforms can raise. */
  datatype Error = IndexError | ZeroDivisionError

  datatype Result<T> = Ok(value: T) | Err(error: Error)

  /** Multiplication by a natural number is monotonic. */
  lemma MulMonotonic(a: int, b: int, c: nat)
    requires a <= b
    ensures a * c <= b * c
  {
  }

  /** divmod(k, width), the way both cipher loops turn a linear index back
      into (row, column), stays inside a height x width grid. */
  lemma DivModInGrid(k: int, height: nat, width: int)
    requires 0 <= k < height * width
    ensures width > 0
    ensures 0 <= k / width < height && 0 <= k % width < width
  {
  }

  /** The row-major index i * width + j is undone by divmod. */
  lemma LinearDivMod(i: int, j: int, width: int)
    requires 0 <= j < width
    ensures (i * width + j) / width == i && (i * width + j) % width == j
  {
    var k := i * width + j;
    var q, r := k / width, k % width;
    assert k == q * width + r;
    assert (q - i) * width == j - r;
    if q > i {
      MulMonotonic(1, q - i, width);
      assert false;
    } else if q < i {
      MulMonotonic(1, i - q, width);
      assert false;
    }
  }

  /** Distinct linear indices give distinct cells. */
  lemma DivModInjective(a: int, b: int, width: int)
    requires width > 0 && a != b
    ensures a / width != b / width || a % width != b % width
  {
  }

  /** Row-major index of (i, j) is inside the grid. */
  lemma LinearInGrid(i: int, j: int, height: int, width: int)
    requires 0 <= i < height && 0 <= j < width
    ensures 0 <= i * width + j < height * width
  {
    MulMonotonic(0, i, width);
    MulMonotonic(i, height - 1, width);
    assert (height - 1) * width == height * width - width;
  }

  /** The pixel at row-major linear index k. */
  function At(a: array2<Pixel>, k: int): Pixel
    reads a
    requires 0 <= k < a.Length0 * a.Length1
  {
    DivModInGrid(k, a.Length0, a.Length1);
    a[k / a.Length1, k % a.Length1]
  }

  /** All pixels of a grid in row-major order. */
  ghost function Cells(a: array2<Pixel>): (s: seq<Pixel>)
    reads a
    ensures |s| == a.Length0 * a.Length1
    ensures forall k :: 0 <= k < |s| ==> s[k] == At(a, k)
  {
    seq(a.Length0 * a.Length1, k requires 0 <= k < a.Length0 * a.Length1 reads a => At(a, k))
  }

  /** Two grids of one shape hold the same pixel everywhere exactly when
      their row-major cell sequences are equal. */
  lemma SameCells(a: array2<Pixel>, b: array2<Pixel>)
    requires a.Length0 == b.Length0 && a.Length1 == b.Length1
    ensures Cells(a) == Cells(b) <==>
              forall i, j :: 0 <= i < a.Length0 && 0 <= j < a.Length1 ==> a[i, j] == b[i, j]
  {
    var h, w := a.Length0, a.Length1;
    if Cells(a) == Cells(b) {
      forall i, j | 0 <= i < h && 0 <= j < w ensures a[i, j] == b[i, j] {
        LinearInGrid(i, j, h, w);
        LinearDivMod(i, j, w);
        assert At(a, i * w + j) == Cells(a)[i * w + j];
      }
    }
    if forall i, j :: 0 <= i < h && 0 <= j < w ==> a[i, j] == b[i, j] {
      forall k | 0 <= k < h * w ensures Cells(a)[k] == Cells(b)[k] {
        DivModInGrid(k, h, w);
      }
    }
  }

  /** A grid as a value: its rows, each a sequence of pixels. */
  type Grid = seq<seq<Pixel>>

  /** The rows of a grid, top to bottom. */
  ghost function Rows(a: array2<Pixel>): (g: Grid)
    reads a
    ensures |g| == a.Length0
    ensures forall i :: 0 <= i < a.Length0 ==> |g[i]| == a.Length1
    ensures forall i, j :: 0 <= i < a.Length0 && 0 <= j < a.Length1 ==> g[i][j] == a[i, j]
  {
    seq(a.Length0, i requires 0 <= i < a.Length0 reads a =>
      seq(a.Length1, j requires 0 <= j < a.Length1 reads a => a[i, j]))
  }
}
