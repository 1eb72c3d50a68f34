/** Square-grid layout of `convert_apk_to_image`: the side is the ceiling of
    the square root of the byte count, and byte i lands at row i / side,
    column i % side of each of the three channels of a zero-filled array. */
module GridLayout {

  /** A three-dimensional numeric array, outermost axis first. */
  type Array3 = seq<seq<seq<int>>>

  /** `convert_apk_to_image` replicates every byte into this many channels (RGB). */
  const Channels: nat := 3

  /** `a` has shape (d0, d1, d2). */
  predicate HasShape(a: Array3, d0: nat, d1: nat, d2: nat) {
    && |a| == d0
    && (forall x :: 0 <= x < d0 ==> |a[x]| == d1)
    && (forall x, y :: 0 <= x < d0 && 0 <= y < d1 ==> |a[x][y]| == d2)
  }

  /** `np.zeros((d0, d1, d2))`. */
  function Zeros(d0: nat, d1: nat, d2: nat): (z: Array3)
    ensures HasShape(z, d0, d1, d2)
    ensures forall x, y, w :: 0 <= x < d0 && 0 <= y < d1 && 0 <= w < d2 ==> z[x][y][w] == 0
  {
    seq(d0, _ => seq(d1, _ => seq(d2, _ => 0)))
  }

  /** Finds the exact ceiling square root of n, searching upwards from k. */
  function SearchSide(n: nat, k: nat): (s: nat)
    requires k == 0 || (k - 1) * (k - 1) < n
    ensures s * s >= n
    ensures s == 0 || (s - 1) * (s - 1) < n
    decreases n - k
  {
    if k * k >= n then k
    else
      assert k <= k * k by {
        if k > 0 { MulMono(1, k, k); }
      }
      SearchSide(n, k + 1)
  }

  /** `math.ceil(math.sqrt(n))`, computed exactly over the integers: the
      least side whose square holds n cells. */
  function CeilSqrt(n: nat): (s: nat)
    ensures s * s >= n
    ensures s == 0 || (s - 1) * (s - 1) < n
  {
    SearchSide(n, 0)
  }

  lemma MulMono(a: nat, b: nat, c: nat)
    requires a <= b
    ensures a * c <= b * c
  {
  }

  lemma SquareMono(a: nat, b: nat)
    requires a <= b
    ensures a * a <= b * b
  {
    MulMono(a, b, a);
    MulMono(a, b, b);
  }

  /** No smaller side suffices: every side whose square holds n cells is at
      least CeilSqrt(n). */
  lemma CeilSqrtLeast(n: nat, m: nat)
    requires m * m >= n
    ensures CeilSqrt(n) <= m
  {
    var s := CeilSqrt(n);
    if s > m {
      SquareMono(m, s - 1);
      assert false;
    }
  }

  /** A perfect-square count gets exactly its root as side. */
  lemma CeilSqrtOfSquare(k: nat)
    ensures CeilSqrt(k * k) == k
  {
    var s := CeilSqrt(k * k);
    CeilSqrtLeast(k * k, k);
    if s < k {
      SquareMono(s + 1, k);
      assert false;
    }
  }

  /** Row-major coordinates: index i of an n-wide grid sits at row i / n,
      column i % n, both inside an n x n grid when i < n * n. */
  lemma PlacementInBounds(i: nat, n: nat)
    requires i < n * n
    ensures n > 0
    ensures 0 <= i / n < n && 0 <= i % n < n
    ensures (i / n) * n + i % n == i
  {
    if i / n >= n {
      MulMono(n, i / n, n);
      assert false;
    }
  }

  /** Euclidean division is unique: x = q * n + m with 0 <= m < n fixes
      both the quotient and the remainder. */
  lemma DivModUnique(x: int, n: int, q: int, m: int)
    requires n > 0 && 0 <= m < n && x == q * n + m
    ensures x / n == q && x % n == m
  {
    var q', m' := x / n, x % n;
    assert x == q' * n + m';
    if q' > q {
      MulMono(1, q' - q, n);
      assert false;
    } else if q' < q {
      MulMono(1, q - q', n);
      assert false;
    }
  }

  /** Row and column determine the flat index and vice versa. */
  lemma PlacementInverse(r: nat, c: nat, n: nat)
    requires c < n
    ensures (r * n + c) / n == r && (r * n + c) % n == c
  {
    DivModUnique(r * n + c, n, r, c);
  }

  /** Distinct bytes go to distinct cells, so no byte overwrites another. */
  lemma PlacementInjective(i: nat, j: nat, n: nat)
    requires i < n * n && j < n * n && i != j
    ensures (i / n, i % n) != (j / n, j % n)
  {
    PlacementInBounds(i, n);
    PlacementInBounds(j, n);
  }

  /** The flat index of any cell of an n x n grid is below n * n. */
  lemma CellIndexBound(r: nat, c: nat, n: nat)
    requires r < n && c < n
    ensures r * n + c < n * n
  {
    MulMono(r, n - 1, n);
  }

  /** The side of the grid `convert_apk_to_image` builds for these bytes. */
  function Side(pixels: seq<int>): nat {
    CeilSqrt(|pixels|)
  }

  /** The value `convert_apk_to_image` leaves at (row, col) of every channel: the byte
      with that row-major index, or the zero fill past the last byte. */
  function Cell(pixels: seq<int>, n: nat, r: nat, c: nat): int {
    if r * n + c < |pixels| then pixels[r * n + c] else 0
  }

  /** `g` is the grid `convert_apk_to_image` builds from `pixels`. */
  predicate IsGridOf(g: Array3, pixels: seq<int>) {
    && HasShape(g, Channels, Side(pixels), Side(pixels))
    && forall ch, r, c {:trigger g[ch][r][c]} ::
         0 <= ch < Channels && 0 <= r < Side(pixels) && 0 <= c < Side(pixels) ==>
           g[ch][r][c] == Cell(pixels, Side(pixels), r, c)
  }

  /** The fill loop runs `min(count, N * N)` times, and that is always the
      whole count: no byte is truncated. */
  lemma FillBoundIsCount(count: nat)
    ensures (if count < CeilSqrt(count) * CeilSqrt(count) then count
             else CeilSqrt(count) * CeilSqrt(count)) == count
  {
  }

  /** One assignment `g[ch, r, c] = v`; every other cell is unchanged. */
  function Write(g: Array3, d0: nat, d1: nat, d2: nat, ch: nat, r: nat, c: nat, v: int): (g': Array3)
    requires HasShape(g, d0, d1, d2) && ch < d0 && r < d1 && c < d2
    ensures HasShape(g', d0, d1, d2)
    ensures g'[ch][r][c] == v
    ensures forall x, y, w :: 0 <= x < d0 && 0 <= y < d1 && 0 <= w < d2 && (x, y, w) != (ch, r, c) ==>
              g'[x][y][w] == g[x][y][w]
  {
    g[ch := g[ch][r := g[ch][r][c := v]]]
  }

  /** Writes one byte into the same cell of all three channels. */
  function WriteGray(g: Array3, n: nat, r: nat, c: nat, v: int): (g': Array3)
    requires HasShape(g, Channels, n, n) && r < n && c < n
    ensures HasShape(g', Channels, n, n)
    ensures forall ch :: 0 <= ch < Channels ==> g'[ch][r][c] == v
    ensures forall x, y, w :: 0 <= x < Channels && 0 <= y < n && 0 <= w < n && (y, w) != (r, c) ==>
              g'[x][y][w] == g[x][y][w]
  {
    var g0 := Write(g, Channels, n, n, 0, r, c, v);
    var g1 := Write(g0, Channels, n, n, 1, r, c, v);
    Write(g1, Channels, n, n, 2, r, c, v)
  }

  /** One pass of the fill loop: after writing byte i to (i / N, i % N) of
      every channel, the array is the grid of the first i + 1 bytes. */
  lemma FillStep(g: Array3, pixels: seq<int>, n: nat, i: nat, row: nat, col: nat)
    requires i < |pixels| && row < n && col < n && row * n + col == i
    requires HasShape(g, Channels, n, n)
    requires forall ch, r, c {:trigger g[ch][r][c]} :: 0 <= ch < Channels && 0 <= r < n && 0 <= c < n ==>
               g[ch][r][c] == Cell(pixels[..i], n, r, c)
    ensures var g' := WriteGray(g, n, row, col, pixels[i]);
      forall ch, r, c {:trigger g'[ch][r][c]} :: 0 <= ch < Channels && 0 <= r < n && 0 <= c < n ==>
        g'[ch][r][c] == Cell(pixels[..i + 1], n, r, c)
  {
    var g' := WriteGray(g, n, row, col, pixels[i]);
    forall ch, r, c | 0 <= ch < Channels && 0 <= r < n && 0 <= c < n
      ensures g'[ch][r][c] == Cell(pixels[..i + 1], n, r, c)
    {
      if (r, c) != (row, col) {
        if r * n + c == i {
          PlacementInverse(r, c, n);
          PlacementInverse(row, col, n);
          assert false;
        }
      }
    }
  }

  /** The fill of `convert_apk_to_image`: allocate a zero 3 x N x N array and, for i below
      `min(count, N * N)`, copy byte i to row i // N, column i % N of every
      channel. */
  method FillGrid(pixels: seq<int>) returns (g: Array3)
    ensures IsGridOf(g, pixels)
  {
    var n := CeilSqrt(|pixels|);
    g := Zeros(Channels, n, n);
    var bound := if |pixels| < n * n then |pixels| else n * n;
    var i := 0;
    while i < bound
      invariant 0 <= i <= bound <= |pixels|
      invariant bound <= n * n
      invariant HasShape(g, Channels, n, n)
      invariant forall ch, r, c {:trigger g[ch][r][c]} :: 0 <= ch < Channels && 0 <= r < n && 0 <= c < n ==>
                  g[ch][r][c] == Cell(pixels[..i], n, r, c)
    {
      PlacementInBounds(i, n);
      var row := i / n;
      var col := i % n;
      FillStep(g, pixels, n, i, row, col);
      g := WriteGray(g, n, row, col, pixels[i]);
      i := i + 1;
    }
    FillBoundIsCount(|pixels|);
    assert pixels[..i] == pixels;
  }

  /** Byte i sits at (i / N, i % N) of every channel. */
  lemma PixelPlaced(g: Array3, pixels: seq<int>, i: nat)
    requires IsGridOf(g, pixels) && i < |pixels|
    ensures var n := Side(pixels);
      i / n < n && i % n < n &&
      forall ch :: 0 <= ch < Channels ==> g[ch][i / n][i % n] == pixels[i]
  {
    PlacementInBounds(i, Side(pixels));
  }

  /** Every cell whose flat index is past the last byte holds zero. */
  lemma PaddingIsZero(g: Array3, pixels: seq<int>, ch: nat, r: nat, c: nat)
    requires IsGridOf(g, pixels)
    requires ch < Channels && r < Side(pixels) && c < Side(pixels)
    requires r * Side(pixels) + c >= |pixels|
    ensures g[ch][r][c] == 0
  {
  }

  /** A perfect-square count leaves no padding: every cell holds a byte. */
  lemma NoPaddingForSquare(g: Array3, pixels: seq<int>, k: nat)
    requires IsGridOf(g, pixels) && |pixels| == k * k
    ensures Side(pixels) == k
    ensures forall ch, r, c :: 0 <= ch < Channels && 0 <= r < k && 0 <= c < k ==>
              r * k + c < |pixels| && g[ch][r][c] == pixels[r * k + c]
  {
    CeilSqrtOfSquare(k);
    forall ch, r, c | 0 <= ch < Channels && 0 <= r < k && 0 <= c < k
      ensures r * k + c < |pixels| && g[ch][r][c] == pixels[r * k + c]
    {
      CellIndexBound(r, c, k);
    }
  }

  /** The three channels agree at every cell: the byte is replicated to RGB. */
  lemma ChannelsAgree(g: Array3, pixels: seq<int>, r: nat, c: nat)
    requires IsGridOf(g, pixels) && r < Side(pixels) && c < Side(pixels)
    ensures g[0][r][c] == g[1][r][c] == g[2][r][c]
  {
  }

  /** Row-major flattening of a two-dimensional array. */
  function Flatten(rows: seq<seq<int>>): (flat: seq<int>)
  {
    if |rows| == 0 then [] else rows[0] + Flatten(rows[1..])
  }

  lemma {:induction false} FlattenIndex(rows: seq<seq<int>>, n: nat, r: nat, c: nat)
    requires forall y :: 0 <= y < |rows| ==> |rows[y]| == n
    requires r < |rows| && c < n
    ensures |Flatten(rows)| == |rows| * n
    ensures r * n + c < |Flatten(rows)|
    ensures Flatten(rows)[r * n + c] == rows[r][c]
  {
    FlattenLength(rows, n);
    MulMono(r, |rows| - 1, n);
    if r > 0 {
      FlattenIndex(rows[1..], n, r - 1, c);
      assert r * n + c == n + ((r - 1) * n + c);
    }
  }

  lemma {:induction false} FlattenLength(rows: seq<seq<int>>, n: nat)
    requires forall y :: 0 <= y < |rows| ==> |rows[y]| == n
    ensures |Flatten(rows)| == |rows| * n
  {
    if |rows| > 0 {
      FlattenLength(rows[1..], n);
    }
  }

  /** Reading any one channel back in row-major order gives the bytes, in
      order, followed by N * N - count zeros. */
  lemma GridFlattensToPixels(g: Array3, pixels: seq<int>, ch: nat)
    requires IsGridOf(g, pixels) && ch < Channels
    ensures var n := Side(pixels);
      Flatten(g[ch]) == pixels + seq(n * n - |pixels|, _ => 0)
  {
    var n := Side(pixels);
    var flat := Flatten(g[ch]);
    var want := pixels + seq(n * n - |pixels|, _ => 0);
    FlattenLength(g[ch], n);
    assert |flat| == |want|;
    forall i | 0 <= i < |flat|
      ensures flat[i] == want[i]
    {
      PlacementInBounds(i, n);
      FlattenIndex(g[ch], n, i / n, i % n);
    }
  }
}
