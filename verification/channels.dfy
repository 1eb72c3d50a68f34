/** The `.transpose((1, 2, 0))` of `convert_apk_to_image`: a channel-first
    (channel, row, col) array becomes channel-last (row, col, channel), the
    layout an RGB image expects. */
module ChannelOrder {
  import opened GridLayout

  /** `a.transpose((1, 2, 0))` for `a` of shape (d0, d1, d2). */
  function ToChannelLast(a: Array3, d0: nat, d1: nat, d2: nat): (t: Array3)
    requires HasShape(a, d0, d1, d2)
    ensures HasShape(t, d1, d2, d0)
    ensures forall r, c, ch :: 0 <= r < d1 && 0 <= c < d2 && 0 <= ch < d0 ==> t[r][c][ch] == a[ch][r][c]
  {
    seq(d1, r requires 0 <= r < d1 =>
      seq(d2, c requires 0 <= c < d2 =>
        seq(d0, ch requires 0 <= ch < d0 => a[ch][r][c])))
  }

  /** `t.transpose((2, 0, 1))`, the inverse axis permutation. */
  function ToChannelFirst(t: Array3, d1: nat, d2: nat, d0: nat): (a: Array3)
    requires HasShape(t, d1, d2, d0)
    ensures HasShape(a, d0, d1, d2)
    ensures forall ch, r, c :: 0 <= ch < d0 && 0 <= r < d1 && 0 <= c < d2 ==> a[ch][r][c] == t[r][c][ch]
  {
    seq(d0, ch requires 0 <= ch < d0 =>
      seq(d1, r requires 0 <= r < d1 =>
        seq(d2, c requires 0 <= c < d2 => t[r][c][ch])))
  }

  /** Two arrays of the same shape that agree at every index are equal. */
  lemma ExtensionalEquality(a: Array3, b: Array3, d0: nat, d1: nat, d2: nat)
    requires HasShape(a, d0, d1, d2) && HasShape(b, d0, d1, d2)
    requires forall x, y, w :: 0 <= x < d0 && 0 <= y < d1 && 0 <= w < d2 ==> a[x][y][w] == b[x][y][w]
    ensures a == b
  {
    forall x | 0 <= x < d0
      ensures a[x] == b[x]
    {
      forall y | 0 <= y < d1
        ensures a[x][y] == b[x][y]
      {
      }
    }
  }

  /** The transpose is a pure permutation of indices: nothing is lost, and
      undoing it restores the channel-first array. */
  lemma TransposeRoundTrip(a: Array3, d0: nat, d1: nat, d2: nat)
    requires HasShape(a, d0, d1, d2)
    ensures ToChannelFirst(ToChannelLast(a, d0, d1, d2), d1, d2, d0) == a
  {
    ExtensionalEquality(ToChannelFirst(ToChannelLast(a, d0, d1, d2), d1, d2, d0), a, d0, d1, d2);
  }

  /** And undoing it the other way round restores the channel-last array. */
  lemma TransposeRoundTripBack(t: Array3, d1: nat, d2: nat, d0: nat)
    requires HasShape(t, d1, d2, d0)
    ensures ToChannelLast(ToChannelFirst(t, d1, d2, d0), d0, d1, d2) == t
  {
    ExtensionalEquality(ToChannelLast(ToChannelFirst(t, d1, d2, d0), d0, d1, d2), t, d1, d2, d0);
  }

  /** Applies `f` to every element, as numpy's elementwise arithmetic and
      casts do. */
  function MapElements(f: int -> int, a: Array3, d0: nat, d1: nat, d2: nat): (b: Array3)
    requires HasShape(a, d0, d1, d2)
    ensures HasShape(b, d0, d1, d2)
    ensures forall x, y, w :: 0 <= x < d0 && 0 <= y < d1 && 0 <= w < d2 ==> b[x][y][w] == f(a[x][y][w])
  {
    seq(d0, x requires 0 <= x < d0 =>
      seq(d1, y requires 0 <= y < d1 =>
        seq(d2, w requires 0 <= w < d2 => f(a[x][y][w]))))
  }

  /** The transpose commutes with any elementwise map: transposing after the
      Python code's elementwise normalisation and cast is the same as applying
      them to the transposed grid. */
  lemma TransposeCommutesWithElementwise(f: int -> int, a: Array3, d0: nat, d1: nat, d2: nat)
    requires HasShape(a, d0, d1, d2)
    ensures ToChannelLast(MapElements(f, a, d0, d1, d2), d0, d1, d2)
         == MapElements(f, ToChannelLast(a, d0, d1, d2), d1, d2, d0)
  {
    ExtensionalEquality(
      ToChannelLast(MapElements(f, a, d0, d1, d2), d0, d1, d2),
      MapElements(f, ToChannelLast(a, d0, d1, d2), d1, d2, d0), d1, d2, d0);
  }

  /** In the channel-last grid every pixel is the grey triple (v, v, v),
      where v is the byte at that row-major index or the zero fill. */
  lemma ChannelLastPixelsAreGray(g: Array3, pixels: seq<int>, r: nat, c: nat)
    requires IsGridOf(g, pixels) && r < Side(pixels) && c < Side(pixels)
    ensures var n := Side(pixels);
      var v := Cell(pixels, n, r, c);
      ToChannelLast(g, Channels, n, n)[r][c] == [v, v, v]
  {
  }
}
