/** The integer front half of `convert_apk_to_image`, composed: extract the
    bytes through the hex text, lay them out on the square three-channel
    grid, and reorder the axes to channel-last. */
module Convert {
  import opened HexBytes
  import opened GridLayout
  import opened ChannelOrder

  /** `image` is the N x N x 3 channel-last array for `data`: pixel (r, c)
      is the grey triple of byte r * N + c, or of zero past the last byte. */
  predicate IsImageOf(image: Array3, data: seq<int>, side: nat) {
    && HasShape(image, side, side, Channels)
    && forall r, c, ch {:trigger image[r][c][ch]} ::
         0 <= r < side && 0 <= c < side && 0 <= ch < Channels ==>
           image[r][c][ch] == if r * side + c < |data| then data[r * side + c] else 0
  }

  /** Runs the three stages on the file's content. */
  method ConvertCore(data: seq<byte>) returns (side: nat, image: Array3)
    ensures side * side >= |data|
    ensures side == 0 || (side - 1) * (side - 1) < |data|
    ensures IsImageOf(image, data, side)
  {
    var pixels := ExtractPixels(data);
    var grid := FillGrid(pixels);
    side := CeilSqrt(|pixels|);
    image := ToChannelLast(grid, Channels, side, side);
    forall r, c, ch | 0 <= r < side && 0 <= c < side && 0 <= ch < Channels
      ensures image[r][c][ch] == if r * side + c < |data| then data[r * side + c] else 0
    {
      assert image[r][c][ch] == grid[ch][r][c];
    }
  }

  /** Every byte of the file reaches the image, at row i / N, column i % N,
      in all three channels. */
  lemma EveryByteInImage(image: Array3, data: seq<int>, side: nat, i: nat, ch: nat)
    requires side * side >= |data| && IsImageOf(image, data, side)
    requires i < |data| && ch < Channels
    ensures i / side < side && i % side < side
    ensures image[i / side][i % side][ch] == data[i]
  {
    PlacementInBounds(i, side);
  }
}
