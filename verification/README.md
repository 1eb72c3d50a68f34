# ViT4Mal preprocessing core in Dafny

This project models the integer front half of `convert_apk_to_image` in
`preprocess.py`, the routine that turns an application package into an RGB
image for an image-based classifier. The routine has three
integer stages, and the model covers all three:

1. **Byte extraction.** The file content is rendered as lowercase hex with
   `bytes.hex()`. It is then read back two characters at a time with
   `int(chunk, 16)`, and a chunk that raises `ValueError` is skipped
   (module `HexBytes`, file `hex.dfy`).
2. **Square-grid layout.** The side is `N = ceil(sqrt(count))`. A zero-filled
   `3 x N x N` array is allocated. Byte `i` is copied to row `i // N`,
   column `i % N` of all three channels (module `GridLayout`, file `grid.dfy`).
3. **Channel-last transpose.** `.transpose((1, 2, 0))` turns the
   `(channel, row, col)` array into `(row, col, channel)` (module
   `ChannelOrder`, file `channels.dfy`).

Module `Convert` (file `convert.dfy`) composes the three stages.
`wrappers.dfy` holds the `Option` type that stands for "returns a value or
raises".

Bytes are the subset type `byte` of `int` (0 to 255). Strings are
`seq<char>`. Arrays are nested sequences (`Array3`) with a `HasShape`
predicate. The square root is an exact integer ceiling square root.

Notes on the code as written:
- The hex text is redundant, since it gives the bytes back unchanged. The
  code builds it, so the model does too and proves the round trip.
- An empty file does not raise in lines 17-40: `ceil(sqrt(0))` is 0 and the
  grid is `3 x 0 x 0`. The model gives `CeilSqrt(0) == 0` and an empty grid.
- The comment on `preprocess.py` line 33 says only the first channel is
  filled. Lines 38-40 fill all three, and the model does the same.

## Model

| member | source | states |
|---|---|---|
| HexBytes.HexDigit | preprocess.py:19 | the character written for a nibble is a lowercase hex digit, and it parses back to that nibble |
| HexBytes.DigitValue | preprocess.py:24 | an ASCII character is a base-16 digit exactly when it is 0-9, a-f or A-F, and its value is below 16 |
| HexBytes.ParseBase16 | preprocess.py:22-27 | parsing succeeds exactly when the slice is non-empty and all digits; a k-digit value is below 16^k |
| HexBytes.ByteHex | preprocess.py:19 | each byte becomes exactly two lowercase hex digits |
| HexBytes.ToHex | preprocess.py:19 | the hex text has twice as many characters as there are bytes, all lowercase digits, and pair i spells byte i |
| HexBytes.ParsePairs | preprocess.py:21-27 | with the ASCII-only parser, the loop yields at most one value per two-character step, and every value lies in [0, 255] |
| HexBytes.ByteHexParses | preprocess.py:19-24 | the two digits written for a byte parse back to that byte |
| HexBytes.NoSliceSkipped | preprocess.py:22-27 | the slice at every even offset of the hex text parses, so the ValueError branch never runs |
| HexBytes.HexRoundTrip | preprocess.py:19-25 | re-parsing the hex text pair by pair gives back exactly the file's bytes: same length, order and values |
| HexBytes.HexTextRoundTrip | preprocess.py:19-25 | any even-length lowercase hex text parses to one byte per pair, and those bytes hex-encode back to the same text |
| HexBytes.ExtractPixels | preprocess.py:17-27 | the extraction loop over the hex text returns exactly the file's bytes |
| GridLayout.Zeros | preprocess.py:32 | the allocated array has the requested shape and is zero everywhere |
| GridLayout.CeilSqrt | preprocess.py:30 | the side's square holds every byte, and one less would not |
| GridLayout.CeilSqrtLeast | preprocess.py:30 | every side whose square holds the count is at least the computed side |
| GridLayout.CeilSqrtOfSquare | preprocess.py:30 | a count of k*k bytes gets side exactly k |
| GridLayout.FillBoundIsCount | preprocess.py:35 | the loop bound min(count, N*N) equals the count, so no byte is truncated |
| GridLayout.PlacementInBounds | preprocess.py:35-37 | for i < N*N, row i // N and column i % N are both below N and give back i |
| GridLayout.PlacementInverse | preprocess.py:36-37 | the cell (r, c) with c < N is the one written for flat index r*N + c |
| GridLayout.PlacementInjective | preprocess.py:35-40 | distinct byte indices go to distinct cells, so no byte overwrites another |
| GridLayout.Write | preprocess.py:38 | one element assignment sets its cell and leaves every other cell as it was |
| GridLayout.WriteGray | preprocess.py:38-40 | the three assignments set the cell in every channel and change nothing else |
| GridLayout.FillStep | preprocess.py:35-40 | after one pass of the loop the array is the grid of the bytes placed so far |
| GridLayout.FillGrid | preprocess.py:30-40 | the filled array is 3 x N x N, holds byte r*N + c at (r, c) in every channel, and zero past the last byte |
| GridLayout.PixelPlaced | preprocess.py:35-40 | byte i is found at (i // N, i % N) of every channel |
| GridLayout.PaddingIsZero | preprocess.py:32-40 | every cell whose flat index is at or past the count holds zero |
| GridLayout.NoPaddingForSquare | preprocess.py:30-40 | for a perfect-square count every cell holds a byte, so there is no padding |
| GridLayout.ChannelsAgree | preprocess.py:38-40 | all three channels hold the same value at every cell |
| GridLayout.GridFlattensToPixels | preprocess.py:32-40 | reading any channel in row-major order gives the bytes in order, followed by N*N - count zeros |
| ChannelOrder.ToChannelLast | preprocess.py:49 | the transposed array has shape N x N x 3 and out[r][c][ch] equals in[ch][r][c] |
| ChannelOrder.ToChannelFirst | preprocess.py:49 | the inverse axis permutation has the original shape and reads each element back |
| ChannelOrder.TransposeRoundTrip | preprocess.py:49 | undoing the transpose restores the channel-first array |
| ChannelOrder.TransposeRoundTripBack | preprocess.py:49 | the transpose of the inverse permutation restores the channel-last array |
| ChannelOrder.TransposeCommutesWithElementwise | preprocess.py:47-49 | transposing after an elementwise map equals mapping the transposed array |
| ChannelOrder.ChannelLastPixelsAreGray | preprocess.py:38-49 | every pixel of the channel-last grid is the grey triple of its byte or of zero |
| Convert.ConvertCore | preprocess.py:17-49 | the composed stages give an N x N x 3 array with the least sufficient N, holding byte r*N + c at pixel (r, c) or zero past the end |
| Convert.EveryByteInImage | preprocess.py:35-49 | every byte of the file reaches pixel (i // N, i % N) in all three channels |

## Left out

- Reading the file, `os.makedirs` and building the output name (`preprocess.py` lines 13-17 and 55): I/O. The model takes the file content as a byte sequence.
- Mean and standard-deviation normalisation (lines 43-47): floating point. A constant grid makes the standard deviation zero, so the division yields NaN. The model places the transpose directly after the layout. `TransposeCommutesWithElementwise` shows that this placement gives the same result as transposing after any elementwise step.
- The `astype(np.uint8)` cast on line 49: converting out-of-range floats to 8-bit values depends on the platform. Only the transpose on that line is modelled.
- The PIL bilinear resize to 128 x 128 and the PNG save (lines 52-55): foreign library calls whose algorithm is not part of this model.
- `count_outputs` (lines 58-65): an endless polling loop that prints file counts.
- `process_apks` and the command-line entry point (lines 67-86): file discovery, progress bar and argument parsing.
- HexBytes.ParseBase16: parses only plain ASCII hex digits. Python's `int(s, 16)` also accepts surrounding whitespace, a sign, underscores between digits, a `0x` prefix and non-ASCII digits. `bytes.hex()` never writes any of these, so the extraction never sees them.
- HexBytes.DigitValue: accepts only the ASCII digits 0-9, a-f and A-F. Python's `int(c, 16)` also accepts Unicode decimal digits such as Arabic-Indic ones. `bytes.hex()` never writes them.
- HexBytes.ParsePairs: uses the ASCII-only parser, so its [0, 255] bound and the set of skipped slices hold for that parser, not for `int(s, 16)` on arbitrary text (Python's loop would append -1 for the slice "-1" and 15 for " f"). On the text `bytes.hex()` writes, the two agree.
- GridLayout.CeilSqrt: an exact integer ceiling square root. `math.ceil(math.sqrt(n))` goes through a float and could differ from it only for counts far larger than any file.
