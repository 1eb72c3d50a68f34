/** Byte extraction of `convert_apk_to_image`: the file content is rendered
    with Python's `bytes.hex()`, then read back two characters at a time with
    `int(chunk, 16)`; a chunk that raises `ValueError` is skipped. */
module HexBytes {
  import opened Wrappers

  /** An unsigned 8-bit value as read from the file. */
  type byte = x: int | 0 <= x < 256

  /** The character `bytes.hex()` writes for a nibble: `0`-`9`, then `a`-`f`. */
  function HexDigit(d: int): (c: char)
    requires 0 <= d < 16
    ensures IsLowerHexDigit(c)
    ensures DigitValue(c) == Some(d)
  {
    if d < 10 then ('0' as int + d) as char else ('a' as int + (d - 10)) as char
  }

  predicate IsLowerHexDigit(c: char) {
    '0' <= c <= '9' || 'a' <= c <= 'f'
  }

  /** The value `int(_, 16)` gives one ASCII digit, in either case; None for
      any other character. */
  function DigitValue(c: char): (r: Option<int>)
    ensures r.Some? <==> ('0' <= c <= '9' || 'a' <= c <= 'f' || 'A' <= c <= 'F')
    ensures r.Some? ==> 0 <= r.value < 16
  {
    if '0' <= c <= '9' then Some(c as int - '0' as int)
    else if 'a' <= c <= 'f' then Some(c as int - 'a' as int + 10)
    else if 'A' <= c <= 'F' then Some(c as int - 'A' as int + 10)
    else None
  }

  function Pow16(k: nat): (r: nat)
    ensures r >= 1
  {
    if k == 0 then 1 else 16 * Pow16(k - 1)
  }

  /** `int(s, 16)` on a string of ASCII hex digits, most significant first.
      The empty string and any string holding a non-digit fail, as the
      `ValueError` Python raises for them. */
  function ParseBase16(s: string): (r: Option<int>)
    ensures r.Some? <==> |s| > 0 && forall i :: 0 <= i < |s| ==> DigitValue(s[i]).Some?
    ensures r.Some? ==> 0 <= r.value < Pow16(|s|)
    decreases |s|
  {
    if |s| == 0 then None
    else
      var last := DigitValue(s[|s| - 1]);
      if last.None? then None
      else if |s| == 1 then last
      else
        match ParseBase16(s[..|s| - 1])
        case None => None
        case Some(hi) => Some(16 * hi + last.value)
  }

  /** The two characters `bytes.hex()` writes for one byte, high nibble first. */
  function ByteHex(b: byte): (s: string)
    ensures |s| == 2 && IsLowerHexDigit(s[0]) && IsLowerHexDigit(s[1])
  {
    [HexDigit(b / 16), HexDigit(b % 16)]
  }

  /** Python's `bytes.hex()`. */
  function ToHex(bs: seq<byte>): (h: string)
    ensures |h| == 2 * |bs|
    ensures forall j :: 0 <= j < |h| ==> IsLowerHexDigit(h[j])
    ensures forall i :: 0 <= i < |bs| ==> h[2 * i..2 * i + 2] == ByteHex(bs[i])
  {
    if |bs| == 0 then [] else ByteHex(bs[0]) + ToHex(bs[1..])
  }

  /** The extraction loop: step through the text two characters at a time
      (the last slice may hold one), parse each slice with the ASCII-only
      base-16 parser and skip a slice that does not parse. On text that
      `bytes.hex()` can write it agrees with the Python loop. */
  function ParsePairs(h: string): (ps: seq<int>)
    ensures |ps| <= (|h| + 1) / 2
    ensures forall k :: 0 <= k < |ps| ==> 0 <= ps[k] < 256
    decreases |h|
  {
    if |h| == 0 then []
    else
      var w := if |h| < 2 then |h| else 2;
      var rest := ParsePairs(h[w..]);
      match ParseBase16(h[..w])
      case Some(v) => [v] + rest
      case None => rest
  }

  /** Text `bytes.hex()` can produce: an even number of lowercase hex digits. */
  predicate IsHexText(h: string) {
    |h| % 2 == 0 && forall j :: 0 <= j < |h| ==> IsLowerHexDigit(h[j])
  }

  /** Each two-character slice of the hex text parses back to its byte. */
  lemma ByteHexParses(b: byte)
    ensures ParseBase16(ByteHex(b)) == Some(b)
  {
    var s := ByteHex(b);
    assert s[..1] == [s[0]];
    assert ParseBase16(s[..1]) == Some(b / 16);
  }

  /** No slice of the hex text reaches the `except ValueError` branch: the
      slice starting at every even offset parses, to the byte it came from. */
  lemma NoSliceSkipped(bs: seq<byte>, i: nat)
    requires i < |ToHex(bs)| && i % 2 == 0
    ensures ParseBase16(ToHex(bs)[i..i + 2]) == Some(bs[i / 2])
  {
    var k := i / 2;
    assert 2 * k == i;
    ByteHexParses(bs[k]);
  }

  /** Hex-encoding the bytes and re-parsing the pairs gives the bytes back:
      same length, same order, same values. */
  lemma {:induction false} HexRoundTrip(bs: seq<byte>)
    ensures ParsePairs(ToHex(bs)) == bs
  {
    if |bs| > 0 {
      var h := ToHex(bs);
      assert h == ByteHex(bs[0]) + ToHex(bs[1..]);
      assert h[..2] == ByteHex(bs[0]);
      assert h[2..] == ToHex(bs[1..]);
      ByteHexParses(bs[0]);
      HexRoundTrip(bs[1..]);
    }
  }

  /** The other direction: any text `bytes.hex()` could have written parses to
      bytes whose hex text is that text again, one byte per pair. */
  lemma {:induction false} HexTextRoundTrip(h: string)
    requires IsHexText(h)
    ensures |ParsePairs(h)| == |h| / 2
    ensures ToHex(ParsePairs(h)) == h
  {
    if |h| > 0 {
      var x, y := h[0], h[1];
      var hi, lo := DigitValue(x).value, DigitValue(y).value;
      assert h[..2] == [x, y];
      assert h[..2][..1] == [x];
      assert ParseBase16(h[..2]) == Some(16 * hi + lo);
      var b: byte := 16 * hi + lo;
      assert b / 16 == hi && b % 16 == lo;
      assert HexDigit(hi) == x && HexDigit(lo) == y;
      assert IsHexText(h[2..]);
      HexTextRoundTrip(h[2..]);
      assert h == ByteHex(b) + h[2..];
    }
  }

  /** The extraction as the Python code writes it: a loop over the hex text whose
      result is exactly the file's bytes. */
  method ExtractPixels(data: seq<byte>) returns (pixels: seq<int>)
    ensures pixels == data
    ensures pixels == ParsePairs(ToHex(data))
  {
    var hex := ToHex(data);
    pixels := [];
    var i := 0;
    while i < |hex|
      invariant 0 <= i <= |hex| && i % 2 == 0
      invariant pixels == data[..i / 2]
    {
      var end := if i + 2 <= |hex| then i + 2 else |hex|;
      var parsed := ParseBase16(hex[i..end]);
      NoSliceSkipped(data, i);
      match parsed {
        case Some(v) =>
          pixels := pixels + [v];
        case None =>
      }
      assert data[..(i + 2) / 2] == data[..i / 2] + [data[i / 2]];
      i := i + 2;
    }
    assert data[..i / 2] == data;
    HexRoundTrip(data);
  }
}
