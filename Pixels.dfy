/**
 * The decoded image and its reduction to one luminance byte per pixel
 * (`Image` and `pixelsToGrayscale` in vidtoascii.c).
 */
module Pixels {

  import Arith

  /** An 8-bit unsigned value (`unsigned char` / `uint8_t`). */
  type uint8 = x: int | 0 <= x < 0x100

  /**
   * The decoder's output: `channels` bytes per pixel, row-major, with R, G, B
   * as the first three channels of every pixel. The core only reads `data`.
   */
  datatype Image = Image(width: nat, height: nat, channels: nat, data: seq<uint8>)
  {
    /**
     * What the conversion relies on: a stride of at least three bytes (R, G, B
     * first) and a buffer holding `width*height` pixels at that stride. The
     * buffer may be longer, as when the decoder returned more channels than
     * the stride the caller states.
     */
    predicate WellFormed() {
      channels >= 3 && width * height * channels <= |data|
    }

    function PixelCount(): nat {
      width * height
    }
  }

  /**
   * Luminance 0.21 R + 0.72 G + 0.07 B rounded to the nearest integer, in
   * integer arithmetic: the weighted sum is kept in hundredths and a half is
   * rounded up, as `round` does for non-negative values.
   */
  function Lum(r: uint8, g: uint8, b: uint8): (y: uint8)
    // y is the weighted sum rounded to nearest (halves upwards)
    ensures 100 * y - 50 <= 21 * r + 72 * g + 7 * b < 100 * y + 50
    // the weights are positive and sum to one: y lies between the darkest and brightest channel
    ensures Min3(r, g, b) <= y <= Max3(r, g, b)
    ensures r == g == b ==> y == r
  {
    (21 * r + 72 * g + 7 * b + 50) / 100
  }

  function Min3(a: int, b: int, c: int): int {
    if a <= b && a <= c then a else if b <= c then b else c
  }

  function Max3(a: int, b: int, c: int): int {
    if a >= b && a >= c then a else if b >= c then b else c
  }

  /** Luminance of pixel `i`: it reads only bytes `i*channels`, `i*channels + 1` and `i*channels + 2`. */
  function PixelLum(data: seq<uint8>, channels: nat, i: nat): uint8
    requires channels >= 3 && (i + 1) * channels <= |data|
  {
    Lum(data[i * channels], data[i * channels + 1], data[i * channels + 2])
  }

  /** The luminance buffer of the first `n` pixels of an interleaved buffer. */
  function Grayscale(data: seq<uint8>, channels: nat, n: nat): (gray: seq<uint8>)
    requires channels >= 3 && n * channels <= |data|
    ensures |gray| == n
  {
    if n == 0 then [] else Grayscale(data, channels, n - 1) + [PixelLum(data, channels, n - 1)]
  }

  /** Output `i` of the conversion is the luminance of input pixel `i`, read at stride `channels`. */
  lemma GrayscaleAt(data: seq<uint8>, channels: nat, n: nat, i: nat)
    requires channels >= 3 && n * channels <= |data| && i < n
    ensures i * channels + 2 < |data|
    ensures Grayscale(data, channels, n)[i] ==
            Lum(data[i * channels], data[i * channels + 1], data[i * channels + 2])
  {
    GrayscalePixel(data, channels, n, i);
    PixelInside(i, channels, |data|);
  }

  lemma {:induction false} GrayscalePixel(data: seq<uint8>, channels: nat, n: nat, i: nat)
    requires channels >= 3 && n * channels <= |data| && i < n
    ensures (i + 1) * channels <= |data|
    ensures Grayscale(data, channels, n)[i] == PixelLum(data, channels, i)
  {
    Stride(i, n, channels);
    if i < n - 1 {
      Arith.MulMono(n - 1, n, channels, channels);
      GrayscalePixel(data, channels, n - 1, i);
    }
  }

  /**
   * Channels past the third (alpha, ...) never reach the output: two buffers that
   * agree on every byte at channel position 0, 1 or 2 have the same luminance buffer.
   */
  lemma ExtraChannelsIgnored(a: seq<uint8>, b: seq<uint8>, channels: nat, n: nat)
    requires channels >= 3 && n * channels <= |a| && n * channels <= |b|
    requires forall j :: 0 <= j < n * channels && j % channels < 3 ==> a[j] == b[j]
    ensures Grayscale(a, channels, n) == Grayscale(b, channels, n)
  {
    forall i | 0 <= i < n
      ensures SameColour(a, b, channels, i)
    {
      ColourBytesAgree(a, b, channels, n, i);
    }
    GrayscaleAgrees(a, b, channels, n);
  }

  /** Pixel `i` has the same R, G and B bytes in `a` and in `b`. */
  predicate SameColour(a: seq<uint8>, b: seq<uint8>, channels: nat, i: nat) {
    (i + 1) * channels <= |a| && (i + 1) * channels <= |b| && channels >= 3 &&
    a[i * channels] == b[i * channels] &&
    a[i * channels + 1] == b[i * channels + 1] &&
    a[i * channels + 2] == b[i * channels + 2]
  }

  lemma ColourBytesAgree(a: seq<uint8>, b: seq<uint8>, channels: nat, n: nat, i: nat)
    requires channels >= 3 && n * channels <= |a| && n * channels <= |b| && i < n
    requires forall j :: 0 <= j < n * channels && j % channels < 3 ==> a[j] == b[j]
    ensures SameColour(a, b, channels, i)
  {
    Stride(i, n, channels);
    ChannelOffset(i, channels, 0);
    ChannelOffset(i, channels, 1);
    ChannelOffset(i, channels, 2);
  }

  lemma {:induction false} GrayscaleAgrees(a: seq<uint8>, b: seq<uint8>, channels: nat, n: nat)
    requires channels >= 3 && n * channels <= |a| && n * channels <= |b|
    requires forall i :: 0 <= i < n ==> SameColour(a, b, channels, i)
    ensures Grayscale(a, channels, n) == Grayscale(b, channels, n)
  {
    if n > 0 {
      Stride(n - 1, n, channels);
      GrayscaleAgrees(a, b, channels, n - 1);
      assert SameColour(a, b, channels, n - 1);
    }
  }

  /** The three colour bytes of a pixel that ends inside a buffer lie inside it. */
  lemma PixelInside(i: nat, channels: nat, size: nat)
    requires channels >= 3 && (i + 1) * channels <= size
    ensures i * channels + 2 < size
  {
    Arith.MulAddLeft(i, 1, channels);
  }

  /** Byte `k` of pixel `i` sits at channel position `k`. */
  lemma ChannelOffset(i: nat, channels: nat, k: nat)
    requires k < channels
    ensures (i * channels + k) % channels == k
  {
    Arith.DivModUnique(i * channels + k, channels, i, k);
  }

  /** Pixel `k` of `n` starts at offset `k*channels`, and its three bytes lie inside the buffer. */
  lemma Stride(k: nat, n: nat, channels: nat)
    requires k < n && channels >= 3
    ensures (k + 1) * channels <= n * channels
    ensures (k * channels) / channels == k
  {
    Arith.MulMono(k + 1, n, channels, channels);
    Arith.DivModUnique(k * channels, channels, k, 0);
  }

  /**
   * `pixelsToGrayscale`: walks the pixel buffer with stride `channels` (the
   * pointer `pixelIndex` of the source is the offset `p` here) and writes the
   * luminance of the pixel at `p` into slot `p / channels`.
   */
  method PixelsToGrayscale(img: Image, gray: array<uint8>)
    requires img.WellFormed()
    requires img.PixelCount() <= gray.Length
    modifies gray
    // exactly the first width*height slots are written, slot i with pixel i's luminance
    ensures gray[..img.PixelCount()] == Grayscale(img.data, img.channels, img.PixelCount())
    ensures gray[img.PixelCount()..] == old(gray[img.PixelCount()..])
  {
    var c := img.channels;
    var n := img.width * img.height;
    var end := img.width * img.height * img.channels;
    assert end == n * c && end <= |img.data|;
    var p := 0;
    ghost var k := 0;
    while p < end
      invariant k <= n && p == k * c
      invariant gray[..k] == Grayscale(img.data, c, k)
      invariant gray[n..] == old(gray[n..])
      decreases end - p
    {
      Arith.MulLessCancel(k, n, c);
      Stride(k, n, c);
      var r := img.data[p];
      var g := img.data[p + 1];
      var b := img.data[p + 2];
      gray[p / c] := Lum(r, g, b);
      assert gray[..k + 1] == gray[..k] + [gray[k]];
      p := p + c;
      k := k + 1;
    }
    Arith.MulLessCancel(n, k + 1, c);
  }
}
