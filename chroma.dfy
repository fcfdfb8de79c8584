/**
 * The chroma filter `remove_color`: coloured pixels (the jinx icons printed
 * over the name column) become white, every other pixel becomes its
 * grayscale value.
 *
 * The channels are numpy `uint8` arrays, so `image[:, :, 0] - image[:, :, 1]`
 * wraps modulo 256 and `numpy.abs` of an unsigned value changes nothing: the
 * mask compares WRAPPED differences with the threshold. `NonGrey` models
 * that; `NonGreyIntended` is the absolute-difference test the comments
 * describe.
 */
module Chroma {

  type Byte = x: int | 0 <= x < 256

  /** One pixel in OpenCV's channel order: channel 0, 1 and 2 are blue, green and red. */
  datatype Pixel = Pixel(blue: Byte, green: Byte, red: Byte)

  const DefaultThreshold: int := 30

  /** `x - y` on `uint8`: the difference modulo 256. */
  function WrappedDiff(x: Byte, y: Byte): (d: Byte)
    ensures x >= y ==> d == x - y
    ensures x < y ==> d == 256 - (y - x)
  {
    (x - y) % 256
  }

  /** `non_grey_mask` at one pixel, as the code computes it. */
  predicate NonGrey(p: Pixel, threshold: int) {
    || WrappedDiff(p.blue, p.green) > threshold
    || WrappedDiff(p.blue, p.red) > threshold
    || WrappedDiff(p.green, p.red) > threshold
  }

  /**
   * `remove_color(image, threshold)`. The grayscale conversion
   * (`cv2.cvtColor(image, cv2.COLOR_BGR2GRAY)`) is the per-pixel function
   * `gray`; the mask assignment `gray_image[non_grey_mask] = 255` is the
   * loop of `Whiten`.
   */
  method RemoveColor(image: array2<Pixel>, threshold: int, gray: Pixel -> Byte) returns (out: array2<Byte>)
    ensures fresh(out)
    ensures out.Length0 == image.Length0 && out.Length1 == image.Length1
    ensures forall y, x :: 0 <= y < image.Length0 && 0 <= x < image.Length1 ==>
      if NonGrey(image[y, x], threshold) then out[y, x] == 255 else out[y, x] == gray(image[y, x])
  {
    out := Whiten(image, p => NonGrey(p, threshold), gray);
  }

  /** `remove_color` with the intended mask: white exactly where the channel spread exceeds the threshold. */
  method RemoveColorIntended(image: array2<Pixel>, threshold: int, gray: Pixel -> Byte) returns (out: array2<Byte>)
    ensures fresh(out)
    ensures out.Length0 == image.Length0 && out.Length1 == image.Length1
    ensures forall y, x :: 0 <= y < image.Length0 && 0 <= x < image.Length1 ==>
      out[y, x] == FilteredPixelIntended(image[y, x], threshold, gray)
  {
    out := Whiten(image, p => NonGreyIntended(p, threshold), gray);
  }

  /** The grey image of `image` with every pixel that `mask` selects set to white. */
  method Whiten(image: array2<Pixel>, mask: Pixel -> bool, gray: Pixel -> Byte) returns (out: array2<Byte>)
    ensures fresh(out)
    ensures out.Length0 == image.Length0 && out.Length1 == image.Length1
    ensures forall y, x :: 0 <= y < image.Length0 && 0 <= x < image.Length1 ==>
      out[y, x] == if mask(image[y, x]) then 255 else gray(image[y, x])
  {
    out := new Byte[image.Length0, image.Length1]((y, x) reads image =>
      if 0 <= y < image.Length0 && 0 <= x < image.Length1 then gray(image[y, x]) else 0);
    var y := 0;
    while y < image.Length0
      invariant 0 <= y <= image.Length0
      invariant forall y', x' :: 0 <= y' < image.Length0 && 0 <= x' < image.Length1 ==>
        out[y', x'] == if y' < y && mask(image[y', x']) then 255 else gray(image[y', x'])
    {
      var x := 0;
      while x < image.Length1
        invariant 0 <= x <= image.Length1
        invariant forall y', x' :: 0 <= y' < image.Length0 && 0 <= x' < image.Length1 ==>
          out[y', x'] == if (y' < y || (y' == y && x' < x)) && mask(image[y', x']) then 255
                         else gray(image[y', x'])
      {
        if mask(image[y, x]) {
          out[y, x] := 255;
        }
        x := x + 1;
      }
      y := y + 1;
    }
  }

  /** For a threshold in the byte range, when a wrapped difference exceeds it. */
  lemma WrappedDiffExceeds(x: Byte, y: Byte, threshold: int)
    requires 0 <= threshold < 256
    ensures WrappedDiff(x, y) > threshold <==> x - y > threshold || (x < y && y - x < 256 - threshold)
  {
  }

  /** A near-grey pixel, channels 100/101/101, is masked out by the code as written. */
  lemma WrapMasksNearGreyPixel()
    ensures NonGrey(Pixel(100, 101, 101), DefaultThreshold)
    ensures !NonGreyIntended(Pixel(100, 101, 101), DefaultThreshold)
  {
  }

  /** A strongly coloured pixel, channels 0/250/250, is kept by the code as written. */
  lemma WrapKeepsColouredPixel()
    ensures !NonGrey(Pixel(0, 250, 250), DefaultThreshold)
    ensures NonGreyIntended(Pixel(0, 250, 250), DefaultThreshold)
  {
  }

  function AbsDiff(x: Byte, y: Byte): Byte {
    if x >= y then x - y else y - x
  }

  /** The test the code's comments describe: some channel pair differs by more than the threshold. */
  predicate NonGreyIntended(p: Pixel, threshold: int) {
    || AbsDiff(p.blue, p.green) > threshold
    || AbsDiff(p.blue, p.red) > threshold
    || AbsDiff(p.green, p.red) > threshold
  }

  function MaxChannel(p: Pixel): Byte {
    if p.blue >= p.green && p.blue >= p.red then p.blue
    else if p.green >= p.red then p.green else p.red
  }

  function MinChannel(p: Pixel): Byte {
    if p.blue <= p.green && p.blue <= p.red then p.blue
    else if p.green <= p.red then p.green else p.red
  }

  /**
   * The intended mask depends only on the pixel's colour spread, the gap
   * between its largest and smallest channel, and so not on channel order.
   */
  lemma IntendedMaskIsChannelSpread(p: Pixel, threshold: int)
    ensures NonGreyIntended(p, threshold) <==> MaxChannel(p) - MinChannel(p) > threshold
    ensures NonGreyIntended(p, threshold) <==> NonGreyIntended(Pixel(p.red, p.blue, p.green), threshold)
    ensures NonGreyIntended(p, threshold) <==> NonGreyIntended(Pixel(p.green, p.blue, p.red), threshold)
  {
  }

  /** The per-pixel rule with the intended mask: grey pixels keep their gray value, coloured ones go white. */
  function FilteredPixelIntended(p: Pixel, threshold: int, gray: Pixel -> Byte): (v: Byte)
    ensures MaxChannel(p) - MinChannel(p) > threshold ==> v == 255
    ensures MaxChannel(p) - MinChannel(p) <= threshold ==> v == gray(p)
  {
    IntendedMaskIsChannelSpread(p, threshold);
    if NonGreyIntended(p, threshold) then 255 else gray(p)
  }
}
