/**
 * Image utilities over [W, H, C] images (docs/js/imageutils.js): integer
 * RGB <-> YCoCg conversion, the sliding-window median filter built on
 * `MedianIntBin`, and painting a colour through a mask.
 *
 * An image is an `array3<int>` indexed [x, y, channel]; a mask is the flat
 * data of an ndarray of shape [W, H] (see `Common.Idx`). Fresh outputs are
 * Uint8ClampedArrays, so every value written to them goes through `Clamp8`.
 */
module ImageUtils {
  import opened Common
  import opened MedianBin
  import opened MedianWindow

  // ---------------------------------------------------------------- colour spaces

  /** One pixel from RGB to YCoCg, with right shifts for the halvings. */
  function ToYCoCg(r: int, g: int, b: int): (int, int, int)
  {
    var tmp := Shr(r + b, 2);
    var luma := Shr(g, 1) + tmp;
    var co := 128 + (Shr(r, 1) - Shr(b, 1));
    var cg := 128 + Shr(g, 1) - tmp;
    (luma, co, cg)
  }

  /** One pixel from YCoCg back to RGB, the chroma channels centred on 128. */
  function ToRGB(luma: int, c1: int, c2: int): (int, int, int)
  {
    var co := c1 - 128;
    var cg := c2 - 128;
    (luma - cg + co, luma + cg, luma - cg - co)
  }

  predicate IsByte(v: int)
  {
    0 <= v <= 255
  }

  /** The destinations `convertColorSpace` accepts. */
  predicate KnownSpace(dest: string)
  {
    dest == "YCoCg" || dest == "RGB"
  }

  /** The value of channel `c` of pixel (x, y) after conversion into a fresh image. */
  function Converted(arr: array3<int>, dest: string, x: int, y: int, c: int): int
    requires KnownSpace(dest)
    requires 0 <= x < arr.Length0 && 0 <= y < arr.Length1 && 0 <= c && 3 <= arr.Length2
    reads arr
  {
    if c >= 3 then 255
    else
      var t := if dest == "YCoCg" then ToYCoCg(arr[x, y, 0], arr[x, y, 1], arr[x, y, 2])
               else ToRGB(arr[x, y, 0], arr[x, y, 1], arr[x, y, 2]);
      Clamp8(if c == 0 then t.0 else if c == 1 then t.1 else t.2)
  }

  /**
   * `convertColorSpace(arr, dest)` into a fresh output: channels 0-2 of every
   * pixel converted and clamped, every other channel left at 255; an unknown
   * destination throws.
   */
  method ConvertColorSpace(arr: array3<int>, dest: string) returns (res: Result<array3<int>>)
    requires arr.Length2 >= 3
    ensures res.Ok? <==> KnownSpace(dest)
    ensures res.Ok? ==>
      fresh(res.value) && res.value.Length0 == arr.Length0 && res.value.Length1 == arr.Length1
      && res.value.Length2 == arr.Length2
    ensures res.Ok? ==>
      forall x, y, c :: 0 <= x < arr.Length0 && 0 <= y < arr.Length1 && 0 <= c < arr.Length2 ==>
        res.value[x, y, c] == Converted(arr, dest, x, y, c)
  {
    var w, h, chans := arr.Length0, arr.Length1, arr.Length2;
    var output := new int[w, h, chans]((_, _, _) => 255);
    if !KnownSpace(dest) {
      return Err(dest + " is not a valid destination color space!");
    }
    var x := 0;
    while x < w
      invariant 0 <= x <= w
      invariant forall i, j, c :: 0 <= i < w && 0 <= j < h && 0 <= c < chans ==>
        output[i, j, c] == (if i < x then Converted(arr, dest, i, j, c) else 255)
    {
      ConvertColumn(arr, dest, output, x);
      x := x + 1;
    }
    return Ok(output);
  }

  /** The inner loop of `convertColorSpace`: every pixel of column x is converted into `output`. */
  method ConvertColumn(arr: array3<int>, dest: string, output: array3<int>, x: int)
    requires KnownSpace(dest) && arr.Length2 >= 3 && arr != output
    requires output.Length0 == arr.Length0 && output.Length1 == arr.Length1 && output.Length2 == arr.Length2
    requires 0 <= x < arr.Length0
    modifies output
    ensures forall i, j, c :: 0 <= i < output.Length0 && 0 <= j < output.Length1 && 0 <= c < output.Length2 ==>
      output[i, j, c] == (if i == x && c < 3 then Converted(arr, dest, i, j, c) else old(output[i, j, c]))
  {
    var y := 0;
    while y < arr.Length1
      invariant 0 <= y <= arr.Length1
      invariant forall i, j, c :: 0 <= i < output.Length0 && 0 <= j < output.Length1 && 0 <= c < output.Length2 ==>
        output[i, j, c] == (if i == x && j < y && c < 3 then Converted(arr, dest, i, j, c) else old(output[i, j, c]))
    {
      ConvertPixel(arr, dest, output, x, y);
      y := y + 1;
    }
  }

  /** The body of the inner loop: channels 0-2 of pixel (x, y) are converted and clamped. */
  method ConvertPixel(arr: array3<int>, dest: string, output: array3<int>, x: int, y: int)
    requires KnownSpace(dest) && arr.Length2 >= 3 && arr != output
    requires output.Length0 == arr.Length0 && output.Length1 == arr.Length1 && output.Length2 == arr.Length2
    requires 0 <= x < arr.Length0 && 0 <= y < arr.Length1
    modifies output
    ensures forall i, j, c :: 0 <= i < output.Length0 && 0 <= j < output.Length1 && 0 <= c < output.Length2 ==>
      output[i, j, c] == (if i == x && j == y && c < 3 then Converted(arr, dest, i, j, c) else old(output[i, j, c]))
  {
    var v0, v1, v2: int;
    if dest == "YCoCg" {
      var r, g, b := arr[x, y, 0], arr[x, y, 1], arr[x, y, 2];
      var tmp := Shr(r + b, 2);
      v0 := Shr(g, 1) + tmp;
      v1 := 128 + (Shr(r, 1) - Shr(b, 1));
      v2 := 128 + Shr(g, 1) - tmp;
    } else {
      var luma := arr[x, y, 0];
      var co := arr[x, y, 1] - 128;
      var cg := arr[x, y, 2] - 128;
      v0 := luma - cg + co;
      v1 := luma + cg;
      v2 := luma - cg - co;
    }
    output[x, y, 0] := Clamp8(v0);
    output[x, y, 1] := Clamp8(v1);
    output[x, y, 2] := Clamp8(v2);
  }

  /** For bytes, every YCoCg channel is a byte: luma at most 254, both chroma channels in 1..255. */
  lemma YCoCgInRange(r: int, g: int, b: int)
    requires IsByte(r) && IsByte(g) && IsByte(b)
    ensures var t := ToYCoCg(r, g, b);
      0 <= t.0 <= 254 && 1 <= t.1 <= 255 && 1 <= t.2 <= 255
  {
  }

  /**
   * RGB -> YCoCg -> RGB through byte images loses at most 2 in red and blue
   * and the low bit of green, never gaining anything.
   */
  lemma RoundTripBounds(r: int, g: int, b: int)
    requires IsByte(r) && IsByte(g) && IsByte(b)
    ensures var t := ToYCoCg(r, g, b);
      var u := ToRGB(Clamp8(t.0), Clamp8(t.1), Clamp8(t.2));
      r - 2 <= Clamp8(u.0) <= r && Clamp8(u.1) == g - g % 2 && b - 2 <= Clamp8(u.2) <= b
  {
    YCoCgInRange(r, g, b);
  }

  /** The loss of 2 happens: (3, 0, 0) goes to YCoCg (0, 129, 128) ... */
  lemma RoundTripLosesTwo()
    ensures ToYCoCg(3, 0, 0) == (0, 129, 128)
  {
    assert Shr(3, 2) == 0 && Shr(0, 1) == 0;
    assert Shr(3, 1) == 1;
  }

  /** ... which comes back as (1, 0, -1), stored as (1, 0, 0). */
  lemma RoundTripComesBack()
    ensures ToRGB(0, 129, 128) == (1, 0, -1) && Clamp8(-1) == 0
  {
  }

  // ---------------------------------------------------------------- painting through a mask

  /** Channel `c` of a pixel after painting: `color` and opaque alpha where the mask is set. */
  function Painted(before: int, maskVal: int, color: seq<int>, c: int): int
    requires |color| >= 3 && 0 <= c
  {
    if maskVal == 0 || c > 3 then before
    else if c == 3 then 255
    else Clamp8(color[c])
  }

  /**
   * `setImgColByMaskMut(img, color, mask)`: where the mask is set, channels
   * 0-2 take `color` and channel 3 becomes 255; nothing else changes.
   */
  method SetImgColByMaskMut(img: array3<int>, color: seq<int>, mask: array<int>)
    requires img.Length2 >= 4 && |color| >= 3
    requires mask.Length == img.Length0 * img.Length1
    modifies img
    ensures forall x, y, c :: 0 <= x < img.Length0 && 0 <= y < img.Length1 && 0 <= c < img.Length2 ==>
      img[x, y, c] == Painted(old(img[x, y, c]), MaskAt(mask, x, y, img.Length1), color, c)
  {
    var w, h := img.Length0, img.Length1;
    IdxAllInRange(w, h);
    var x := 0;
    while x < w
      invariant 0 <= x <= w
      invariant forall i, j, c :: 0 <= i < w && 0 <= j < h && 0 <= c < img.Length2 ==>
        img[i, j, c] == (if i < x then Painted(old(img[i, j, c]), MaskAt(mask, i, j, h), color, c)
                         else old(img[i, j, c]))
    {
      var y := 0;
      while y < h
        invariant 0 <= y <= h
        invariant forall i, j, c :: 0 <= i < w && 0 <= j < h && 0 <= c < img.Length2 ==>
          img[i, j, c] == (if i < x || (i == x && j < y) then Painted(old(img[i, j, c]), MaskAt(mask, i, j, h), color, c)
                           else old(img[i, j, c]))
      {
        var val := mask[Idx(x, y, h)];
        assert val == MaskAt(mask, x, y, h);
        if val != 0 {
          PaintPixel(img, x, y, color);
        }
        y := y + 1;
      }
      x := x + 1;
    }
  }

  /** The body of the mask test: channels 0-2 of one pixel take `color`, channel 3 becomes 255. */
  method PaintPixel(img: array3<int>, x: int, y: int, color: seq<int>)
    requires 0 <= x < img.Length0 && 0 <= y < img.Length1 && img.Length2 >= 4 && |color| >= 3
    modifies img
    ensures forall i, j, c :: 0 <= i < img.Length0 && 0 <= j < img.Length1 && 0 <= c < img.Length2 ==>
      img[i, j, c] == (if i == x && j == y then Painted(old(img[i, j, c]), 1, color, c) else old(img[i, j, c]))
  {
    var ch := 0;
    while ch < 3
      invariant 0 <= ch <= 3
      invariant forall i, j, c :: 0 <= i < img.Length0 && 0 <= j < img.Length1 && 0 <= c < img.Length2 ==>
        img[i, j, c] == (if i == x && j == y && c < ch then Clamp8(color[c]) else old(img[i, j, c]))
    {
      img[x, y, ch] := Clamp8(color[ch]);
      ch := ch + 1;
    }
    img[x, y, 3] := 255;
  }

  // ---------------------------------------------------------------- medianFilter

  /** `img` is the value of `arr`: same shape, same pixels. */
  ghost predicate ImageOf(img: Image, arr: array3<int>)
    reads arr
  {
    img.w == arr.Length0 && img.h == arr.Length1 && img.d == arr.Length2
    && forall x, y, c :: 0 <= x < arr.Length0 && 0 <= y < arr.Length1 && 0 <= c < arr.Length2 ==> Px(img, x, y, c) == arr[x, y, c]
  }

  /** The current pixels of `arr` as an image value. */
  ghost function Snapshot(arr: array3<int>): (img: Image)
    reads arr
    ensures ImageOf(img, arr)
  {
    Image(arr.Length0, arr.Length1, arr.Length2,
      seq(arr.Length0, x reads arr => seq(arr.Length1, y reads arr => seq(arr.Length2, c reads arr =>
        if 0 <= x < arr.Length0 && 0 <= y < arr.Length1 && 0 <= c < arr.Length2 then arr[x, y, c] else 0))))
  }

  /** The objects the filter's bins own: the `MedianIntBin`s and their arrays. */
  ghost function Objects(bins: seq<MedianIntBin>): set<object>
  {
    set c | 0 <= c < |bins| :: bins[c] as object
  }

  /** The count arrays of the bins. */
  ghost function Buffers(bins: seq<MedianIntBin>): set<object>
  {
    set c | 0 <= c < |bins| :: bins[c].bin as object
  }


  /** One consistent `MedianIntBin(256)` per channel, no two sharing an object. */
  ghost predicate BinsReady(bins: seq<MedianIntBin>)
    reads Objects(bins), Buffers(bins)
  {
    (forall c :: 0 <= c < |bins| ==> bins[c].Valid() && bins[c].range == 256)
    && (forall c, d :: 0 <= c < d < |bins| ==> bins[c] != bins[d] && bins[c].bin != bins[d].bin)
  }

  /** The states of all bins, channel by channel. */
  ghost function States(bins: seq<MedianIntBin>): (r: seq<BinState>)
    reads Objects(bins), Buffers(bins)
    ensures |r| == |bins| && forall c :: 0 <= c < |bins| ==> r[c] == bins[c].State()
  {
    seq(|bins|, c requires 0 <= c < |bins| reads Objects(bins), Buffers(bins) => bins[c].State())
  }

  /** `addPixelBin(input, ix, iy)`: every channel's bin adds its value of pixel (ix, iy). */
  method AddPixelBin(bins: seq<MedianIntBin>, arr: array3<int>, ghost img: Image, ix: int, iy: int)
    requires ImageOf(img, arr)
    requires BinsReady(bins) && |bins| <= arr.Length2
    requires 0 <= ix < arr.Length0 && 0 <= iy < arr.Length1
    modifies Objects(bins), Buffers(bins)
    ensures BinsReady(bins)
    ensures forall c :: 0 <= c < |bins| ==> bins[c].State() == AddOp(old(bins[c].State()), Px(img, ix, iy, c), false)
  {
    var ch := 0;
    while ch < |bins|
      invariant 0 <= ch <= |bins| && BinsReady(bins)
      invariant forall c :: 0 <= c < ch ==> bins[c].State() == AddOp(old(bins[c].State()), Px(img, ix, iy, c), false)
      invariant forall c :: ch <= c < |bins| ==> bins[c].State() == old(bins[c].State())
    {
      bins[ch].AddValue(arr[ix, iy, ch]);
      ch := ch + 1;
    }
  }

  /** `subPixelBin(input, ix, iy)`: every channel's bin removes its value of pixel (ix, iy). */
  method SubPixelBin(bins: seq<MedianIntBin>, arr: array3<int>, ghost img: Image, ix: int, iy: int)
    requires ImageOf(img, arr)
    requires BinsReady(bins) && |bins| <= arr.Length2
    requires 0 <= ix < arr.Length0 && 0 <= iy < arr.Length1
    modifies Objects(bins), Buffers(bins)
    ensures BinsReady(bins)
    ensures forall c :: 0 <= c < |bins| ==> bins[c].State() == SubOp(old(bins[c].State()), Px(img, ix, iy, c), false)
  {
    var ch := 0;
    while ch < |bins|
      invariant 0 <= ch <= |bins| && BinsReady(bins)
      invariant forall c :: 0 <= c < ch ==> bins[c].State() == SubOp(old(bins[c].State()), Px(img, ix, iy, c), false)
      invariant forall c :: ch <= c < |bins| ==> bins[c].State() == old(bins[c].State())
    {
      bins[ch].SubValue(arr[ix, iy, ch]);
      ch := ch + 1;
    }
  }

  /** `writeMedian(output, ix, iy)`: each channel of pixel (ix, iy) takes its bin's median. */
  method WriteMedian(bins: seq<MedianIntBin>, output: array3<int>, ix: int, iy: int)
    requires BinsReady(bins) && |bins| <= output.Length2
    requires 0 <= ix < output.Length0 && 0 <= iy < output.Length1
    modifies output
    ensures BinsReady(bins) && forall c :: 0 <= c < |bins| ==> bins[c].State() == old(bins[c].State())
    ensures forall i, j, c :: 0 <= i < output.Length0 && 0 <= j < output.Length1 && 0 <= c < output.Length2 ==>
      output[i, j, c] == (if i == ix && j == iy && c < |bins| then Written(bins[c].State()) else old(output[i, j, c]))
  {
    var ch := 0;
    while ch < |bins|
      invariant 0 <= ch <= |bins|
      invariant forall i, j, c :: 0 <= i < output.Length0 && 0 <= j < output.Length1 && 0 <= c < output.Length2 ==>
        output[i, j, c] == (if i == ix && j == iy && c < ch then Written(bins[c].State()) else old(output[i, j, c]))
    {
      var pix := bins[ch].GetMedian();
      output[ix, iy, ch] := Uint8Clamped(pix);
      ch := ch + 1;
    }
  }

  /** The `flush()` loop: every bin is emptied. */
  method FlushBins(bins: seq<MedianIntBin>)
    requires BinsReady(bins)
    modifies Objects(bins), Buffers(bins)
    ensures BinsReady(bins)
    ensures forall c :: 0 <= c < |bins| ==> bins[c].State() == Empty(256)
  {
    var ch := 0;
    while ch < |bins|
      invariant 0 <= ch <= |bins| && BinsReady(bins)
      invariant forall c :: 0 <= c < ch ==> bins[c].State() == Empty(256)
    {
      bins[ch].Flush();
      ch := ch + 1;
    }
  }

  /** The `index()` loop: every bin places its cursor. */
  method IndexBins(bins: seq<MedianIntBin>)
    requires BinsReady(bins)
    modifies Objects(bins), Buffers(bins)
    ensures BinsReady(bins)
    ensures forall c :: 0 <= c < |bins| ==> bins[c].State() == IndexOp(old(bins[c].State()), false)
  {
    var ch := 0;
    while ch < |bins|
      invariant 0 <= ch <= |bins| && BinsReady(bins)
      invariant forall c :: 0 <= c < ch ==> bins[c].State() == IndexOp(old(bins[c].State()), false)
      invariant forall c :: ch <= c < |bins| ==> bins[c].State() == old(bins[c].State())
    {
      bins[ch].Index();
      ch := ch + 1;
    }
  }

  /** The initial fill: columns x0 .. x1-1, rows 0 .. n-1 of each, column by column. */
  method FillBins(bins: seq<MedianIntBin>, arr: array3<int>, ghost img: Image, x0: int, x1: int, n: int)
    requires ImageOf(img, arr)
    requires BinsReady(bins) && |bins| <= arr.Length2
    requires 0 <= x0 <= x1 <= arr.Length0 && 0 <= n <= arr.Length1
    modifies Objects(bins), Buffers(bins)
    ensures BinsReady(bins)
    ensures forall c :: 0 <= c < |bins| ==> bins[c].State() == InitFill(old(bins[c].State()), img, c, x0, x1, n, false)
  {
    var ix := x0;
    while ix < x1
      invariant x0 <= ix <= x1 && BinsReady(bins)
      invariant forall c :: 0 <= c < |bins| ==> bins[c].State() == InitFill(old(bins[c].State()), img, c, x0, ix, n, false)
    {
      ghost var before := States(bins);
      var iy := 0;
      while iy < n
        invariant 0 <= iy <= n && BinsReady(bins)
        invariant forall c :: 0 <= c < |bins| ==> bins[c].State() == AddColumn(before[c], img, c, ix, iy, false)
      {
        AddPixelBin(bins, arr, img, ix, iy);
        iy := iy + 1;
      }
      ix := ix + 1;
    }
  }

  /** The row loop of the first phase: row `iy` of columns x0 .. x1-1 is added. */
  method AddRowBins(bins: seq<MedianIntBin>, arr: array3<int>, ghost img: Image, x0: int, x1: int, iy: int)
    requires ImageOf(img, arr)
    requires BinsReady(bins) && |bins| <= arr.Length2
    requires 0 <= x0 <= x1 <= arr.Length0 && 0 <= iy < arr.Length1
    modifies Objects(bins), Buffers(bins)
    ensures BinsReady(bins)
    ensures forall c :: 0 <= c < |bins| ==> bins[c].State() == AddRow(old(bins[c].State()), img, c, x0, x1, iy, false)
  {
    var ix := x0;
    while ix < x1
      invariant x0 <= ix <= x1 && BinsReady(bins)
      invariant forall c :: 0 <= c < |bins| ==> bins[c].State() == AddRow(old(bins[c].State()), img, c, x0, ix, iy, false)
    {
      AddPixelBin(bins, arr, img, ix, iy);
      ix := ix + 1;
    }
  }

  /** The row loop of the second phase: per column, its pixel of row `y0` is removed and that of row `y1` added. */
  method SubAddRowBins(bins: seq<MedianIntBin>, arr: array3<int>, ghost img: Image, x0: int, x1: int, y0: int, y1: int)
    requires ImageOf(img, arr)
    requires BinsReady(bins) && |bins| <= arr.Length2
    requires 0 <= x0 <= x1 <= arr.Length0 && 0 <= y0 < arr.Length1 && 0 <= y1 < arr.Length1
    modifies Objects(bins), Buffers(bins)
    ensures BinsReady(bins)
    ensures forall c :: 0 <= c < |bins| ==> bins[c].State() == SubAddRow(old(bins[c].State()), img, c, x0, x1, y0, y1, false)
  {
    var ix := x0;
    while ix < x1
      invariant x0 <= ix <= x1 && BinsReady(bins)
      invariant forall c :: 0 <= c < |bins| ==> bins[c].State() == SubAddRow(old(bins[c].State()), img, c, x0, ix, y0, y1, false)
    {
      SubAddPixelBins(bins, arr, img, ix, y0, y1);
      ix := ix + 1;
    }
  }

  /** One step of the second phase's row loop: pixel (ix, y0) leaves every bin, then pixel (ix, y1) enters it. */
  method SubAddPixelBins(bins: seq<MedianIntBin>, arr: array3<int>, ghost img: Image, ix: int, y0: int, y1: int)
    requires ImageOf(img, arr)
    requires BinsReady(bins) && |bins| <= arr.Length2
    requires 0 <= ix < arr.Length0 && 0 <= y0 < arr.Length1 && 0 <= y1 < arr.Length1
    modifies Objects(bins), Buffers(bins)
    ensures BinsReady(bins)
    ensures forall c :: 0 <= c < |bins| ==>
      bins[c].State() == AddOp(SubOp(old(bins[c].State()), Px(img, ix, y0, c), false), Px(img, ix, y1, c), false)
  {
    SubPixelBin(bins, arr, img, ix, y0);
    AddPixelBin(bins, arr, img, ix, y1);
  }

  /** The row loop of the last phase: row `y0` of columns x0 .. x1-1 is removed. */
  method SubRowBins(bins: seq<MedianIntBin>, arr: array3<int>, ghost img: Image, x0: int, x1: int, y0: int)
    requires ImageOf(img, arr)
    requires BinsReady(bins) && |bins| <= arr.Length2
    requires 0 <= x0 <= x1 <= arr.Length0 && 0 <= y0 < arr.Length1
    modifies Objects(bins), Buffers(bins)
    ensures BinsReady(bins)
    ensures forall c :: 0 <= c < |bins| ==> bins[c].State() == SubRow(old(bins[c].State()), img, c, x0, x1, y0, false)
  {
    var ix := x0;
    while ix < x1
      invariant x0 <= ix <= x1 && BinsReady(bins)
      invariant forall c :: 0 <= c < |bins| ==> bins[c].State() == SubRow(old(bins[c].State()), img, c, x0, ix, y0, false)
    {
      SubPixelBin(bins, arr, img, ix, y0);
      ix := ix + 1;
    }
  }

  /*
   * The states of one column. `col(c, y)` is the state of channel c's bin
   * once pixel (x, y) is written; the predicates below say how each row's
   * state follows from the previous one, phase by phase, as `ColumnState`
   * does (lemma `ColumnPhases`).
   */

  /** Row y of a column: the states of channels 0 .. n-1. */
  ghost function RowOf(col: (int, nat) -> BinState, y: nat, n: nat): (row: seq<BinState>)
    ensures |row| == n && forall c :: 0 <= c < n ==> row[c] == col(c, y)
  {
    seq(n, c requires 0 <= c < n => col(c, y))
  }

  /** Row 0: the window's columns filled with rows 0 .. r, then indexed. */
  ghost predicate StartAt(col: (int, nat) -> BinState, img: Image, x: int, r: int)
  {
    forall c {:trigger StartsAt(col, img, x, r, c)} :: StartsAt(col, img, x, r, c)
  }

  /** Channel c's state at row 0. */
  ghost predicate StartsAt(col: (int, nat) -> BinState, img: Image, x: int, r: int, c: int)
  {
    col(c, 0) == IndexOp(InitFill(Empty(256), img, c, Left(x, r), Right(x, r, img.w), r + 1, false), false)
  }

  /**
   * Channel c's state at row y follows from row y - 1 by the step of its
   * phase: row y + r enters (the first phase), row y - r leaves and row
   * y + r enters (the second), or row y - r leaves (the last).
   */
  ghost predicate StepAt(col: (int, nat) -> BinState, img: Image, x: int, r: int, y: nat, c: int)
    requires y > 0
  {
    var prev, x0, x1 := col(c, y - 1), Left(x, r), Right(x, r, img.w);
    col(c, y) == (if y < r then AddRow(prev, img, c, x0, x1, y + r, false)
                  else if y < img.h - r then SubAddRow(prev, img, c, x0, x1, y - r, y + r, false)
                  else SubRow(prev, img, c, x0, x1, y - r, false))
  }

  /** Every channel's state at row y follows by its step. */
  ghost predicate StepsAt(col: (int, nat) -> BinState, img: Image, x: int, r: int, y: nat)
    requires y > 0
  {
    forall c {:trigger StepAt(col, img, x, r, y, c)} :: StepAt(col, img, x, r, y, c)
  }

  /** Every row after the first follows from the previous one by its step. */
  ghost predicate Steps(col: (int, nat) -> BinState, img: Image, x: int, r: int)
  {
    forall y: nat {:trigger StepsAt(col, img, x, r, y)} :: 0 < y ==> StepsAt(col, img, x, r, y)
  }

  /** Column x of the unfixed `ColumnState` goes through the four phases. */
  lemma ColumnPhases(col: (int, nat) -> BinState, img: Image, x: int, r: int)
    requires 1 <= r && 2 * r + 1 <= img.h
    requires forall c: int, y: nat :: col(c, y) == ColumnState(img, c, x, y, r, false)
    ensures StartAt(col, img, x, r) && Steps(col, img, x, r)
  {
    forall c
      ensures StartsAt(col, img, x, r, c)
    {
      ColumnStarts(img, c, x, r, false, InitFill(Empty(256), img, c, Left(x, r), Right(x, r, img.w), r + 1, false));
    }
    forall y: nat | 0 < y
      ensures StepsAt(col, img, x, r, y)
    {
      forall c
        ensures StepAt(col, img, x, r, y, c)
      {
        if y < r {
          ColumnGrows(img, c, x, y, r, false, y + r);
        } else if y < img.h - r {
          ColumnSlides(img, c, x, y, r, false, y - r, y + r);
        } else {
          ColumnShrinks(img, c, x, y, r, false, y - r);
        }
      }
    }
  }

  /**
   * One pass of the outer loop of `medianFilter` at column `x`: the start of
   * the column, then the three row phases; every pixel of column `x` gets the
   * median of its bin's state `col(c, y)`.
   */
  method FilterColumn(bins: seq<MedianIntBin>, arr: array3<int>, ghost img: Image, output: array3<int>, x: int, r: int, ghost col: (int, nat) -> BinState)
    requires ImageOf(img, arr) && StartAt(col, img, x, r) && Steps(col, img, x, r)
    requires BinsReady(bins) && |bins| <= arr.Length2 && arr != output
    requires output.Length0 == arr.Length0 && output.Length1 == arr.Length1 && output.Length2 == arr.Length2
    requires 1 <= r && 2 * r + 1 <= arr.Length1 && 0 <= x < arr.Length0
    modifies output, Objects(bins), Buffers(bins)
    ensures BinsReady(bins)
    ensures forall i, j, c :: 0 <= i < output.Length0 && 0 <= j < output.Length1 && 0 <= c < output.Length2 ==>
      output[i, j, c] == (if i == x && 0 <= j < arr.Length1 && c < |bins| then Written(col(c, j)) else old(output[i, j, c]))
  {
    StartColumn(bins, arr, img, output, x, r, col);
    GrowRows(bins, arr, img, output, x, r, col);
    SlideRows(bins, arr, img, output, x, r, col);
    ShrinkRows(bins, arr, img, output, x, r, col);
  }

  /** The start of a column: load the window of row 0 into the bins, write row 0. */
  method StartColumn(bins: seq<MedianIntBin>, arr: array3<int>, ghost img: Image, output: array3<int>, x: int, r: int, ghost col: (int, nat) -> BinState)
    requires ImageOf(img, arr) && StartAt(col, img, x, r)
    requires BinsReady(bins) && |bins| <= arr.Length2 && arr != output
    requires output.Length0 == arr.Length0 && output.Length1 == arr.Length1 && output.Length2 == arr.Length2
    requires 1 <= r && 2 * r + 1 <= arr.Length1 && 0 <= x < arr.Length0
    modifies output, Objects(bins), Buffers(bins)
    ensures BinsReady(bins)
    ensures States(bins) == RowOf(col, 0, |bins|)
    ensures forall i, j, c :: 0 <= i < output.Length0 && 0 <= j < output.Length1 && 0 <= c < output.Length2 ==>
      output[i, j, c] == (if i == x && j == 0 && c < |bins| then Written(col(c, 0)) else old(output[i, j, c]))
  {
    LoadColumn(bins, arr, img, x, r, col);
    WriteMedian(bins, output, x, 0);
  }

  /** Flush every bin, fill it with rows 0 .. r of the window's columns, and index it. */
  method LoadColumn(bins: seq<MedianIntBin>, arr: array3<int>, ghost img: Image, x: int, r: int, ghost col: (int, nat) -> BinState)
    requires ImageOf(img, arr) && StartAt(col, img, x, r)
    requires BinsReady(bins) && |bins| <= arr.Length2
    requires 1 <= r && 2 * r + 1 <= arr.Length1 && 0 <= x < arr.Length0
    modifies Objects(bins), Buffers(bins)
    ensures BinsReady(bins)
    ensures States(bins) == RowOf(col, 0, |bins|)
  {
    ColumnsFit(x, r, arr.Length0);
    FillWindow(bins, arr, img, Left(x, r), Right(x, r, arr.Length0), r + 1);
    IndexWindow(bins, img, x, r, col);
  }

  /** Index every bin of a filled window: the bins then hold row 0's states. */
  method IndexWindow(bins: seq<MedianIntBin>, ghost img: Image, x: int, r: int, ghost col: (int, nat) -> BinState)
    requires StartAt(col, img, x, r) && BinsReady(bins)
    requires forall c :: 0 <= c < |bins| ==>
      bins[c].State() == InitFill(Empty(256), img, c, Left(x, r), Right(x, r, img.w), r + 1, false)
    modifies Objects(bins), Buffers(bins)
    ensures BinsReady(bins)
    ensures States(bins) == RowOf(col, 0, |bins|)
  {
    IndexBins(bins);
    forall c | 0 <= c < |bins|
      ensures bins[c].State() == col(c, 0)
    {
      assert StartsAt(col, img, x, r, c);
    }
  }

  /** Flush every bin, then add rows 0 .. n-1 of columns x0 .. x1-1. */
  method FillWindow(bins: seq<MedianIntBin>, arr: array3<int>, ghost img: Image, x0: int, x1: int, n: int)
    requires ImageOf(img, arr) && BinsReady(bins) && |bins| <= arr.Length2
    requires 0 <= x0 <= x1 <= arr.Length0 && 0 <= n <= arr.Length1
    modifies Objects(bins), Buffers(bins)
    ensures BinsReady(bins)
    ensures forall c :: 0 <= c < |bins| ==> bins[c].State() == InitFill(Empty(256), img, c, x0, x1, n, false)
  {
    FlushBins(bins);
    FillBins(bins, arr, img, x0, x1, n);
  }

  /** The first row phase, `while (y < radius)`. */
  method GrowRows(bins: seq<MedianIntBin>, arr: array3<int>, ghost img: Image, output: array3<int>, x: int, r: int, ghost col: (int, nat) -> BinState)
    requires ImageOf(img, arr) && Steps(col, img, x, r)
    requires BinsReady(bins) && |bins| <= arr.Length2 && arr != output
    requires output.Length0 == arr.Length0 && output.Length1 == arr.Length1 && output.Length2 == arr.Length2
    requires 1 <= r && 2 * r + 1 <= arr.Length1 && 0 <= x < arr.Length0
    requires States(bins) == RowOf(col, 1 - 1, |bins|)
    modifies output, Objects(bins), Buffers(bins)
    ensures BinsReady(bins)
    ensures States(bins) == RowOf(col, r - 1, |bins|)
    ensures forall i, j, c :: 0 <= i < output.Length0 && 0 <= j < output.Length1 && 0 <= c < output.Length2 ==>
      output[i, j, c] == (if i == x && 1 <= j < r && c < |bins| then Written(col(c, j)) else old(output[i, j, c]))
  {
    var y: nat := 1;
    while y < r
      invariant 1 <= y <= r && BinsReady(bins)
      invariant States(bins) == RowOf(col, y - 1, |bins|)
      invariant forall i, j, c :: 0 <= i < output.Length0 && 0 <= j < output.Length1 && 0 <= c < output.Length2 ==>
        output[i, j, c] == (if i == x && 1 <= j < y && c < |bins| then Written(col(c, j)) else old(output[i, j, c]))
    {
      GrowRow(bins, arr, img, output, x, r, col, y);
      y := y + 1;
    }
  }

  /** One row of the first phase. */
  method GrowRow(bins: seq<MedianIntBin>, arr: array3<int>, ghost img: Image, output: array3<int>, x: int, r: int, ghost col: (int, nat) -> BinState, y: nat)
    requires 1 <= y < r && 2 * r + 1 <= arr.Length1 && 0 <= x < arr.Length0
    requires ImageOf(img, arr) && StepsAt(col, img, x, r, y)
    requires BinsReady(bins) && |bins| <= arr.Length2 && arr != output
    requires output.Length0 == arr.Length0 && output.Length1 == arr.Length1 && output.Length2 == arr.Length2
    requires States(bins) == RowOf(col, y - 1, |bins|)
    modifies output, Objects(bins), Buffers(bins)
    ensures BinsReady(bins)
    ensures States(bins) == RowOf(col, y, |bins|)
    ensures forall i, j, c :: 0 <= i < output.Length0 && 0 <= j < output.Length1 && 0 <= c < output.Length2 ==>
      output[i, j, c] == (if i == x && j == y && c < |bins| then Written(col(c, y)) else old(output[i, j, c]))
  {
    ColumnsFit(x, r, arr.Length0);
    AddRowBins(bins, arr, img, Left(x, r), Right(x, r, arr.Length0), y + r);
    forall c | 0 <= c < |bins|
      ensures bins[c].State() == col(c, y)
    {
      assert StepAt(col, img, x, r, y, c);
    }
    WriteMedian(bins, output, x, y);
  }

  /** The second row phase, `while (y < height - radius)`. */
  method SlideRows(bins: seq<MedianIntBin>, arr: array3<int>, ghost img: Image, output: array3<int>, x: int, r: int, ghost col: (int, nat) -> BinState)
    requires ImageOf(img, arr) && Steps(col, img, x, r)
    requires BinsReady(bins) && |bins| <= arr.Length2 && arr != output
    requires output.Length0 == arr.Length0 && output.Length1 == arr.Length1 && output.Length2 == arr.Length2
    requires 1 <= r && 2 * r + 1 <= arr.Length1 && 0 <= x < arr.Length0
    requires States(bins) == RowOf(col, r - 1, |bins|)
    modifies output, Objects(bins), Buffers(bins)
    ensures BinsReady(bins)
    ensures States(bins) == RowOf(col, arr.Length1 - r - 1, |bins|)
    ensures forall i, j, c :: 0 <= i < output.Length0 && 0 <= j < output.Length1 && 0 <= c < output.Length2 ==>
      output[i, j, c] == (if i == x && r <= j < arr.Length1 - r && c < |bins| then Written(col(c, j)) else old(output[i, j, c]))
  {
    var y: nat := r;
    while y < arr.Length1 - r
      invariant r <= y <= arr.Length1 - r && BinsReady(bins)
      invariant States(bins) == RowOf(col, y - 1, |bins|)
      invariant forall i, j, c :: 0 <= i < output.Length0 && 0 <= j < output.Length1 && 0 <= c < output.Length2 ==>
        output[i, j, c] == (if i == x && r <= j < y && c < |bins| then Written(col(c, j)) else old(output[i, j, c]))
    {
      SlideRow(bins, arr, img, output, x, r, col, y);
      y := y + 1;
    }
    assert y == arr.Length1 - r;
  }

  /** One row of the second phase. */
  method SlideRow(bins: seq<MedianIntBin>, arr: array3<int>, ghost img: Image, output: array3<int>, x: int, r: int, ghost col: (int, nat) -> BinState, y: nat)
    requires 1 <= r <= y < arr.Length1 - r && 2 * r + 1 <= arr.Length1 && 0 <= x < arr.Length0
    requires ImageOf(img, arr) && StepsAt(col, img, x, r, y)
    requires BinsReady(bins) && |bins| <= arr.Length2 && arr != output
    requires output.Length0 == arr.Length0 && output.Length1 == arr.Length1 && output.Length2 == arr.Length2
    requires States(bins) == RowOf(col, y - 1, |bins|)
    modifies output, Objects(bins), Buffers(bins)
    ensures BinsReady(bins)
    ensures States(bins) == RowOf(col, y, |bins|)
    ensures forall i, j, c :: 0 <= i < output.Length0 && 0 <= j < output.Length1 && 0 <= c < output.Length2 ==>
      output[i, j, c] == (if i == x && j == y && c < |bins| then Written(col(c, y)) else old(output[i, j, c]))
  {
    ColumnsFit(x, r, arr.Length0);
    SubAddRowBins(bins, arr, img, Left(x, r), Right(x, r, arr.Length0), y - r, y + r);
    forall c | 0 <= c < |bins|
      ensures bins[c].State() == col(c, y)
    {
      assert StepAt(col, img, x, r, y, c);
    }
    WriteMedian(bins, output, x, y);
  }

  /** The last row phase, `while (y < height)`. */
  method ShrinkRows(bins: seq<MedianIntBin>, arr: array3<int>, ghost img: Image, output: array3<int>, x: int, r: int, ghost col: (int, nat) -> BinState)
    requires ImageOf(img, arr) && Steps(col, img, x, r)
    requires BinsReady(bins) && |bins| <= arr.Length2 && arr != output
    requires output.Length0 == arr.Length0 && output.Length1 == arr.Length1 && output.Length2 == arr.Length2
    requires 1 <= r && 2 * r + 1 <= arr.Length1 && 0 <= x < arr.Length0
    requires States(bins) == RowOf(col, arr.Length1 - r - 1, |bins|)
    modifies output, Objects(bins), Buffers(bins)
    ensures BinsReady(bins)
    ensures States(bins) == RowOf(col, arr.Length1 - 1, |bins|)
    ensures forall i, j, c :: 0 <= i < output.Length0 && 0 <= j < output.Length1 && 0 <= c < output.Length2 ==>
      output[i, j, c] == (if i == x && arr.Length1 - r <= j < arr.Length1 && c < |bins| then Written(col(c, j)) else old(output[i, j, c]))
  {
    var y: nat := arr.Length1 - r;
    while y < arr.Length1
      invariant arr.Length1 - r <= y <= arr.Length1 && BinsReady(bins)
      invariant States(bins) == RowOf(col, y - 1, |bins|)
      invariant forall i, j, c :: 0 <= i < output.Length0 && 0 <= j < output.Length1 && 0 <= c < output.Length2 ==>
        output[i, j, c] == (if i == x && arr.Length1 - r <= j < y && c < |bins| then Written(col(c, j)) else old(output[i, j, c]))
    {
      ShrinkRow(bins, arr, img, output, x, r, col, y);
      y := y + 1;
    }
  }

  /** One row of the last phase. */
  method ShrinkRow(bins: seq<MedianIntBin>, arr: array3<int>, ghost img: Image, output: array3<int>, x: int, r: int, ghost col: (int, nat) -> BinState, y: nat)
    requires 1 <= r && arr.Length1 - r <= y < arr.Length1 && 2 * r + 1 <= arr.Length1 && 0 <= x < arr.Length0
    requires ImageOf(img, arr) && StepsAt(col, img, x, r, y)
    requires BinsReady(bins) && |bins| <= arr.Length2 && arr != output
    requires output.Length0 == arr.Length0 && output.Length1 == arr.Length1 && output.Length2 == arr.Length2
    requires States(bins) == RowOf(col, y - 1, |bins|)
    modifies output, Objects(bins), Buffers(bins)
    ensures BinsReady(bins)
    ensures States(bins) == RowOf(col, y, |bins|)
    ensures forall i, j, c :: 0 <= i < output.Length0 && 0 <= j < output.Length1 && 0 <= c < output.Length2 ==>
      output[i, j, c] == (if i == x && j == y && c < |bins| then Written(col(c, y)) else old(output[i, j, c]))
  {
    ColumnsFit(x, r, arr.Length0);
    SubRowBins(bins, arr, img, Left(x, r), Right(x, r, arr.Length0), y - r);
    forall c | 0 <= c < |bins|
      ensures bins[c].State() == col(c, y)
    {
      assert StepAt(col, img, x, r, y, c);
    }
    WriteMedian(bins, output, x, y);
  }

  /** The bins of `medianFilter`: `channels` fresh, empty `MedianIntBin(256)`s. */
  method NewBins(channels: int) returns (bins: seq<MedianIntBin>)
    ensures |bins| == if channels < 0 then 0 else channels
    ensures BinsReady(bins) && forall c :: 0 <= c < |bins| ==> fresh(bins[c]) && fresh(bins[c].bin)
    ensures forall c :: 0 <= c < |bins| ==> bins[c].State() == Empty(256)
  {
    bins := [];
    var ch := 0;
    while ch < channels
      invariant 0 <= ch == |bins| && (ch <= channels || ch == 0)
      invariant BinsReady(bins) && forall c :: 0 <= c < |bins| ==> fresh(bins[c]) && fresh(bins[c].bin)
      invariant forall c :: 0 <= c < |bins| ==> bins[c].State() == Empty(256)
    {
      var b := new MedianIntBin(256);
      bins := bins + [b];
      ch := ch + 1;
    }
  }

  /** Pixel (x, y, c) of the filtered image: a channel with a bin gets its median, the others keep the fill 255. */
  function FilteredAt(img: Image, r: int, channels: int, x: int, y: nat, c: int): int
  {
    if c < channels then Written(ColumnState(img, c, x, y, r, false)) else 255
  }

  /**
   * `medianFilter(arr, k, forceChannels)`: k = 1 returns the input itself;
   * an even or non-positive k is an error; otherwise a new image of the same
   * shape, filled with 255, whose first `Channels` channels are filtered
   * column by column.
   */
  method MedianFilter(arr: array3<int>, k: int, forceChannels: Option<int>) returns (res: Result<array3<int>>)
    requires k > 1 && k % 2 == 1 ==> k <= arr.Length1
    ensures k == 1 ==> res == Ok(arr)
    ensures k != 1 && (k % 2 == 0 || k < 1) ==> res.Err?
    ensures k > 1 && k % 2 == 1 ==> (
      res.Ok? && fresh(res.value)
      && res.value.Length0 == arr.Length0 && res.value.Length1 == arr.Length1 && res.value.Length2 == arr.Length2
      && forall x, y, c :: 0 <= x < arr.Length0 && 0 <= y < arr.Length1 && 0 <= c < arr.Length2 ==>
        res.value[x, y, c] == FilteredAt(Snapshot(arr), k / 2, Channels(Snapshot(arr), forceChannels), x, y, c))
  {
    if k == 1 {
      return Ok(arr);
    }
    if k % 2 == 0 || k < 1 {
      return Err("Median filter must be of odd dimensions");
    }
    ghost var img := Snapshot(arr);
    var width := arr.Length0;
    var radius := k / 2;
    var channels := arr.Length2;
    if forceChannels.Some? && forceChannels.value < channels {
      channels := forceChannels.value;
    }
    assert channels == Channels(img, forceChannels);
    var output := new int[width, arr.Length1, arr.Length2]((_, _, _) => 255);
    var bins := NewBins(channels);
    var x := 0;
    while x < width
      invariant 0 <= x <= width && BinsReady(bins) && forall c :: 0 <= c < |bins| ==> fresh(bins[c]) && fresh(bins[c].bin)
      invariant forall i, j, c :: 0 <= i < width && 0 <= j < arr.Length1 && 0 <= c < arr.Length2 ==>
        output[i, j, c] == (if i < x then FilteredAt(img, radius, channels, i, j, c) else 255)
    {
      ghost var col := (c: int, y: nat) => ColumnState(img, c, x, y, radius, false);
      ColumnPhases(col, img, x, radius);
      FilterColumn(bins, arr, img, output, x, radius, col);
      x := x + 1;
    }
    return Ok(output);
  }
}
