/**
 * `ImageUtils.medianFilter` (docs/js/imageutils.js:95-253): a k x k median
 * filter over a [W, H, C] image with one `MedianIntBin(256)` per channel.
 * For every column `x` the bins are flushed, filled with the top rows of the
 * columns `max(0, x - r) .. min(x + r + 1, W) - 1`, indexed, and then slid
 * down the image by whole rows, adding the row entering the window and
 * removing the row leaving it (r = k >> 1).
 *
 * `ColumnState(img, ch, x, y, r, false)` is the state of the bin of channel
 * `ch` when the output pixel (x, y) is written, as the code does it;
 * `ColumnState(..., true)` is the evidently intended filter: window rows
 * `y - r .. y + r` and the corrected bin operations of `MedianBin`.
 * `HeldWindow` proves which rows the code's bins hold (the window's own top
 * row is missing from `y = r` on) and `FixedWindow` proves that the intended
 * filter writes the median of the whole window.
 */
module MedianWindow {
  import opened Common
  import opened MedianBin

  // ---------------------------------------------------------------- the filter's steps, as values

  /** A [W, H, C] image as a value: `px[x][y][c]` is channel c of pixel (x, y). */
  datatype Image = Image(w: nat, h: nat, d: nat, px: seq<seq<seq<int>>>)

  /**
   * `arr.get(x, y, c)` for a pixel of the image. The filter reads only such
   * pixels once the image has at least k rows; outside, a value no bin holds.
   */
  function Px(img: Image, x: int, y: int, c: int): int
  {
    if 0 <= x < img.w && 0 <= y < img.h && 0 <= c < img.d
       && x < |img.px| && y < |img.px[x]| && c < |img.px[x][y]|
    then img.px[x][y][c] else -1
  }

  /** `addValue` as written (`fixed == false`) or corrected. */
  function AddOp(s: BinState, v: int, fixed: bool): BinState
  {
    if fixed then AddSpecFixed(s, v) else AddSpec(s, v)
  }

  /** `subValue` as written (`fixed == false`) or corrected. */
  function SubOp(s: BinState, v: int, fixed: bool): BinState
  {
    if fixed then SubSpecFixed(s, v) else SubSpec(s, v)
  }

  /** `index` as written (`fixed == false`) or corrected. */
  function IndexOp(s: BinState, fixed: bool): BinState
  {
    if fixed then IndexSpecFixed(s) else IndexSpec(s)
  }

  /** Adds rows 0 .. n-1 of column `ix`, top to bottom. */
  function AddColumn(s: BinState, img: Image, ch: int, ix: int, n: int, fixed: bool): (t: BinState)
    ensures t.indexed == s.indexed
    decreases n
  {
    if n <= 0 then s else AddOp(AddColumn(s, img, ch, ix, n - 1, fixed), Px(img, ix, n - 1, ch), fixed)
  }

  /** The initial fill: columns x0 .. x1-1, each one rows 0 .. n-1. */
  function InitFill(s: BinState, img: Image, ch: int, x0: int, x1: int, n: int, fixed: bool): (t: BinState)
    ensures t.indexed == s.indexed
    decreases x1 - x0
  {
    if x1 <= x0 then s else AddColumn(InitFill(s, img, ch, x0, x1 - 1, n, fixed), img, ch, x1 - 1, n, fixed)
  }

  /** Adds the pixels of row `y`, columns x0 .. x1-1, left to right. */
  function AddRow(s: BinState, img: Image, ch: int, x0: int, x1: int, y: int, fixed: bool): (t: BinState)
    ensures t.indexed == s.indexed
    decreases x1 - x0
  {
    if x1 <= x0 then s else AddOp(AddRow(s, img, ch, x0, x1 - 1, y, fixed), Px(img, x1 - 1, y, ch), fixed)
  }

  /** Removes the pixels of row `y`, columns x0 .. x1-1, left to right. */
  function SubRow(s: BinState, img: Image, ch: int, x0: int, x1: int, y: int, fixed: bool): (t: BinState)
    ensures t.indexed == s.indexed
    decreases x1 - x0
  {
    if x1 <= x0 then s else SubOp(SubRow(s, img, ch, x0, x1 - 1, y, fixed), Px(img, x1 - 1, y, ch), fixed)
  }

  /** For each column x0 .. x1-1 in turn: remove its pixel of row `ysub`, then add its pixel of row `yadd`. */
  function SubAddRow(s: BinState, img: Image, ch: int, x0: int, x1: int, ysub: int, yadd: int, fixed: bool)
    : (t: BinState)
    ensures t.indexed == s.indexed
    decreases x1 - x0
  {
    if x1 <= x0 then s
    else
      var t := SubAddRow(s, img, ch, x0, x1 - 1, ysub, yadd, fixed);
      AddOp(SubOp(t, Px(img, x1 - 1, ysub, ch), fixed), Px(img, x1 - 1, yadd, ch), fixed)
  }

  /** `Math.max(0, x - radius)`: the first column of the window. */
  function Left(x: int, r: int): int
  {
    if x - r > 0 then x - r else 0
  }

  /** `Math.min(x + radius + 1, width)`: one past the last column of the window. */
  function Right(x: int, r: int, w: int): int
  {
    if x + r + 1 < w then x + r + 1 else w
  }

  /**
   * The bin of channel `ch` right after the output pixel (x, y) is written.
   * As written: y = 0 after the fill of rows 0 .. r and `index()`; rows
   * y + r added while y < r; then row y - r removed and row y + r added while
   * y < H - r; then row y - r removed. Intended (`fixed`): rows y + r added
   * while y <= r, and the row removed at y is y - r - 1.
   */
  function ColumnState(img: Image, ch: int, x: int, y: nat, r: int, fixed: bool): BinState
    decreases y, 1
  {
    if y == 0 then IndexOp(InitFill(Empty(256), img, ch, Left(x, r), Right(x, r, img.w), r + 1, fixed), fixed)
    else NextState(img, ch, x, y, r, fixed)
  }

  /** One step of `ColumnState` from row y - 1 to row y. */
  function NextState(img: Image, ch: int, x: int, y: nat, r: int, fixed: bool): BinState
    requires y > 0
    decreases y, 0
  {
    var x0, x1, h := Left(x, r), Right(x, r, img.w), img.h;
    var prev := ColumnState(img, ch, x, y - 1, r, fixed);
    if (if fixed then y <= r else y < r) then AddRow(prev, img, ch, x0, x1, y + r, fixed)
    else
      var top := if fixed then y - r - 1 else y - r;
      if y < h - r then SubAddRow(prev, img, ch, x0, x1, top, y + r, fixed)
      else SubRow(prev, img, ch, x0, x1, top, fixed)
  }


  /** What a Uint8ClampedArray keeps when a median is stored in it: undefined becomes 0. */
  function Uint8Clamped(m: Option<int>): int
  {
    match m
    case None => 0
    case Some(v) => Clamp8(v)
  }

  /** What is written for a bin in state `s`: its `getMedian()` stored in the output. */
  function Written(s: BinState): int
  {
    Uint8Clamped(MedianOf(s))
  }

  /** Number of channels filtered: `min(shape[2], forceChannels)`, or `shape[2]`. */
  function Channels(img: Image, forceChannels: Option<int>): int
  {
    match forceChannels
    case None => img.d
    case Some(f) => if f < img.d then f else img.d
  }

  // ---------------------------------------------------------------- windows as multisets

  /** Values of channel `ch` in rows y0 .. y1-1 of column `ix`. */
  function Col(img: Image, ch: int, ix: int, y0: int, y1: int): (m: multiset<int>)
    ensures |m| == if y1 <= y0 then 0 else y1 - y0
    decreases y1 - y0
  {
    if y1 <= y0 then multiset{} else Col(img, ch, ix, y0, y1 - 1) + multiset{Px(img, ix, y1 - 1, ch)}
  }

  /** Values of channel `ch` in columns x0 .. x1-1 of row `y`. */
  function Row(img: Image, ch: int, x0: int, x1: int, y: int): (m: multiset<int>)
    ensures |m| == if x1 <= x0 then 0 else x1 - x0
    decreases x1 - x0
  {
    if x1 <= x0 then multiset{} else Row(img, ch, x0, x1 - 1, y) + multiset{Px(img, x1 - 1, y, ch)}
  }

  /** Values of channel `ch` in the rectangle of columns x0 .. x1-1 and rows y0 .. y1-1. */
  function Rect(img: Image, ch: int, x0: int, x1: int, y0: int, y1: int): multiset<int>
    decreases x1 - x0
  {
    if x1 <= x0 then multiset{} else Rect(img, ch, x0, x1 - 1, y0, y1) + Col(img, ch, x1 - 1, y0, y1)
  }

  /** A rectangle of w columns and h rows holds one value per pixel. */
  lemma {:induction false} RectSize(img: Image, ch: int, x0: int, x1: int, y0: int, y1: int, w: nat, h: nat)
    requires x1 == x0 + w && y1 == y0 + h
    ensures |Rect(img, ch, x0, x1, y0, y1)| == w * h
    decreases w
  {
    if w > 0 {
      RectSize(img, ch, x0, x1 - 1, y0, y1, w - 1, h);
      MulPred(w, h);
    }
  }

  lemma MulPred(w: int, h: int)
    ensures w * h == (w - 1) * h + h
  {
  }

  /** The 256 bins that count the values of `M`. */
  function Hist(M: multiset<int>): seq<int>
  {
    seq(256, v => M[v])
  }

  /** The bins are the histogram of `M` and `count` is its size, with no bin near wrapping. */
  predicate Holds(s: BinState, M: multiset<int>)
  {
    s.bins == Hist(M) && IsU32(s.bins) && s.count == |M| && s.count == Sum(s.bins)
  }

  /** Every value of channel `ch` is a byte. */
  predicate Bytes(img: Image, ch: int)
  {
    forall x, y :: 0 <= x < img.w && 0 <= y < img.h ==> 0 <= Px(img, x, y, ch) < 256
  }

  lemma {:induction false} MultiplicityAtMostSize(M: multiset<int>, v: int)
    ensures M[v] <= |M|
    decreases |M|
  {
    if M[v] > 0 {
      var M' := M - multiset{v};
      assert M == M' + multiset{v};
      MultiplicityAtMostSize(M', v);
    }
  }

  /** Adding a byte to a histogram that holds `M` makes it hold `M` with one more `v`. */
  lemma AddHolds(s: BinState, M: multiset<int>, v: int, fixed: bool)
    requires Holds(s, M) && 0 <= v < 256 && |M| + 1 < U32
    ensures Holds(AddOp(s, v, fixed), M + multiset{v})
    ensures fixed && Centred(s) ==> Centred(AddOp(s, v, fixed))
  {
    MultiplicityAtMostSize(M, v);
    AddKeepsCount(s, v);
    assert Hist(M + multiset{v}) == Hist(M)[v := M[v] + 1];
    if fixed && Centred(s) {
      AddFixedKeepsCentred(s, v);
    }
  }

  /** Removing a byte the histogram holds makes it hold the rest. */
  lemma SubHolds(s: BinState, M: multiset<int>, v: int, fixed: bool)
    requires Holds(s, multiset{v} + M) && 0 <= v < 256
    ensures Holds(SubOp(s, v, fixed), M)
    ensures fixed && Centred(s) && |M| >= 1 ==> Centred(SubOp(s, v, fixed))
  {
    SubKeepsCount(s, v);
    assert Hist(M) == Hist(multiset{v} + M)[v := M[v]];
    if fixed && Centred(s) && |M| >= 1 {
      SubFixedKeepsCentred(s, v);
    }
  }

  lemma {:induction false} AddColumnHolds(s: BinState, M: multiset<int>, img: Image, ch: int, ix: int, n: int, fixed: bool)
    requires Holds(s, M) && Bytes(img, ch) && 0 <= ix < img.w && 0 <= n <= img.h
    requires |M| + n < U32
    ensures Holds(AddColumn(s, img, ch, ix, n, fixed), M + Col(img, ch, ix, 0, n))
    decreases n
  {
    if n > 0 {
      AddColumnHolds(s, M, img, ch, ix, n - 1, fixed);
      var v := Px(img, ix, n - 1, ch);
      AddHolds(AddColumn(s, img, ch, ix, n - 1, fixed), M + Col(img, ch, ix, 0, n - 1), v, fixed);
      assert M + Col(img, ch, ix, 0, n) == M + Col(img, ch, ix, 0, n - 1) + multiset{v};
    }
  }

  /** Regrouping a union of three multisets. */
  lemma UnionRegroup(A: multiset<int>, B: multiset<int>, C: multiset<int>)
    ensures (A + B) + C == A + (B + C)
  {
  }

  /** A rectangle is the rectangle one column narrower plus its last column. */
  lemma RectRight(img: Image, ch: int, x0: int, x1: int, y0: int, y1: int)
    requires x0 < x1
    ensures Rect(img, ch, x0, x1, y0, y1) == Rect(img, ch, x0, x1 - 1, y0, y1) + Col(img, ch, x1 - 1, y0, y1)
  {
  }

  /** Adding the last column of a rectangle to a histogram of the rest of it. */
  lemma InitFillStep(t: BinState, M: multiset<int>, R: multiset<int>, img: Image, ch: int, x0: int, x1: int, n: int, fixed: bool)
    requires Bytes(img, ch) && 0 <= x0 < x1 <= img.w && 0 <= n <= img.h
    requires R == Rect(img, ch, x0, x1 - 1, 0, n) && Holds(t, M + R)
    requires |M| + |Rect(img, ch, x0, x1, 0, n)| < U32
    ensures Holds(AddColumn(t, img, ch, x1 - 1, n, fixed), M + Rect(img, ch, x0, x1, 0, n))
  {
    var C := Col(img, ch, x1 - 1, 0, n);
    var W := Rect(img, ch, x0, x1, 0, n);
    assert W == R + C by {
      RectRight(img, ch, x0, x1, 0, n);
    }
    assert (M + R) + C == M + W by {
      UnionRegroup(M, R, C);
    }
    assert |M + R| + n < U32 by {
      assert |M + W| == |M| + |R| + |C|;
    }
    AddColumnHolds(t, M + R, img, ch, x1 - 1, n, fixed);
    HoldsSame(AddColumn(t, img, ch, x1 - 1, n, fixed), (M + R) + C, M + W);
  }

  /** `Holds` of equal multisets. */
  lemma HoldsSame(s: BinState, A: multiset<int>, B: multiset<int>)
    requires Holds(s, A) && A == B
    ensures Holds(s, B)
  {
  }

  lemma {:induction false} InitFillHolds(s: BinState, M: multiset<int>, img: Image, ch: int, x0: int, x1: int, n: int, fixed: bool)
    requires Holds(s, M) && Bytes(img, ch) && 0 <= x0 <= x1 <= img.w && 0 <= n <= img.h
    requires |M| + |Rect(img, ch, x0, x1, 0, n)| < U32
    ensures Holds(InitFill(s, img, ch, x0, x1, n, fixed), M + Rect(img, ch, x0, x1, 0, n))
    decreases x1 - x0
  {
    if x1 > x0 {
      InitFillHolds(s, M, img, ch, x0, x1 - 1, n, fixed);
      InitFillStep(InitFill(s, img, ch, x0, x1 - 1, n, fixed), M, Rect(img, ch, x0, x1 - 1, 0, n), img, ch, x0, x1, n, fixed);
    } else {
      assert M + Rect(img, ch, x0, x1, 0, n) == M;
    }
  }

  lemma {:induction false} AddRowHolds(s: BinState, M: multiset<int>, img: Image, ch: int, x0: int, x1: int, y: int, fixed: bool)
    requires Holds(s, M) && Bytes(img, ch) && 0 <= x0 <= x1 <= img.w && 0 <= y < img.h
    requires |M| + (x1 - x0) < U32
    ensures Holds(AddRow(s, img, ch, x0, x1, y, fixed), M + Row(img, ch, x0, x1, y))
    ensures fixed && Centred(s) ==> Centred(AddRow(s, img, ch, x0, x1, y, fixed))
    decreases x1 - x0
  {
    if x1 > x0 {
      AddRowHolds(s, M, img, ch, x0, x1 - 1, y, fixed);
      var v := Px(img, x1 - 1, y, ch);
      AddHolds(AddRow(s, img, ch, x0, x1 - 1, y, fixed), M + Row(img, ch, x0, x1 - 1, y), v, fixed);
      assert M + Row(img, ch, x0, x1, y) == M + Row(img, ch, x0, x1 - 1, y) + multiset{v};
    }
  }

  lemma {:induction false} SubRowHolds(s: BinState, M: multiset<int>, img: Image, ch: int, x0: int, x1: int, y: int, fixed: bool)
    requires Holds(s, Row(img, ch, x0, x1, y) + M) && Bytes(img, ch) && 0 <= x0 <= x1 <= img.w && 0 <= y < img.h
    ensures Holds(SubRow(s, img, ch, x0, x1, y, fixed), M)
    ensures fixed && Centred(s) && |M| >= 1 ==> Centred(SubRow(s, img, ch, x0, x1, y, fixed))
    decreases x1 - x0
  {
    if x1 > x0 {
      var v := Px(img, x1 - 1, y, ch);
      assert Row(img, ch, x0, x1, y) + M == Row(img, ch, x0, x1 - 1, y) + (multiset{v} + M);
      SubRowHolds(s, multiset{v} + M, img, ch, x0, x1 - 1, y, fixed);
      SubHolds(SubRow(s, img, ch, x0, x1 - 1, y, fixed), M, v, fixed);
    }
  }

  /** Removing `a` and then adding `b`, for one column of `SubAddRow`. */
  lemma SubAddStep(t: BinState, u: BinState, M: multiset<int>, R: multiset<int>, R2: multiset<int>, a: int, b: int, fixed: bool)
    requires Holds(t, (multiset{a} + M) + R) && 0 <= a < 256 && 0 <= b < 256
    requires R2 == R + multiset{b} && |M| + |R2| < U32
    requires u == AddOp(SubOp(t, a, fixed), b, fixed)
    ensures Holds(u, M + R2)
    ensures fixed && Centred(t) && |M| >= 1 ==> Centred(u)
  {
    var rest := M + R;
    assert (multiset{a} + M) + R == multiset{a} + rest;
    SubHolds(t, rest, a, fixed);
    AddHolds(SubOp(t, a, fixed), rest, b, fixed);
    assert M + R2 == rest + multiset{b};
  }

  lemma {:induction false} SubAddRowHolds(s: BinState, M: multiset<int>, img: Image, ch: int, x0: int, x1: int,
                                          ysub: int, yadd: int, fixed: bool)
    requires Holds(s, Row(img, ch, x0, x1, ysub) + M) && Bytes(img, ch) && 0 <= x0 <= x1 <= img.w
    requires 0 <= ysub < img.h && 0 <= yadd < img.h
    requires |M| + (x1 - x0) < U32
    ensures Holds(SubAddRow(s, img, ch, x0, x1, ysub, yadd, fixed), M + Row(img, ch, x0, x1, yadd))
    ensures fixed && Centred(s) && |M| >= 1 ==> Centred(SubAddRow(s, img, ch, x0, x1, ysub, yadd, fixed))
    decreases x1 - x0
  {
    if x1 > x0 {
      var a, b := Px(img, x1 - 1, ysub, ch), Px(img, x1 - 1, yadd, ch);
      assert Row(img, ch, x0, x1, ysub) + M == Row(img, ch, x0, x1 - 1, ysub) + (multiset{a} + M);
      SubAddRowHolds(s, multiset{a} + M, img, ch, x0, x1 - 1, ysub, yadd, fixed);
      SubAddStep(SubAddRow(s, img, ch, x0, x1 - 1, ysub, yadd, fixed), SubAddRow(s, img, ch, x0, x1, ysub, yadd, fixed),
                 M, Row(img, ch, x0, x1 - 1, yadd), Row(img, ch, x0, x1, yadd), a, b, fixed);
    } else {
      assert SubAddRow(s, img, ch, x0, x1, ysub, yadd, fixed) == s;
    }
  }

  /** A rectangle grows by its next row at the bottom. */
  lemma {:induction false} RectBottom(img: Image, ch: int, x0: int, x1: int, y0: int, y1: int)
    requires y0 <= y1
    ensures Rect(img, ch, x0, x1, y0, y1) + Row(img, ch, x0, x1, y1) == Rect(img, ch, x0, x1, y0, y1 + 1)
    decreases x1 - x0
  {
    if x1 > x0 {
      RectBottom(img, ch, x0, x1 - 1, y0, y1);
    }
  }

  lemma {:induction false} ColTop(img: Image, ch: int, ix: int, y0: int, y1: int)
    requires y0 < y1
    ensures Col(img, ch, ix, y0, y1) == multiset{Px(img, ix, y0, ch)} + Col(img, ch, ix, y0 + 1, y1)
    decreases y1 - y0
  {
    if y1 > y0 + 1 {
      ColTop(img, ch, ix, y0, y1 - 1);
    }
  }

  /** A rectangle is its top row and the rows below it. */
  lemma {:induction false} RectTop(img: Image, ch: int, x0: int, x1: int, y0: int, y1: int)
    requires y0 < y1
    ensures Rect(img, ch, x0, x1, y0, y1) == Row(img, ch, x0, x1, y0) + Rect(img, ch, x0, x1, y0 + 1, y1)
    decreases x1 - x0
  {
    if x1 > x0 {
      RectTop(img, ch, x0, x1 - 1, y0, y1);
      ColTop(img, ch, x1 - 1, y0, y1);
    }
  }

  /** A window inside an image of fewer than 2^31 pixels has fewer than 2^31 values. */
  lemma RectFits(img: Image, ch: int, x0: int, x1: int, y0: int, y1: int)
    requires 0 <= x0 <= x1 <= img.w && 0 <= y0 <= y1 <= img.h
    requires img.w * img.h < I31
    ensures |Rect(img, ch, x0, x1, y0, y1)| < I31
  {
    RectSize(img, ch, x0, x1, y0, y1, x1 - x0, y1 - y0);
    AreaFits(|Rect(img, ch, x0, x1, y0, y1)|, x1 - x0, y1 - y0, img.w, img.h);
  }

  /** A count of `a * b` cells with a <= w and b <= h stays below 2^31 when `w * h` does. */
  lemma AreaFits(n: int, a: int, b: int, w: int, h: int)
    requires n == a * b && 0 <= a <= w && 0 <= b <= h && w * h < I31
    ensures n < I31
  {
    ProductFits(a, b, w, h);
  }

  /** A window with a column and a row holds a value. */
  lemma RectNonEmpty(img: Image, ch: int, x0: int, x1: int, y0: int, y1: int)
    requires x0 < x1 && y0 < y1
    ensures |Rect(img, ch, x0, x1, y0, y1)| >= 1
  {
  }

  // ---------------------------------------------------------------- what the bins hold

  /** The filter's preconditions on the image: at least k = 2r + 1 rows, bytes, and a size below 2^31. */
  predicate Shaped(img: Image, ch: int, r: int)
  {
    1 <= r && 2 * r + 1 <= img.h && 0 <= ch < img.d && Bytes(img, ch)
    && img.w * img.h < I31
  }

  /** First row the code's bins hold at `y`: row y - r is removed at y, not at y + 1. */
  function HeldLo(y: int, r: int): int
  {
    if y < r then 0 else y - r + 1
  }

  /** First row of the intended window of `y`. */
  function WindowLo(y: int, r: int): int
  {
    if y - r > 0 then y - r else 0
  }

  /** One past the last row of the window of `y`. */
  function WindowHi(y: int, r: int, h: int): int
  {
    if y + r + 1 < h then y + r + 1 else h
  }

  /** The fill of rows 0 .. n-1 of columns x0 .. x1-1 into empty bins, as written or corrected. */
  lemma FillHolds(img: Image, ch: int, x0: int, x1: int, n: int, fixed: bool)
    requires Bytes(img, ch) && 0 <= x0 <= x1 <= img.w && 0 <= n <= img.h
    requires |Rect(img, ch, x0, x1, 0, n)| < U32
    ensures Holds(InitFill(Empty(256), img, ch, x0, x1, n, fixed), Rect(img, ch, x0, x1, 0, n))
  {
    EmptyIsConsistent(256);
    assert Holds(Empty(256), multiset{});
    InitFillHolds(Empty(256), multiset{}, img, ch, x0, x1, n, fixed);
    assert multiset{} + Rect(img, ch, x0, x1, 0, n) == Rect(img, ch, x0, x1, 0, n);
  }

  /** Adding row `hi` under rows lo .. hi-1. */
  lemma GrowHolds(s: BinState, img: Image, ch: int, x0: int, x1: int, lo: int, hi: int, fixed: bool)
    requires Bytes(img, ch) && 0 <= x0 <= x1 <= img.w && lo <= hi < img.h && 0 <= hi
    requires |Rect(img, ch, x0, x1, lo, hi + 1)| < U32
    requires Holds(s, Rect(img, ch, x0, x1, lo, hi))
    ensures var t := AddRow(s, img, ch, x0, x1, hi, fixed);
      Holds(t, Rect(img, ch, x0, x1, lo, hi + 1)) && (fixed && Centred(s) ==> Centred(t))
  {
    RectBottom(img, ch, x0, x1, lo, hi);
    AddRowHolds(s, Rect(img, ch, x0, x1, lo, hi), img, ch, x0, x1, hi, fixed);
  }

  /** Removing the top row `lo` of rows lo .. hi-1 and adding row `hi`. */
  lemma SlideHolds(s: BinState, img: Image, ch: int, x0: int, x1: int, lo: int, hi: int, fixed: bool)
    requires Bytes(img, ch) && 0 <= x0 <= x1 <= img.w && 0 <= lo < hi < img.h
    requires |Rect(img, ch, x0, x1, lo, hi + 1)| < U32
    requires Holds(s, Rect(img, ch, x0, x1, lo, hi))
    ensures var t := SubAddRow(s, img, ch, x0, x1, lo, hi, fixed);
      Holds(t, Rect(img, ch, x0, x1, lo + 1, hi + 1))
      && (fixed && Centred(s) && lo + 1 < hi && x0 < x1 ==> Centred(t))
  {
    var M := Rect(img, ch, x0, x1, lo + 1, hi);
    RectTop(img, ch, x0, x1, lo, hi);
    RectBottom(img, ch, x0, x1, lo, hi);
    RectBottom(img, ch, x0, x1, lo + 1, hi);
    if lo + 1 < hi && x0 < x1 {
      RectNonEmpty(img, ch, x0, x1, lo + 1, hi);
    }
    SubAddRowHolds(s, M, img, ch, x0, x1, lo, hi, fixed);
  }

  /** Removing the top row `lo` of rows lo .. hi-1. */
  lemma ShrinkHolds(s: BinState, img: Image, ch: int, x0: int, x1: int, lo: int, hi: int, fixed: bool)
    requires Bytes(img, ch) && 0 <= x0 <= x1 <= img.w && 0 <= lo < hi <= img.h
    requires Holds(s, Rect(img, ch, x0, x1, lo, hi))
    ensures var t := SubRow(s, img, ch, x0, x1, lo, fixed);
      Holds(t, Rect(img, ch, x0, x1, lo + 1, hi))
      && (fixed && Centred(s) && lo + 1 < hi && x0 < x1 ==> Centred(t))
  {
    var M := Rect(img, ch, x0, x1, lo + 1, hi);
    RectTop(img, ch, x0, x1, lo, hi);
    if lo + 1 < hi && x0 < x1 {
      RectNonEmpty(img, ch, x0, x1, lo + 1, hi);
    }
    SubRowHolds(s, M, img, ch, x0, x1, lo, fixed);
  }

  /** Bins that hold one multiset hold any equal one, and so does an equal state. */
  lemma HoldsMove(s: BinState, t: BinState, A: multiset<int>, B: multiset<int>)
    requires Holds(s, A) && s == t && A == B
    ensures Holds(t, B)
  {
  }

  /** The rows held before and after step `y` of the code as written, phase by phase. */
  lemma HeldBounds(y: int, r: int, h: int)
    requires 1 <= r && 2 * r + 1 <= h && 0 < y < h
    ensures y < r ==> (HeldLo(y - 1, r) == 0 && WindowHi(y - 1, r, h) == y + r
      && HeldLo(y, r) == 0 && WindowHi(y, r, h) == y + r + 1)
    ensures r <= y < h - r ==> (HeldLo(y - 1, r) == y - r && WindowHi(y - 1, r, h) == y + r
      && HeldLo(y, r) == y - r + 1 && WindowHi(y, r, h) == y + r + 1)
    ensures h - r <= y ==> (HeldLo(y - 1, r) == y - r && WindowHi(y - 1, r, h) == h
      && HeldLo(y, r) == y - r + 1 && WindowHi(y, r, h) == h)
  {
  }

  /** The rows of the intended window before and after step `y`, phase by phase. */
  lemma WindowBounds(y: int, r: int, h: int)
    requires 1 <= r && 2 * r + 1 <= h && 0 < y < h
    ensures y <= r ==> (WindowLo(y - 1, r) == 0 && WindowHi(y - 1, r, h) == y + r
      && WindowLo(y, r) == 0 && WindowHi(y, r, h) == y + r + 1)
    ensures r < y < h - r ==> (WindowLo(y - 1, r) == y - r - 1 && WindowHi(y - 1, r, h) == y + r
      && WindowLo(y, r) == y - r && WindowHi(y, r, h) == y + r + 1)
    ensures h - r <= y ==> (WindowLo(y - 1, r) == y - r - 1 && WindowHi(y - 1, r, h) == h
      && WindowLo(y, r) == y - r && WindowHi(y, r, h) == h)
  {
  }

  /** A rectangle is determined by its bounds. */
  lemma HoldsRect(s: BinState, img: Image, ch: int, x0: int, x1: int, a: int, b: int, c: int, d: int)
    requires a == c && b == d && Holds(s, Rect(img, ch, x0, x1, a, b))
    ensures Holds(s, Rect(img, ch, x0, x1, c, d))
  {
  }

  lemma RectSame(img: Image, ch: int, x0: int, x1: int, a: int, b: int, c: int, d: int)
    requires a == c && b == d
    ensures Rect(img, ch, x0, x1, a, b) == Rect(img, ch, x0, x1, c, d)
  {
  }

  /** The columns of the window around `x` lie inside the image, and there is at least one. */
  lemma ColumnsFit(x: int, r: int, w: int)
    requires 0 <= x < w && 0 <= r
    ensures 0 <= Left(x, r) < Right(x, r, w) <= w
  {
  }

  /** Indexing keeps what the bins hold; the corrected scan centres the cursor. */
  lemma IndexHolds(t: BinState, u: BinState, M: multiset<int>, fixed: bool)
    requires Holds(t, M) && u == IndexOp(t, fixed) && 1 <= |M| < I31
    ensures Holds(u, M) && u.indexed && (fixed ==> Centred(u))
  {
    if fixed {
      IndexFixedCentres(t);
    }
  }

  /** The first row of `ColumnState` is the indexed initial fill. */
  lemma ColumnStarts(img: Image, ch: int, x: int, r: int, fixed: bool, t: BinState)
    requires t == InitFill(Empty(256), img, ch, Left(x, r), Right(x, r, img.w), r + 1, fixed)
    ensures ColumnState(img, ch, x, 0, r, fixed) == IndexOp(t, fixed)
  {
  }

  /** The first row: the bins are filled with rows 0 .. r and indexed. */
  lemma StartHolds(img: Image, ch: int, x: int, r: int, fixed: bool, lo: int, hi: int, s: BinState)
    requires Shaped(img, ch, r) && 0 <= x < img.w && lo == 0 && hi == r + 1
    requires s == ColumnState(img, ch, x, 0, r, fixed)
    ensures Holds(s, Rect(img, ch, Left(x, r), Right(x, r, img.w), lo, hi)) && s.indexed && (fixed ==> Centred(s))
  {
    var x0, x1 := Left(x, r), Right(x, r, img.w);
    var t := InitFill(Empty(256), img, ch, x0, x1, r + 1, fixed);
    ColumnsFit(x, r, img.w);
    StartFill(img, ch, x0, x1, r + 1, fixed);
    ColumnStarts(img, ch, x, r, fixed, t);
    IndexHolds(t, s, Rect(img, ch, x0, x1, lo, hi), fixed);
  }

  /** The initial fill of n >= 1 rows of a non-empty run of columns holds their pixels, at least one. */
  lemma StartFill(img: Image, ch: int, x0: int, x1: int, n: int, fixed: bool)
    requires Bytes(img, ch) && img.w * img.h < I31
    requires 0 <= x0 < x1 <= img.w && 1 <= n <= img.h
    ensures var M := Rect(img, ch, x0, x1, 0, n);
      Holds(InitFill(Empty(256), img, ch, x0, x1, n, fixed), M) && 1 <= |M| < I31
  {
    RectFits(img, ch, x0, x1, 0, n);
    FillHolds(img, ch, x0, x1, n, fixed);
    RectNonEmpty(img, ch, x0, x1, 0, n);
  }

  /** The phases of `ColumnState`, one equation each. */
  lemma ColumnGrows(img: Image, ch: int, x: int, y: nat, r: int, fixed: bool, hi: int)
    requires 0 < y && (if fixed then y <= r else y < r) && hi == y + r
    ensures ColumnState(img, ch, x, y, r, fixed)
      == AddRow(ColumnState(img, ch, x, y - 1, r, fixed), img, ch, Left(x, r), Right(x, r, img.w), hi, fixed)
  {
  }

  lemma ColumnSlides(img: Image, ch: int, x: int, y: nat, r: int, fixed: bool, lo: int, hi: int)
    requires 0 < y < img.h - r && (if fixed then r < y else r <= y)
    requires lo == (if fixed then y - r - 1 else y - r) && hi == y + r
    ensures ColumnState(img, ch, x, y, r, fixed)
      == SubAddRow(ColumnState(img, ch, x, y - 1, r, fixed), img, ch, Left(x, r), Right(x, r, img.w), lo, hi, fixed)
  {
  }

  lemma ColumnShrinks(img: Image, ch: int, x: int, y: nat, r: int, fixed: bool, lo: int)
    requires 0 < y && img.h - r <= y && (if fixed then r < y else r <= y)
    requires lo == (if fixed then y - r - 1 else y - r)
    ensures ColumnState(img, ch, x, y, r, fixed)
      == SubRow(ColumnState(img, ch, x, y - 1, r, fixed), img, ch, Left(x, r), Right(x, r, img.w), lo, fixed)
  {
  }

  /** A step that only adds row `hi`: rows lo .. hi-1 become lo2 .. hi2-1. */
  lemma GrowStep(prev: BinState, s: BinState, img: Image, ch: int, x0: int, x1: int, lo: int, hi: int, lo2: int, hi2: int, fixed: bool)
    requires Bytes(img, ch) && img.w * img.h < I31
    requires 0 <= x0 <= x1 <= img.w && 0 <= lo <= hi < img.h && lo2 == lo && hi2 == hi + 1
    requires s == AddRow(prev, img, ch, x0, x1, hi, fixed)
    requires Holds(prev, Rect(img, ch, x0, x1, lo, hi))
    ensures Holds(s, Rect(img, ch, x0, x1, lo2, hi2)) && (fixed && Centred(prev) ==> Centred(s))
  {
    RectFits(img, ch, x0, x1, lo, hi + 1);
    GrowHolds(prev, img, ch, x0, x1, lo, hi, fixed);
    HoldsRect(s, img, ch, x0, x1, lo, hi + 1, lo2, hi2);
  }

  /** A step that removes row `lo` and adds row `hi`. */
  lemma SlideStep(prev: BinState, s: BinState, img: Image, ch: int, x0: int, x1: int, lo: int, hi: int, lo2: int, hi2: int, fixed: bool)
    requires Bytes(img, ch) && img.w * img.h < I31
    requires 0 <= x0 < x1 <= img.w && 0 <= lo && lo + 1 < hi < img.h && lo2 == lo + 1 && hi2 == hi + 1
    requires s == SubAddRow(prev, img, ch, x0, x1, lo, hi, fixed)
    requires Holds(prev, Rect(img, ch, x0, x1, lo, hi))
    ensures Holds(s, Rect(img, ch, x0, x1, lo2, hi2)) && (fixed && Centred(prev) ==> Centred(s))
  {
    SlideStepHolds(prev, s, img, ch, x0, x1, lo, hi, fixed);
    SlideStepCentred(prev, s, img, ch, x0, x1, lo, hi, fixed);
    HoldsRect(s, img, ch, x0, x1, lo + 1, hi + 1, lo2, hi2);
  }

  /** The two halves of `SlideStep`, each in its own small context. */
  lemma SlideStepHolds(prev: BinState, s: BinState, img: Image, ch: int, x0: int, x1: int, lo: int, hi: int, fixed: bool)
    requires Bytes(img, ch) && img.w * img.h < I31
    requires 0 <= x0 < x1 <= img.w && 0 <= lo && lo + 1 < hi < img.h
    requires s == SubAddRow(prev, img, ch, x0, x1, lo, hi, fixed)
    requires Holds(prev, Rect(img, ch, x0, x1, lo, hi))
    ensures Holds(s, Rect(img, ch, x0, x1, lo + 1, hi + 1))
  {
    RectFits(img, ch, x0, x1, lo, hi + 1);
    SlideHolds(prev, img, ch, x0, x1, lo, hi, fixed);
  }

  lemma SlideStepCentred(prev: BinState, s: BinState, img: Image, ch: int, x0: int, x1: int, lo: int, hi: int, fixed: bool)
    requires Bytes(img, ch) && img.w * img.h < I31
    requires 0 <= x0 < x1 <= img.w && 0 <= lo && lo + 1 < hi < img.h
    requires s == SubAddRow(prev, img, ch, x0, x1, lo, hi, fixed)
    requires Holds(prev, Rect(img, ch, x0, x1, lo, hi))
    ensures fixed && Centred(prev) ==> Centred(s)
  {
    RectFits(img, ch, x0, x1, lo, hi + 1);
    SlideHolds(prev, img, ch, x0, x1, lo, hi, fixed);
  }

  /** A step near the bottom edge, which only removes row `lo`. */
  lemma ShrinkStep(prev: BinState, s: BinState, img: Image, ch: int, x0: int, x1: int, lo: int, hi: int, lo2: int, hi2: int, fixed: bool)
    requires Bytes(img, ch)
    requires 0 <= x0 < x1 <= img.w && 0 <= lo && lo + 1 < hi <= img.h && lo2 == lo + 1 && hi2 == hi
    requires s == SubRow(prev, img, ch, x0, x1, lo, fixed)
    requires Holds(prev, Rect(img, ch, x0, x1, lo, hi))
    ensures Holds(s, Rect(img, ch, x0, x1, lo2, hi2)) && (fixed && Centred(prev) ==> Centred(s))
  {
    ShrinkHolds(prev, img, ch, x0, x1, lo, hi, fixed);
    HoldsRect(s, img, ch, x0, x1, lo + 1, hi, lo2, hi2);
  }

  /**
   * As written, when pixel (x, y) is written the bins of channel `ch` are
   * the histogram of columns `Left .. Right-1` and rows `HeldLo(y) ..
   * WindowHi(y)-1`, with `count` the number of those pixels.
   */
  lemma {:induction false} HeldWindow(img: Image, ch: int, x: int, y: nat, r: int)
    requires Shaped(img, ch, r) && 0 <= x < img.w && y < img.h
    ensures var s := ColumnState(img, ch, x, y, r, false);
      Holds(s, Rect(img, ch, Left(x, r), Right(x, r, img.w), HeldLo(y, r), WindowHi(y, r, img.h)))
      && s.indexed
    decreases y
  {
    var h := img.h;
    if y == 0 {
      StartHolds(img, ch, x, r, false, HeldLo(0, r), WindowHi(0, r, h), ColumnState(img, ch, x, 0, r, false));
    } else {
      HeldWindow(img, ch, x, y - 1, r);
      HeldBounds(y, r, h);
      ColumnsFit(x, r, img.w);
      var x0, x1 := Left(x, r), Right(x, r, img.w);
      var prev, s := ColumnState(img, ch, x, y - 1, r, false), ColumnState(img, ch, x, y, r, false);
      var lo, hi, lo2, hi2 := HeldLo(y - 1, r), WindowHi(y - 1, r, h), HeldLo(y, r), WindowHi(y, r, h);
      if y < r {
        ColumnGrows(img, ch, x, y, r, false, hi);
        GrowStep(prev, s, img, ch, x0, x1, lo, hi, lo2, hi2, false);
      } else if y < h - r {
        ColumnSlides(img, ch, x, y, r, false, lo, hi);
        SlideStep(prev, s, img, ch, x0, x1, lo, hi, lo2, hi2, false);
      } else {
        ColumnShrinks(img, ch, x, y, r, false, lo);
        ShrinkStep(prev, s, img, ch, x0, x1, lo, hi, lo2, hi2, false);
      }
    }
  }

  /**
   * The window's own top row is missing: from y = r on, the held pixels and
   * row y - r together make up the whole intended window, so `count` is
   * short by the window's width.
   */
  lemma TopRowDropped(img: Image, ch: int, x: int, y: nat, r: int)
    requires Shaped(img, ch, r) && 0 <= x < img.w && r <= y < img.h
    ensures var x0, x1 := Left(x, r), Right(x, r, img.w);
      var s := ColumnState(img, ch, x, y, r, false);
      var W := Rect(img, ch, x0, x1, WindowLo(y, r), WindowHi(y, r, img.h));
      W == Row(img, ch, x0, x1, y - r) + Rect(img, ch, x0, x1, HeldLo(y, r), WindowHi(y, r, img.h))
      && s.count == |W| - (x1 - x0) && x1 - x0 >= 1
  {
    HeldWindow(img, ch, x, y, r);
    RectTop(img, ch, Left(x, r), Right(x, r, img.w), y - r, WindowHi(y, r, img.h));
  }

  /** The intended window of row `y` and the corrected state there agree, and the cursor is centred. */
  predicate Tracks(img: Image, ch: int, x: int, y: nat, r: int)
  {
    var s := ColumnState(img, ch, x, y, r, true);
    Holds(s, Rect(img, ch, Left(x, r), Right(x, r, img.w), WindowLo(y, r), WindowHi(y, r, img.h)))
    && Centred(s)
  }

  /** Corrected steps y <= r: row y + r is added. */
  lemma FixedGrowAt(img: Image, ch: int, x: int, y: nat, r: int)
    requires Shaped(img, ch, r) && 0 <= x < img.w && 0 < y <= r && Tracks(img, ch, x, y - 1, r)
    ensures Tracks(img, ch, x, y, r)
  {
    var h := img.h;
    WindowBounds(y, r, h);
    ColumnsFit(x, r, img.w);
    var hi := WindowHi(y - 1, r, h);
    ColumnGrows(img, ch, x, y, r, true, hi);
    GrowStep(ColumnState(img, ch, x, y - 1, r, true), ColumnState(img, ch, x, y, r, true), img, ch,
      Left(x, r), Right(x, r, img.w), WindowLo(y - 1, r), hi, WindowLo(y, r), WindowHi(y, r, h), true);
  }

  /** Corrected steps r < y < H - r: row y - r - 1 is removed and row y + r added. */
  lemma FixedSlideAt(img: Image, ch: int, x: int, y: nat, r: int)
    requires Shaped(img, ch, r) && 0 <= x < img.w && r < y < img.h - r && Tracks(img, ch, x, y - 1, r)
    ensures Tracks(img, ch, x, y, r)
  {
    var h := img.h;
    WindowBounds(y, r, h);
    ColumnsFit(x, r, img.w);
    var lo, hi := WindowLo(y - 1, r), WindowHi(y - 1, r, h);
    ColumnSlides(img, ch, x, y, r, true, lo, hi);
    SlideStep(ColumnState(img, ch, x, y - 1, r, true), ColumnState(img, ch, x, y, r, true), img, ch,
      Left(x, r), Right(x, r, img.w), lo, hi, WindowLo(y, r), WindowHi(y, r, h), true);
  }

  /** Corrected steps y >= H - r: row y - r - 1 is removed. */
  lemma FixedShrinkAt(img: Image, ch: int, x: int, y: nat, r: int)
    requires Shaped(img, ch, r) && 0 <= x < img.w && img.h - r <= y < img.h && Tracks(img, ch, x, y - 1, r)
    ensures Tracks(img, ch, x, y, r)
  {
    var h := img.h;
    WindowBounds(y, r, h);
    ColumnsFit(x, r, img.w);
    var lo := WindowLo(y - 1, r);
    ColumnShrinks(img, ch, x, y, r, true, lo);
    ShrinkStep(ColumnState(img, ch, x, y - 1, r, true), ColumnState(img, ch, x, y, r, true), img, ch,
      Left(x, r), Right(x, r, img.w), lo, h, WindowLo(y, r), h, true);
  }

  /**
   * The intended filter: when pixel (x, y) is written the bins of channel
   * `ch` are the histogram of the whole window (columns `Left .. Right-1`,
   * rows `WindowLo(y) .. WindowHi(y)-1`) and the cursor sits on the element
   * of rank `count >> 1`.
   */
  lemma {:induction false} FixedWindow(img: Image, ch: int, x: int, y: nat, r: int)
    requires Shaped(img, ch, r) && 0 <= x < img.w && y < img.h
    ensures Tracks(img, ch, x, y, r)
    decreases y
  {
    if y == 0 {
      StartHolds(img, ch, x, r, true, WindowLo(0, r), WindowHi(0, r, img.h), ColumnState(img, ch, x, 0, r, true));
    } else {
      FixedWindow(img, ch, x, y - 1, r);
      if y <= r {
        FixedGrowAt(img, ch, x, y, r);
      } else if y < img.h - r {
        FixedSlideAt(img, ch, x, y, r);
      } else {
        FixedShrinkAt(img, ch, x, y, r);
      }
    }
  }

  /**
   * What the intended filter writes at (x, y): the bin `m` where the
   * cumulative histogram of the window passes `count >> 1`, that is, the
   * window's median value.
   */
  lemma FixedWritesMedian(img: Image, ch: int, x: int, y: nat, r: int)
    requires Shaped(img, ch, r) && 0 <= x < img.w && y < img.h
    ensures var W := Rect(img, ch, Left(x, r), Right(x, r, img.w), WindowLo(y, r), WindowHi(y, r, img.h));
      var m := Written(ColumnState(img, ch, x, y, r, true));
      0 <= m < 256 && W[m] > 0 && Sum(Hist(W)[..m]) <= |W| / 2 < Sum(Hist(W)[..m + 1])
  {
    FixedWindow(img, ch, x, y, r);
    CentredMedian(ColumnState(img, ch, x, y, r, true));
  }
}
