/**
 * Shared vocabulary of the model: optional values, results of operations that
 * can throw, the clamping done by a Uint8ClampedArray, the flat layout of a
 * two-dimensional ndarray, and counting over sequences.
 */
module Common {

  /** A value that may be absent (JavaScript `null` / `undefined`). */
  datatype Option<+T> = None | Some(value: T)

  /** The outcome of an operation that either returns a value or throws. */
  datatype Result<+T> = Ok(value: T) | Err(message: string)

  /** 2^32: a Uint32Array element is stored modulo this. */
  const U32: int := 0x1_0000_0000

  /** 2^31: the bound of the signed 32-bit integers the shift operators work on. */
  const I31: int := 0x8000_0000

  /** The signed 32-bit integer the shift operators convert their operand to. */
  function ToInt32(n: int): (r: int)
    ensures -I31 <= r < I31
    ensures -I31 <= n < I31 ==> r == n
  {
    if -I31 <= n < I31 then n else (n + I31) % U32 - I31
  }

  /**
   * `a >> n` for the shift widths 1 and 2: an arithmetic shift of the 32-bit
   * conversion of `a`, that is, a division by 2^n rounding down.
   */
  function Shr(a: int, n: nat): (r: int)
    requires 1 <= n <= 2
    ensures -I31 <= r < I31
    ensures -I31 <= a < I31 ==> r == if n == 1 then a / 2 else a / 4
  {
    if n == 1 then ToInt32(a) / 2 else ToInt32(a) / 4
  }

  /** A pixel or grid coordinate `[x, y]`. */
  type Coord = (int, int)

  /** The value a Uint8ClampedArray stores when an integer is written to it. */
  function Clamp8(v: int): (r: int)
    ensures 0 <= r <= 255
    ensures 0 <= v <= 255 ==> r == v
    ensures v < 0 ==> r == 0
    ensures v > 255 ==> r == 255
  {
    if v < 0 then 0 else if v > 255 then 255 else v
  }

  /**
   * Position of (x, y) in the data of an ndarray of shape [w, h]: the
   * default strides of ndarray are [h, 1].
   */
  function Idx(x: int, y: int, h: int): int
  {
    x * h + y
  }

  lemma MulMono(a: int, b: int, c: int)
    requires a <= b && c >= 0
    ensures a * c <= b * c
  {
  }

  /** A sub-rectangle has no more cells than the rectangle around it. */
  lemma ProductFits(a: int, b: int, w: int, h: int)
    requires 0 <= a <= w && 0 <= b <= h
    ensures a * b <= w * h
  {
    MulMono(a, w, b);
    MulMono(b, h, w);
    assert b * w == w * b && h * w == w * h;
  }

  /** Every in-range coordinate has an in-range flat position. */
  lemma IdxInRange(x: int, y: int, w: int, h: int)
    requires 0 <= x < w && 0 <= y < h
    ensures 0 <= Idx(x, y, h) < w * h
  {
    MulMono(0, x, h);
    MulMono(x + 1, w, h);
  }

  /** A scan position of an x-major loop over a [w, h] grid lies within 0 .. w * h. */
  lemma IdxScanBound(x: int, y: int, w: int, h: int)
    requires 0 <= x <= w && 0 <= y <= h && (x < w || y == 0)
    ensures 0 <= Idx(x, y, h) <= w * h
  {
    MulMono(0, x, h);
    if x < w {
      MulMono(x + 1, w, h);
    }
  }

  /** The same, for every coordinate at once. */
  lemma IdxAllInRange(w: int, h: int)
    ensures forall x, y :: 0 <= x < w && 0 <= y < h ==> 0 <= Idx(x, y, h) < w * h
  {
    forall x, y | 0 <= x < w && 0 <= y < h
      ensures 0 <= Idx(x, y, h) < w * h
    {
      IdxInRange(x, y, w, h);
    }
  }

  /** The flat position determines the coordinate. */
  lemma IdxInjective(x: int, y: int, x': int, y': int, h: int)
    requires 0 <= y < h && 0 <= y' < h
    requires Idx(x, y, h) == Idx(x', y', h)
    ensures x == x' && y == y'
  {
    if x < x' {
      MulMono(x + 1, x', h);
      assert false;
    } else if x' < x {
      MulMono(x' + 1, x, h);
      assert false;
    }
  }

  /**
   * Truthiness of the mask entry at (x, y): a read past the data gives
   * `undefined`, which is falsy like 0.
   */
  function MaskAt(mask: array<int>, x: int, y: int, h: int): int
    reads mask
  {
    var i := Idx(x, y, h);
    if 0 <= i < mask.Length then mask[i] else 0
  }

  /** Flat positions of a column follow each other, and columns follow each other. */
  lemma IdxNext(x: int, y: int, h: int)
    ensures Idx(x, y + 1, h) == Idx(x, y, h) + 1
    ensures Idx(x + 1, 0, h) == Idx(x, h, h)
  {
  }

  /** The coordinate of a flat position of an ndarray of shape [w, h]. */
  lemma IdxOf(i: int, w: int, h: int)
    requires 0 <= i < w * h && h > 0
    ensures 0 <= i / h < w && 0 <= i % h < h && Idx(i / h, i % h, h) == i
  {
    if i / h >= w {
      MulMono(w, i / h, h);
      assert false;
    }
  }

  /** Number of positions of `s` holding `v`. */
  function CountEq(s: seq<int>, v: int): (n: nat)
    ensures n <= |s|
  {
    if |s| == 0 then 0 else CountEq(s[..|s| - 1], v) + (if s[|s| - 1] == v then 1 else 0)
  }

  /** Counting over a sequence extended by one element. */
  lemma CountEqSnoc(s: seq<int>, x: int, v: int)
    ensures CountEq(s + [x], v) == CountEq(s, v) + (if x == v then 1 else 0)
  {
    assert (s + [x])[..|s|] == s;
  }

  /** Writing one position changes the count of `v` by at most one, as expected. */
  lemma {:induction false} CountEqUpdate(s: seq<int>, i: int, x: int, v: int)
    requires 0 <= i < |s|
    ensures CountEq(s[i := x], v)
         == CountEq(s, v) - (if s[i] == v then 1 else 0) + (if x == v then 1 else 0)
  {
    var n := |s| - 1;
    if i == n {
      assert s[i := x][..n] == s[..n];
    } else {
      assert s[i := x][..n] == s[..n][i := x];
      CountEqUpdate(s[..n], i, x, v);
    }
  }

  /** Two sequences that hold `v` at the same positions hold it equally often. */
  lemma {:induction false} CountEqSamePositions(s: seq<int>, t: seq<int>, v: int, u: int)
    requires |s| == |t|
    requires forall i :: 0 <= i < |s| ==> (s[i] == v <==> t[i] == u)
    ensures CountEq(s, v) == CountEq(t, u)
  {
    if |s| > 0 {
      CountEqSamePositions(s[..|s| - 1], t[..|t| - 1], v, u);
    }
  }

  /** A value held somewhere is counted at least once; a value held nowhere is not counted. */
  lemma {:induction false} CountEqPresence(s: seq<int>, v: int)
    ensures CountEq(s, v) >= 1 <==> exists i :: 0 <= i < |s| && s[i] == v
  {
    if |s| > 0 {
      CountEqPresence(s[..|s| - 1], v);
      if s[|s| - 1] != v && exists i :: 0 <= i < |s| && s[i] == v {
        var i :| 0 <= i < |s| && s[i] == v;
        assert s[..|s| - 1][i] == v;
      }
    }
  }

  /** A slice inside the left operand of a concatenation. */
  lemma SliceLeft<T>(a: seq<T>, b: seq<T>, lo: int, hi: int)
    requires 0 <= lo <= hi <= |a|
    ensures (a + b)[lo..hi] == a[lo..hi]
  {
  }

  /** The right operand of a concatenation, sliced back out. */
  lemma SliceRight<T>(a: seq<T>, b: seq<T>)
    ensures (a + b)[|a|..|a| + |b|] == b
  {
  }

  /** One term of the tolerance distance: the difference scaled by 1/255, squared. */
  function SqDiff(p: int, q: int): (d: real)
    ensures d >= 0.0
    ensures d == 0.0 <==> p == q
  {
    var t := (p - q) as real / 255.0;
    t * t
  }

  /** The tolerance distance over the first n channels of a pixel. */
  function DistanceUpTo(p: seq<int>, color: seq<int>, n: nat): (d: real)
    requires n <= |p| && n <= |color|
    ensures d >= 0.0
    ensures d == 0.0 <==> p[..n] == color[..n]
  {
    if n == 0 then 0.0
    else
      assert p[..n] == p[..n - 1] + [p[n - 1]] && color[..n] == color[..n - 1] + [color[n - 1]];
      DistanceUpTo(p, color, n - 1) + SqDiff(p[n - 1], color[n - 1])
  }

  /** The sum of the scaled squared RGB differences between a pixel and a colour. */
  function Distance(p: seq<int>, color: seq<int>): real
    requires |p| >= 3 && |color| >= 3
  {
    DistanceUpTo(p, color, 3)
  }

  /** Channels 0-2 of the pixel at (x, y). */
  function Rgb(arr: array3<int>, x: int, y: int): (p: seq<int>)
    reads arr
    requires 0 <= x < arr.Length0 && 0 <= y < arr.Length1 && arr.Length2 >= 3
    ensures |p| == 3
  {
    [arr[x, y, 0], arr[x, y, 1], arr[x, y, 2]]
  }

  /** The channel loop of the tolerance tests: `val` summed over channels 0-2. */
  method PixelDistance(arr: array3<int>, x: int, y: int, color: seq<int>) returns (val: real)
    requires 0 <= x < arr.Length0 && 0 <= y < arr.Length1 && arr.Length2 >= 3 && |color| >= 3
    ensures val == Distance(Rgb(arr, x, y), color)
  {
    val := 0.0;
    var ch := 0;
    while ch < 3
      invariant 0 <= ch <= 3
      invariant val == DistanceUpTo(Rgb(arr, x, y), color, ch)
    {
      var tmp := (arr[x, y, ch] - color[ch]) as real / 255.0;
      tmp := tmp * tmp;
      val := val + tmp;
      ch := ch + 1;
    }
  }

  /**
   * `mask.set(x, y, v)` on an ndarray of shape [w, h]: the one cell at (x, y)
   * changes, every other cell keeps its value.
   */
  method SetAt(mask: array<int>, w: int, h: int, x: int, y: int, v: int)
    requires mask.Length == w * h && 0 <= x < w && 0 <= y < h
    modifies mask
    ensures forall i, j :: 0 <= i < w && 0 <= j < h ==> 0 <= Idx(i, j, h) < mask.Length
    ensures forall i, j :: 0 <= i < w && 0 <= j < h ==>
      mask[Idx(i, j, h)] == if i == x && j == y then v else old(mask[Idx(i, j, h)])
  {
    IdxAllInRange(w, h);
    forall i, j | 0 <= i < w && 0 <= j < h && (i != x || j != y)
      ensures Idx(i, j, h) != Idx(x, y, h)
    {
      if Idx(i, j, h) == Idx(x, y, h) {
        IdxInjective(i, j, x, y, h);
      }
    }
    mask[Idx(x, y, h)] := v;
  }
}
