/**
 * The stroke history of the drawing panel (`MPState` in docs/js/mp.js).
 *
 * The panel keeps five parallel arrays, one entry per stroke: the stroke
 * vectors, their sizes and their red, green and blue levels. `strokeIndex` is
 * the number of strokes shown; `dataIndex` is the number of strokes recorded,
 * so strokes between the two can be stepped forward again.
 *
 * `History` is the value of those fields. `AddStrokeSpec`, `SetStrokeIndexSpec`,
 * `SetDataIndexSpec`, `ForwardSpec` and `ClearSpec` describe the code as
 * written, and the methods of `MPState` are proved to follow them.
 * `AddStrokeFixed` and `ClearFixed` describe the evidently intended behaviour
 * of the two operations that leave the arrays out of step.
 */
module MP {
  import opened Common
  import SvgBuilder

  /** A stroke vector `[startX, startY, endX, endY, size, [r, g, b]]`. */
  type Stroke = SvgBuilder.Stroke

  const WIDTH: int := 640
  const HEIGHT: int := 480

  /** What reading an array entry gives: `null`, `undefined`, or a value. */
  datatype Lookup<+T> = Null | Undefined | Found(value: T)

  /** The fields of `MPState` that hold the stroke history. */
  datatype History = History(
    state: seq<Stroke>,
    sizes: seq<int>,
    reds: seq<int>,
    greens: seq<int>,
    blues: seq<int>,
    strokeIndex: nat,
    dataIndex: nat)

  /** The history of a fresh panel. */
  function Initial(): (h: History)
    ensures Consistent(h) && h.strokeIndex == 0 && Visible(h) == []
  {
    History([], [], [], [], [], 0, 0)
  }

  /**
   * The shape every well-behaved history has: five arrays of one length,
   * which is `dataIndex`, and at most that many strokes shown.
   */
  predicate Consistent(h: History)
  {
    |h.state| == h.dataIndex && |h.sizes| == h.dataIndex && |h.reds| == h.dataIndex
    && |h.greens| == h.dataIndex && |h.blues| == h.dataIndex
    && h.strokeIndex <= h.dataIndex
  }

  // ---------------------------------------------------------------- reading

  /** `inBounds`: both end points lie on the canvas, edges included. */
  predicate InBounds(startX: int, startY: int, endX: int, endY: int)
  {
    0 <= startX <= WIDTH && 0 <= startY <= HEIGHT
    && 0 <= endX <= WIDTH && 0 <= endY <= HEIGHT
  }

  /** `inBounds` on the coordinates the panel's own unit tests use. */
  lemma InBoundsExamples()
    ensures !InBounds(-1, 5, 5, 5) && !InBounds(0, 5, 641, 5) && !InBounds(0, 5, 5, 481)
    ensures InBounds(0, 5, 5, 5) && InBounds(WIDTH, HEIGHT, 0, 0)
  {
  }

  /** `a.slice(0, k)` for k >= 0: the first k entries, or all of them if there are fewer. */
  function Slice<T>(s: seq<T>, k: nat): (r: seq<T>)
    ensures |r| == if k <= |s| then k else |s|
    ensures r <= s
  {
    if k <= |s| then s[..k] else s
  }

  /** `arr[i]` for i >= 0: `undefined` past the end. */
  function At<T>(s: seq<T>, i: nat): (r: Lookup<T>)
    ensures r != Null
    ensures r.Found? <==> i < |s|
  {
    if i < |s| then Found(s[i]) else Undefined
  }

  /** `getCurrentStroke`: `null` before the first stroke, else the last stroke shown. */
  function CurrentStroke(h: History): (r: Lookup<Stroke>)
    ensures r == Null <==> h.strokeIndex == 0
    ensures r.Found? <==> 0 < h.strokeIndex <= |h.state|
    ensures r.Found? ==> r.value == h.state[h.strokeIndex - 1]
  {
    if h.strokeIndex > 0 then At(h.state, h.strokeIndex - 1) else Null
  }

  /** `getCurrentSize`: `null` before the first stroke, else the size of the last stroke shown. */
  function CurrentSize(h: History): (r: Lookup<int>)
    ensures r == Null <==> h.strokeIndex == 0
    ensures r.Found? <==> 0 < h.strokeIndex <= |h.sizes|
    ensures r.Found? ==> r.value == h.sizes[h.strokeIndex - 1]
  {
    if h.strokeIndex > 0 then At(h.sizes, h.strokeIndex - 1) else Null
  }

  /** `getVisibleStrokes`: the strokes shown. */
  function Visible(h: History): seq<Stroke>
  {
    Slice(h.state, h.strokeIndex)
  }

  /** In a consistent history the current stroke and size are those of the last stroke shown. */
  lemma CurrentIsLastVisible(h: History)
    requires Consistent(h) && h.strokeIndex > 0
    ensures |Visible(h)| == h.strokeIndex
    ensures CurrentStroke(h) == Found(Visible(h)[h.strokeIndex - 1])
    ensures CurrentSize(h) == Found(h.sizes[h.strokeIndex - 1])
  {
  }

  // ---------------------------------------------------------------- adding

  /** The stroke vector `addStroke` builds: the coordinates, the size and the first three levels. */
  function NewStroke(startX: int, startY: int, endX: int, endY: int, lineSize: int, levels: seq<int>): Stroke
    requires |levels| >= 3
  {
    SvgBuilder.Stroke(startX, startY, endX, endY, lineSize, levels[..3])
  }

  /** The five pushes of `addStroke`. */
  function Push(h: History, s: Stroke, lineSize: int, levels: seq<int>): (r: History)
    requires |levels| >= 3
    ensures r.state == h.state + [s] && r.sizes == h.sizes + [lineSize]
    ensures r.reds == h.reds + [levels[0]] && r.greens == h.greens + [levels[1]]
    ensures r.blues == h.blues + [levels[2]]
    ensures r.strokeIndex == h.strokeIndex && r.dataIndex == h.dataIndex
  {
    h.(state := h.state + [s], sizes := h.sizes + [lineSize], reds := h.reds + [levels[0]],
       greens := h.greens + [levels[1]], blues := h.blues + [levels[2]])
  }

  /** The five slices `addStroke` takes when it overwrites. */
  function Truncate(h: History, k: nat): (r: History)
    ensures r.state == Slice(h.state, k) && r.sizes == Slice(h.sizes, k)
    ensures r.reds == Slice(h.reds, k) && r.greens == Slice(h.greens, k)
    ensures r.blues == Slice(h.blues, k)
    ensures r.strokeIndex == h.strokeIndex && r.dataIndex == h.dataIndex
  {
    h.(state := Slice(h.state, k), sizes := Slice(h.sizes, k), reds := Slice(h.reds, k),
       greens := Slice(h.greens, k), blues := Slice(h.blues, k))
  }

  /**
   * `addStroke` as written: an in-bounds stroke is pushed onto the five
   * arrays; when strokes were stepped back over (`dataIndex > strokeIndex`)
   * the arrays are then cut to `strokeIndex` entries, which drops the stroke
   * just pushed; finally one more stroke is shown and recorded.
   */
  function AddStrokeSpec(h: History, startX: int, startY: int, endX: int, endY: int, lineSize: int, levels: seq<int>): (r: History)
    requires |levels| >= 3
    ensures !InBounds(startX, startY, endX, endY) ==> r == h
    ensures InBounds(startX, startY, endX, endY) ==>
      r.strokeIndex == h.strokeIndex + 1 && r.dataIndex == r.strokeIndex
  {
    if !InBounds(startX, startY, endX, endY) then h
    else
      var pushed := Push(h, NewStroke(startX, startY, endX, endY, lineSize, levels), lineSize, levels);
      var kept := if h.dataIndex > h.strokeIndex then Truncate(pushed, h.strokeIndex) else pushed;
      kept.(strokeIndex := h.strokeIndex + 1, dataIndex := h.strokeIndex + 1)
  }

  /**
   * `addStroke` as intended: the strokes past `strokeIndex` are cut before
   * the new stroke is pushed.
   */
  function AddStrokeFixed(h: History, startX: int, startY: int, endX: int, endY: int, lineSize: int, levels: seq<int>): (r: History)
    requires |levels| >= 3
    ensures !InBounds(startX, startY, endX, endY) ==> r == h
    ensures InBounds(startX, startY, endX, endY) ==>
      r.strokeIndex == h.strokeIndex + 1 && r.dataIndex == r.strokeIndex
  {
    if !InBounds(startX, startY, endX, endY) then h
    else
      var kept := if h.dataIndex > h.strokeIndex then Truncate(h, h.strokeIndex) else h;
      var pushed := Push(kept, NewStroke(startX, startY, endX, endY, lineSize, levels), lineSize, levels);
      pushed.(strokeIndex := h.strokeIndex + 1, dataIndex := h.strokeIndex + 1)
  }

  /**
   * With nothing to overwrite, `addStroke` as written appends the stroke and
   * shows it: it becomes the current stroke, with its size and colour.
   */
  lemma AddAtEndAppends(h: History, startX: int, startY: int, endX: int, endY: int, lineSize: int, levels: seq<int>)
    requires |levels| >= 3 && Consistent(h) && h.strokeIndex == h.dataIndex
    requires InBounds(startX, startY, endX, endY)
    ensures var r := AddStrokeSpec(h, startX, startY, endX, endY, lineSize, levels);
      var s := NewStroke(startX, startY, endX, endY, lineSize, levels);
      Consistent(r) && Visible(r) == Visible(h) + [s]
      && CurrentStroke(r) == Found(s) && CurrentSize(r) == Found(lineSize)
      && r.reds[h.strokeIndex] == levels[0] && r.greens[h.strokeIndex] == levels[1]
      && r.blues[h.strokeIndex] == levels[2]
  {
    var r := AddStrokeSpec(h, startX, startY, endX, endY, lineSize, levels);
    assert Visible(h) == h.state;
    assert Visible(r) == r.state;
  }

  /**
   * After stepping back, `addStroke` as written loses the stroke it was given:
   * the arrays end one entry short of `strokeIndex`, so the current stroke and
   * size read `undefined`.
   */
  lemma AddAfterRewindLosesStroke(h: History, startX: int, startY: int, endX: int, endY: int, lineSize: int, levels: seq<int>)
    requires |levels| >= 3 && Consistent(h) && h.strokeIndex < h.dataIndex
    requires InBounds(startX, startY, endX, endY)
    ensures var r := AddStrokeSpec(h, startX, startY, endX, endY, lineSize, levels);
      |r.state| == h.strokeIndex && r.state == h.state[..h.strokeIndex]
      && |r.sizes| == h.strokeIndex && r.strokeIndex == h.strokeIndex + 1
      && !Consistent(r)
      && CurrentStroke(r) == Undefined && CurrentSize(r) == Undefined
  {
    var s := NewStroke(startX, startY, endX, endY, lineSize, levels);
    assert (h.state + [s])[..h.strokeIndex] == h.state[..h.strokeIndex];
  }

  /** The input that shows the loss: one stroke, stepped back over, then a new one. */
  lemma AddAfterRewindExample()
    ensures var a := SvgBuilder.Stroke(0, 0, 5, 5, 1, [1, 1, 1]);
      var h := History([a], [1], [1], [1], [1], 0, 1);
      var r := AddStrokeSpec(h, 10, 10, 20, 20, 3, [2, 2, 2, 255]);
      r.state == [] && r.strokeIndex == 1 && CurrentStroke(r) == Undefined
  {
    var a := SvgBuilder.Stroke(0, 0, 5, 5, 1, [1, 1, 1]);
    var h := History([a], [1], [1], [1], [1], 0, 1);
    AddAfterRewindLosesStroke(h, 10, 10, 20, 20, 3, [2, 2, 2, 255]);
  }

  /**
   * The corrected `addStroke` keeps the history consistent, whatever was
   * stepped back over: the strokes shown are those shown before plus the
   * new one, which is current, with its size and colour.
   */
  lemma AddFixedAppends(h: History, startX: int, startY: int, endX: int, endY: int, lineSize: int, levels: seq<int>)
    requires |levels| >= 3 && Consistent(h)
    requires InBounds(startX, startY, endX, endY)
    ensures var r := AddStrokeFixed(h, startX, startY, endX, endY, lineSize, levels);
      var s := NewStroke(startX, startY, endX, endY, lineSize, levels);
      Consistent(r) && Visible(r) == Visible(h) + [s]
      && CurrentStroke(r) == Found(s) && CurrentSize(r) == Found(lineSize)
      && r.reds[h.strokeIndex] == levels[0] && r.greens[h.strokeIndex] == levels[1]
      && r.blues[h.strokeIndex] == levels[2]
  {
    var r := AddStrokeFixed(h, startX, startY, endX, endY, lineSize, levels);
    assert Visible(h) == h.state[..h.strokeIndex];
    assert Visible(r) == r.state;
  }

  /** Where nothing was stepped back over, the corrected `addStroke` is the one written. */
  lemma AddFixedAgreesAtEnd(h: History, startX: int, startY: int, endX: int, endY: int, lineSize: int, levels: seq<int>)
    requires |levels| >= 3 && h.dataIndex <= h.strokeIndex
    ensures AddStrokeFixed(h, startX, startY, endX, endY, lineSize, levels)
      == AddStrokeSpec(h, startX, startY, endX, endY, lineSize, levels)
  {
  }

  // ---------------------------------------------------------------- indexes

  /** `setStrokeIndex(val)`: `null` and no change for a negative value, else the value, stored. */
  function SetStrokeIndexSpec(h: History, val: int): (r: (History, Option<int>))
    ensures val < 0 ==> r == (h, None)
    ensures val >= 0 ==> r.1 == Some(val) && r.0 == h.(strokeIndex := val)
  {
    if val < 0 then (h, None) else (h.(strokeIndex := val), Some(val))
  }

  /** `setDataIndex(val)`: `null` and no change for a negative value, else the value, stored. */
  function SetDataIndexSpec(h: History, val: int): (r: (History, Option<int>))
    ensures val < 0 ==> r == (h, None)
    ensures val >= 0 ==> r.1 == Some(val) && r.0 == h.(dataIndex := val)
  {
    if val < 0 then (h, None) else (h.(dataIndex := val), Some(val))
  }

  /**
   * `forward` when the panel is not generating: one more recorded stroke is
   * shown if there is one, and the answer says whether it moved.
   */
  function ForwardSpec(h: History): (r: (History, bool))
    ensures r.1 <==> h.strokeIndex < h.dataIndex
    ensures r.0.strokeIndex == (if r.1 then h.strokeIndex + 1 else h.strokeIndex)
    ensures r.0 == h.(strokeIndex := r.0.strokeIndex)
  {
    if h.strokeIndex < h.dataIndex then (h.(strokeIndex := h.strokeIndex + 1), true) else (h, false)
  }

  /** Stepping forward keeps the history consistent and shows the next recorded stroke. */
  lemma ForwardShowsNext(h: History)
    requires Consistent(h)
    ensures var (r, moved) := ForwardSpec(h);
      Consistent(r)
      && (moved ==> Visible(r) == Visible(h) + [h.state[h.strokeIndex]])
      && (!moved ==> Visible(r) == h.state)
  {
    var (r, moved) := ForwardSpec(h);
    if moved {
      assert h.state[..h.strokeIndex + 1] == h.state[..h.strokeIndex] + [h.state[h.strokeIndex]];
    }
  }

  /** `forward` called n times. */
  function Forwards(h: History, n: nat): History
    decreases n
  {
    if n == 0 then h else Forwards(ForwardSpec(h).0, n - 1)
  }

  /**
   * Stepping back to any earlier stroke and then forward as often as that
   * went back restores the history exactly: nothing recorded is lost by
   * moving `strokeIndex`.
   */
  lemma {:induction false} RewindThenForwardRestores(h: History, k: int)
    requires Consistent(h) && 0 <= k <= h.strokeIndex
    ensures Forwards(SetStrokeIndexSpec(h, k).0, h.strokeIndex - k) == h
    decreases h.strokeIndex - k
  {
    if k < h.strokeIndex {
      var back := SetStrokeIndexSpec(h, k).0;
      var next := ForwardSpec(back).0;
      assert next == SetStrokeIndexSpec(h, k + 1).0;
      RewindThenForwardRestores(h, k + 1);
    }
  }

  /** Once every recorded stroke is shown, `forward` does nothing and answers false. */
  lemma {:induction false} ForwardsReachEnd(h: History, n: nat)
    requires h.strokeIndex <= h.dataIndex
    ensures var r := Forwards(h, n);
      r.strokeIndex == (if n <= h.dataIndex - h.strokeIndex then h.strokeIndex + n else h.dataIndex)
      && r == h.(strokeIndex := r.strokeIndex)
    decreases n
  {
    if n > 0 {
      ForwardsReachEnd(ForwardSpec(h).0, n - 1);
    }
  }

  // ---------------------------------------------------------------- clearing

  /** `clear()` as written: no strokes shown or recorded and no stroke vectors; the other arrays stay. */
  function ClearSpec(h: History): (r: History)
    ensures r.strokeIndex == 0 && r.dataIndex == 0 && r.state == []
    ensures r.sizes == h.sizes && r.reds == h.reds && r.greens == h.greens && r.blues == h.blues
  {
    h.(strokeIndex := 0, dataIndex := 0, state := [])
  }

  /** `clear()` as intended: the panel is as new. */
  function ClearFixed(h: History): (r: History)
    ensures Consistent(r) && r.strokeIndex == 0 && Visible(r) == []
  {
    Initial()
  }

  /**
   * The input that shows `clear()` leaving `sizes` behind: draw a stroke of
   * size 1, clear, draw a stroke of size 5; the current size then reads 1.
   */
  lemma ClearKeepsStaleSize()
    ensures var h1 := AddStrokeSpec(Initial(), 0, 0, 5, 5, 1, [1, 1, 1, 255]);
      var h2 := AddStrokeSpec(ClearSpec(h1), 0, 0, 5, 5, 5, [1, 1, 1, 255]);
      CurrentSize(h2) == Found(1) && !Consistent(h2)
  {
    var h1 := AddStrokeSpec(Initial(), 0, 0, 5, 5, 1, [1, 1, 1, 255]);
    assert h1.sizes == [1];
    var h2 := AddStrokeSpec(ClearSpec(h1), 0, 0, 5, 5, 5, [1, 1, 1, 255]);
    assert h2.sizes == [1, 5];
  }

  /** After the corrected `clear()`, the next stroke drawn is current with its own size. */
  lemma ClearFixedThenAdd(h: History, startX: int, startY: int, endX: int, endY: int, lineSize: int, levels: seq<int>)
    requires |levels| >= 3 && InBounds(startX, startY, endX, endY)
    ensures var r := AddStrokeFixed(ClearFixed(h), startX, startY, endX, endY, lineSize, levels);
      Consistent(r) && Visible(r) == [NewStroke(startX, startY, endX, endY, lineSize, levels)]
      && CurrentSize(r) == Found(lineSize)
  {
    AddFixedAppends(ClearFixed(h), startX, startY, endX, endY, lineSize, levels);
  }

  // ---------------------------------------------------------------- the object

  /** The `MPState` object: its history fields, updated in place. */
  class MPState {
    var state: seq<Stroke>
    var sizes: seq<int>
    var colorsR: seq<int>
    var colorsG: seq<int>
    var colorsB: seq<int>
    var strokeIndex: nat
    var dataIndex: nat

    /** All history fields as one value. */
    function Snapshot(): History
      reads this
    {
      History(state, sizes, colorsR, colorsG, colorsB, strokeIndex, dataIndex)
    }

    constructor()
      ensures Snapshot() == Initial()
    {
      state, sizes, colorsR, colorsG, colorsB := [], [], [], [], [];
      strokeIndex, dataIndex := 0, 0;
    }

    /** `addStroke(startX, startY, endX, endY, lineSize, color)` with `color.levels` given. */
    method AddStroke(startX: int, startY: int, endX: int, endY: int, lineSize: int, levels: seq<int>)
      requires |levels| >= 3
      modifies this
      ensures Snapshot() == AddStrokeSpec(old(Snapshot()), startX, startY, endX, endY, lineSize, levels)
    {
      if InBounds(startX, startY, endX, endY) {
        var newStroke := SvgBuilder.Stroke(startX, startY, endX, endY, lineSize, levels[..3]);
        state := state + [newStroke];
        sizes := sizes + [lineSize];
        colorsR := colorsR + [levels[0]];
        colorsG := colorsG + [levels[1]];
        colorsB := colorsB + [levels[2]];
        if dataIndex > strokeIndex {
          state := Slice(state, strokeIndex);
          sizes := Slice(sizes, strokeIndex);
          colorsR := Slice(colorsR, strokeIndex);
          colorsG := Slice(colorsG, strokeIndex);
          colorsB := Slice(colorsB, strokeIndex);
        }
        strokeIndex := strokeIndex + 1;
        dataIndex := strokeIndex;
      }
    }

    /** `setStrokeIndex(val)`. */
    method SetStrokeIndex(val: int) returns (r: Option<int>)
      modifies this
      ensures (Snapshot(), r) == SetStrokeIndexSpec(old(Snapshot()), val)
    {
      if val < 0 {
        return None;
      }
      strokeIndex := val;
      return Some(val);
    }

    /** `setDataIndex(val)`. */
    method SetDataIndex(val: int) returns (r: Option<int>)
      modifies this
      ensures (Snapshot(), r) == SetDataIndexSpec(old(Snapshot()), val)
    {
      if val < 0 {
        return None;
      }
      dataIndex := val;
      return Some(val);
    }

    /** `getCurrentStroke()`. */
    method GetCurrentStroke() returns (r: Lookup<Stroke>)
      ensures r == CurrentStroke(Snapshot())
    {
      if strokeIndex > 0 {
        r := if strokeIndex - 1 < |state| then Found(state[strokeIndex - 1]) else Undefined;
      } else {
        r := Null;
      }
    }

    /** `getCurrentSize()`. */
    method GetCurrentSize() returns (r: Lookup<int>)
      ensures r == CurrentSize(Snapshot())
    {
      if strokeIndex > 0 {
        r := if strokeIndex - 1 < |sizes| then Found(sizes[strokeIndex - 1]) else Undefined;
      } else {
        r := Null;
      }
    }

    /** `getVisibleStrokes()`: the strokes shown. */
    method GetVisibleStrokes() returns (r: seq<Stroke>)
      ensures r == Visible(Snapshot())
    {
      r := Slice(state, strokeIndex);
    }

    /** `getVisibleSizes()`, `getVisibleReds()`, `getVisibleGreens()`, `getVisibleBlues()`. */
    method GetVisibleColumns() returns (sz: seq<int>, rs: seq<int>, gs: seq<int>, bs: seq<int>)
      ensures sz == Slice(sizes, strokeIndex) && rs == Slice(colorsR, strokeIndex)
      ensures gs == Slice(colorsG, strokeIndex) && bs == Slice(colorsB, strokeIndex)
    {
      sz := Slice(sizes, strokeIndex);
      rs := Slice(colorsR, strokeIndex);
      gs := Slice(colorsG, strokeIndex);
      bs := Slice(colorsB, strokeIndex);
    }

    /** `forward()` when the panel is not generating. */
    method Forward() returns (moved: bool)
      modifies this
      ensures (Snapshot(), moved) == ForwardSpec(old(Snapshot()))
    {
      if strokeIndex < dataIndex {
        strokeIndex := strokeIndex + 1;
        return true;
      }
      return false;
    }

    /** `clear()`. */
    method Clear()
      modifies this
      ensures Snapshot() == ClearSpec(old(Snapshot()))
    {
      strokeIndex := 0;
      dataIndex := 0;
      state := [];
    }
  }
}
