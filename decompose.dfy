/**
 * The integer glue of the raster-to-stroke decomposition (`DecomposeModel`
 * in docs/js/model_decomposition.js): the tolerance mask of a palette colour,
 * the size cut-off that turns labelled blobs into candidate components, the
 * order in which candidates are taken, the strokes emitted along a traced
 * path, and the blend of a transparent image with white.
 */
module Decompose {
  import opened Common
  import SvgBuilder

  type Stroke = SvgBuilder.Stroke

  /** `TOLERANCE`: the largest colour distance, exclusive, a pixel may have to join a mask. */
  const TOLERANCE: real := 0.01
  /** `SCORE_CUTOFF_PERCENT`: the share of the image a component must cover. */
  const SCORE_CUTOFF_PERCENT: real := 0.02
  /** `COMPONENTS_EACH_STEP`: how many candidates are drawn per filter size. */
  const COMPONENTS_EACH_STEP: nat := 5

  /** A scored component: its pixel count, its binary mask and the palette colour. */
  datatype Component = Component(score: int, mask: seq<int>, color: seq<int>)

  // ---------------------------------------------------------------- the alpha blend

  /** `Math.round(alpha / 255)`: 0 up to 127, 1 from 128 up to 255. */
  function RoundAlpha(alpha: int): int
  {
    (2 * alpha + 255) / 510
  }

  /**
   * The value `imageToTensor` leaves in channel c of a pixel: channels 0-2
   * are blended with white by the rounded alpha and stored clamped; the
   * alpha channel and any other channel keep their value.
   */
  function Blended(before: int, alpha: int, c: int): int
  {
    if c < 3 then Clamp8((1 - RoundAlpha(alpha)) * 255 + RoundAlpha(alpha) * before) else before
  }

  /** For bytes, a pixel at most half opaque turns white and any other keeps its colour. */
  lemma BlendedBytes(before: int, alpha: int, c: int)
    requires 0 <= before <= 255 && 0 <= alpha <= 255 && 0 <= c < 3
    ensures alpha <= 127 ==> Blended(before, alpha, c) == 255
    ensures alpha >= 128 ==> Blended(before, alpha, c) == before
  {
    if alpha <= 127 {
      assert 255 <= 2 * alpha + 255 < 510;
      assert RoundAlpha(alpha) == 0;
    } else {
      assert 510 <= 2 * alpha + 255 < 1020;
      assert RoundAlpha(alpha) == 1;
    }
  }

  /**
   * The blending loops of `imageToTensor`: with fewer than four channels the
   * tensor is left as it is; otherwise every pixel's channels 0-2 are
   * blended with white and its alpha channel is not written.
   */
  method BlendWithWhite(tensor: array3<int>)
    modifies tensor
    ensures forall x, y, c :: 0 <= x < tensor.Length0 && 0 <= y < tensor.Length1 && 0 <= c < tensor.Length2 ==>
      tensor[x, y, c] == if tensor.Length2 < 4 then old(tensor[x, y, c])
                         else Blended(old(tensor[x, y, c]), old(tensor[x, y, 3]), c)
  {
    if tensor.Length2 < 4 {
      return;
    }
    var width, height := tensor.Length0, tensor.Length1;
    var x := 0;
    while x < width
      invariant 0 <= x <= width
      invariant forall i, j, c :: 0 <= i < width && 0 <= j < height && 0 <= c < tensor.Length2 ==>
        tensor[i, j, c] == if i < x then Blended(old(tensor[i, j, c]), old(tensor[i, j, 3]), c) else old(tensor[i, j, c])
    {
      var y := 0;
      while y < height
        invariant 0 <= y <= height
        invariant forall i, j, c :: 0 <= i < width && 0 <= j < height && 0 <= c < tensor.Length2 ==>
          tensor[i, j, c] == if i < x || (i == x && j < y) then Blended(old(tensor[i, j, c]), old(tensor[i, j, 3]), c)
                             else old(tensor[i, j, c])
      {
        BlendPixel(tensor, x, y);
        y := y + 1;
      }
      x := x + 1;
    }
  }

  /** The body of the blending loops for one pixel. */
  method BlendPixel(tensor: array3<int>, x: int, y: int)
    requires 0 <= x < tensor.Length0 && 0 <= y < tensor.Length1 && tensor.Length2 >= 4
    modifies tensor
    ensures forall i, j, c :: 0 <= i < tensor.Length0 && 0 <= j < tensor.Length1 && 0 <= c < tensor.Length2 ==>
      tensor[i, j, c] == if i == x && j == y then Blended(old(tensor[i, j, c]), old(tensor[i, j, 3]), c)
                         else old(tensor[i, j, c])
  {
    var alpha := tensor[x, y, 3];
    alpha := (2 * alpha + 255) / 510;
    var ch := 0;
    while ch < 3
      invariant 0 <= ch <= 3
      invariant forall i, j, c :: 0 <= i < tensor.Length0 && 0 <= j < tensor.Length1 && 0 <= c < tensor.Length2 ==>
        tensor[i, j, c] == if i == x && j == y && c < ch then Blended(old(tensor[i, j, c]), old(tensor[i, j, 3]), c)
                           else old(tensor[i, j, c])
    {
      var val := tensor[x, y, ch];
      val := (1 - alpha) * 255 + alpha * val;
      tensor[x, y, ch] := Clamp8(val);
      ch := ch + 1;
    }
  }

  // ---------------------------------------------------------------- scoreComponents

  /** Whether a pixel belongs to the tolerance mask of `color`. */
  predicate Tolerated(arr: array3<int>, x: int, y: int, color: seq<int>)
    reads arr
    requires 0 <= x < arr.Length0 && 0 <= y < arr.Length1 && arr.Length2 >= 3 && |color| >= 3
  {
    Distance(Rgb(arr, x, y), color) < TOLERANCE
  }

  /** A pixel of exactly the palette colour always joins its mask. */
  lemma ExactColourTolerated(arr: array3<int>, x: int, y: int, color: seq<int>)
    requires 0 <= x < arr.Length0 && 0 <= y < arr.Length1 && arr.Length2 >= 3 && |color| >= 3
    requires Rgb(arr, x, y) == color[..3]
    ensures Tolerated(arr, x, y, color)
  {
    assert Rgb(arr, x, y)[..3] == color[..3];
  }

  /**
   * The first loops of `scoreComponents`: a fresh [width, height] mask that
   * is 1 exactly at the pixels whose distance to `color` is below the
   * tolerance, and 0 elsewhere.
   */
  method ToleranceMask(arr: array3<int>, color: seq<int>) returns (mask: array<int>)
    requires arr.Length2 >= 3 && |color| >= 3
    ensures fresh(mask) && mask.Length == arr.Length0 * arr.Length1
    ensures forall x, y :: 0 <= x < arr.Length0 && 0 <= y < arr.Length1 ==>
      0 <= Idx(x, y, arr.Length1) < mask.Length
      && mask[Idx(x, y, arr.Length1)] == if Tolerated(arr, x, y, color) then 1 else 0
  {
    var width, height := arr.Length0, arr.Length1;
    MulMono(0, width, height);
    mask := new int[width * height](_ => 0);
    IdxAllInRange(width, height);
    var x := 0;
    while x < width
      invariant 0 <= x <= width
      invariant forall i, j :: 0 <= i < width && 0 <= j < height ==>
        mask[Idx(i, j, height)] == if i < x && Tolerated(arr, i, j, color) then 1 else 0
    {
      var y := 0;
      while y < height
        invariant 0 <= y <= height
        invariant forall i, j :: 0 <= i < width && 0 <= j < height ==>
          mask[Idx(i, j, height)] == if (i < x || (i == x && j < y)) && Tolerated(arr, i, j, color) then 1 else 0
      {
        var val := PixelDistance(arr, x, y, color);
        if val < TOLERANCE {
          SetAt(mask, width, height, x, y, 1);
        }
        y := y + 1;
      }
      x := x + 1;
    }
  }

  /** The mask of one label: 1 where the label grid holds it, 0 elsewhere. */
  function MaskOf(grid: seq<int>, lab: int): (m: seq<int>)
    ensures |m| == |grid|
    ensures forall i :: 0 <= i < |grid| ==> (m[i] == 1 <==> grid[i] == lab) && (m[i] == 0 <==> grid[i] != lab)
  {
    seq(|grid|, i requires 0 <= i < |grid| => if grid[i] == lab then 1 else 0)
  }

  /** `SCORE_CUTOFF_PERCENT * width * height`. */
  function Threshold(width: int, height: int): real
  {
    SCORE_CUTOFF_PERCENT * width as real * height as real
  }

  /** The labels 1 .. n-1 whose score is not below the threshold, in ascending order. */
  function KeptLabels(scores: seq<int>, n: int, threshold: real): (ks: seq<int>)
    requires n <= 1 || n <= |scores|
    ensures forall i :: 0 <= i < |ks| ==> 1 <= ks[i] < n
    decreases n
  {
    if n <= 1 then []
    else KeptLabels(scores, n - 1, threshold) + (if scores[n - 1] as real < threshold then [] else [n - 1])
  }

  /**
   * A label is kept exactly when it is one of 1 .. n-1 and its score reaches
   * the threshold; kept labels are strictly ascending.
   */
  lemma {:induction false} KeptLabelsExact(scores: seq<int>, n: int, threshold: real)
    requires n <= |scores|
    ensures forall l :: 1 <= l < n ==> (l in KeptLabels(scores, n, threshold) <==> scores[l] as real >= threshold)
    ensures forall i, j :: 0 <= i < j < |KeptLabels(scores, n, threshold)| ==>
      KeptLabels(scores, n, threshold)[i] < KeptLabels(scores, n, threshold)[j]
    decreases n
  {
    if n > 1 {
      KeptLabelsExact(scores, n - 1, threshold);
      var front := KeptLabels(scores, n - 1, threshold);
      var ks := KeptLabels(scores, n, threshold);
      assert ks == front + (if scores[n - 1] as real < threshold then [] else [n - 1]);
      assert n - 1 !in front;
      forall l | 1 <= l < n - 1
        ensures l in ks <==> l in front
      {
      }
    }
  }

  /** The component `scoreComponents` pushes for a kept label. */
  function ComponentOf(grid: seq<int>, scores: seq<int>, lab: int, color: seq<int>): Component
    requires 0 <= lab < |scores|
  {
    Component(scores[lab], MaskOf(grid, lab), color)
  }

  /**
   * The label loop of `scoreComponents`, given the labelling of the smoothed
   * tolerance mask (`blobs.arr`, `blobs.labels`, `blobs.scores`): one
   * component per kept label, in label order.
   */
  method PickComponents(grid: array<int>, labels: int, scores: seq<int>, width: int, height: int, color: seq<int>)
    returns (components: seq<Component>)
    requires grid.Length == width * height && labels <= |scores|
    ensures var kept := KeptLabels(scores, labels, Threshold(width, height));
      |components| == |kept|
      && forall j :: 0 <= j < |kept| ==> components[j] == ComponentOf(grid[..], scores, kept[j], color)
  {
    var threshold := SCORE_CUTOFF_PERCENT * width as real * height as real;
    components := [];
    var lab := 1;
    while lab < labels
      invariant 1 <= lab <= if labels >= 1 then labels else 1
      invariant var kept := KeptLabels(scores, lab, threshold);
        |components| == |kept|
        && forall j :: 0 <= j < |kept| ==> components[j] == ComponentOf(grid[..], scores, kept[j], color)
    {
      var score := scores[lab];
      if score as real < threshold {
        lab := lab + 1;
        continue;
      }
      var component := ExtractMask(grid, lab, width * height);
      components := components + [Component(score, component, color)];
      lab := lab + 1;
    }
  }

  /**
   * The component loop: from `width * height` down to 0, a 1 wherever the
   * label grid holds `label`; the first read is past the end and matches nothing.
   */
  method ExtractMask(grid: array<int>, lab: int, size: int) returns (component: seq<int>)
    requires size == grid.Length
    ensures component == MaskOf(grid[..], lab)
  {
    var compArr := new int[size](_ => 0);
    var i := size;
    while i >= 0
      invariant -1 <= i <= size
      invariant forall j :: 0 <= j < size ==> compArr[j] == if j > i && grid[j] == lab then 1 else 0
    {
      if i < grid.Length && grid[i] == lab {
        compArr[i] := 1;
      }
      i := i - 1;
    }
    component := compArr[..];
  }

  // ---------------------------------------------------------------- candidates

  /** Ascending by score, as the comparator `a.score - b.score` orders: each score at most the next. */
  predicate SortedByScore(s: seq<Component>)
  {
    forall i :: 0 <= i < |s| - 1 ==> s[i].score <= s[i + 1].score
  }

  /** Puts `c` after every component of `s` whose score is not greater. */
  function Insert(c: Component, s: seq<Component>): (r: seq<Component>)
    ensures |r| == |s| + 1
    ensures r[0] == if |s| == 0 || c.score < s[0].score then c else s[0]
  {
    if |s| == 0 then [c]
    else if c.score < s[0].score then [c] + s
    else [s[0]] + Insert(c, s[1..])
  }

  /** `candidates.sort(componentSortingFunction)`, stable. */
  function SortByScore(s: seq<Component>): (r: seq<Component>)
    ensures |r| == |s|
  {
    if |s| == 0 then [] else Insert(s[|s| - 1], SortByScore(s[..|s| - 1]))
  }

  lemma {:induction false} InsertSorted(c: Component, s: seq<Component>)
    requires SortedByScore(s)
    ensures SortedByScore(Insert(c, s))
  {
    if |s| > 0 && c.score >= s[0].score {
      InsertSorted(c, s[1..]);
      var r := Insert(c, s[1..]);
      assert Insert(c, s) == [s[0]] + r;
      assert s[0].score <= r[0].score;
    }
  }

  lemma {:induction false} InsertKeeps(c: Component, s: seq<Component>)
    ensures multiset(Insert(c, s)) == multiset(s) + multiset{c}
  {
    if |s| > 0 && c.score >= s[0].score {
      InsertKeeps(c, s[1..]);
      assert s == [s[0]] + s[1..];
    }
  }

  /** Sorting orders by score and keeps every candidate, as often as it occurs. */
  lemma {:induction false} SortByScoreSorts(s: seq<Component>)
    ensures SortedByScore(SortByScore(s))
    ensures multiset(SortByScore(s)) == multiset(s)
  {
    if |s| > 0 {
      SortByScoreSorts(s[..|s| - 1]);
      InsertSorted(s[|s| - 1], SortByScore(s[..|s| - 1]));
      InsertKeeps(s[|s| - 1], SortByScore(s[..|s| - 1]));
      assert s == s[..|s| - 1] + [s[|s| - 1]];
    }
  }

  /** `[c]` when `c` scores `v`, else nothing. */
  function IfScores(c: Component, v: int): seq<Component>
  {
    if c.score == v then [c] else []
  }

  /** The components of `s` scoring `v`, in their order in `s`. */
  function WithScore(s: seq<Component>, v: int): seq<Component>
  {
    if |s| == 0 then [] else IfScores(s[0], v) + WithScore(s[1..], v)
  }

  /** Filtering a list with a component in front. */
  lemma WithScoreCons(c: Component, s: seq<Component>, v: int)
    ensures WithScore([c] + s, v) == IfScores(c, v) + WithScore(s, v)
  {
    assert ([c] + s)[0] == c;
    assert ([c] + s)[1..] == s;
  }

  /** Filtering a concatenation filters each part. */
  lemma {:induction false} WithScoreAppend(s: seq<Component>, t: seq<Component>, v: int)
    ensures WithScore(s + t, v) == WithScore(s, v) + WithScore(t, v)
  {
    if |s| == 0 {
      assert s + t == t;
    } else {
      var r := s[1..];
      assert s + t == [s[0]] + (r + t);
      calc {
        WithScore(s + t, v);
      == { WithScoreCons(s[0], r + t, v); }
        IfScores(s[0], v) + WithScore(r + t, v);
      == { WithScoreAppend(r, t, v); }
        IfScores(s[0], v) + (WithScore(r, v) + WithScore(t, v));
      ==
        (IfScores(s[0], v) + WithScore(r, v)) + WithScore(t, v);
      }
    }
  }

  /** No component of a sorted list scores below its first one. */
  lemma {:induction false} WithScoreBelow(s: seq<Component>, v: int)
    requires SortedByScore(s) && |s| > 0 && v < s[0].score
    ensures WithScore(s, v) == []
  {
    if |s| > 1 {
      WithScoreBelow(s[1..], v);
    }
  }

  /**
   * Inserting into a sorted list puts `c` after every component of equal
   * score: among the components scoring `v`, `c` comes last.
   */
  lemma {:induction false} InsertStable(c: Component, s: seq<Component>, v: int)
    requires SortedByScore(s)
    ensures WithScore(Insert(c, s), v) == WithScore(s, v) + IfScores(c, v)
  {
    if |s| == 0 {
      WithScoreCons(c, [], v);
    } else if c.score < s[0].score {
      WithScoreCons(c, s, v);
      if c.score == v {
        WithScoreBelow(s, v);
      }
    } else {
      var r := Insert(c, s[1..]);
      calc {
        WithScore(Insert(c, s), v);
      == { WithScoreCons(s[0], r, v); }
        IfScores(s[0], v) + WithScore(r, v);
      == { InsertStable(c, s[1..], v); }
        IfScores(s[0], v) + (WithScore(s[1..], v) + IfScores(c, v));
      ==
        (IfScores(s[0], v) + WithScore(s[1..], v)) + IfScores(c, v);
      }
    }
  }

  /**
   * The sort is stable, as `Array.prototype.sort` is: the components of
   * each score keep their relative order.
   */
  lemma {:induction false} SortByScoreStable(s: seq<Component>, v: int)
    ensures WithScore(SortByScore(s), v) == WithScore(s, v)
  {
    if |s| > 0 {
      var init, last := s[..|s| - 1], s[|s| - 1];
      SortByScoreStable(init, v);
      SortByScoreSorts(init);
      InsertStable(last, SortByScore(init), v);
      WithScoreAppend(init, [last], v);
      WithScoreCons(last, [], v);
      assert s == init + [last];
    }
  }

  /** Taking the last k of a list, last first, and keeping the rest loses and adds nothing. */
  lemma {:induction false} PoppedKeeps(sorted: seq<Component>, taken: seq<Component>)
    requires |taken| <= |sorted|
    requires forall j :: 0 <= j < |taken| ==> taken[j] == sorted[|sorted| - 1 - j]
    ensures multiset(taken) + multiset(sorted[..|sorted| - |taken|]) == multiset(sorted)
    decreases |taken|
  {
    var n, k := |sorted|, |taken|;
    if k > 0 {
      var front, x := taken[..k - 1], sorted[n - k];
      PoppedKeeps(sorted, front);
      assert taken == front + [x];
      assert multiset(taken) == multiset(front) + multiset{x};
      assert sorted[..n - (k - 1)] == sorted[..n - k] + [x];
      assert multiset(sorted[..n - (k - 1)]) == multiset(sorted[..n - k]) + multiset{x};
    } else {
      assert sorted[..n] == sorted;
    }
  }

  /** In a sorted sequence no score exceeds a later one. */
  lemma {:induction false} SortedPairs(s: seq<Component>, i: int, j: int)
    requires SortedByScore(s) && 0 <= i <= j < |s|
    ensures s[i].score <= s[j].score
    decreases j - i
  {
    if i < j {
      SortedPairs(s, i + 1, j);
    }
  }

  /**
   * The sort and the pop loop of `imageToStrokes`: candidates are sorted by
   * score and up to `COMPONENTS_EACH_STEP` are popped from the end. Popping
   * an empty list gives `undefined`, and reading `candidate.arr` then throws;
   * `failed` says so, after the candidates that were taken. `rest` is what
   * the candidate list still holds.
   */
  method TakeBest(candidates: seq<Component>) returns (taken: seq<Component>, rest: seq<Component>, failed: bool)
    ensures failed <==> |candidates| < COMPONENTS_EACH_STEP
    ensures |taken| == if failed then |candidates| else COMPONENTS_EACH_STEP
    ensures multiset(taken) + multiset(rest) == multiset(candidates)
    ensures forall i, j :: 0 <= i < j < |taken| ==> taken[i].score >= taken[j].score
    ensures forall i, j :: 0 <= i < |taken| && 0 <= j < |rest| ==> taken[i].score >= rest[j].score
  {
    var sorted := SortCandidates(candidates);
    var n := |candidates|;
    rest := sorted;
    taken := [];
    failed := false;
    var i := 0;
    while i < COMPONENTS_EACH_STEP
      invariant 0 <= i <= COMPONENTS_EACH_STEP && |taken| == i && i <= n
      invariant rest == sorted[..n - i]
      invariant forall j :: 0 <= j < i ==> taken[j] == sorted[n - 1 - j]
    {
      if |rest| == 0 {
        failed := true;
        break;
      }
      var candidate := rest[|rest| - 1];
      taken := taken + [candidate];
      rest := rest[..|rest| - 1];
      i := i + 1;
    }
    PoppedKeeps(sorted, taken);
    TakenAreBest(sorted, taken, rest);
  }

  /** `candidates.sort(componentSortingFunction)`: the candidates, ascending by score. */
  method SortCandidates(candidates: seq<Component>) returns (sorted: seq<Component>)
    ensures SortedByScore(sorted) && multiset(sorted) == multiset(candidates) && |sorted| == |candidates|
  {
    sorted := SortByScore(candidates);
    SortByScoreSorts(candidates);
  }

  /**
   * Popping from the end of a sorted list takes the best first: scores never
   * rise along `taken`, and nothing left in `rest` scores above anything taken.
   */
  lemma TakenAreBest(sorted: seq<Component>, taken: seq<Component>, rest: seq<Component>)
    requires SortedByScore(sorted) && |taken| <= |sorted|
    requires rest == sorted[..|sorted| - |taken|]
    requires forall j :: 0 <= j < |taken| ==> taken[j] == sorted[|sorted| - 1 - j]
    ensures forall i, j :: 0 <= i < j < |taken| ==> taken[i].score >= taken[j].score
    ensures forall i, j :: 0 <= i < |taken| && 0 <= j < |rest| ==> taken[i].score >= rest[j].score
  {
    var n := |sorted|;
    forall a, b | 0 <= a < b < |taken|
      ensures taken[a].score >= taken[b].score
    {
      SortedPairs(sorted, n - 1 - b, n - 1 - a);
    }
    forall a, b | 0 <= a < |taken| && 0 <= b < |rest|
      ensures taken[a].score >= rest[b].score
    {
      SortedPairs(sorted, b, n - 1 - a);
    }
  }

  // ---------------------------------------------------------------- renderPath

  /** The stroke from point a to point b, with the colour's first three levels. */
  function Segment(a: Coord, b: Coord, width: int, color: seq<int>): Stroke
    requires |color| >= 3
  {
    SvgBuilder.Stroke(a.0, a.1, b.0, b.1, width, color[..3])
  }

  /** The strokes path[i-1] -> path[i] for i = 1 .. k-1, in order. */
  function Segments(path: seq<Coord>, k: nat, width: int, color: seq<int>): seq<Stroke>
    requires 1 <= k <= |path| && |color| >= 3
    decreases k
  {
    if k == 1 then [] else Segments(path, k - 1, width, color) + [Segment(path[k - 2], path[k - 1], width, color)]
  }

  /** Segment j joins point j to point j + 1. */
  lemma {:induction false} SegmentsAt(path: seq<Coord>, k: nat, width: int, color: seq<int>)
    requires 1 <= k <= |path| && |color| >= 3
    ensures |Segments(path, k, width, color)| == k - 1
    ensures forall j :: 0 <= j < k - 1 ==> Segments(path, k, width, color)[j] == Segment(path[j], path[j + 1], width, color)
    decreases k
  {
    if k > 1 {
      SegmentsAt(path, k - 1, width, color);
    }
  }

  /** The strokes `renderPath` adds as written: its loop stops at `i < pathLength - 1`. */
  function RenderPathSpec(path: seq<Coord>, width: int, color: seq<int>): seq<Stroke>
    requires |color| >= 3
  {
    if |path| < 2 then [] else Segments(path, |path| - 1, width, color)
  }

  /** The strokes `renderPath` evidently means to add: one per pair of consecutive points. */
  function RenderPathFixed(path: seq<Coord>, width: int, color: seq<int>): seq<Stroke>
    requires |color| >= 3
  {
    if |path| < 2 then [] else Segments(path, |path|, width, color)
  }

  /**
   * As written, a path of n >= 2 points gives n - 2 strokes, the corrected
   * strokes without the last one, so the last point is never reached.
   */
  lemma RenderPathDropsLast(path: seq<Coord>, width: int, color: seq<int>)
    requires |path| >= 2 && |color| >= 3
    ensures |RenderPathSpec(path, width, color)| == |path| - 2
    ensures |RenderPathFixed(path, width, color)| == |path| - 1
    ensures RenderPathSpec(path, width, color) == RenderPathFixed(path, width, color)[..|path| - 2]
    ensures forall s :: s in RenderPathSpec(path, width, color) ==> (s.endX, s.endY) != path[|path| - 1] || path[|path| - 1] in path[..|path| - 1]
  {
    var n := |path|;
    SegmentsAt(path, n - 1, width, color);
    SegmentsAt(path, n, width, color);
    assert Segments(path, n, width, color)[..n - 2] == Segments(path, n - 1, width, color);
    forall s | s in RenderPathSpec(path, width, color)
      ensures (s.endX, s.endY) != path[n - 1] || path[n - 1] in path[..n - 1]
    {
      var j :| 0 <= j < n - 2 && RenderPathSpec(path, width, color)[j] == s;
      assert (s.endX, s.endY) == path[j + 1] == path[..n - 1][j + 1];
    }
  }

  /** The input that shows it: a path of two points draws nothing. */
  lemma RenderTwoPointsDrawsNothing(a: Coord, b: Coord, width: int, color: seq<int>)
    requires |color| >= 3
    ensures RenderPathSpec([a, b], width, color) == []
    ensures RenderPathFixed([a, b], width, color) == [Segment(a, b, width, color)]
  {
  }

  /**
   * The corrected strokes form one chain from the first point to the last:
   * each starts where the one before it ends.
   */
  lemma RenderPathFixedChain(path: seq<Coord>, width: int, color: seq<int>)
    requires |path| >= 2 && |color| >= 3
    ensures var r := RenderPathFixed(path, width, color);
      |r| == |path| - 1
      && (r[0].startX, r[0].startY) == path[0]
      && (r[|r| - 1].endX, r[|r| - 1].endY) == path[|path| - 1]
      && forall j :: 0 <= j < |r| - 1 ==> (r[j].endX, r[j].endY) == (r[j + 1].startX, r[j + 1].startY)
  {
    var r := RenderPathFixed(path, width, color);
    SegmentsAt(path, |path|, width, color);
    assert r[0] == Segment(path[0], path[1], width, color);
    assert r[|r| - 1] == Segment(path[|path| - 2], path[|path| - 1], width, color);
    forall j | 0 <= j < |r| - 1
      ensures (r[j].endX, r[j].endY) == (r[j + 1].startX, r[j + 1].startY)
    {
      assert r[j] == Segment(path[j], path[j + 1], width, color);
      assert r[j + 1] == Segment(path[j + 1], path[j + 2], width, color);
    }
  }

  /**
   * `renderPath(path, color, width)`: nothing for fewer than two points;
   * otherwise the loop walks the path, each stroke starting where the last
   * one ended.
   */
  method RenderPath(path: seq<Coord>, color: seq<int>, width: int) returns (strokes: seq<Stroke>)
    requires |color| >= 3
    ensures strokes == RenderPathSpec(path, width, color)
  {
    strokes := [];
    var pathLength := |path|;
    if pathLength < 2 {
      return;
    }
    var startX, startY := path[0].0, path[0].1;
    var i := 1;
    while i < pathLength - 1
      invariant 1 <= i <= pathLength - 1
      invariant (startX, startY) == path[i - 1]
      invariant strokes == Segments(path, i, width, color)
    {
      var endX, endY := path[i].0, path[i].1;
      strokes := strokes + [SvgBuilder.Stroke(startX, startY, endX, endY, width, color[..3])];
      startX, startY := endX, endY;
      i := i + 1;
    }
  }
}
