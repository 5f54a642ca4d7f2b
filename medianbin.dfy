/**
 * The histogram behind the median filter (docs/js/medianbin.js): one Uint32
 * bin per integer value, a running `count`, and a median cursor made of the
 * bin `median` and a position `offset` inside that bin.
 *
 * The cursor is modelled with JavaScript's own arithmetic: reading a bin
 * outside the array gives `undefined`, which is unequal to 0 and turns any
 * sum it enters into NaN; `offset >= this.bin` compares a number with a whole
 * Uint32Array.
 *
 * The functions `AddSpec`, `SubSpec`, `IndexSpec`, `DecrCursor` and
 * `IncrCursor` describe the code as written and are what the class methods
 * are proved against. `IndexSpecFixed`, `AddSpecFixed` and `SubSpecFixed`
 * describe the evidently intended behaviour; for them the lemmas prove that
 * the cursor always sits on the element of rank `count >> 1`.
 */
module MedianBin {
  import opened Common

  /** A JavaScript number as the cursor arithmetic meets it. */
  datatype Num = Int(n: int) | NaN

  function Plus(a: Num, b: Num): Num
  {
    if a.Int? && b.Int? then Int(a.n + b.n) else NaN
  }

  function Minus(a: Num, b: Num): Num
  {
    if a.Int? && b.Int? then Int(a.n - b.n) else NaN
  }

  /** `a < b`: false as soon as one side is NaN. */
  predicate Less(a: Num, b: Num)
  {
    a.Int? && b.Int? && a.n < b.n
  }

  /** `a >= b`: false as soon as one side is NaN. */
  predicate AtLeast(a: Num, b: Num)
  {
    a.Int? && b.Int? && a.n >= b.n
  }

  /** Reading `bin[i]` as a number: `undefined` (NaN in arithmetic) outside the array. */
  function Get(bins: seq<int>, i: int): Num
  {
    if 0 <= i < |bins| then Int(bins[i]) else NaN
  }

  /**
   * The number a Uint32Array turns into when compared with a number: its
   * elements joined by commas, read as a number. The empty text reads as 0,
   * one element reads as itself, and a comma makes it NaN.
   */
  function ArrayAsNumber(bins: seq<int>): (r: Num)
    ensures |bins| >= 2 ==> r == NaN
    ensures |bins| == 1 ==> r == Int(bins[0])
  {
    if |bins| == 0 then Int(0) else if |bins| == 1 then Int(bins[0]) else NaN
  }

  /** Every bin holds a Uint32 value. */
  predicate IsU32(bins: seq<int>)
  {
    forall i :: 0 <= i < |bins| ==> 0 <= bins[i] < U32
  }

  predicate NonNeg(bins: seq<int>)
  {
    forall i :: 0 <= i < |bins| ==> bins[i] >= 0
  }

  /** Total of the bins. */
  function Sum(s: seq<int>): int
  {
    if |s| == 0 then 0 else Sum(s[..|s| - 1]) + s[|s| - 1]
  }

  // ---------------------------------------------------------------- sums

  lemma SumPrefixStep(s: seq<int>, m: int)
    requires 0 <= m < |s|
    ensures Sum(s[..m + 1]) == Sum(s[..m]) + s[m]
  {
    assert s[..m + 1][..m] == s[..m];
  }

  lemma SumAll(s: seq<int>)
    ensures Sum(s[..|s|]) == Sum(s) && Sum(s[..0]) == 0
  {
    assert s[..|s|] == s;
  }

  /** Changing one bin changes the total by the difference. */
  lemma {:induction false} SumUpdate(s: seq<int>, i: int, v: int)
    requires 0 <= i < |s|
    ensures Sum(s[i := v]) == Sum(s) - s[i] + v
  {
    var n := |s| - 1;
    if i == n {
      assert s[i := v][..n] == s[..n];
    } else {
      assert s[i := v][..n] == s[..n][i := v];
      SumUpdate(s[..n], i, v);
    }
  }

  /** Changing one bin changes the totals of the prefixes that contain it, and only those. */
  lemma SumPrefixUpdate(s: seq<int>, i: int, v: int, m: int)
    requires 0 <= i < |s| && 0 <= m <= |s|
    ensures Sum(s[i := v][..m]) == Sum(s[..m]) + (if i < m then v - s[i] else 0)
  {
    if i < m {
      assert s[i := v][..m] == s[..m][i := v];
      SumUpdate(s[..m], i, v);
    } else {
      assert s[i := v][..m] == s[..m];
    }
  }

  lemma {:induction false} SumZeros(s: seq<int>)
    requires forall i :: 0 <= i < |s| ==> s[i] == 0
    ensures Sum(s) == 0
  {
    if |s| > 0 {
      SumZeros(s[..|s| - 1]);
    }
  }

  // ---------------------------------------------------------------- state

  /** The median cursor: a bin and a position inside it. */
  datatype Cursor = Cursor(median: int, offset: Num)

  /** Every field of a `MedianIntBin`. */
  datatype BinState = BinState(bins: seq<int>, count: int, cursor: Cursor, indexed: bool)

  /** The state of a new bin and of a flushed one. */
  function Empty(range: nat): BinState
  {
    BinState(seq(range, _ => 0), 0, Cursor(0, Int(0)), false)
  }

  /** `bin[x] += d` on a Uint32Array: stored modulo 2^32, ignored outside the array. */
  function Bump(bins: seq<int>, x: int, d: int): (r: seq<int>)
    ensures |r| == |bins|
  {
    if 0 <= x < |bins| then bins[x := (bins[x] + d) % U32] else bins
  }

  /** The cursor stands on a stored element. */
  predicate InBin(bins: seq<int>, c: Cursor)
  {
    0 <= c.median < |bins| && c.offset.Int? && 0 <= c.offset.n < bins[c.median]
  }

  /** Number of stored elements before the cursor position, in sorted order. */
  function Rank(bins: seq<int>, c: Cursor): int
    requires 0 <= c.median <= |bins| && c.offset.Int?
  {
    Sum(bins[..c.median]) + c.offset.n
  }

  /**
   * The state the median filter relies on: `count` is the number of stored
   * elements and the cursor stands on the element of rank `count >> 1`.
   */
  predicate Centred(s: BinState)
  {
    NonNeg(s.bins) && s.count == Sum(s.bins) && s.count >= 1 && s.indexed
    && InBin(s.bins, s.cursor) && Rank(s.bins, s.cursor) == s.count / 2
  }

  /** What `getMedian` returns: the cursor's bin once indexed, else undefined. */
  function MedianOf(s: BinState): Option<int>
  {
    if s.indexed then Some(s.cursor.median) else None
  }

  // ---------------------------------------------------------------- cursor steps

  /** `while (bin[m] == 0) m--`: the nearest bin at or below `m` that is not an empty bin of the array. */
  function ScanDown(bins: seq<int>, m: int): (r: int)
    ensures r <= m
    ensures !(0 <= r < |bins| && bins[r] == 0)
    ensures r < m ==> -1 <= r && m < |bins|
    ensures forall j :: r < j <= m && 0 <= j < |bins| ==> bins[j] == 0
    decreases m + 1
  {
    if 0 <= m < |bins| && bins[m] == 0 then ScanDown(bins, m - 1) else m
  }

  /** `while (bin[m] == 0) m++`: the nearest bin at or above `m` that is not an empty bin of the array. */
  function ScanUp(bins: seq<int>, m: int): (r: int)
    ensures m <= r
    ensures !(0 <= r < |bins| && bins[r] == 0)
    ensures m < r ==> 0 <= m && r <= |bins|
    ensures forall j :: m <= j < r && 0 <= j < |bins| ==> bins[j] == 0
    decreases |bins| - m
  {
    if 0 <= m < |bins| && bins[m] == 0 then ScanUp(bins, m + 1) else m
  }

  /** `decrMedian`: one step down; below the bin, the top of the nearest non-empty lower bin. */
  function DecrCursor(bins: seq<int>, c: Cursor): Cursor
  {
    var off := Minus(c.offset, Int(1));
    if Less(off, Int(0)) then
      var m := ScanDown(bins, c.median - 1);
      Cursor(m, Minus(Get(bins, m), Int(1)))
    else
      Cursor(c.median, off)
  }

  /**
   * `incrMedian`: one step up; past the bin, the bottom of the nearest
   * non-empty higher bin. As written (`fixed == false`) the overflow test
   * compares with the whole array; corrected, with `bin[median]`.
   */
  function IncrCursor(bins: seq<int>, c: Cursor, fixed: bool): Cursor
  {
    var off := Plus(c.offset, Int(1));
    var limit := if fixed then Get(bins, c.median) else ArrayAsNumber(bins);
    if AtLeast(off, limit) then
      Cursor(ScanUp(bins, c.median + 1), Int(0))
    else
      Cursor(c.median, off)
  }

  /** The cursor move of `addValue` once indexed, branching on the count before the add. */
  function AddCursor(bins: seq<int>, count: int, x: int, c: Cursor, fixed: bool): Cursor
  {
    if count % 2 == 0 then
      (if x < c.median then DecrCursor(bins, c) else c)
    else
      (if x >= c.median then IncrCursor(bins, c, fixed) else c)
  }

  /** The cursor move of `subValue` once indexed, branching on the count before the removal. */
  function SubCursor(bins: seq<int>, count: int, x: int, c: Cursor, fixed: bool): Cursor
  {
    if count % 2 == 0 then
      (if x >= c.median then DecrCursor(bins, c) else c)
    else
      (if x <= c.median then IncrCursor(bins, c, fixed) else c)
  }

  /**
   * The intended move of `subValue`: removing the median's own value from an
   * odd count keeps the rank, so the cursor only has to leave a bin it has
   * fallen off (one step down, then one step up).
   */
  function SubCursorFixed(bins: seq<int>, count: int, x: int, c: Cursor): Cursor
  {
    if count % 2 == 0 then
      (if x >= c.median then DecrCursor(bins, c) else c)
    else if x < c.median then
      IncrCursor(bins, c, true)
    else if x == c.median then
      IncrCursor(bins, Cursor(c.median, Minus(c.offset, Int(1))), true)
    else
      c
  }

  /** `addValue(x)` as written. */
  function AddSpec(s: BinState, x: int): BinState
  {
    var bins := Bump(s.bins, x, 1);
    if !s.indexed then s.(bins := bins, count := s.count + 1)
    else s.(bins := bins, count := s.count + 1, cursor := AddCursor(bins, s.count, x, s.cursor, false))
  }

  /** `subValue(x)` as written. */
  function SubSpec(s: BinState, x: int): BinState
  {
    var bins := Bump(s.bins, x, -1);
    if !s.indexed then s.(bins := bins, count := s.count - 1)
    else s.(bins := bins, count := s.count - 1, cursor := SubCursor(bins, s.count, x, s.cursor, false))
  }

  /** `addValue(x)` with the overflow test of `incrMedian` corrected. */
  function AddSpecFixed(s: BinState, x: int): BinState
  {
    var bins := Bump(s.bins, x, 1);
    if !s.indexed then s.(bins := bins, count := s.count + 1)
    else s.(bins := bins, count := s.count + 1, cursor := AddCursor(bins, s.count, x, s.cursor, true))
  }

  /** `subValue(x)` with `incrMedian` corrected and the removal of the median's own value handled. */
  function SubSpecFixed(s: BinState, x: int): BinState
  {
    var bins := Bump(s.bins, x, -1);
    if !s.indexed then s.(bins := bins, count := s.count - 1)
    else s.(bins := bins, count := s.count - 1, cursor := SubCursorFixed(bins, s.count, x, s.cursor))
  }

  /**
   * The scan of `index` as written: `binVal` is read once, before the loop,
   * while `acc` collects the bins the cursor passes.
   */
  function IndexScan(bins: seq<int>, binVal: Num, target: int, m: int, acc: Num): (int, Num)
    requires acc.Int? ==> 0 <= m <= |bins|
    decreases if acc.NaN? then 0 else |bins| - m + 1
  {
    if Less(Plus(acc, binVal), Int(target)) then
      IndexScan(bins, binVal, target, m + 1, Plus(acc, Get(bins, m)))
    else
      (m, acc)
  }

  /** `index()` as written. */
  function IndexSpec(s: BinState): BinState
  {
    var target := ToInt32(s.count) / 2;
    var r := IndexScan(s.bins, Get(s.bins, 0), target, 0, Int(0));
    s.(cursor := Cursor(r.0, Minus(Int(target), r.1)), indexed := true)
  }

  /**
   * The intended scan of `index`: the bin under the cursor is read afresh at
   * every step, and a bin is passed only when it ends at or below the target,
   * so the cursor stops inside the bin that holds the target rank.
   */
  function IndexScanFixed(bins: seq<int>, target: int, m: nat, acc: int): (int, int)
    decreases |bins| - m
  {
    if m < |bins| && acc + bins[m] <= target then
      IndexScanFixed(bins, target, m + 1, acc + bins[m])
    else
      (m, acc)
  }

  /** `index()` with `binVal` refreshed and the loop test `<=`. */
  function IndexSpecFixed(s: BinState): BinState
  {
    var target := ToInt32(s.count) / 2;
    var r := IndexScanFixed(s.bins, target, 0, 0);
    s.(cursor := Cursor(r.0, Int(target - r.1)), indexed := true)
  }

  // ---------------------------------------------------------------- lemmas: count and bins

  /** A new or flushed bin is consistent: all bins empty and `count` their total. */
  lemma EmptyIsConsistent(range: nat)
    ensures var s := Empty(range);
      |s.bins| == range && IsU32(s.bins) && s.count == Sum(s.bins) && MedianOf(s) == None
  {
    SumZeros(Empty(range).bins);
  }

  /**
   * `addValue` of a value inside the range raises that bin and `count` by one
   * and touches no other bin, so `count` stays the total; before `index()` the
   * cursor does not move.
   */
  lemma AddKeepsCount(s: BinState, x: int)
    requires IsU32(s.bins) && s.count == Sum(s.bins)
    requires 0 <= x < |s.bins| && s.bins[x] + 1 < U32
    ensures var t := AddSpec(s, x);
      IsU32(t.bins) && t.count == Sum(t.bins) && |t.bins| == |s.bins|
      && t.bins[x] == s.bins[x] + 1
      && (forall i :: 0 <= i < |s.bins| && i != x ==> t.bins[i] == s.bins[i])
      && (!s.indexed ==> t.cursor == s.cursor && !t.indexed)
  {
    SumUpdate(s.bins, x, s.bins[x] + 1);
  }

  /**
   * `subValue` of a value that is present lowers that bin and `count` by one
   * and touches no other bin; before `index()` the cursor does not move.
   */
  lemma SubKeepsCount(s: BinState, x: int)
    requires IsU32(s.bins) && s.count == Sum(s.bins)
    requires 0 <= x < |s.bins| && s.bins[x] >= 1
    ensures var t := SubSpec(s, x);
      IsU32(t.bins) && t.count == Sum(t.bins) && |t.bins| == |s.bins|
      && t.bins[x] == s.bins[x] - 1
      && (forall i :: 0 <= i < |s.bins| && i != x ==> t.bins[i] == s.bins[i])
      && (!s.indexed ==> t.cursor == s.cursor && !t.indexed)
  {
    SumUpdate(s.bins, x, s.bins[x] - 1);
  }

  /** Removing a value whose bin is empty wraps that bin to 2^32 - 1. */
  lemma SubEmptyBinWraps(s: BinState, x: int)
    requires 0 <= x < |s.bins| && s.bins[x] == 0
    ensures SubSpec(s, x).bins[x] == U32 - 1 && SubSpec(s, x).count == s.count - 1
  {
  }

  // ---------------------------------------------------------------- lemmas: index

  lemma {:induction false} IndexScanSums(bins: seq<int>, binVal: Num, target: int, m: int, acc: Num)
    requires acc.Int? ==> 0 <= m <= |bins| && acc.n == Sum(bins[..m])
    ensures var r := IndexScan(bins, binVal, target, m, acc);
      r.1.Int? ==> 0 <= r.0 <= |bins| && r.1.n == Sum(bins[..r.0]) && !Less(Plus(r.1, binVal), Int(target))
    decreases if acc.NaN? then 0 else |bins| - m + 1
  {
    if Less(Plus(acc, binVal), Int(target)) {
      if m < |bins| {
        SumPrefixStep(bins, m);
      }
      IndexScanSums(bins, binVal, target, m + 1, Plus(acc, Get(bins, m)));
    }
  }

  /**
   * `index()` as written: it targets `count >> 1`, leaves the bins and the
   * count alone, and, unless the scan ran off the array, stops where the sum
   * of the bins below `median` plus `bin[0]` reaches the target, with
   * `offset = target - acc`.
   */
  lemma IndexResult(s: BinState)
    ensures var t := IndexSpec(s);
      var target := ToInt32(s.count) / 2;
      t.indexed && t.bins == s.bins && t.count == s.count
      && (t.cursor.offset.Int? ==>
            0 <= t.cursor.median <= |s.bins|
            && t.cursor.offset.n == target - Sum(s.bins[..t.cursor.median])
            && !Less(Plus(Int(Sum(s.bins[..t.cursor.median])), Get(s.bins, 0)), Int(target)))
  {
    SumAll(s.bins);
    IndexScanSums(s.bins, Get(s.bins, 0), ToInt32(s.count) / 2, 0, Int(0));
  }

  lemma {:induction false} IndexScanFixedFinds(bins: seq<int>, target: int, m: nat, acc: int)
    requires NonNeg(bins) && m <= |bins| && acc == Sum(bins[..m]) && acc <= target < Sum(bins)
    ensures var r := IndexScanFixed(bins, target, m, acc);
      0 <= r.0 < |bins| && r.1 == Sum(bins[..r.0]) && r.1 <= target < r.1 + bins[r.0]
    decreases |bins| - m
  {
    SumAll(bins);
    if m < |bins| {
      SumPrefixStep(bins, m);
      if acc + bins[m] <= target {
        IndexScanFixedFinds(bins, target, m + 1, acc + bins[m]);
      }
    } else {
      assert false;
    }
  }

  /** Corrected, `index()` puts the cursor on the element of rank `count >> 1`. */
  lemma IndexFixedCentres(s: BinState)
    requires NonNeg(s.bins) && s.count == Sum(s.bins) && 1 <= s.count < I31
    ensures Centred(IndexSpecFixed(s))
  {
    SumAll(s.bins);
    IndexScanFixedFinds(s.bins, s.count / 2, 0, 0);
  }

  /** The scan as written overshoots: with values {1, 1, 1} it ends past the array with a negative offset. */
  lemma IndexOvershoots()
    ensures IndexSpec(BinState([0, 3], 3, Cursor(0, Int(0)), false)).cursor == Cursor(2, Int(-2))
    ensures IndexSpecFixed(BinState([0, 3], 3, Cursor(0, Int(0)), false)).cursor == Cursor(1, Int(1))
  {
    var bins := [0, 3];
    assert ToInt32(3) / 2 == 1;
    assert Get(bins, 0) == Int(0) && Get(bins, 1) == Int(3);
    assert IndexScan(bins, Int(0), 1, 2, Int(3)) == (2, Int(3));
    assert IndexScan(bins, Int(0), 1, 1, Int(0)) == (2, Int(3));
    assert IndexScan(bins, Int(0), 1, 0, Int(0)) == (2, Int(3));
    assert IndexScanFixed(bins, 1, 1, 0) == (1, 0);
    assert IndexScanFixed(bins, 1, 0, 0) == (1, 0);
  }

  // ---------------------------------------------------------------- lemmas: cursor moves

  lemma {:induction false} ScanDownSum(bins: seq<int>, j: int)
    requires -1 <= j < |bins|
    ensures -1 <= ScanDown(bins, j) && Sum(bins[..ScanDown(bins, j) + 1]) == Sum(bins[..j + 1])
    decreases j + 1
  {
    if 0 <= j && bins[j] == 0 {
      ScanDownSum(bins, j - 1);
      SumPrefixStep(bins, j);
    }
  }

  lemma {:induction false} ScanUpSum(bins: seq<int>, j: int)
    requires 0 <= j <= |bins|
    ensures ScanUp(bins, j) <= |bins| && Sum(bins[..ScanUp(bins, j)]) == Sum(bins[..j])
    decreases |bins| - j
  {
    if j < |bins| && bins[j] == 0 {
      ScanUpSum(bins, j + 1);
      SumPrefixStep(bins, j);
    }
  }

  /**
   * `decrMedian` moves the cursor to the previous element in sorted order,
   * from a position inside its bin or just above it, provided one exists.
   */
  lemma DecrStepsDown(bins: seq<int>, c: Cursor)
    requires NonNeg(bins)
    requires 0 <= c.median < |bins| && c.offset.Int? && 0 <= c.offset.n <= bins[c.median]
    requires Rank(bins, c) >= 1
    ensures InBin(bins, DecrCursor(bins, c))
    ensures Rank(bins, DecrCursor(bins, c)) == Rank(bins, c) - 1
  {
    if c.offset.n == 0 {
      var r := ScanDown(bins, c.median - 1);
      ScanDownSum(bins, c.median - 1);
      assert r != -1 by {
        SumAll(bins);
      }
      SumPrefixStep(bins, r);
    }
  }

  /**
   * The corrected `incrMedian` moves the cursor to the next element in sorted
   * order, from a position inside its bin or just below it, provided one exists.
   */
  lemma IncrFixedStepsUp(bins: seq<int>, c: Cursor)
    requires NonNeg(bins)
    requires 0 <= c.median < |bins| && c.offset.Int? && -1 <= c.offset.n < bins[c.median]
    requires Rank(bins, c) + 1 < Sum(bins)
    ensures InBin(bins, IncrCursor(bins, c, true))
    ensures Rank(bins, IncrCursor(bins, c, true)) == Rank(bins, c) + 1
  {
    var m, off := c.median, c.offset.n;
    if off + 1 >= bins[m] {
      var r := ScanUp(bins, m + 1);
      ScanUpSum(bins, m + 1);
      SumPrefixStep(bins, m);
      assert Sum(bins[..r]) == Rank(bins, c) + 1;
      SumAll(bins);
      assert r != |bins|;
      assert IncrCursor(bins, c, true) == Cursor(r, Int(0));
    } else {
      assert IncrCursor(bins, c, true) == Cursor(m, Int(off + 1));
    }
  }

  /** As written, `incrMedian` never leaves its bin once there are two bins or more. */
  lemma IncrNeverAdvances(bins: seq<int>, c: Cursor)
    requires |bins| >= 2
    ensures IncrCursor(bins, c, false) == Cursor(c.median, Plus(c.offset, Int(1)))
  {
  }

  /** With the corrected `incrMedian`, `addValue` keeps the cursor on the median. */
  lemma AddFixedKeepsCentred(s: BinState, x: int)
    requires Centred(s) && IsU32(s.bins)
    requires 0 <= x < |s.bins| && s.bins[x] + 1 < U32
    ensures Centred(AddSpecFixed(s, x))
  {
    var b, c := s.bins, s.cursor;
    var b' := b[x := b[x] + 1];
    assert Bump(b, x, 1) == b';
    SumUpdate(b, x, b[x] + 1);
    SumPrefixUpdate(b, x, b[x] + 1, c.median);
    if s.count % 2 == 0 {
      if x < c.median {
        DecrStepsDown(b', c);
      }
    } else if x >= c.median {
      IncrFixedStepsUp(b', c);
    }
  }

  /** With both corrections, `subValue` of a stored value keeps the cursor on the median. */
  lemma SubFixedKeepsCentred(s: BinState, x: int)
    requires Centred(s) && IsU32(s.bins) && s.count >= 2
    requires 0 <= x < |s.bins| && s.bins[x] >= 1
    ensures Centred(SubSpecFixed(s, x))
  {
    var b, c := s.bins, s.cursor;
    var b' := b[x := b[x] - 1];
    var c' := SubCursorFixed(b', s.count, x, c);
    assert Bump(b, x, -1) == b';
    assert SubSpecFixed(s, x) == s.(bins := b', count := s.count - 1, cursor := c');
    assert NonNeg(b') && Sum(b') == s.count - 1 && Rank(b', c) == Rank(b, c) - (if x < c.median then 1 else 0) by {
      SumUpdate(b, x, b[x] - 1);
      SumPrefixUpdate(b, x, b[x] - 1, c.median);
    }
    SubCursorFixedCentred(b, b', s.count, x, c);
  }

  /**
   * The corrected cursor step of `subValue`: from the element of rank
   * `count >> 1` before the removal to the element of rank
   * `(count - 1) >> 1` after it.
   */
  lemma SubCursorFixedCentred(b: seq<int>, b': seq<int>, count: int, x: int, c: Cursor)
    requires NonNeg(b') && Sum(b') == count - 1 && count >= 2 && 0 <= x < |b| == |b'|
    requires b' == b[x := b[x] - 1] && InBin(b, c) && Rank(b, c) == count / 2
    requires Rank(b', c) == Rank(b, c) - (if x < c.median then 1 else 0)
    ensures var c' := SubCursorFixed(b', count, x, c);
      InBin(b', c') && Rank(b', c') == (count - 1) / 2
  {
    if count % 2 == 0 {
      if x >= c.median {
        DecrStepsDown(b', c);
      }
    } else if x < c.median {
      IncrFixedStepsUp(b', c);
    } else if x == c.median {
      IncrFixedStepsUp(b', Cursor(c.median, Int(c.offset.n - 1)));
    }
  }

  /** A centred cursor's bin holds the element of rank `count >> 1`, and `getMedian` returns that bin. */
  lemma CentredMedian(s: BinState)
    requires Centred(s)
    ensures MedianOf(s) == Some(s.cursor.median) && s.bins[s.cursor.median] > 0
    ensures Sum(s.bins[..s.cursor.median]) <= s.count / 2 < Sum(s.bins[..s.cursor.median + 1])
  {
    SumPrefixStep(s.bins, s.cursor.median);
  }

  /**
   * Values 0, 0, 1 added and indexed give a centred cursor; adding a 1 then
   * leaves the cursor past the end of bin 0 as written, so `getMedian` says 0
   * where the median of {0, 0, 1, 1} (upper one) is 1. Corrected, it moves to bin 1.
   */
  lemma AddLosesMedian()
    ensures var s := IndexSpec(AddSpec(AddSpec(AddSpec(Empty(2), 0), 0), 1));
      s == BinState([2, 1], 3, Cursor(0, Int(1)), true) && Centred(s)
      && AddSpec(s, 1).cursor == Cursor(0, Int(2)) && !Centred(AddSpec(s, 1))
      && AddSpecFixed(s, 1).cursor == Cursor(1, Int(0)) && Centred(AddSpecFixed(s, 1))
  {
    ThreeAddsIndexed();
    var s := BinState([2, 1], 3, Cursor(0, Int(1)), true);
    assert Sum([2, 1]) == 3 by {
      assert [2, 1][..1] == [2];
      assert [2][..0] == [];
    }
    assert [2, 1][..0] == [];
    assert Centred(s);
    assert Bump([2, 1], 1, 1) == [2, 2];
    assert AddSpec(s, 1).cursor == IncrCursor([2, 2], Cursor(0, Int(1)), false) == Cursor(0, Int(2));
    assert ScanUp([2, 2], 1) == 1;
    var u := AddSpecFixed(s, 1);
    assert u.cursor == IncrCursor([2, 2], Cursor(0, Int(1)), true) == Cursor(1, Int(0));
    assert Sum([2, 2]) == 4 by {
      assert [2, 2][..1] == [2];
      assert [2][..0] == [];
    }
    assert Sum([2, 2][..1]) == 2 by {
      assert [2, 2][..1] == [2];
      assert [2][..0] == [];
    }
  }

  /** Adding 0, 0 and 1 to a two-bin histogram and indexing gives a cursor at rank 1, inside bin 0. */
  lemma ThreeAddsIndexed()
    ensures IndexSpec(AddSpec(AddSpec(AddSpec(Empty(2), 0), 0), 1)) == BinState([2, 1], 3, Cursor(0, Int(1)), true)
  {
    var e := Empty(2);
    assert e == BinState([0, 0], 0, Cursor(0, Int(0)), false);
    var a1 := AddSpec(e, 0);
    assert a1 == BinState([1, 0], 1, Cursor(0, Int(0)), false);
    var a2 := AddSpec(a1, 0);
    assert a2 == BinState([2, 0], 2, Cursor(0, Int(0)), false);
    var a3 := AddSpec(a2, 1);
    assert a3 == BinState([2, 1], 3, Cursor(0, Int(0)), false);
    assert ToInt32(3) / 2 == 1;
    assert IndexScan([2, 1], Int(2), 1, 0, Int(0)) == (0, Int(0));
  }

  /**
   * Lines 97-101 with `incrMedian` corrected: removing a 1 from {1, 1, 1}
   * sends the cursor past the last bin, although {1, 1} has its median in
   * bin 1; the corrected removal keeps it there.
   */
  lemma SubOwnValueOvershoots()
    ensures var s := BinState([0, 3], 3, Cursor(1, Int(1)), true);
      Centred(s)
      && SubCursor([0, 2], 3, 1, s.cursor, true) == Cursor(2, Int(0))
      && SubSpecFixed(s, 1).cursor == Cursor(1, Int(1)) && Centred(SubSpecFixed(s, 1))
  {
    assert Sum([0, 3]) == 3 by {
      assert [0, 3][..1] == [0];
      assert [0][..0] == [];
    }
    assert Sum([0, 2]) == 2 by {
      assert [0, 2][..1] == [0];
      assert [0][..0] == [];
    }
    assert [0, 3][..1] == [0];
    assert [0, 2][..1] == [0];
    assert [0][..0] == [];
    assert [0, 3][1 := 2] == [0, 2];
  }

  // ---------------------------------------------------------------- the object

  /** A `MedianIntBin(range)`: its fields change in place. */
  class MedianIntBin {
    const range: nat
    const bin: array<int>
    var count: int
    var median: int
    var offset: Num
    var indexed: bool

    ghost predicate Valid()
      reads this, bin
    {
      bin.Length == range && IsU32(bin[..])
    }

    /** All fields as one value. */
    function State(): BinState
      reads this, bin
    {
      BinState(bin[..], count, Cursor(median, offset), indexed)
    }

    constructor(range: nat)
      ensures Valid() && State() == Empty(range) && fresh(bin)
    {
      this.range := range;
      bin := new int[range](_ => 0);
      count := 0;
      median := 0;
      offset := Int(0);
      indexed := false;
      new;
      assert bin[..] == Empty(range).bins;
    }

    /** `flush()`: empties every bin and resets the count and the cursor. */
    method Flush()
      requires Valid()
      modifies this, bin
      ensures Valid() && State() == Empty(range)
    {
      var i := 0;
      while i < bin.Length
        invariant 0 <= i <= bin.Length
        invariant forall j :: 0 <= j < i ==> bin[j] == 0
      {
        bin[i] := 0;
        i := i + 1;
      }
      count := 0;
      median := 0;
      offset := Int(0);
      indexed := false;
      assert bin[..] == Empty(range).bins;
    }

    /** `decrMedian()`. */
    method DecrMedian()
      requires Valid()
      modifies this
      ensures Valid() && State() == old(State()).(cursor := DecrCursor(bin[..], old(State()).cursor))
    {
      offset := Minus(offset, Int(1));
      if Less(offset, Int(0)) {
        median := median - 1;
        while 0 <= median < bin.Length && bin[median] == 0
          invariant ScanDown(bin[..], median) == ScanDown(bin[..], old(median) - 1)
          invariant count == old(count) && indexed == old(indexed)
          decreases median + 1
        {
          median := median - 1;
        }
        offset := Minus(Get(bin[..], median), Int(1));
      }
    }

    /** `incrMedian()` as written: the overflow test compares with the whole array. */
    method IncrMedian()
      requires Valid()
      modifies this
      ensures Valid() && State() == old(State()).(cursor := IncrCursor(bin[..], old(State()).cursor, false))
    {
      offset := Plus(offset, Int(1));
      if AtLeast(offset, ArrayAsNumber(bin[..])) {
        median := median + 1;
        while 0 <= median < bin.Length && bin[median] == 0
          invariant ScanUp(bin[..], median) == ScanUp(bin[..], old(median) + 1)
          invariant count == old(count) && indexed == old(indexed)
          decreases bin.Length - median
        {
          median := median + 1;
        }
        offset := Int(0);
      }
    }

    /** `addValue(x)`. */
    method AddValue(x: int)
      requires Valid()
      modifies this, bin
      ensures Valid() && State() == AddSpec(old(State()), x)
    {
      if 0 <= x < bin.Length {
        bin[x] := (bin[x] + 1) % U32;
      }
      if !indexed {
        count := count + 1;
        return;
      }
      if count % 2 == 0 {
        if x < median {
          DecrMedian();
        }
      } else {
        if x >= median {
          IncrMedian();
        }
      }
      count := count + 1;
    }

    /** `subValue(x)`. */
    method SubValue(x: int)
      requires Valid()
      modifies this, bin
      ensures Valid() && State() == SubSpec(old(State()), x)
    {
      if 0 <= x < bin.Length {
        bin[x] := (bin[x] - 1) % U32;
      }
      if !indexed {
        count := count - 1;
        return;
      }
      if count % 2 == 0 {
        if x >= median {
          DecrMedian();
        }
      } else {
        if x <= median {
          IncrMedian();
        }
      }
      count := count - 1;
    }

    /** `getMedian()`: the cursor's bin once indexed; undefined (after a console message) before. */
    method GetMedian() returns (r: Option<int>)
      ensures indexed ==> r == Some(median)
      ensures !indexed ==> r == None
      ensures r == MedianOf(State())
    {
      if indexed {
        r := Some(median);
      } else {
        r := None;
      }
    }

    /** `index()` as written. */
    method Index()
      requires Valid()
      modifies this
      ensures Valid() && State() == IndexSpec(old(State()))
    {
      var target := ToInt32(count) / 2;
      var acc := Int(0);
      median := 0;
      var binVal := Get(bin[..], median);
      while Less(Plus(acc, binVal), Int(target))
        invariant acc.Int? ==> 0 <= median <= bin.Length
        invariant IndexScan(bin[..], binVal, target, median, acc)
               == IndexScan(bin[..], binVal, target, 0, Int(0))
        invariant count == old(count) && target == ToInt32(count) / 2 && binVal == Get(bin[..], 0)
        decreases if acc.NaN? then 0 else bin.Length - median + 1
      {
        acc := Plus(acc, Get(bin[..], median));
        median := median + 1;
      }
      offset := Minus(Int(target), acc);
      indexed := true;
    }
  }
}
