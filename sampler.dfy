/** The point sampler: from a click's pixel position on the decay-index grid, the
    profiles of the cells around it restricted to the heights at or below the threshold,
    and the population those profiles are appended to, one cell at a time. */
module PointSampler {
  import opened Basics
  import opened Numerics
  import opened DecayIndex

  /** np.where(heights <= threshold)[0], scanning from index k on. */
  function WhereFrom(heights: seq<real>, threshold: real, k: nat): (idx: seq<nat>)
    requires k <= |heights|
    ensures |idx| <= |heights| - k
    decreases |heights| - k
  {
    if k == |heights| then []
    else (if heights[k] <= threshold then [k] else []) + WhereFrom(heights, threshold, k + 1)
  }

  /** The indices of the heights at or below the threshold, as np.where lists them. */
  function AtOrBelow(heights: seq<real>, threshold: real): (idx: seq<nat>)
    ensures |idx| <= |heights|
  {
    WhereFrom(heights, threshold, 0)
  }

  lemma WhereFromUnfold(heights: seq<real>, threshold: real, k: nat)
    requires k < |heights|
    ensures WhereFrom(heights, threshold, k) ==
      (if heights[k] <= threshold then [k] + WhereFrom(heights, threshold, k + 1) else WhereFrom(heights, threshold, k + 1))
  {
  }

  lemma {:induction false} WhereFromBounds(heights: seq<real>, threshold: real, k: nat)
    requires k <= |heights|
    ensures var idx := WhereFrom(heights, threshold, k);
      forall m :: 0 <= m < |idx| ==> k <= idx[m] < |heights| && heights[idx[m]] <= threshold
    decreases |heights| - k
  {
    if k < |heights| {
      WhereFromBounds(heights, threshold, k + 1);
      WhereFromUnfold(heights, threshold, k);
      var idx := WhereFrom(heights, threshold, k);
      var rest := WhereFrom(heights, threshold, k + 1);
      if heights[k] <= threshold {
        forall m | 0 <= m < |idx| ensures k <= idx[m] < |heights| && heights[idx[m]] <= threshold {
          if m > 0 { assert idx[m] == rest[m - 1]; }
        }
      }
    }
  }

  predicate Ascending(s: seq<nat>) {
    forall a, b :: 0 <= a < b < |s| ==> s[a] < s[b]
  }

  lemma ConsAscending(k: nat, rest: seq<nat>)
    requires Ascending(rest)
    requires forall m :: 0 <= m < |rest| ==> k < rest[m]
    ensures Ascending([k] + rest)
  {
    var s := [k] + rest;
    forall a, b | 0 <= a < b < |s| ensures s[a] < s[b] {
      assert s[b] == rest[b - 1];
      if a > 0 { assert s[a] == rest[a - 1]; }
    }
  }

  lemma {:induction false} WhereFromSorted(heights: seq<real>, threshold: real, k: nat)
    requires k <= |heights|
    ensures Ascending(WhereFrom(heights, threshold, k))
    decreases |heights| - k
  {
    if k < |heights| {
      WhereFromSorted(heights, threshold, k + 1);
      WhereFromBounds(heights, threshold, k + 1);
      WhereFromUnfold(heights, threshold, k);
      if heights[k] <= threshold {
        ConsAscending(k, WhereFrom(heights, threshold, k + 1));
      }
    }
  }

  lemma {:induction false} WhereFromComplete(heights: seq<real>, threshold: real, k: nat)
    requires k <= |heights|
    ensures var idx := WhereFrom(heights, threshold, k);
      forall n :: k <= n < |heights| && heights[n] <= threshold ==> n in idx
    decreases |heights| - k
  {
    if k < |heights| {
      WhereFromComplete(heights, threshold, k + 1);
      WhereFromUnfold(heights, threshold, k);
    }
  }

  lemma WhereFromSpec(heights: seq<real>, threshold: real, k: nat)
    requires k <= |heights|
    ensures var idx := WhereFrom(heights, threshold, k);
      (forall m :: 0 <= m < |idx| ==> k <= idx[m] < |heights| && heights[idx[m]] <= threshold) &&
      (forall a, b :: 0 <= a < b < |idx| ==> idx[a] < idx[b]) &&
      (forall n :: k <= n < |heights| && heights[n] <= threshold ==> n in idx)
  {
    WhereFromBounds(heights, threshold, k);
    WhereFromSorted(heights, threshold, k);
    WhereFromComplete(heights, threshold, k);
  }

  /** AtOrBelow lists, in ascending order and each once, exactly the indices whose
      height is at or below the threshold. */
  lemma AtOrBelowSpec(heights: seq<real>, threshold: real)
    ensures var idx := AtOrBelow(heights, threshold);
      (forall m :: 0 <= m < |idx| ==> idx[m] < |heights| && heights[idx[m]] <= threshold) &&
      (forall a, b :: 0 <= a < b < |idx| ==> idx[a] < idx[b]) &&
      (forall n :: 0 <= n < |heights| ==> (n in idx <==> heights[n] <= threshold))
  {
    WhereFromSpec(heights, threshold, 0);
    var idx := AtOrBelow(heights, threshold);
    assert idx == WhereFrom(heights, threshold, 0);
  }

  /** h_limited: the heights at or below the threshold, in their original order. */
  function LimitedHeights(heights: seq<real>, threshold: real): (hl: seq<real>)
    ensures |hl| == |AtOrBelow(heights, threshold)|
  {
    var idx := AtOrBelow(heights, threshold);
    AtOrBelowSpec(heights, threshold);
    seq(|idx|, m requires 0 <= m < |idx| => heights[idx[m]])
  }

  /** h_limited is height_Mm read at an ascending sequence of indices that holds every
      index whose height is at or below the threshold and no other: the subsequence of
      those heights, in their original order. */
  lemma LimitedHeightsSubsequence(heights: seq<real>, threshold: real)
    ensures var hl, idx := LimitedHeights(heights, threshold), AtOrBelow(heights, threshold);
      |hl| == |idx| && Ascending(idx) &&
      (forall m :: 0 <= m < |idx| ==> idx[m] < |heights| && hl[m] == heights[idx[m]] && hl[m] <= threshold) &&
      (forall n :: 0 <= n < |heights| ==> (n in idx <==> heights[n] <= threshold))
  {
    AtOrBelowSpec(heights, threshold);
  }

  /** h_limited is empty exactly when every height lies above the threshold. */
  lemma LimitedHeightsEmptyIff(heights: seq<real>, threshold: real)
    ensures |LimitedHeights(heights, threshold)| == 0 <==> forall n :: 0 <= n < |heights| ==> heights[n] > threshold
  {
    AtOrBelowSpec(heights, threshold);
    var idx := AtOrBelow(heights, threshold);
    if |idx| > 0 {
      assert heights[idx[0]] <= threshold;
    }
  }

  lemma {:induction false} IncreasingWhereFrom(heights: seq<real>, threshold: real, k: nat)
    requires k <= |heights| && StrictlyIncreasing(heights)
    ensures var idx := WhereFrom(heights, threshold, k);
      k + |idx| <= |heights| &&
      (forall m :: 0 <= m < |idx| ==> idx[m] == k + m) &&
      (forall n :: k + |idx| <= n < |heights| ==> heights[n] > threshold)
    decreases |heights| - k
  {
    if k < |heights| {
      IncreasingWhereFrom(heights, threshold, k + 1);
      var idx := WhereFrom(heights, threshold, k);
      var rest := WhereFrom(heights, threshold, k + 1);
      if heights[k] <= threshold {
        assert idx == [k] + rest;
        forall m | 0 <= m < |idx| ensures idx[m] == k + m {
          if m > 0 { assert idx[m] == rest[m - 1]; }
        }
      } else {
        assert idx == rest;
        forall n | k < n < |heights| ensures heights[n] > threshold {
          assert heights[k] < heights[n];
        }
        if |rest| > 0 {
          assert rest[0] == k + 1;
          assert heights[k + 1] > threshold;
          WhereFromSpec(heights, threshold, k + 1);
          assert false;
        }
      }
    }
  }

  /** Along strictly increasing heights, h_limited is a prefix of height_Mm and every
      height after it is above the threshold. */
  lemma LimitedHeightsPrefix(heights: seq<real>, threshold: real)
    requires StrictlyIncreasing(heights)
    ensures var hl := LimitedHeights(heights, threshold);
      |hl| <= |heights| && hl == heights[..|hl|] &&
      (forall n :: |hl| <= n < |heights| ==> heights[n] > threshold)
  {
    IncreasingWhereFrom(heights, threshold, 0);
  }

  /** Every selected height index has a layer in a volume of the given radial depth. */
  predicate SelectionInRange(idx: seq<nat>, depth: nat) {
    forall m :: 0 <= m < |idx| ==> idx[m] < depth
  }

  /** di[:, :, idx]: numpy's fancy indexing along the radial axis, which raises
      IndexError when an index lies beyond the axis. */
  function Restrict(di: Volume<real>, depth: nat, idx: seq<nat>): (r: Result<Volume<real>>)
    requires Columns(di, depth)
    ensures r.Success? <==> SelectionInRange(idx, depth)
    ensures r.Failure? ==> r.error == HeightIndexOutOfRange
    ensures r.Success? ==> SameFootprint(r.value, di) && Columns(r.value, |idx|)
  {
    if !SelectionInRange(idx, depth) then Failure(HeightIndexOutOfRange)
    else Success(seq(|di|, i requires 0 <= i < |di| =>
      seq(|di[i]|, j requires 0 <= j < |di[i]| =>
        seq(|idx|, m requires 0 <= m < |idx| => di[i][j][idx[m]]))))
  }

  /** v[floor(x):floor(x)+2, floor(y):floor(y)+2] with Python's slicing rules: clipped at
      the edges of the grid, never raising, so it can hold fewer than 2 x 2 cells. */
  function Block(v: Volume<real>, p: Pixel): (b: Volume<real>)
    ensures |b| <= 2
    ensures forall a :: 0 <= a < |b| ==> |b[a]| <= 2
  {
    var fx := Floor(p.x);
    var rows := SliceSpan(|v|, fx, fx + 2);
    var b := seq(rows.hi - rows.lo, a requires 0 <= a < rows.hi - rows.lo => BlockRow(v[rows.lo + a], p));
    assert forall a :: 0 <= a < |b| ==> b[a] == BlockRow(v[rows.lo + a], p);
    b
  }

  /** Every cell of a block is a cell of the grid, so it keeps the grid's radial length. */
  lemma BlockColumns(v: Volume<real>, p: Pixel, nz: nat)
    requires Columns(v, nz)
    ensures Columns(Block(v, p), nz)
  {
    var b := Block(v, p);
    var rows := SliceSpan(|v|, Floor(p.x), Floor(p.x) + 2);
    forall a, c | 0 <= a < |b| && 0 <= c < |b[a]| ensures |b[a][c]| == nz {
      assert b[a] == BlockRow(v[rows.lo + a], p);
      var row := v[rows.lo + a];
      var cols := SliceSpan(|row|, Floor(p.y), Floor(p.y) + 2);
      assert b[a] == row[cols.lo..cols.hi];
      assert b[a][c] == row[cols.lo + c];
    }
  }

  /** click_point_decay: the neighbourhood block around a pixel, each cell restricted to
      the heights at or below the threshold. The radial selection is made first, so its
      IndexError comes before the ValueError math.floor raises on a NaN pixel (None). */
  function ClickPointDecay(di: Volume<real>, heights: seq<real>, threshold: real, p: Option<Pixel>): (r: Result<Volume<real>>)
    requires Columns(di, DecayDepth(|heights|))
    ensures r.Success? <==> SelectionInRange(AtOrBelow(heights, threshold), DecayDepth(|heights|)) && p.Some?
    ensures r.Failure? ==>
      r.error == (if SelectionInRange(AtOrBelow(heights, threshold), DecayDepth(|heights|)) then NonFinitePixel else HeightIndexOutOfRange)
    ensures r.Success? ==> |r.value| <= 2 && (forall a :: 0 <= a < |r.value| ==> |r.value[a]| <= 2)
    ensures r.Success? ==> Columns(r.value, |AtOrBelow(heights, threshold)|)
  {
    var lim := Restrict(di, DecayDepth(|heights|), AtOrBelow(heights, threshold));
    if lim.Failure? then Failure(lim.error)
    else if p.None? then Failure(NonFinitePixel)
    else
      BlockColumns(lim.value, p.value, |AtOrBelow(heights, threshold)|);
      Success(Block(lim.value, p.value))
  }

  /** A click fails exactly when some height at or below the threshold has no
      decay-index layer, which does not depend on where it lands and is reported as
      HeightIndexOutOfRange, or else when it lands on no finite pixel. */
  lemma ClickPointDecayFailsIff(di: Volume<real>, heights: seq<real>, threshold: real, p: Option<Pixel>)
    requires Columns(di, DecayDepth(|heights|))
    ensures var r := ClickPointDecay(di, heights, threshold, p);
      var outOfRange := exists n :: 0 <= n < |heights| && heights[n] <= threshold && n >= DecayDepth(|heights|);
      (r.Failure? <==> outOfRange || p.None?) &&
      (r.Failure? ==> r.error == (if outOfRange then HeightIndexOutOfRange else NonFinitePixel))
  {
    var idx := AtOrBelow(heights, threshold);
    AtOrBelowSpec(heights, threshold);
    if !SelectionInRange(idx, DecayDepth(|heights|)) {
      var m :| 0 <= m < |idx| && idx[m] >= DecayDepth(|heights|);
      assert heights[idx[m]] <= threshold;
    }
  }

  /** For a click with non-negative pixel coordinates the block holds rows
      floor(x) .. floor(x)+1 and columns floor(y) .. floor(y)+1 that exist in the grid, and
      each of its cells is that grid cell's profile at the selected heights, in ascending
      height order. */
  lemma ClickPointDecayCells(di: Volume<real>, heights: seq<real>, threshold: real, p: Option<Pixel>)
    requires Columns(di, DecayDepth(|heights|))
    requires ClickPointDecay(di, heights, threshold, p).Success?
    requires p.Some? && p.value.x >= 0.0 && p.value.y >= 0.0
    ensures var b := ClickPointDecay(di, heights, threshold, p).value;
      var fx, fy := Floor(p.value.x), Floor(p.value.y);
      var idx := AtOrBelow(heights, threshold);
      |b| == (if fx + 2 <= |di| then 2 else if fx < |di| then |di| - fx else 0) &&
      forall a :: 0 <= a < |b| ==>
        |b[a]| == (if fy + 2 <= |di[fx + a]| then 2 else if fy < |di[fx + a]| then |di[fx + a]| - fy else 0) &&
        forall c :: 0 <= c < |b[a]| ==>
          |b[a][c]| == |idx| &&
          forall m :: 0 <= m < |idx| ==> idx[m] < DecayDepth(|heights|) && b[a][c][m] == di[fx + a][fy + c][idx[m]]
  {
    var idx := AtOrBelow(heights, threshold);
    var depth := DecayDepth(|heights|);
    var lim := Restrict(di, depth, idx).value;
    RestrictSelects(di, depth, idx);
    BlockOfSelection(di, depth, lim, idx, p.value);
    assert ClickPointDecay(di, heights, threshold, p).value == Block(lim, p.value);
  }

  /** A successful restriction holds, in every cell, the selected layers in order. */
  lemma RestrictSelects(di: Volume<real>, depth: nat, idx: seq<nat>)
    requires Columns(di, depth) && SelectionInRange(idx, depth)
    ensures var lim := Restrict(di, depth, idx).value;
      SameFootprint(lim, di) &&
      forall i, j :: 0 <= i < |di| && 0 <= j < |di[i]| ==>
        |lim[i][j]| == |idx| && forall m :: 0 <= m < |idx| ==> lim[i][j][m] == di[i][j][idx[m]]
  {
  }

  /** BlockCells, read through a selection lim of the layers idx of di. */
  lemma BlockOfSelection(di: Volume<real>, depth: nat, lim: Volume<real>, idx: seq<nat>, p: Pixel)
    requires p.x >= 0.0 && p.y >= 0.0
    requires Columns(di, depth) && SelectionInRange(idx, depth)
    requires SameFootprint(lim, di)
    requires forall i, j :: 0 <= i < |di| && 0 <= j < |di[i]| ==>
      |lim[i][j]| == |idx| && forall m :: 0 <= m < |idx| ==> lim[i][j][m] == di[i][j][idx[m]]
    ensures var b := Block(lim, p);
      var fx, fy := Floor(p.x), Floor(p.y);
      |b| == (if fx + 2 <= |di| then 2 else if fx < |di| then |di| - fx else 0) &&
      forall a :: 0 <= a < |b| ==>
        fx + a < |di| &&
        |b[a]| == (if fy + 2 <= |di[fx + a]| then 2 else if fy < |di[fx + a]| then |di[fx + a]| - fy else 0) &&
        forall c :: 0 <= c < |b[a]| ==>
          fy + c < |di[fx + a]| && |b[a][c]| == |idx| &&
          forall m :: 0 <= m < |idx| ==> b[a][c][m] == di[fx + a][fy + c][idx[m]]
  {
    BlockCells(lim, p);
  }

  /** For non-negative pixel coordinates the block holds the grid rows floor(x) and
      floor(x)+1 and, in each, the cells floor(y) and floor(y)+1, as far as they exist. */
  lemma BlockCells(v: Volume<real>, p: Pixel)
    requires p.x >= 0.0 && p.y >= 0.0
    ensures var b := Block(v, p);
      var fx, fy := Floor(p.x), Floor(p.y);
      |b| == (if fx + 2 <= |v| then 2 else if fx < |v| then |v| - fx else 0) &&
      forall a :: 0 <= a < |b| ==>
        fx + a < |v| &&
        |b[a]| == (if fy + 2 <= |v[fx + a]| then 2 else if fy < |v[fx + a]| then |v[fx + a]| - fy else 0) &&
        forall c :: 0 <= c < |b[a]| ==> fy + c < |v[fx + a]| && b[a][c] == v[fx + a][fy + c]
  {
    var b := Block(v, p);
    var fx := Floor(p.x);
    var rows := SliceSpan(|v|, fx, fx + 2);
    assert rows.lo == (if fx <= |v| then fx else |v|);
    forall a | 0 <= a < |b|
      ensures fx + a < |v| && b[a] == BlockRow(v[fx + a], p)
    {
    }
    forall a | 0 <= a < |b|
      ensures var row := v[fx + a]; var fy := Floor(p.y);
        |b[a]| == (if fy + 2 <= |row| then 2 else if fy < |row| then |row| - fy else 0) &&
        forall c :: 0 <= c < |b[a]| ==> fy + c < |row| && b[a][c] == row[fy + c]
    {
      BlockRowCells(v[fx + a], p);
    }
  }

  /** The cells floor(y) .. floor(y)+1 of one grid row. */
  function BlockRow(row: seq<Profile>, p: Pixel): (r: seq<Profile>)
    ensures |r| <= 2
  {
    var fy := Floor(p.y);
    var cols := SliceSpan(|row|, fy, fy + 2);
    row[cols.lo..cols.hi]
  }

  lemma BlockRowCells(row: seq<Profile>, p: Pixel)
    requires p.y >= 0.0
    ensures var r := BlockRow(row, p); var fy := Floor(p.y);
      |r| == (if fy + 2 <= |row| then 2 else if fy < |row| then |row| - fy else 0) &&
      forall c :: 0 <= c < |r| ==> fy + c < |row| && r[c] == row[fy + c]
  {
    var fy := Floor(p.y);
    var cols := SliceSpan(|row|, fy, fy + 2);
    assert cols.lo == (if fy <= |row| then fy else |row|);
    assert cols.hi == (if fy + 2 <= |row| then fy + 2 else |row|);
    assert BlockRow(row, p) == row[cols.lo..cols.hi];
  }

  /** The cells of a block in row-major order, as the calculator's nested loops append
      them: all of row 0, then all of row 1. */
  function Flatten<T>(block: seq<seq<T>>): seq<T> {
    if block == [] then [] else Flatten(block[..|block| - 1]) + block[|block| - 1]
  }

  /** Flattening neither loses nor invents a cell: x is in the flattened block exactly
      when it is in one of its rows. */
  lemma {:induction false} FlattenMembers<T>(block: seq<seq<T>>, x: T)
    ensures x in Flatten(block) <==> exists a :: 0 <= a < |block| && x in block[a]
    decreases |block|
  {
    if block != [] {
      var front := block[..|block| - 1];
      FlattenMembers(front, x);
      assert forall a :: 0 <= a < |front| ==> front[a] == block[a];
    }
  }

  lemma {:induction false} FlattenLength<T>(block: seq<seq<T>>, cols: nat)
    requires forall a :: 0 <= a < |block| ==> |block[a]| == cols
    ensures |Flatten(block)| == |block| * cols
  {
    if block != [] {
      FlattenLength(block[..|block| - 1], cols);
      assert (|block| - 1) * cols + cols == |block| * cols;
    }
  }

  lemma RowOffset(i: nat, j: nat, cols: nat, rows: nat)
    requires i < rows && j < cols
    ensures i * cols + j < rows * cols
  {
    assert i * cols + j < i * cols + cols == (i + 1) * cols;
    assert (i + 1) * cols <= rows * cols;
  }

  lemma {:induction false} FlattenCell<T>(block: seq<seq<T>>, cols: nat, i: nat, j: nat)
    requires forall a :: 0 <= a < |block| ==> |block[a]| == cols
    requires i < |block| && j < cols
    ensures i * cols + j < |Flatten(block)| && Flatten(block)[i * cols + j] == block[i][j]
    decreases |block|
  {
    var n := |block|;
    var front := block[..n - 1];
    assert Flatten(block) == Flatten(front) + block[n - 1];
    FlattenLength(front, cols);
    RowOffset(i, j, cols, n);
    FlattenLength(block, cols);
    if i < n - 1 {
      RowOffset(i, j, cols, n - 1);
      FlattenCell(front, cols, i, j);
    } else {
      assert i * cols + j == |Flatten(front)| + j;
    }
  }

  /** A block cut from a grid whose rows all have the same number of cells has rows of
      equal length too, as a numpy array does. */
  lemma BlockRectangular(v: Volume<real>, ny: nat, p: Pixel)
    requires forall i :: 0 <= i < |v| ==> |v[i]| == ny
    ensures var b := Block(v, p);
      var cols := SliceSpan(ny, Floor(p.y), Floor(p.y) + 2);
      |b| <= 2 && cols.hi - cols.lo <= 2 && forall a :: 0 <= a < |b| ==> |b[a]| == cols.hi - cols.lo
  {
    var b := Block(v, p);
    var rows := SliceSpan(|v|, Floor(p.x), Floor(p.x) + 2);
    forall a | 0 <= a < |b| ensures |b[a]| == SliceSpan(ny, Floor(p.y), Floor(p.y) + 2).hi - SliceSpan(ny, Floor(p.y), Floor(p.y) + 2).lo {
      assert b[a] == BlockRow(v[rows.lo + a], p);
    }
  }

  /** The profiles a sequence of logged clicks contributes, replayed in order as
      plotlog does: each click's block, flattened. Every profile has one entry per
      selected height, so a replayed population is never ragged. */
  function Replay(di: Volume<real>, heights: seq<real>, threshold: real, coords: seq<Coord>, toPixel: Coord -> Option<Pixel>): (r: Result<seq<Profile>>)
    requires Columns(di, DecayDepth(|heights|))
    ensures r.Success? ==> forall m :: 0 <= m < |r.value| ==> |r.value[m]| == |AtOrBelow(heights, threshold)|
    decreases |coords|
  {
    if coords == [] then Success([])
    else
      var earlier := Replay(di, heights, threshold, coords[..|coords| - 1], toPixel);
      if earlier.Failure? then earlier
      else
        var click := ClickPointDecay(di, heights, threshold, toPixel(coords[|coords| - 1]));
        if click.Failure? then Failure(click.error)
        else
          var all := earlier.value + Flatten(click.value);
          ReplayedProfileLengths(earlier.value, click.value, |AtOrBelow(heights, threshold)|);
          Success(all)
  }

  lemma ReplayedProfileLengths(earlier: seq<Profile>, block: Volume<real>, n: nat)
    requires forall m :: 0 <= m < |earlier| ==> |earlier[m]| == n
    requires Columns(block, n)
    ensures forall m :: 0 <= m < |earlier + Flatten(block)| ==> |(earlier + Flatten(block))[m]| == n
  {
    var all := earlier + Flatten(block);
    forall m | 0 <= m < |all| ensures |all[m]| == n {
      if m >= |earlier| {
        var x := Flatten(block)[m - |earlier|];
        FlattenMembers(block, x);
        var a :| 0 <= a < |block| && x in block[a];
        var c :| 0 <= c < |block[a]| && block[a][c] == x;
      }
    }
  }

  /** The population plotlog leaves behind: the cells of every click before the first one
      that fails (the exception ends the loop but keeps what was appended). */
  function ReplayedCells(di: Volume<real>, heights: seq<real>, threshold: real, coords: seq<Coord>, toPixel: Coord -> Option<Pixel>): (cells: seq<Profile>)
    requires Columns(di, DecayDepth(|heights|))
    ensures Replay(di, heights, threshold, coords, toPixel).Success? ==> cells == Replay(di, heights, threshold, coords, toPixel).value
    decreases |coords|
  {
    if coords == [] then []
    else
      var front := coords[..|coords| - 1];
      var earlier := Replay(di, heights, threshold, front, toPixel);
      if earlier.Failure? then ReplayedCells(di, heights, threshold, front, toPixel)
      else
        var click := ClickPointDecay(di, heights, threshold, toPixel(coords[|coords| - 1]));
        if click.Failure? then earlier.value else earlier.value + Flatten(click.value)
  }

  /** A replay fails exactly when there is at least one click and either the selected
      heights reach past the volume (then every click fails alike) or some click has no
      finite pixel; the first reason wins. */
  lemma {:induction false} ReplayFailsIff(di: Volume<real>, heights: seq<real>, threshold: real, coords: seq<Coord>, toPixel: Coord -> Option<Pixel>)
    requires Columns(di, DecayDepth(|heights|))
    ensures var inRange := SelectionInRange(AtOrBelow(heights, threshold), DecayDepth(|heights|));
      Replay(di, heights, threshold, coords, toPixel).Failure? <==>
        coords != [] && (!inRange || exists n :: 0 <= n < |coords| && toPixel(coords[n]).None?)
    ensures Replay(di, heights, threshold, coords, toPixel).Failure? ==>
      Replay(di, heights, threshold, coords, toPixel).error ==
        (if SelectionInRange(AtOrBelow(heights, threshold), DecayDepth(|heights|)) then NonFinitePixel else HeightIndexOutOfRange)
    decreases |coords|
  {
    if coords != [] {
      var front := coords[..|coords| - 1];
      ReplayFailsIff(di, heights, threshold, front, toPixel);
      SomeOffDisk(coords, toPixel);
    }
  }

  /** Some click of a non-empty log is off the disk exactly when one before the last
      is, or the last one is. */
  lemma SomeOffDisk(coords: seq<Coord>, toPixel: Coord -> Option<Pixel>)
    requires coords != []
    ensures var front := coords[..|coords| - 1];
      (exists n :: 0 <= n < |coords| && toPixel(coords[n]).None?) <==>
      (exists n :: 0 <= n < |front| && toPixel(front[n]).None?) || toPixel(coords[|coords| - 1]).None?
  {
    var front := coords[..|coords| - 1];
    if exists n :: 0 <= n < |front| && toPixel(front[n]).None? {
      var n :| 0 <= n < |front| && toPixel(front[n]).None?;
      assert coords[n] == front[n];
    }
    if exists n :: 0 <= n < |coords| && toPixel(coords[n]).None? {
      var n :| 0 <= n < |coords| && toPixel(coords[n]).None?;
      if n < |front| {
        assert front[n] == coords[n];
      }
    }
  }

  /** Once a prefix of the log fails to replay, no later click changes the outcome or the
      population left behind. */
  lemma {:induction false} ReplayFailurePersists(di: Volume<real>, heights: seq<real>, threshold: real, coords: seq<Coord>, n: nat, toPixel: Coord -> Option<Pixel>)
    requires Columns(di, DecayDepth(|heights|))
    requires n <= |coords|
    requires Replay(di, heights, threshold, coords[..n], toPixel).Failure?
    ensures Replay(di, heights, threshold, coords, toPixel) == Replay(di, heights, threshold, coords[..n], toPixel)
    ensures ReplayedCells(di, heights, threshold, coords, toPixel) == ReplayedCells(di, heights, threshold, coords[..n], toPixel)
    decreases |coords|
  {
    if n < |coords| {
      var front := coords[..|coords| - 1];
      assert front[..n] == coords[..n];
      ReplayFailurePersists(di, heights, threshold, front, n, toPixel);
    } else {
      assert coords[..n] == coords;
    }
  }

  /** When the first n clicks replay and click n fails, the whole replay fails with that
      click's error, and the population keeps exactly the cells of the first n clicks. */
  lemma ReplayFailsAt(di: Volume<real>, heights: seq<real>, threshold: real, coords: seq<Coord>, n: nat, toPixel: Coord -> Option<Pixel>)
    requires Columns(di, DecayDepth(|heights|))
    requires n < |coords|
    requires Replay(di, heights, threshold, coords[..n], toPixel).Success?
    requires ClickPointDecay(di, heights, threshold, toPixel(coords[n])).Failure?
    ensures Replay(di, heights, threshold, coords, toPixel) == Failure(ClickPointDecay(di, heights, threshold, toPixel(coords[n])).error)
    ensures ReplayedCells(di, heights, threshold, coords, toPixel) == Replay(di, heights, threshold, coords[..n], toPixel).value
  {
    var prefix := coords[..n + 1];
    assert prefix[..n] == coords[..n] && prefix[n] == coords[n];
    ReplayFailurePersists(di, heights, threshold, coords, n + 1, toPixel);
  }

  /** Replaying one more click extends the replayed population by that click's cells and
      leaves every earlier entry in place. */
  lemma ReplayAppend(di: Volume<real>, heights: seq<real>, threshold: real, coords: seq<Coord>, c: Coord, toPixel: Coord -> Option<Pixel>)
    requires Columns(di, DecayDepth(|heights|))
    requires Replay(di, heights, threshold, coords, toPixel).Success?
    requires ClickPointDecay(di, heights, threshold, toPixel(c)).Success?
    ensures Replay(di, heights, threshold, coords + [c], toPixel) ==
      Success(Replay(di, heights, threshold, coords, toPixel).value + Flatten(ClickPointDecay(di, heights, threshold, toPixel(c)).value))
  {
    assert (coords + [c])[..|coords|] == coords;
  }
}
