/** The decay-index engine: from the potential-field solver's field vectors on the
    (longitude, latitude, radius) grid and its radial grid in log-radius, derive the
    decay index n = -d(ln B_h)/d(ln h) in every cell, and the height axis in Mm. */
module DecayIndex {
  import opened Basics
  import opened Numerics

  /** One field vector of the solver's output, in the component order of its last
      array axis: 0 = B_phi, 1 = B_theta, 2 = B_r. */
  datatype FieldVector = FieldVector(bPhi: real, bTheta: real, bR: real)

  /** A 3-D array indexed [longitude][latitude][radius]. */
  type Volume<T> = seq<seq<seq<T>>>

  /** One cell's values along the radial axis. */
  type Profile = seq<real>

  /** Every radial column of v has nz entries. */
  predicate Columns<T>(v: Volume<T>, nz: nat) {
    forall i, j :: 0 <= i < |v| && 0 <= j < |v[i]| ==> |v[i][j]| == nz
  }

  /** a and b have the same horizontal extents. */
  predicate SameFootprint<A, B>(a: Volume<A>, b: Volume<B>) {
    |a| == |b| && forall i :: 0 <= i < |a| ==> |a[i]| == |b[i]|
  }

  function SumOfSquares(x: real, y: real): real {
    x * x + y * y
  }

  /** sqrt(b_theta^2 + b_phi^2), the radial component being ignored. */
  function HorizontalStrength(lib: Library, b: FieldVector): real {
    lib.sqrt(SumOfSquares(b.bTheta, b.bPhi))
  }

  /** The horizontal strength ignores B_r and depends on B_theta and B_phi only through
      their squares: flipping either sign, or swapping the two, leaves it unchanged. */
  lemma HorizontalStrengthSymmetries(lib: Library, bPhi: real, bTheta: real, bR: real, bR': real)
    ensures HorizontalStrength(lib, FieldVector(bPhi, bTheta, bR)) == HorizontalStrength(lib, FieldVector(bPhi, bTheta, bR'))
    ensures HorizontalStrength(lib, FieldVector(bPhi, bTheta, bR)) == HorizontalStrength(lib, FieldVector(-bPhi, bTheta, bR))
    ensures HorizontalStrength(lib, FieldVector(bPhi, bTheta, bR)) == HorizontalStrength(lib, FieldVector(bPhi, -bTheta, bR))
    ensures HorizontalStrength(lib, FieldVector(bPhi, bTheta, bR)) == HorizontalStrength(lib, FieldVector(bTheta, bPhi, bR))
  {
    assert SumOfSquares(bTheta, bPhi) == SumOfSquares(bTheta, -bPhi) == SumOfSquares(-bTheta, bPhi) == SumOfSquares(bPhi, bTheta);
  }

  /** bh: the horizontal field strength in every cell. */
  function HorizontalField(lib: Library, bg: Volume<FieldVector>): (bh: Volume<real>)
    ensures SameFootprint(bh, bg)
    ensures forall i, j :: 0 <= i < |bg| && 0 <= j < |bg[i]| ==> |bh[i][j]| == |bg[i][j]|
  {
    seq(|bg|, i requires 0 <= i < |bg| =>
      seq(|bg[i]|, j requires 0 <= j < |bg[i]| =>
        seq(|bg[i][j]|, k requires 0 <= k < |bg[i][j]| => HorizontalStrength(lib, bg[i][j][k]))))
  }

  /** exp(rg) - 1: the height of each radial grid point above the photosphere, in
      solar radii. */
  function RadialHeights(lib: Library, rg: seq<real>): (hr: seq<real>)
    ensures |hr| == |rg|
    ensures ExpIncreasing(lib) && StrictlyIncreasing(rg) ==> StrictlyIncreasing(hr)
  {
    seq(|rg|, k requires 0 <= k < |rg| => lib.exp(rg[k]) - 1.0)
  }

  /** height_Mm: the same heights in megameters, one per radial grid point. */
  function HeightMm(lib: Library, rg: seq<real>): (hm: seq<real>)
    ensures |hm| == |rg|
    ensures forall k :: 0 <= k < |rg| ==> hm[k] == RadialHeights(lib, rg)[k] * R_SUN_MM
  {
    seq(|rg|, k requires 0 <= k < |rg| => (lib.exp(rg[k]) - 1.0) * R_SUN_MM)
  }

  /** np.log(s) and the differences of s are finite: every entry is positive, or there
      are too few entries for any difference to be taken. */
  predicate LogDiffDefined(s: seq<real>) {
    |s| < 2 || forall k :: 0 <= k < |s| ==> s[k] > 0.0
  }

  /** The radial length of the padded decay index for a grid of n radial points: the
      innermost layer is dropped, differencing loses one more, padding adds one back. */
  function DecayDepth(n: nat): nat {
    if n >= 2 then n - 1 else 1
  }

  /** -dln_bh / dln_h along one column, where bhAbove is the column without its
      photospheric layer. */
  function ColumnIndex(lib: Library, bhAbove: seq<real>, dlnH: seq<real>): (di: seq<real>)
    requires |LogDiff(lib, bhAbove)| == |dlnH|
    requires forall k :: 0 <= k < |dlnH| ==> dlnH[k] != 0.0
    ensures |di| == |dlnH|
  {
    var dlnBh := LogDiff(lib, bhAbove);
    seq(|dlnH|, k requires 0 <= k < |dlnH| => -dlnBh[k] / dlnH[k])
  }

  /** The decay-index volume, computed as the calculator does: bh from bg, the first
      layer of bh and of the heights dropped, log-differences along the radial axis,
      their negated quotient, then one layer of zeros padded at the photosphere.
      Where numpy would produce an infinity or a NaN, the result is the error instead. */
  function DecayIndexVolume(lib: Library, bg: Volume<FieldVector>, rg: seq<real>): (r: Result<Volume<real>>)
    requires Columns(bg, |rg|)
    ensures r.Success? ==> SameFootprint(r.value, bg) && Columns(r.value, DecayDepth(|rg|))
    ensures r.Success? ==> forall i, j :: 0 <= i < |r.value| && 0 <= j < |r.value[i]| ==> r.value[i][j][0] == 0.0
    ensures r.Failure? ==> r.error in {LogOfNonPositiveField, LogOfNonPositiveHeight, ZeroLogHeightStep}
  {
    var bh := HorizontalField(lib, bg);
    var h := Tail(RadialHeights(lib, rg));
    if !(forall i, j :: 0 <= i < |bh| && 0 <= j < |bh[i]| ==> LogDiffDefined(Tail(bh[i][j]))) then
      Failure(LogOfNonPositiveField)
    else if !LogDiffDefined(h) then
      Failure(LogOfNonPositiveHeight)
    else
      var dlnH := LogDiff(lib, h);
      if exists k :: 0 <= k < |dlnH| && dlnH[k] == 0.0 then
        Failure(ZeroLogHeightStep)
      else
        Success(seq(|bh|, i requires 0 <= i < |bh| =>
          seq(|bh[i]|, j requires 0 <= j < |bh[i]| =>
            [0.0] + ColumnIndex(lib, Tail(bh[i][j]), dlnH))))
  }

  /** Above the photosphere, each cell is the forward log-log difference between its own
      layer and the next: n[i][j][k] = -(ln bh[k+1] - ln bh[k]) / (ln hr[k+1] - ln hr[k])
      with hr = exp(rg) - 1. The top grid layer therefore has no cell of its own. */
  lemma DecayIndexAt(lib: Library, bg: Volume<FieldVector>, rg: seq<real>, i: nat, j: nat, k: nat)
    requires Columns(bg, |rg|)
    requires DecayIndexVolume(lib, bg, rg).Success?
    requires i < |bg| && j < |bg[i]| && 1 <= k < DecayDepth(|rg|)
    ensures k + 1 < |rg|
    ensures lib.ln(lib.exp(rg[k + 1]) - 1.0) != lib.ln(lib.exp(rg[k]) - 1.0)
    ensures DecayIndexVolume(lib, bg, rg).value[i][j][k] ==
      -(lib.ln(HorizontalStrength(lib, bg[i][j][k + 1])) - lib.ln(HorizontalStrength(lib, bg[i][j][k])))
      / (lib.ln(lib.exp(rg[k + 1]) - 1.0) - lib.ln(lib.exp(rg[k]) - 1.0))
  {
    var bh := HorizontalField(lib, bg);
    var hr := RadialHeights(lib, rg);
    DecayIndexColumn(lib, bg, rg, i, j);
    PaddedColumnAt(lib, bh[i][j], hr, k);
    assert hr[k] == lib.exp(rg[k]) - 1.0 && hr[k + 1] == lib.exp(rg[k + 1]) - 1.0;
    assert bh[i][j][k] == HorizontalStrength(lib, bg[i][j][k]);
    assert bh[i][j][k + 1] == HorizontalStrength(lib, bg[i][j][k + 1]);
  }

  /** A successful volume's column (i, j) is the padded column index of bh[i][j]. */
  lemma DecayIndexColumn(lib: Library, bg: Volume<FieldVector>, rg: seq<real>, i: nat, j: nat)
    requires Columns(bg, |rg|)
    requires DecayIndexVolume(lib, bg, rg).Success?
    requires i < |bg| && j < |bg[i]|
    ensures var bh := HorizontalField(lib, bg);
      var dlnH := LogDiff(lib, Tail(RadialHeights(lib, rg)));
      |bh[i][j]| == |rg| &&
      (forall m :: 0 <= m < |dlnH| ==> dlnH[m] != 0.0) &&
      |LogDiff(lib, Tail(bh[i][j]))| == |dlnH| &&
      DecayIndexVolume(lib, bg, rg).value[i][j] == [0.0] + ColumnIndex(lib, Tail(bh[i][j]), dlnH)
  {
  }

  /** One padded column, cell by cell. */
  lemma PaddedColumnAt(lib: Library, col: seq<real>, hr: seq<real>, k: nat)
    requires |col| == |hr| && 1 <= k && k + 1 < |hr|
    requires forall m :: 0 <= m < |LogDiff(lib, Tail(hr))| ==> LogDiff(lib, Tail(hr))[m] != 0.0
    ensures lib.ln(hr[k + 1]) != lib.ln(hr[k])
    ensures ([0.0] + ColumnIndex(lib, Tail(col), LogDiff(lib, Tail(hr))))[k] ==
      -(lib.ln(col[k + 1]) - lib.ln(col[k])) / (lib.ln(hr[k + 1]) - lib.ln(hr[k]))
  {
    var th := Tail(hr);
    var tail := Tail(col);
    assert th == hr[1..] && tail == col[1..];
    LogDiffAt(lib, th, k - 1);
    LogDiffAt(lib, tail, k - 1);
    var dlnH := LogDiff(lib, th);
    ColumnIndexAt(lib, tail, dlnH, k - 1);
  }

  lemma ColumnIndexAt(lib: Library, bhAbove: seq<real>, dlnH: seq<real>, m: nat)
    requires |LogDiff(lib, bhAbove)| == |dlnH|
    requires forall k :: 0 <= k < |dlnH| ==> dlnH[k] != 0.0
    requires m < |dlnH|
    ensures ([0.0] + ColumnIndex(lib, bhAbove, dlnH))[m + 1] == -LogDiff(lib, bhAbove)[m] / dlnH[m]
  {
  }

  /** The field check of DecayIndexVolume, restated on bg itself. */
  lemma FieldCheckIff(lib: Library, bg: Volume<FieldVector>, nz: nat)
    requires Columns(bg, nz) && nz >= 3
    ensures (forall i, j :: 0 <= i < |bg| && 0 <= j < |bg[i]| ==> LogDiffDefined(Tail(HorizontalField(lib, bg)[i][j]))) <==>
            (forall i, j, k :: 0 <= i < |bg| && 0 <= j < |bg[i]| && 1 <= k < nz ==> HorizontalStrength(lib, bg[i][j][k]) > 0.0)
  {
    forall i, j | 0 <= i < |bg| && 0 <= j < |bg[i]|
      ensures LogDiffDefined(Tail(HorizontalField(lib, bg)[i][j])) <==>
        (forall k :: 1 <= k < nz ==> HorizontalStrength(lib, bg[i][j][k]) > 0.0)
    {
      ColumnFieldCheckIff(lib, bg, nz, i, j);
    }
  }

  /** The field check of one column. */
  lemma ColumnFieldCheckIff(lib: Library, bg: Volume<FieldVector>, nz: nat, i: nat, j: nat)
    requires Columns(bg, nz) && nz >= 3
    requires i < |bg| && j < |bg[i]|
    ensures LogDiffDefined(Tail(HorizontalField(lib, bg)[i][j])) <==>
      (forall k :: 1 <= k < nz ==> HorizontalStrength(lib, bg[i][j][k]) > 0.0)
  {
    var col := HorizontalField(lib, bg)[i][j];
    var above := Tail(col);
    assert |col| == nz && above == col[1..] && |above| == nz - 1;
    forall k | 1 <= k < nz ensures above[k - 1] == HorizontalStrength(lib, bg[i][j][k]) {
      assert col[k] == HorizontalStrength(lib, bg[i][j][k]);
    }
    if forall k :: 1 <= k < nz ==> HorizontalStrength(lib, bg[i][j][k]) > 0.0 {
      forall m | 0 <= m < |above| ensures above[m] > 0.0 {
        assert above[m] == HorizontalStrength(lib, bg[i][j][m + 1]);
      }
    }
  }

  /** The height and step checks of DecayIndexVolume, restated on rg itself. */
  lemma HeightChecksIff(lib: Library, rg: seq<real>)
    requires |rg| >= 3
    ensures LogDiffDefined(Tail(RadialHeights(lib, rg))) <==> (forall k :: 1 <= k < |rg| ==> lib.exp(rg[k]) - 1.0 > 0.0)
    ensures var dlnH := LogDiff(lib, Tail(RadialHeights(lib, rg)));
      (forall k :: 0 <= k < |dlnH| ==> dlnH[k] != 0.0) <==>
      (forall k :: 1 <= k < |rg| - 1 ==> lib.ln(lib.exp(rg[k + 1]) - 1.0) != lib.ln(lib.exp(rg[k]) - 1.0))
  {
    var h := Tail(RadialHeights(lib, rg));
    var dlnH := LogDiff(lib, h);
    assert |h| == |rg| - 1 && |dlnH| == |rg| - 2;
    forall k | 1 <= k < |rg| ensures h[k - 1] == lib.exp(rg[k]) - 1.0 { }
    forall k | 0 <= k < |dlnH|
      ensures dlnH[k] == lib.ln(lib.exp(rg[k + 2]) - 1.0) - lib.ln(lib.exp(rg[k + 1]) - 1.0)
    { }
    if forall k :: 1 <= k < |rg| - 1 ==> lib.ln(lib.exp(rg[k + 1]) - 1.0) != lib.ln(lib.exp(rg[k]) - 1.0) {
      forall k | 0 <= k < |dlnH| ensures dlnH[k] != 0.0 {
        assert 1 <= k + 1 < |rg| - 1;
      }
    }
    if forall k :: 0 <= k < |dlnH| ==> dlnH[k] != 0.0 {
      forall k | 1 <= k < |rg| - 1
        ensures lib.ln(lib.exp(rg[k + 1]) - 1.0) != lib.ln(lib.exp(rg[k]) - 1.0)
      {
        assert dlnH[k - 1] != 0.0;
      }
    }
  }

  /** The volume is computed exactly when every log the engine differences is of a
      positive number and no two consecutive log-heights coincide; with fewer than three
      radial points there is nothing to difference and it always is. */
  lemma DecayIndexDefinedIff(lib: Library, bg: Volume<FieldVector>, rg: seq<real>)
    requires Columns(bg, |rg|)
    ensures DecayIndexVolume(lib, bg, rg).Success? <==>
      (|rg| < 3 ||
       ((forall i, j, k :: 0 <= i < |bg| && 0 <= j < |bg[i]| && 1 <= k < |rg| ==>
           HorizontalStrength(lib, bg[i][j][k]) > 0.0) &&
        (forall k :: 1 <= k < |rg| ==> lib.exp(rg[k]) - 1.0 > 0.0) &&
        (forall k :: 1 <= k < |rg| - 1 ==> lib.ln(lib.exp(rg[k + 1]) - 1.0) != lib.ln(lib.exp(rg[k]) - 1.0))))
  {
    var bh := HorizontalField(lib, bg);
    if |rg| >= 3 {
      FieldCheckIff(lib, bg, |rg|);
      HeightChecksIff(lib, rg);
    } else {
      assert |LogDiff(lib, Tail(RadialHeights(lib, rg)))| == 0;
      forall i, j | 0 <= i < |bh| && 0 <= j < |bh[i]| ensures LogDiffDefined(Tail(bh[i][j])) {
        assert |Tail(bh[i][j])| < 2;
      }
    }
  }

  /** height_Mm has one entry per radial grid point; it is zero at the photosphere
      (rg[0] = 0) and strictly increasing along a strictly increasing grid. The decay
      index has one radial layer fewer. */
  lemma HeightMmProperties(lib: Library, rg: seq<real>)
    ensures |HeightMm(lib, rg)| == |rg|
    ensures |rg| >= 2 ==> DecayDepth(|rg|) == |HeightMm(lib, rg)| - 1
    ensures |rg| > 0 && rg[0] == 0.0 && lib.exp(0.0) == 1.0 ==> HeightMm(lib, rg)[0] == 0.0
    ensures StrictlyIncreasing(rg) && ExpIncreasing(lib) ==> StrictlyIncreasing(HeightMm(lib, rg))
  {
    var hm := HeightMm(lib, rg);
    if StrictlyIncreasing(rg) && ExpIncreasing(lib) {
      forall a, b | 0 <= a < b < |hm| ensures hm[a] < hm[b] {
        assert lib.exp(rg[a]) < lib.exp(rg[b]);
      }
    }
  }
}
