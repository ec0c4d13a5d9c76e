/** The numeric conventions of the calculator: the floating-point library it calls, the
    physical constant it uses, and Python's integer conversions and slicing rules,
    written out because Dafny's own differ. */
module Numerics {

  /** numpy's log, exp and sqrt. They are parameters, so nothing is assumed about them:
      the model fixes which values feed which result, not what the functions return. */
  datatype Library = Library(ln: real -> real, exp: real -> real, sqrt: real -> real)

  /** The solar radius in megameters: astropy's R_sun (the IAU 2015 nominal value,
      695 700 km) converted to Mm. */
  const R_SUN_MM: real := 695.7

  /** exp is strictly increasing, as the real exponential is. */
  ghost predicate ExpIncreasing(lib: Library) {
    forall a: real, b: real :: a < b ==> lib.exp(a) < lib.exp(b)
  }

  ghost predicate StrictlyIncreasing(s: seq<real>) {
    forall a, b :: 0 <= a < b < |s| ==> s[a] < s[b]
  }

  /** Python's int() applied to a float: truncation toward zero. */
  function Trunc(r: real): (n: int)
    ensures r >= 0.0 ==> 0 <= n && n as real <= r < (n + 1) as real
    ensures r < 0.0 ==> n <= 0 && (n - 1) as real < r <= n as real
  {
    if r >= 0.0 then r.Floor else -((-r).Floor)
  }

  /** Python's math.floor: the greatest integer not above r. */
  function Floor(r: real): (n: int)
    ensures n as real <= r < (n + 1) as real
  {
    r.Floor
  }

  /** int(n / 2) in Python 3: true division, then truncation toward zero. */
  function HalfTrunc(n: int): (h: int)
    ensures n >= 0 ==> 0 <= 2 * h <= n < 2 * h + 2
    ensures n < 0 ==> 2 * h - 2 < n <= 2 * h <= 0
  {
    Trunc(n as real / 2.0)
  }

  /** HalfTrunc rounds toward zero, whereas Dafny's Euclidean n / 2 rounds down. */
  lemma HalfTruncTowardZero(n: int)
    ensures n >= 0 ==> HalfTrunc(n) == n / 2
    ensures n < 0 ==> HalfTrunc(n) == -((-n) / 2)
  {
    var q := n / 2;
    assert n == 2 * q + n % 2;
    if n >= 0 {
      assert q as real <= n as real / 2.0 < (q + 1) as real;
    } else {
      var p := (-n) / 2;
      assert -n == 2 * p + (-n) % 2;
      assert (-p - 1) as real < n as real / 2.0 <= (-p) as real;
    }
  }

  /** The three integer conversions in play disagree on negative operands: on -2.5
      int() gives -2 and math.floor gives -3; on -5 int(-5 / 2) gives -2 while Dafny's
      -5 / 2 gives -3. Crop corners, built from negative Tx and Ty, depend on which. */
  lemma ConversionsDisagreeOnNegatives()
    ensures Trunc(-2.5) == -2 && Floor(-2.5) == -3
    ensures HalfTrunc(-5) == -2 && -5 / 2 == -3
    ensures HalfTrunc(5) == 2 && 5 / 2 == 2
  {
    HalfTruncTowardZero(-5);
    HalfTruncTowardZero(5);
  }

  /** One bound of a Python slice with step 1 over a sequence of length n: negative
      bounds count from the end, and every bound is clipped to [0, n]. */
  function SliceBound(i: int, n: nat): (b: nat)
    ensures b <= n
    ensures 0 <= i <= n ==> b == i
    ensures i > n ==> b == n
    ensures i < 0 && -i <= n ==> b == n + i
    ensures -i > n ==> b == 0
  {
    if i < 0 then (if i + n < 0 then 0 else i + n) else if i > n then n else i
  }

  /** The index range [lo, hi) that Python's s[start:stop] selects from a sequence of
      length n; an inverted range selects nothing. */
  datatype Span = Span(lo: nat, hi: nat)

  function SliceSpan(n: nat, start: int, stop: int): (r: Span)
    ensures r.lo <= r.hi <= n
    ensures r.lo == SliceBound(start, n)
    ensures SliceBound(stop, n) <= r.lo ==> r.hi == r.lo
    ensures SliceBound(stop, n) > r.lo ==> r.hi == SliceBound(stop, n)
  {
    var lo := SliceBound(start, n);
    var hi := SliceBound(stop, n);
    Span(lo, if hi < lo then lo else hi)
  }

  /** s[1:] in numpy: everything but the first entry (nothing, for an empty s). */
  function Tail<T>(s: seq<T>): (r: seq<T>)
    ensures |r| == if |s| == 0 then 0 else |s| - 1
    ensures forall k :: 0 <= k < |r| ==> r[k] == s[k + 1]
  {
    if |s| == 0 then [] else s[1..]
  }

  /** np.diff along one axis: consecutive differences, one fewer than the entries. */
  function Diff(s: seq<real>): (r: seq<real>)
    ensures |r| == if |s| == 0 then 0 else |s| - 1
  {
    if |s| <= 1 then [] else seq(|s| - 1, k requires 0 <= k < |s| - 1 => s[k + 1] - s[k])
  }

  function Sum(s: seq<real>): real {
    if s == [] then 0.0 else Sum(s[..|s| - 1]) + s[|s| - 1]
  }

  /** The differences telescope: together they span the first entry to the last. */
  lemma {:induction false} DiffTelescopes(s: seq<real>)
    requires |s| >= 1
    ensures Sum(Diff(s)) == s[|s| - 1] - s[0]
  {
    if |s| >= 2 {
      var front := s[..|s| - 1];
      DiffTelescopes(front);
      var d := Diff(s);
      assert d[..|d| - 1] == Diff(front);
    }
  }

  /** np.diff(np.log(s)). */
  function LogDiff(lib: Library, s: seq<real>): seq<real> {
    Diff(seq(|s|, k requires 0 <= k < |s| => lib.ln(s[k])))
  }

  lemma LogDiffAt(lib: Library, s: seq<real>, k: nat)
    requires k + 1 < |s|
    ensures |LogDiff(lib, s)| == |s| - 1
    ensures LogDiff(lib, s)[k] == lib.ln(s[k + 1]) - lib.ln(s[k])
  {
  }
}
