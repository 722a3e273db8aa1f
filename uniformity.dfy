// The NEMA-style uniformity figures of one image layer: the differential
// uniformity over every horizontal and vertical run of five pixels, and the
// integral uniformity over the whole disc. Masked-out pixels are NaN and
// are skipped; NaN is written None here.
module Uniformity {
  import opened Wrappers
  import opened ByteCodec

  /** A grayscale pixel; None is NaN (outside the disc). */
  type Pixel = Option<real>

  /** A run of pixels handed to _calculate_uniformity. */
  type Window = seq<Pixel>

  /** A layer: rows of pixels. */
  type Grid = seq<seq<Pixel>>

  /** The length of the runs differential looks at. */
  const RunLength := 5

  function Abs(x: real): real
  {
    if x < 0.0 then -x else x
  }

  function RealMax(a: real, b: real): (m: real)
    ensures m >= a && m >= b && (m == a || m == b)
  {
    if a >= b then a else b
  }

  // ----- one window -----

  /** `s[~np.isnan(s)]`: the values that are not NaN, in order. */
  function ValidSlice(w: Window): (v: seq<real>)
    ensures |v| <= |w|
    ensures forall x | x in v :: Some(x) in w
    ensures forall p | p in w && p.Some? :: p.value in v
  {
    if w == [] then []
    else match w[0]
      case None => ValidSlice(w[1..])
      case Some(x) => [x] + ValidSlice(w[1..])
  }

  /** np.nanmax of a non-empty list of numbers. */
  function NanMax(v: seq<real>): (m: real)
    requires v != []
    ensures m in v && forall x | x in v :: x <= m
  {
    if |v| == 1 then v[0]
    else
      assert forall x | x in v :: x == v[0] || x in v[1..];
      RealMax(v[0], NanMax(v[1..]))
  }

  /** np.nanmin of a non-empty list of numbers. */
  function NanMin(v: seq<real>): (m: real)
    requires v != []
    ensures m in v && forall x | x in v :: m <= x
  {
    if |v| == 1 then v[0]
    else
      assert forall x | x in v :: x == v[0] || x in v[1..];
      var t := NanMin(v[1..]);
      if v[0] <= t then v[0] else t
  }

  /** |max - min| / ((max + min) / 2) * 100: the spread of the extrema
      relative to their mean, in percent. */
  function Ratio(hi: real, lo: real): (r: real)
    requires hi + lo != 0.0
    ensures r >= 0.0
    ensures hi == lo ==> r == 0.0
  {
    Abs((hi - lo) / ((hi + lo) / 2.0) * 100.0)
  }

  /** A window that counts: at least two values that are not NaN, whose
      maximum and minimum do not sum to zero. */
  predicate Qualifies(w: Window)
  {
    var v := ValidSlice(w);
    |v| >= 2 && NanMax(v) + NanMin(v) != 0.0
  }

  function WindowRatio(w: Window): (r: real)
    requires Qualifies(w)
    ensures r >= 0.0
  {
    var v := ValidSlice(w);
    Ratio(NanMax(v), NanMin(v))
  }

  // ----- _calculate_uniformity -----

  /** The accumulator of _calculate_uniformity after the windows ws: it starts
      at 0 and takes the max with the ratio of each window that counts. */
  function Best(ws: seq<Window>): real
  {
    if ws == [] then 0.0
    else
      var last := ws[|ws| - 1];
      var acc := Best(ws[..|ws| - 1]);
      if Qualifies(last) then RealMax(acc, WindowRatio(last)) else acc
  }

  /** _calculate_uniformity: one pass over the windows, skipping those that
      are all NaN and those that do not count. */
  method CalculateUniformity(ws: seq<Window>) returns (best: real)
    ensures best == Best(ws)
  {
    best := 0.0;
    for i := 0 to |ws|
      invariant best == Best(ws[..i])
    {
      assert ws[..i + 1][..i] == ws[..i];
      var v := ValidSlice(ws[i]);
      if v != [] && |v| >= 2 {
        var hi, lo := NanMax(v), NanMin(v);
        if hi + lo != 0.0 {
          var u := Ratio(hi, lo);
          best := RealMax(best, u);
        }
      }
    }
    assert ws[..|ws|] == ws;
  }

  /** The result is never negative. */
  lemma {:induction false} BestNonNegative(ws: seq<Window>)
    ensures Best(ws) >= 0.0
  {
    if ws != [] {
      BestNonNegative(ws[..|ws| - 1]);
    }
  }

  /** The result bounds the ratio of every window that counts. */
  lemma {:induction false} BestBounds(ws: seq<Window>, i: nat)
    requires i < |ws| && Qualifies(ws[i])
    ensures WindowRatio(ws[i]) <= Best(ws)
  {
    var init := ws[..|ws| - 1];
    if i < |ws| - 1 {
      assert init[i] == ws[i];
      BestBounds(init, i);
    }
  }

  /** A positive result is the ratio of one of the windows that count. */
  lemma {:induction false} BestAttained(ws: seq<Window>)
    requires Best(ws) > 0.0
    ensures exists i | 0 <= i < |ws| :: Qualifies(ws[i]) && Best(ws) == WindowRatio(ws[i])
  {
    var n := |ws| - 1;
    var init := ws[..n];
    if Qualifies(ws[n]) && Best(ws) == WindowRatio(ws[n]) {
    } else {
      assert Best(ws) == Best(init);
      BestAttained(init);
      var i :| 0 <= i < |init| && Qualifies(init[i]) && Best(init) == WindowRatio(init[i]);
      assert init[i] == ws[i];
    }
  }

  /** When no window counts the result is 0. */
  lemma {:induction false} BestNoneQualify(ws: seq<Window>)
    requires forall i | 0 <= i < |ws| :: !Qualifies(ws[i])
    ensures Best(ws) == 0.0
  {
    if ws != [] {
      var init := ws[..|ws| - 1];
      assert forall i | 0 <= i < |init| :: init[i] == ws[i];
      BestNoneQualify(init);
    }
  }

  // ----- the windows of a layer -----

  /** Every row has `width` pixels. */
  predicate IsGrid<T>(g: seq<seq<T>>, width: nat)
  {
    forall y | 0 <= y < |g| :: |g[y]| == width
  }

  /** How many runs of five fit in n pixels: `range(n - 4)`. */
  function Runs(n: nat): nat
  {
    if n >= 4 then n - 4 else 0
  }

  /** The five pixels of column x from row y down. */
  function Column(g: Grid, y: nat, x: nat, width: nat): (w: Window)
    requires IsGrid(g, width) && y + RunLength <= |g| && x < width
    ensures |w| == RunLength
  {
    seq(RunLength, k requires 0 <= k < RunLength => g[y + k][x])
  }

  /** The runs of one row, left to right: `row[x:x+5]` for x in range(width - 4). */
  function RowRuns(row: seq<Pixel>): (ws: seq<Window>)
    ensures |ws| == Runs(|row|)
  {
    seq(Runs(|row|), x requires 0 <= x < Runs(|row|) => row[x..x + RunLength])
  }

  /** `[grayscale[y, x:x+5] for y in range(H) for x in range(W - 4)]`. */
  function Horizontal(g: Grid): seq<Window>
  {
    if g == [] then [] else RowRuns(g[0]) + Horizontal(g[1..])
  }

  /** The runs of column x, top to bottom: `grayscale[y:y+5, x]` for y in range(H - 4). */
  function ColumnRuns(g: Grid, x: nat, width: nat): (ws: seq<Window>)
    requires IsGrid(g, width) && x < width
    ensures |ws| == Runs(|g|)
  {
    seq(Runs(|g|), y requires 0 <= y < Runs(|g|) => Column(g, y, x, width))
  }

  /** `[grayscale[y:y+5, x] for x in range(W) for y in range(H - 4)]`, from column x on. */
  function VerticalFrom(g: Grid, x: nat, width: nat): seq<Window>
    requires IsGrid(g, width) && x <= width
    decreases width - x
  {
    if x == width then [] else ColumnRuns(g, x, width) + VerticalFrom(g, x + 1, width)
  }

  function Vertical(g: Grid, width: nat): seq<Window>
    requires IsGrid(g, width)
  {
    VerticalFrom(g, 0, width)
  }

  /** The five pixels of row y from column x on. */
  function RowRun(g: Grid, y: nat, x: nat, width: nat): (w: Window)
    requires IsGrid(g, width) && y < |g| && x + RunLength <= width
    ensures |w| == RunLength
  {
    g[y][x..x + RunLength]
  }

  /** Every run of five in a row is listed by Horizontal. */
  lemma {:induction false} HorizontalHas(g: Grid, width: nat, y: nat, x: nat)
    requires IsGrid(g, width) && y < |g| && x + RunLength <= width
    ensures RowRun(g, y, x, width) in Horizontal(g)
  {
    if y == 0 {
      assert RowRuns(g[0])[x] == RowRun(g, y, x, width);
    } else {
      var tail := g[1..];
      assert tail[y - 1] == g[y];
      HorizontalHas(tail, width, y - 1, x);
    }
  }

  /** Horizontal lists nothing but runs of five in a row. */
  lemma {:induction false} HorizontalOnly(g: Grid, width: nat, w: Window) returns (y: nat, x: nat)
    requires IsGrid(g, width) && w in Horizontal(g)
    ensures y < |g| && x + RunLength <= width && w == RowRun(g, y, x, width)
  {
    if w in RowRuns(g[0]) {
      var i :| 0 <= i < Runs(|g[0]|) && w == RowRuns(g[0])[i];
      y, x := 0, i;
    } else {
      var tail := g[1..];
      var y', x' := HorizontalOnly(tail, width, w);
      assert tail[y'] == g[y' + 1];
      y, x := y' + 1, x';
    }
  }

  /** Every run of five in a column, from column x0 on, is listed by VerticalFrom. */
  lemma {:induction false} VerticalHas(g: Grid, x0: nat, width: nat, y: nat, x: nat)
    requires IsGrid(g, width) && x0 <= x < width && y + RunLength <= |g|
    ensures Column(g, y, x, width) in VerticalFrom(g, x0, width)
    decreases x - x0
  {
    if x == x0 {
      assert ColumnRuns(g, x0, width)[y] == Column(g, y, x, width);
    } else {
      VerticalHas(g, x0 + 1, width, y, x);
    }
  }

  /** VerticalFrom lists nothing but runs of five in a column. */
  lemma {:induction false} VerticalOnly(g: Grid, x0: nat, width: nat, w: Window) returns (y: nat, x: nat)
    requires IsGrid(g, width) && x0 <= width && w in VerticalFrom(g, x0, width)
    ensures x0 <= x < width && y + RunLength <= |g| && w == Column(g, y, x, width)
    decreases width - x0
  {
    var here := ColumnRuns(g, x0, width);
    if w in here {
      var i :| 0 <= i < Runs(|g|) && w == here[i];
      y, x := i, x0;
    } else {
      y, x := VerticalOnly(g, x0 + 1, width, w);
    }
  }

  /** There are H*(W-4) horizontal runs. */
  lemma {:induction false} HorizontalCount(g: Grid, width: nat)
    requires IsGrid(g, width)
    ensures |Horizontal(g)| == |g| * Runs(width)
  {
    if g != [] {
      assert IsGrid(g[1..], width);
      HorizontalCount(g[1..], width);
      assert |g| * Runs(width) == (|g| - 1) * Runs(width) + Runs(width);
    }
  }

  /** There are W*(H-4) vertical runs. */
  lemma {:induction false} VerticalCount(g: Grid, x0: nat, width: nat)
    requires IsGrid(g, width) && x0 <= width
    ensures |VerticalFrom(g, x0, width)| == (width - x0) * Runs(|g|)
    decreases width - x0
  {
    if x0 < width {
      VerticalCount(g, x0 + 1, width);
      assert (width - x0) * Runs(|g|) == (width - x0 - 1) * Runs(|g|) + Runs(|g|);
    }
  }

  // ----- differential and integral on a masked layer -----

  /** differential: the larger of the horizontal and vertical results. */
  function DifferentialOf(g: Grid, width: nat): (d: real)
    requires IsGrid(g, width)
    ensures d >= 0.0
    ensures d >= Best(Horizontal(g)) && d >= Best(Vertical(g, width))
    ensures d == Best(Horizontal(g)) || d == Best(Vertical(g, width))
  {
    BestNonNegative(Horizontal(g));
    RealMax(Best(Horizontal(g)), Best(Vertical(g, width)))
  }

  /** All values of the layer that are not NaN, row by row. */
  function AllValid(g: Grid): seq<real>
  {
    if g == [] then [] else ValidSlice(g[0]) + AllValid(g[1..])
  }

  /** The outcome of integral: a number, or NaN / infinity when max + min is 0. */
  datatype Percent = Finite(value: real) | NaN | Infinity

  /** integral: 0 without valid pixels, otherwise the ratio of the global
      extrema; numpy's 0/0 is NaN and x/0 is infinity for x > 0. */
  function IntegralOf(g: Grid): (p: Percent)
    ensures AllValid(g) == [] ==> p == Finite(0.0)
  {
    var v := AllValid(g);
    if v == [] then Finite(0.0)
    else
      var hi, lo := NanMax(v), NanMin(v);
      if hi + lo == 0.0 then (if hi == lo then NaN else Infinity)
      else Finite(Ratio(hi, lo))
  }

  /** A differential value of 0 or more, bounding the ratio of every run of
      five that counts, horizontal or vertical. */
  lemma DifferentialBounds(g: Grid, width: nat, w: Window)
    requires IsGrid(g, width)
    requires w in Horizontal(g) || w in Vertical(g, width)
    requires Qualifies(w)
    ensures 0.0 <= WindowRatio(w) <= DifferentialOf(g, width)
  {
    if w in Horizontal(g) {
      var i :| 0 <= i < |Horizontal(g)| && Horizontal(g)[i] == w;
      BestBounds(Horizontal(g), i);
    } else {
      var i :| 0 <= i < |Vertical(g, width)| && Vertical(g, width)[i] == w;
      BestBounds(Vertical(g, width), i);
    }
  }

  /** differential is never negative, and is 0 when no run of five counts. */
  lemma DifferentialZero(g: Grid, width: nat)
    requires IsGrid(g, width)
    ensures DifferentialOf(g, width) >= 0.0
    ensures (forall w | w in Horizontal(g) || w in Vertical(g, width) :: !Qualifies(w)) ==> DifferentialOf(g, width) == 0.0
  {
    BestNonNegative(Horizontal(g));
    BestNonNegative(Vertical(g, width));
    if forall w | w in Horizontal(g) || w in Vertical(g, width) :: !Qualifies(w) {
      BestNoneQualify(Horizontal(g));
      BestNoneQualify(Vertical(g, width));
    }
  }

  /** Every valid value of a row is among the layer's valid values. */
  lemma {:induction false} AllValidHas(g: Grid, y: nat, x: real)
    requires y < |g| && x in ValidSlice(g[y])
    ensures x in AllValid(g)
  {
    if y > 0 {
      AllValidHas(g[1..], y - 1, x);
    }
  }

  /** A valid value of a horizontal run is a valid value of the layer. */
  lemma HorizontalValue(g: Grid, width: nat, w: Window, v: real)
    requires IsGrid(g, width) && w in Horizontal(g) && v in ValidSlice(w)
    ensures v in AllValid(g)
  {
    var k :| 0 <= k < |w| && w[k] == Some(v);
    var y, x := HorizontalOnly(g, width, w);
    assert g[y][x + k] == Some(v);
    AllValidHas(g, y, v);
  }

  /** A valid value of a vertical run is a valid value of the layer. */
  lemma VerticalValue(g: Grid, width: nat, w: Window, v: real)
    requires IsGrid(g, width) && w in Vertical(g, width) && v in ValidSlice(w)
    ensures v in AllValid(g)
  {
    var k :| 0 <= k < |w| && w[k] == Some(v);
    var y, x := VerticalOnly(g, 0, width, w);
    var row := ColumnAt(g, y, x, width, k);
    AllValidHas(g, row, v);
  }

  /** The k-th pixel of a column run lies in row y + k. */
  lemma ColumnAt(g: Grid, y: nat, x: nat, width: nat, k: nat) returns (row: nat)
    requires IsGrid(g, width) && y + RunLength <= |g| && x < width && k < RunLength
    ensures row == y + k && row < |g| && x < |g[row]|
    ensures Column(g, y, x, width)[k] in g[row]
  {
    row := y + k;
    assert Column(g, y, x, width)[k] == g[row][x];
  }

  /** A run of five holds only pixels of the layer. */
  lemma RunValuesInLayer(g: Grid, width: nat, w: Window)
    requires IsGrid(g, width)
    requires w in Horizontal(g) || w in Vertical(g, width)
    ensures forall x | x in ValidSlice(w) :: x in AllValid(g)
  {
    forall v | v in ValidSlice(w)
      ensures v in AllValid(g)
    {
      if w in Horizontal(g) {
        HorizontalValue(g, width, w, v);
      } else {
        VerticalValue(g, width, w, v);
      }
    }
  }

  /** For non-negative brightness the ratio grows as the extrema spread:
      a narrower pair [lo, hi] inside [lo', hi'] has a smaller ratio. */
  lemma RatioMonotone(hi: real, lo: real, hi': real, lo': real)
    requires 0.0 <= lo' <= lo <= hi <= hi' && hi + lo != 0.0
    ensures hi' + lo' != 0.0
    ensures Ratio(hi, lo) <= Ratio(hi', lo')
  {
    RatioAsFraction(hi, lo);
    RatioAsFraction(hi', lo');
    CrossProducts(hi, lo, hi', lo');
    DivMonotone(hi - lo, hi + lo, hi' - lo', hi' + lo');
  }

  /** For hi >= lo the ratio is 200 (hi - lo) / (hi + lo). */
  lemma RatioAsFraction(hi: real, lo: real)
    requires lo <= hi && hi + lo > 0.0
    ensures Ratio(hi, lo) == 200.0 * ((hi - lo) / (hi + lo))
  {
    var s := hi + lo;
    assert (hi - lo) / (s / 2.0) == 2.0 * ((hi - lo) / s);
  }

  lemma MulLe(a: real, b: real, c: real)
    requires a <= b && c >= 0.0
    ensures a * c <= b * c
  {
  }

  /** Cross-multiplied, the narrower pair has the smaller fraction. */
  lemma CrossProducts(hi: real, lo: real, hi': real, lo': real)
    requires 0.0 <= lo' <= lo <= hi <= hi'
    ensures (hi - lo) * (hi' + lo') <= (hi' - lo') * (hi + lo)
  {
    MulLe(hi, hi', lo');
    MulLe(lo', lo, hi');
    var a, b, c, d := hi * hi', hi * lo', lo * hi', lo * lo';
    assert (hi - lo) * (hi' + lo') == a + b - c - d;
    assert (hi' - lo') * (hi + lo) == a + c - b - d;
  }

  lemma DivMonotone(a: real, s: real, b: real, t: real)
    requires s > 0.0 && t > 0.0 && a * t <= b * s
    ensures a / s <= b / t
  {
    assert a / s == (a * t) / (s * t);
    assert b / t == (b * s) / (s * t);
  }

  /** For non-negative brightness differential never exceeds integral: a run's
      extrema lie between the layer's extrema. An all-zero layer gives NaN
      integral and 0 differential. */
  lemma DifferentialBelowIntegral(g: Grid, width: nat)
    requires IsGrid(g, width)
    requires forall x | x in AllValid(g) :: x >= 0.0
    ensures IntegralOf(g).Finite? ==> DifferentialOf(g, width) <= IntegralOf(g).value
    ensures IntegralOf(g) != Infinity
    ensures IntegralOf(g) == NaN ==> DifferentialOf(g, width) == 0.0
  {
    var v := AllValid(g);
    DifferentialZero(g, width);
    var d := DifferentialOf(g, width);
    if d > 0.0 {
      var w := RunAttaining(g, width);
      RunValuesInLayer(g, width, w);
      var u := ValidSlice(w);
      assert NanMax(u) in v && NanMin(u) in v;
      RatioMonotone(NanMax(u), NanMin(u), NanMax(v), NanMin(v));
    }
  }

  /** A positive differential is the ratio of some run of five that counts. */
  lemma RunAttaining(g: Grid, width: nat) returns (w: Window)
    requires IsGrid(g, width) && DifferentialOf(g, width) > 0.0
    ensures w in Horizontal(g) || w in Vertical(g, width)
    ensures Qualifies(w) && WindowRatio(w) == DifferentialOf(g, width)
  {
    var h, vt := Horizontal(g), Vertical(g, width);
    if Best(h) >= Best(vt) {
      BestAttained(h);
      var i :| 0 <= i < |h| && Qualifies(h[i]) && Best(h) == WindowRatio(h[i]);
      w := h[i];
    } else {
      BestNonNegative(h);
      BestAttained(vt);
      var i :| 0 <= i < |vt| && Qualifies(vt[i]) && Best(vt) == WindowRatio(vt[i]);
      w := vt[i];
    }
  }

  /** A layer whose valid pixels all share one nonzero brightness has
      integral and differential uniformity 0. */
  lemma UniformLayer(g: Grid, width: nat, c: real)
    requires IsGrid(g, width) && c > 0.0
    requires AllValid(g) != [] && forall x | x in AllValid(g) :: x == c
    ensures IntegralOf(g) == Finite(0.0)
    ensures DifferentialOf(g, width) == 0.0
  {
    var v := AllValid(g);
    assert NanMax(v) == c && NanMin(v) == c;
    DifferentialBelowIntegral(g, width);
    DifferentialZero(g, width);
  }

  // ----- masking -----

  /** An alpha value that keeps its pixel: `alpha > 0` in differential,
      `alpha != 0` in integral, the same test on uint8. */
  predicate Opaque(a: Byte)
  {
    a != 0
  }

  /** `grayscale[~alpha] = np.nan`: pixels outside the disc become NaN. */
  function Masked(brightness: seq<seq<real>>, alpha: seq<seq<Byte>>, width: nat): (g: Grid)
    requires IsGrid(brightness, width) && IsGrid(alpha, width) && |alpha| == |brightness|
    ensures |g| == |brightness| && IsGrid(g, width)
  {
    seq(|brightness|, y requires 0 <= y < |brightness| =>
      seq(width, x requires 0 <= x < width =>
        if Opaque(alpha[y][x]) then Some(brightness[y][x]) else None))
  }

  /** Two layers that differ only where alpha is 0 have the same uniformity:
      masked pixels never matter, whatever their brightness. */
  lemma MaskedPixelsIgnored(b1: seq<seq<real>>, b2: seq<seq<real>>, alpha: seq<seq<Byte>>, width: nat)
    requires IsGrid(b1, width) && IsGrid(b2, width) && IsGrid(alpha, width)
    requires |alpha| == |b1| == |b2|
    requires forall y, x | 0 <= y < |alpha| && 0 <= x < width && Opaque(alpha[y][x]) :: b1[y][x] == b2[y][x]
    ensures DifferentialOf(Masked(b1, alpha, width), width) == DifferentialOf(Masked(b2, alpha, width), width)
    ensures IntegralOf(Masked(b1, alpha, width)) == IntegralOf(Masked(b2, alpha, width))
  {
    var g1, g2 := Masked(b1, alpha, width), Masked(b2, alpha, width);
    forall y | 0 <= y < |g1|
      ensures g1[y] == g2[y]
    {
    }
    assert g1 == g2;
  }

  // ----- the layer object -----

  /** A UniformityLayer: the grayscale brightness of its image, the radius of
      its disc, and the alpha channel once crop_to_circle has run. */
  class UniformityLayer {
    const brightness: seq<seq<real>>
    const width: nat
    const radius: int
    var alpha: Option<seq<seq<Byte>>>

    ghost predicate Valid()
      reads this
    {
      IsGrid(brightness, width) &&
      (alpha.Some? ==> IsGrid(alpha.value, width) && |alpha.value| == |brightness|)
    }

    /** The layer's pixels as differential and integral see them. */
    function Pixels(): (g: Grid)
      reads this
      requires Valid() && alpha.Some?
      ensures IsGrid(g, width)
    {
      Masked(brightness, alpha.value, width)
    }

    constructor(brightness: seq<seq<real>>, width: nat, radius: int)
      requires IsGrid(brightness, width)
      ensures Valid() && this.alpha == None
      ensures this.brightness == brightness && this.width == width && this.radius == radius
    {
      this.brightness := brightness;
      this.width := width;
      this.radius := radius;
      this.alpha := None;
    }

    /** crop_to_circle: the alpha channel of the disc of the layer's radius
      (255 inside, 0 outside), drawn by the imaging library and given here as
      `disc`, becomes the layer's mask. */
    method CropToCircle(disc: seq<seq<Byte>>)
      requires Valid() && IsGrid(disc, width) && |disc| == |brightness|
      modifies this
      ensures Valid() && alpha == Some(disc)
    {
      alpha := Some(disc);
    }

    /** differential: 0 before crop_to_circle, otherwise the larger of the
      horizontal and vertical scans. */
    method Differential() returns (d: real)
      requires Valid()
      ensures alpha.None? ==> d == 0.0
      ensures alpha.Some? ==> d == DifferentialOf(Pixels(), width)
      ensures d >= 0.0
    {
      if alpha == None {
        return 0.0;
      }
      var g := Pixels();
      var h := CalculateUniformity(Horizontal(g));
      var v := CalculateUniformity(Vertical(g, width));
      d := RealMax(h, v);
      DifferentialZero(g, width);
    }

    /** integral: 0 before crop_to_circle, otherwise the ratio of the global extrema. */
    method Integral() returns (p: Percent)
      requires Valid()
      ensures alpha.None? ==> p == Finite(0.0)
      ensures alpha.Some? ==> p == IntegralOf(Pixels())
    {
      if alpha == None {
        p := Finite(0.0);
      } else {
        p := IntegralOf(Pixels());
      }
    }
  }
}
