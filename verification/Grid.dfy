/**
The log-10 linear grid that a histogram is re-bucketed onto.

Bucket bounds are reals.  The floor of the base-10 logarithm is taken to be exact:
`Decade(x)` is the one `c` with `10^c <= x < 10^(c+1)`, also at powers of ten.
 */
module Grid {

  function Pow10(c: nat): (p: real)
    ensures p >= 1.0
  {
    if c == 0 then 1.0 else 10.0 * Pow10(c - 1)
  }

  function Decade(x: real): (c: nat)
    requires x >= 1.0
    ensures Pow10(c) <= x < Pow10(c + 1)
    decreases x.Floor
  {
    if x < 10.0 then 0 else 1 + Decade(x / 10.0)
  }

  lemma {:induction false} Pow10Monotone(a: nat, b: nat)
    requires a <= b
    ensures Pow10(a) <= Pow10(b)
    decreases b - a
  {
    if a < b {
      Pow10Monotone(a, b - 1);
    }
  }

  lemma DecadeUnique(x: real, c: nat)
    requires x >= 1.0 && Pow10(c) <= x < Pow10(c + 1)
    ensures Decade(x) == c
  {
    var d := Decade(x);
    if d < c {
      Pow10Monotone(d + 1, c);
    } else if c < d {
      Pow10Monotone(c + 1, d);
    }
  }

  lemma DecadeMonotone(x: real, y: real)
    requires 1.0 <= x <= y
    ensures Decade(x) <= Decade(y)
  {
    if Decade(y) < Decade(x) {
      Pow10Monotone(Decade(y) + 1, Decade(x));
    }
  }

  /** The least d with `x <= 10^d`, that is, the ceiling of the base-10 logarithm. */
  function CeilLog10(x: real): (d: nat)
    requires x >= 1.0
    ensures x <= Pow10(d)
    ensures d > 0 ==> Pow10(d - 1) < x
  {
    if x == Pow10(Decade(x)) then Decade(x) else Decade(x) + 1
  }

  /** The power of ten that closes the decade of x. */
  function Top(x: real): (m: real)
    requires x >= 1.0
    ensures x < m
  {
    Pow10(Decade(x) + 1)
  }

  /** The width of a bin in the decade of x. */
  function Width(bins: nat, x: real): real
    requires bins >= 1 && x >= 1.0
  {
    Top(x) / bins as real
  }

  /** One step of the walk over the grid. */
  function NextBin(bins: nat, curr: real): real
    requires bins >= 1 && curr >= 1.0
  {
    var c := Decade(curr);
    var m := Pow10(c + 1);
    var n := if bins < 10 && curr <= Pow10(c) then Width(bins, curr) else curr + Width(bins, curr);
    if n <= m then n else m
  }

  lemma WidthFacts(bins: nat, x: real)
    requires bins >= 1 && x >= 1.0
    ensures 0.0 < Width(bins, x) <= Top(x)
    ensures Width(bins, x) * bins as real == Top(x)
    ensures bins < 10 && x == Pow10(Decade(x)) ==> x < Width(bins, x)
  {
    var b, m, w := bins as real, Top(x), Width(bins, x);
    FactorPositive(b, m, w);
    FactorAtMostProduct(b, m, w);
    if bins < 10 && x == Pow10(Decade(x)) { FactorAboveTenth(b, m, w, x); }
  }

  lemma FactorPositive(b: real, m: real, w: real)
    requires b >= 1.0 && m > 0.0 && w * b == m
    ensures w > 0.0
  {
    if w <= 0.0 { MulSign(w, b); }
  }

  lemma FactorAtMostProduct(b: real, m: real, w: real)
    requires b >= 1.0 && w > 0.0 && w * b == m
    ensures w <= m
  {
    MulAtLeast(w, b);
  }

  lemma FactorAboveTenth(b: real, m: real, w: real, x: real)
    requires 1.0 <= b <= 9.0 && w * b == m && x > 0.0 && m == 10.0 * x
    ensures x < w
  {
    if w <= x {
      MulMono(w, x, b);
      MulMono(b, 9.0, x);
    }
  }

  lemma MulSign(w: real, b: real)
    requires w <= 0.0 && b >= 0.0
    ensures w * b <= 0.0
  {}

  lemma MulAtLeast(w: real, b: real)
    requires w > 0.0 && b >= 1.0
    ensures w <= w * b
  {
    assert w * b == w + w * (b - 1.0);
  }

  lemma MulMono(a: real, b: real, c: real)
    requires a <= b && c >= 0.0
    ensures a * c <= b * c
  {
    assert b * c == a * c + (b - a) * c;
  }

  lemma NextBinIncreases(bins: nat, x: real)
    requires bins >= 1 && x >= 1.0
    ensures x < NextBin(bins, x) <= Top(x)
  {
    WidthFacts(bins, x);
  }

  function Ceil(y: real): (n: int)
    ensures y <= n as real < y + 1.0
  {
    -((-y).Floor)
  }

  /** The number of steps that lead from x to the power of ten that closes its decade. */
  function StepsToTop(bins: nat, x: real): int
    requires bins >= 1 && x >= 1.0 && Width(bins, x) != 0.0
  {
    Ceil((Top(x) - x) / Width(bins, x))
  }

  lemma DivBounds(a: real, w: real, lo: real, hi: real)
    requires w > 0.0 && lo * w < a <= hi * w
    ensures lo < a / w <= hi
  {
    var q := a / w;
    assert q * w == a;
    if q <= lo { MulMono(q, lo, w); }
    if q > hi { MulStrict(hi, q, w); }
  }

  lemma MulStrict(a: real, b: real, c: real)
    requires a < b && c > 0.0
    ensures a * c < b * c
  {}

  lemma CancelFactor(a: real, b: real, c: real)
    requires c > 0.0 && a * c <= b * c
    ensures a <= b
  {
    if b < a { MulStrict(b, a, c); }
  }

  lemma CeilOfQuotient(a: real, w: real, n: int)
    requires w > 0.0 && (n - 1) as real * w < a <= n as real * w
    ensures Ceil(a / w) == n
  {
    DivBounds(a, w, (n - 1) as real, n as real);
  }

  lemma CeilOneLess(a: real, w: real)
    requires w > 0.0
    ensures Ceil((a - w) / w) == Ceil(a / w) - 1
  {
    var q, r := a / w, (a - w) / w;
    assert (q - 1.0) * w == q * w - w;
    CancelFactor(r, q - 1.0, w);
    CancelFactor(q - 1.0, r, w);
  }

  lemma StepsToTopBounds(bins: nat, x: real)
    requires bins >= 1 && x >= 1.0
    ensures Width(bins, x) > 0.0
    ensures 1 <= StepsToTop(bins, x) <= bins
  {
    WidthFacts(bins, x);
    DivBounds(Top(x) - x, Width(bins, x), 0.0, bins as real);
  }

  lemma StepInside(bins: nat, x: real, y: real)
    requires bins >= 1 && x >= 1.0 && Width(bins, x) > 0.0
    requires y == x + Width(bins, x) && y < Top(x)
    ensures Decade(y) == Decade(x)
    ensures Width(bins, y) == Width(bins, x)
    ensures StepsToTop(bins, y) == StepsToTop(bins, x) - 1
  {
    DecadeUnique(y, Decade(x));
    CeilOneLess(Top(x) - x, Width(bins, x));
  }

  lemma StepsFromPowerOfTen(bins: nat, x: real, w: real)
    requires 1 <= bins < 10 && x >= 1.0 && x == Pow10(Decade(x)) && w == Width(bins, x)
    ensures x < w && (bins - 1) as real * w < Top(x) - x <= bins as real * w
    ensures (bins - 2) as real * w < Top(x) - w <= (bins - 1) as real * w
    ensures bins > 1 ==> w < Top(x)
    ensures bins == 1 ==> w == Top(x)
  {
    hide Width;
    WidthFacts(bins, x);
    PowerOfTenArithmetic(bins, x, w, Top(x));
  }

  lemma StepFromPowerOfTen(bins: nat, x: real, w: real)
    requires 1 <= bins < 10 && x >= 1.0 && x == Pow10(Decade(x)) && w == Width(bins, x)
    ensures w > 0.0
    ensures StepsToTop(bins, x) == bins
    ensures bins > 1 ==> Decade(w) == Decade(x) && Width(bins, w) == w && StepsToTop(bins, w) == bins - 1
    ensures bins == 1 ==> w == Top(x)
  {
    hide Width, Decade, Ceil, Pow10;
    StepsFromPowerOfTen(bins, x, w);
    CeilOfQuotient(Top(x) - x, w, bins);
    if bins > 1 {
      DecadeUnique(w, Decade(x));
      SameDecadeSameWidth(bins, x, w);
      CeilOfQuotient(Top(x) - w, w, bins - 1);
    }
  }

  lemma NextFromPowerOfTen(bins: nat, x: real)
    requires 1 <= bins < 10 && x >= 1.0 && x == Pow10(Decade(x))
    ensures NextBin(bins, x) == Width(bins, x)
  {
    WidthFacts(bins, x);
  }

  lemma SameDecadeSameWidth(bins: nat, x: real, y: real)
    requires bins >= 1 && x >= 1.0 && y >= 1.0 && Decade(x) == Decade(y)
    ensures Width(bins, x) == Width(bins, y)
  {}

  lemma PowerOfTenArithmetic(bins: nat, x: real, w: real, m: real)
    requires bins >= 1 && 0.0 < x < w && w * bins as real == m && m == 10.0 * x
    ensures (bins - 1) as real * w < m - x <= bins as real * w
    ensures (bins - 2) as real * w < m - w <= (bins - 1) as real * w
    ensures bins > 1 ==> w < m
    ensures bins == 1 ==> w == m
  {
    var b := bins as real;
    assert (b - 1.0) * w == b * w - w;
    assert (b - 2.0) * w == b * w - 2.0 * w;
    if bins > 1 { MulStrict(1.0, b, w); }
  }

  /** Every step but the last stays in the decade and uses up one step; the last lands on the power of ten. */
  lemma StepCountsDown(bins: nat, x: real)
    requires bins >= 1 && x >= 1.0
    ensures Width(bins, x) > 0.0
    ensures x < NextBin(bins, x) <= Top(x)
    ensures Width(bins, NextBin(bins, x)) > 0.0
    ensures StepsToTop(bins, x) == 1 ==> NextBin(bins, x) == Top(x)
    ensures StepsToTop(bins, x) > 1 ==>
              && Decade(NextBin(bins, x)) == Decade(x)
              && StepsToTop(bins, NextBin(bins, x)) == StepsToTop(bins, x) - 1
  {
    var w, y := Width(bins, x), NextBin(bins, x);
    NextBinIncreases(bins, x);
    WidthFacts(bins, x);
    WidthFacts(bins, y);
    if bins < 10 && x == Pow10(Decade(x)) {
      NextFromPowerOfTen(bins, x);
      StepFromPowerOfTen(bins, x, w);
    } else if x + w < Top(x) {
      StepInside(bins, x, y);
      StepsToTopBounds(bins, y);
    } else {
      CeilOfQuotient(Top(x) - x, w, 1);
    }
  }

  /** The k-th point of the grid that starts at `start`. */
  function Point(start: real, bins: nat, k: nat): (x: real)
    requires start >= 1.0 && bins >= 1
    ensures x >= 1.0
  {
    if k == 0 then start
    else
      var y := Point(start, bins, k - 1);
      NextBinIncreases(bins, y);
      NextBin(bins, y)
  }

  lemma {:induction false} PointsIncrease(start: real, bins: nat, i: nat, j: nat)
    requires start >= 1.0 && bins >= 1 && i < j
    ensures Point(start, bins, i) < Point(start, bins, j)
    decreases j - i
  {
    hide NextBin, Top;
    NextBinIncreases(bins, Point(start, bins, j - 1));
    if i < j - 1 {
      PointsIncrease(start, bins, i, j - 1);
    }
  }

  /** The walk started later is the tail of the walk. */
  lemma {:induction false} PointShift(start: real, bins: nat, k: nat, j: nat)
    requires start >= 1.0 && bins >= 1
    ensures Point(start, bins, k + j) == Point(Point(start, bins, k), bins, j)
  {
    hide NextBin;
    if j > 0 {
      PointShift(start, bins, k, j - 1);
      assert k + j - 1 == k + (j - 1);
    }
  }

  /** No decade is skipped: from any point, at most `bins` steps land on the next power of ten. */
  lemma {:induction false} HitsNextPowerOfTen(x: real, bins: nat, s: int)
    requires x >= 1.0 && bins >= 1 && s == StepsLeft(bins, x)
    ensures 1 <= s <= bins
    ensures Point(x, bins, s) == Pow10(Decade(x) + 1)
    decreases s
  {
    hide Width, StepsToTop, NextBin, Decade;
    StepCountsDown(bins, x);
    StepsToTopBounds(bins, x);
    assert Point(x, bins, 0) == x;
    if s > 1 {
      HitsNextPowerOfTen(Point(x, bins, 1), bins, s - 1);
      PointShift(x, bins, 1, s - 1);
    }
  }

  /** A walk takes the full number of steps to the next power of ten exactly from below the first bin's width. */
  lemma FullDecadeIff(bins: nat, x: real)
    requires bins >= 1 && x >= 1.0
    ensures StepsLeft(bins, x) == bins <==> x * bins as real < Top(x)
    ensures x * bins as real < Top(x) ==> bins < 10
  {
    hide Width, Top, Decade, Ceil;
    WidthFacts(bins, x);
    AllStepsIff(bins, Top(x), Width(bins, x), x);
    FewBins(bins, x);
  }

  lemma AllStepsIff(bins: nat, m: real, w: real, x: real)
    requires bins >= 1 && w > 0.0 && w * bins as real == m && 0.0 < x < m
    ensures Ceil((m - x) / w) == bins <==> x * bins as real < m
  {
    hide Ceil;
    var b := bins as real;
    assert (bins - 1) as real * w == m - w by { assert (b - 1.0) * w == b * w - w; }
    if x < w {
      MulStrict(x, w, b);
      CeilOfQuotient(m - x, w, bins);
    } else {
      MulMono(w, x, b);
      FewerSteps(bins, m - x, w);
    }
  }

  lemma FewerSteps(bins: nat, a: real, w: real)
    requires w > 0.0 && bins >= 1 && 0.0 < a <= (bins - 1) as real * w
    ensures Ceil(a / w) < bins
  {
    DivBounds(a, w, 0.0, (bins - 1) as real);
  }

  lemma FewBins(bins: nat, x: real)
    requires bins >= 1 && x >= 1.0
    ensures x * bins as real < Top(x) ==> bins < 10
  {
    if bins >= 10 {
      MulMono(10.0, bins as real, x);
      assert Top(x) == 10.0 * Pow10(Decade(x));
    }
  }

  lemma OneMoreDecade(n: nat, bins: nat)
    ensures (n + 1) * bins == n * bins + bins
  {}

  lemma FullFromPowerOfTen(bins: nat, c: nat)
    requires bins >= 1
    ensures StepsLeft(bins, Pow10(c)) == bins <==> bins < 10
  {
    hide StepsLeft;
    var p := Pow10(c);
    DecadeUnique(p, c);
    FullDecadeIff(bins, p);
    if bins < 10 { MulStrict(bins as real, 10.0, p); }
  }

  /** Every power of ten above the start is a grid point, reached within `bins` steps per decade; it takes that many
      exactly if the start lies below the first bin's width of its decade. */
  lemma {:induction false} HitsEveryPowerOfTen(start: real, bins: nat, d: nat) returns (k: nat)
    requires start >= 1.0 && bins >= 1 && start < Pow10(d)
    ensures Decade(start) < d
    ensures Point(start, bins, k) == Pow10(d)
    ensures 1 <= k <= (d - Decade(start)) * bins
    ensures k == (d - Decade(start)) * bins <==> start * bins as real < Top(start)
    decreases d
  {
    hide StepsLeft, NextBin, Decade, Pow10, Top, Point;
    var c := Decade(start);
    if d <= c { Pow10Monotone(d, c); }
    FullDecadeIff(bins, start);
    if d == c + 1 {
      HitsNextPowerOfTen(start, bins, StepsLeft(bins, start));
      k := StepsLeft(bins, start);
    } else {
      var p := Pow10(d - 1);
      if p <= start { DecadeUnique(start, d - 1); }
      var k0 := HitsEveryPowerOfTen(start, bins, d - 1);
      var s := StepsLeft(bins, p);
      DecadeOfPower(d - 1);
      HitsNextPowerOfTen(p, bins, s);
      PointShift(start, bins, k0, s);
      k := k0 + s;
      OneMoreDecade(d - 1 - c, bins);
      FullFromPowerOfTen(bins, d - 1);
    }
  }

  /** The documented layout of a full decade: `bins` equal bins of it, cut off at its top. */
  function DecadePoint(bins: nat, c: nat, j: nat): real
    requires bins >= 1
  {
    var w := Pow10(c + 1) / bins as real;
    if bins < 10 then (if j == 0 then Pow10(c) else j as real * w)
    else if Pow10(c) + j as real * w <= Pow10(c + 1) then Pow10(c) + j as real * w else Pow10(c + 1)
  }

  /** One step inside the decade of c, with w for the width of its bins. */
  lemma NextInDecade(bins: nat, c: nat, y: real, w: real)
    requires bins >= 1 && Pow10(c) <= y < Pow10(c + 1) && w == Pow10(c + 1) / bins as real
    ensures bins < 10 && y == Pow10(c) ==> NextBin(bins, y) == w
    ensures !(bins < 10 && y == Pow10(c)) ==>
              NextBin(bins, y) == if y + w <= Pow10(c + 1) then y + w else Pow10(c + 1)
  {
    DecadeUnique(y, c);
    assert w == Width(bins, y);
    hide Decade, Width;
    if bins < 10 && y == Pow10(c) { NextFromPowerOfTen(bins, y); }
  }

  lemma DecadeStep(bins: nat, c: nat, j: nat, y: real)
    requires bins >= 1 && (bins < 10 ==> j < bins)
    requires y == DecadePoint(bins, c, j) && Pow10(c) <= y < Pow10(c + 1)
    requires bins < 10 && j > 0 ==> y != Pow10(c)
    ensures NextBin(bins, y) == DecadePoint(bins, c, j + 1)
  {
    hide NextBin, Pow10;
    var w := Pow10(c + 1) / bins as real;
    assert w * bins as real == Pow10(c + 1);
    NextInDecade(bins, c, y, w);
    NextMultiple(j, bins, w, Pow10(c + 1));
  }

  lemma NextMultiple(j: nat, bins: nat, w: real, m: real)
    requires bins >= 1 && m > 0.0 && w * bins as real == m
    ensures (j + 1) as real * w == j as real * w + w
    ensures j < bins ==> (j + 1) as real * w <= m
  {
    FactorPositive(bins as real, m, w);
    if j < bins { MulMono((j + 1) as real, bins as real, w); }
  }

  /** Past a power of ten, the walk is the closed form of that decade. */
  lemma {:induction false} DecadeClosedForm(bins: nat, c: nat, j: nat)
    requires bins >= 1 && j <= StepsLeft(bins, Pow10(c))
    ensures Point(Pow10(c), bins, j) == DecadePoint(bins, c, j)
  {
    hide StepsLeft, NextBin, Decade;
    var p := Pow10(c);
    if j > 0 {
      DecadeClosedForm(bins, c, j - 1);
      hide DecadePoint;
      var s := StepsLeft(bins, p);
      DecadeUnique(p, c);
      HitsNextPowerOfTen(p, bins, s);
      PointsIncrease(p, bins, j - 1, s);
      if j > 1 { PointsIncrease(p, bins, 0, j - 1); }
      DecadeStep(bins, c, j - 1, Point(p, bins, j - 1));
    }
  }

  /** Point k of a decade with bins of width w and top m: from the start in steps of w, or multiples of w, cut off at
      m. */
  function StepPoint(start: real, w: real, m: real, multiples: bool, k: nat): real {
    var x := if multiples && k > 0 then k as real * w else start + k as real * w;
    if x <= m then x else m
  }

  /** Point k of the first decade; from a power of ten with fewer than ten bins, these are multiples of the width. */
  function FirstDecadePoint(start: real, bins: nat, k: nat): real
    requires start >= 1.0 && bins >= 1
  {
    var m := Pow10(Decade(start) + 1);
    StepPoint(start, m / bins as real, m, bins < 10 && start == Pow10(Decade(start)), k)
  }

  lemma FirstDecadeStep(start: real, bins: nat, k: nat, y: real)
    requires start >= 1.0 && bins >= 1 && y == FirstDecadePoint(start, bins, k)
    requires start <= y < Pow10(Decade(start) + 1) && (k > 0 ==> start < y)
    ensures NextBin(bins, y) == FirstDecadePoint(start, bins, k + 1)
  {
    hide NextBin, Pow10, Decade, StepPoint;
    var c := Decade(start);
    var w := Pow10(c + 1) / bins as real;
    NextInDecade(bins, c, y, w);
    FirstWidth(bins, start, w);
    StepPointNext(start, w, Pow10(c + 1), bins < 10 && start == Pow10(c), k, y);
  }

  lemma StepPointNext(start: real, w: real, m: real, multiples: bool, k: nat, y: real)
    requires 0.0 < w <= m && y == StepPoint(start, w, m, multiples, k) && start <= y < m && (k > 0 ==> start < y)
    ensures StepPoint(start, w, m, multiples, k + 1) ==
            if multiples && y == start then w else if y + w <= m then y + w else m
  {
    assert (k + 1) as real * w == k as real * w + w;
  }

  lemma FirstWidth(bins: nat, start: real, w: real)
    requires start >= 1.0 && bins >= 1 && w == Pow10(Decade(start) + 1) / bins as real
    ensures 0.0 < w <= Pow10(Decade(start) + 1)
  {
    WidthFacts(bins, start);
  }

  /** In the first decade the walk is this closed form, whatever the start. */
  lemma {:induction false} FirstDecadeForm(start: real, bins: nat, k: nat)
    requires start >= 1.0 && bins >= 1 && k <= StepsLeft(bins, start)
    ensures Point(start, bins, k) == FirstDecadePoint(start, bins, k)
  {
    hide StepsLeft, NextBin, Decade, Pow10;
    if k == 0 {
      assert FirstDecadePoint(start, bins, 0) == start;
    } else {
      var s := StepsLeft(bins, start);
      HitsNextPowerOfTen(start, bins, s);
      FirstDecadeForm(start, bins, k - 1);
      hide FirstDecadePoint;
      PointsIncrease(start, bins, k - 1, s);
      if k > 1 { PointsIncrease(start, bins, 0, k - 1); }
      FirstDecadeStep(start, bins, k - 1, Point(start, bins, k - 1));
    }
  }

  /** So past the first decade the whole grid is the closed form: the k-th point is point j of its decade c. */
  lemma GridClosedForm(start: real, bins: nat, k: nat) returns (c: nat, j: nat)
    requires start >= 1.0 && bins >= 1 && Point(start, bins, k) >= Pow10(Decade(start) + 1)
    ensures c == Decade(Point(start, bins, k)) > Decade(start) && j <= StepsLeft(bins, Pow10(c))
    ensures Point(start, bins, k) == DecadePoint(bins, c, j)
  {
    hide StepsLeft, NextBin, Decade, DecadePoint, Point, Pow10;
    var x := Point(start, bins, k);
    c := Decade(x);
    if c <= Decade(start) { Pow10Monotone(c + 1, Decade(start) + 1); }
    Pow10Monotone(Decade(start) + 1, c);
    var p := Pow10(c);
    var first := HitsEveryPowerOfTen(start, bins, c);
    if k < first { PointsIncrease(start, bins, k, first); }
    j := k - first;
    PointShift(start, bins, first, j);
    var s := StepsLeft(bins, p);
    DecadeOfPower(c);
    HitsNextPowerOfTen(p, bins, s);
    if s < j { PointsIncrease(p, bins, s, j); }
    DecadeClosedForm(bins, c, j);
  }

  lemma DecadeOfPower(c: nat)
    ensures Decade(Pow10(c)) == c
  {
    DecadeUnique(Pow10(c), c);
  }

  /** The first index from k on whose point is at or above `le`, or above `max`. */
  function Reach(start: real, bins: nat, k: nat, le: real, max: real): (j: nat)
    requires start >= 1.0 && bins >= 1
    ensures j >= k
    ensures Point(start, bins, j) >= le || Point(start, bins, j) > max
    ensures forall i: nat :: k <= i < j ==> Point(start, bins, i) < le && Point(start, bins, i) <= max
    decreases DecadesLeft(Point(start, bins, k), le), StepsLeft(bins, Point(start, bins, k))
  {
    hide NextBin, DecadesLeft, StepsLeft;
    if Point(start, bins, k) < le && Point(start, bins, k) <= max then
      ReachProgress(start, bins, k, le);
      Reach(start, bins, k + 1, le, max)
    else k
  }

  function DecadesLeft(x: real, le: real): int
    requires x >= 1.0
  {
    if le < 1.0 then 0 else Decade(le) - Decade(x)
  }

  function StepsLeft(bins: nat, x: real): int
    requires bins >= 1 && x >= 1.0
  {
    if Width(bins, x) == 0.0 then 0 else StepsToTop(bins, x)
  }

  /** The measure under which every walk over the grid terminates. */
  lemma StepMakesProgress(bins: nat, x: real, le: real)
    requires bins >= 1 && 1.0 <= x < le
    ensures NextBin(bins, x) >= 1.0
    ensures 0 <= DecadesLeft(x, le) && 0 <= StepsLeft(bins, x)
    ensures DecadesLeft(NextBin(bins, x), le) < DecadesLeft(x, le) ||
            (DecadesLeft(NextBin(bins, x), le) == DecadesLeft(x, le) &&
              StepsLeft(bins, NextBin(bins, x)) < StepsLeft(bins, x))
  {
    DecadeMonotone(x, le);
    StepsToTopBounds(bins, x);
    StepCountsDown(bins, x);
    if StepsToTop(bins, x) == 1 {
      DecadeUnique(Top(x), Decade(x) + 1);
    }
  }

  lemma ReachProgress(start: real, bins: nat, k: nat, le: real)
    requires start >= 1.0 && bins >= 1 && Point(start, bins, k) < le
    ensures DecadesLeft(Point(start, bins, k), le) >= 0 && StepsLeft(bins, Point(start, bins, k)) >= 0
    ensures DecadesLeft(Point(start, bins, k + 1), le) < DecadesLeft(Point(start, bins, k), le) ||
            (&& DecadesLeft(Point(start, bins, k + 1), le) == DecadesLeft(Point(start, bins, k), le)
             && StepsLeft(bins, Point(start, bins, k + 1)) < StepsLeft(bins, Point(start, bins, k)))
  {
    hide NextBin, DecadesLeft, StepsLeft;
    StepMakesProgress(bins, Point(start, bins, k), le);
  }

  lemma ReachUnique(start: real, bins: nat, k: nat, le: real, max: real, j: nat)
    requires start >= 1.0 && bins >= 1 && j >= k
    requires Point(start, bins, j) >= le || Point(start, bins, j) > max
    requires forall i: nat :: k <= i < j ==> Point(start, bins, i) < le && Point(start, bins, i) <= max
    ensures Reach(start, bins, k, le, max) == j
  {}

  /** Walking to a first bound and then on to a second is walking to the second. */
  lemma ReachThrough(start: real, bins: nat, k: nat, a: real, b: real, max: real)
    requires start >= 1.0 && bins >= 1 && a <= b
    ensures Reach(start, bins, k, a, max) <= Reach(start, bins, k, b, max)
    ensures Reach(start, bins, Reach(start, bins, k, a, max), b, max) == Reach(start, bins, k, b, max)
  {
    var m := Reach(start, bins, k, a, max);
    var j := Reach(start, bins, m, b, max);
    ReachUnique(start, bins, k, b, max, j);
  }
}
