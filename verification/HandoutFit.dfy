/** Fitting a handout block to one page: the row search, and the trade of image size for rows. */
module HandoutFit {
  import opened Numbers
  import opened Outcomes
  import opened HandoutLayout

  const MAX_ROWS: nat := 256
  const RESIZE_TOLERANCE := 0.0001

  /** What the typesetter answers: the number of pages for so many rows at this image size; None on an error. */
  type Pages = (nat, real) -> Option<nat>

  /** The blank space under one page of rows, if the typesetter can measure it. */
  type Measure = (nat, real) -> Option<Measured>

  datatype Measured = Measured(pages: nat, bottomY: real)

  predicate FitsPage(pages: Pages, rows: nat, size: real) {
    match pages(rows, size) case Some(n) => n <= 1 case None => false
  }

  predicate Fails(pages: Pages, rows: nat, size: real) {
    match pages(rows, size) case Some(n) => n > 1 case None => false
  }

  // ---- the row search ----

  datatype Search = Rows(rows: nat) | NoValidCount | MinimumDoesNotFit | CompileError

  /** A row count that fits, with the next one either failing or past the limit. */
  ghost predicate Fitted(pages: Pages, step: nat, size: real, rows: nat) {
    && step > 0
    && exists k: nat :: rows == k * step && Limit(pages, step, size, k)
  }

  /** k steps of rows, as the search counts them. */
  predicate FitsAt(pages: Pages, step: nat, size: real, k: nat) {
    FitsPage(pages, k * step, size)
  }

  predicate FailsAt(pages: Pages, step: nat, size: real, k: nat) {
    Fails(pages, k * step, size)
  }

  /** k steps fit, and one more does not or is past the limit. */
  ghost predicate Limit(pages: Pages, step: nat, size: real, k: nat)
    requires step > 0
  {
    && 0 < k <= MAX_ROWS / step
    && FitsAt(pages, step, size, k)
    && (k + 1 > MAX_ROWS / step || FailsAt(pages, step, size, k + 1))
  }

  /** What the cache holds is what the typesetter says. */
  ghost predicate Cached(pages: Pages, step: nat, size: real, cache: map<nat, bool>) {
    forall i :: i in cache ==> if cache[i] then FitsAt(pages, step, size, i) else FailsAt(pages, step, size, i)
  }

  /** floor(log2(n)). */
  function Log2(n: nat): (l: nat)
    requires n > 0
    ensures Pow2(l) <= n < Pow2(l + 1)
  {
    if n == 1 then 0 else Log2(n / 2) + 1
  }

  lemma {:induction false} Log2AtLeast(n: nat, p: nat)
    requires n > 0 && Pow2(p) <= n
    ensures p <= Log2(n)
  {
    if p > Log2(n) {
      Pow2Monotone(Log2(n) + 1, p);
    }
  }

  /** The program's cached question whether k steps fit; `asked` counts the compilations. */
  method Probe(pages: Pages, step: nat, size: real, k: nat, cache: map<nat, bool>, ghost asked: nat)
      returns (r: Option<bool>, cache': map<nat, bool>, ghost asked': nat)
    requires Cached(pages, step, size, cache)
    ensures Cached(pages, step, size, cache') && asked' <= asked + 1
    ensures r.Some? ==> if r.value then FitsAt(pages, step, size, k) else FailsAt(pages, step, size, k)
    ensures r.None? ==> pages(k * step, size).None?
  {
    cache', asked' := cache, asked;
    if k in cache {
      return Some(cache[k]), cache, asked;
    }
    asked' := asked + 1;
    match pages(k * step, size) {
      case None => r := None;
      case Some(n) =>
        cache' := cache[k := n <= 1];
        r := Some(n <= 1);
    }
  }

  /** Doubling up, then halving in: no assumption on the typesetter is needed. */
  method FitRows(pages: Pages, step: nat, size: real) returns (r: Search, ghost asked: nat)
    requires step > 0
    ensures r.Rows? ==> Fitted(pages, step, size, r.rows)
    ensures r.NoValidCount? <==> step > MAX_ROWS
    ensures r.MinimumDoesNotFit? <==> step <= MAX_ROWS && Fails(pages, step, size)
    ensures r.CompileError? ==> exists k: nat :: 0 < k <= MAX_ROWS / step && pages(k * step, size).None?
    ensures step <= MAX_ROWS ==> asked <= 2 * Log2(MAX_ROWS / step) + 1
  {
    hide FitsAt, FailsAt, Cached, Log2;
    asked := 0;
    var maxK := MAX_ROWS / step;
    QuotientPositive(step);
    EmptyCache(pages, step, size);
    if maxK < 1 {
      return NoValidCount, 0;
    }
    var cache: map<nat, bool> := map[];
    var low: nat, high: nat, firstFailure: nat := 0, 1, 0;
    ghost var p: nat, most := 0, Log2(maxK);
    while high <= maxK
      invariant Cached(pages, step, size, cache)
      invariant high == Pow2(p) && asked <= p && firstFailure == 0 && p <= most + 1
      invariant if p == 0 then low == 0 else low == Pow2(p - 1) <= maxK && FitsAt(pages, step, size, low)
      invariant p > 0 ==> !Fails(pages, step, size)
      decreases maxK + 1 - high
    {
      Log2AtLeast(maxK, p);
      OneStep(pages, step, size);
      var ok;
      ok, cache, asked := Probe(pages, step, size, high, cache, asked);
      if ok.None? {
        return CompileError, asked;
      }
      if ok.value {
        low := high;
        high := 2 * high;
        p := p + 1;
      } else {
        firstFailure := high;
        break;
      }
    }
    if low == 0 {
      OneStep(pages, step, size);
      return MinimumDoesNotFit, asked;
    }
    var upper := firstFailure;
    if upper == 0 {
      upper := maxK + 1;
    }
    low, asked, r := HalveIn(pages, step, size, low, upper, cache, asked, p - 1, most);
    if r.Rows? {
      assert Limit(pages, step, size, low);
    }
  }

  /** The second loop: halve in between a count that fits and one that does not. */
  method HalveIn(pages: Pages, step: nat, size: real, low0: nat, upper0: nat, cache0: map<nat, bool>,
                 ghost asked0: nat, ghost halvings: nat, ghost most: nat)
      returns (low: nat, ghost asked: nat, r: Search)
    requires step > 0 && Cached(pages, step, size, cache0)
    requires 0 < low0 < upper0 <= MAX_ROWS / step + 1 && upper0 - low0 <= Pow2(halvings)
    requires asked0 + halvings <= 2 * most + 1
    requires FitsAt(pages, step, size, low0) && (upper0 == MAX_ROWS / step + 1 || FailsAt(pages, step, size, upper0))
    ensures r.Rows? ==> r.rows == low * step && Limit(pages, step, size, low)
    ensures r.Rows? || (r.CompileError? && exists k: nat :: 0 < k <= MAX_ROWS / step && pages(k * step, size).None?)
    ensures asked <= 2 * most + 1
  {
    hide FitsAt, FailsAt, Cached;
    var upper, cache := upper0, cache0;
    low, asked := low0, asked0;
    ghost var q := halvings;
    while low + 1 < upper
      invariant Cached(pages, step, size, cache)
      invariant 0 < low < upper <= MAX_ROWS / step + 1 && upper - low <= Pow2(q) && asked + q <= 2 * most + 1
      invariant FitsAt(pages, step, size, low)
      invariant upper == MAX_ROWS / step + 1 || FailsAt(pages, step, size, upper)
    {
      assert q > 0;
      var mid := (low + upper) / 2;
      var ok;
      ok, cache, asked := Probe(pages, step, size, mid, cache, asked);
      if ok.None? {
        return low, asked, CompileError;
      }
      if ok.value {
        low := mid;
      } else {
        upper := mid;
      }
      q := q - 1;
    }
    r := Rows(low * step);
  }

  lemma EmptyCache(pages: Pages, step: nat, size: real)
    ensures Cached(pages, step, size, map[])
  {
  }

  lemma OneStep(pages: Pages, step: nat, size: real)
    ensures FailsAt(pages, step, size, 1) == Fails(pages, step, size)
    ensures FitsAt(pages, step, size, 1) ==> !Fails(pages, step, size)
    ensures pages(1 * step, size).None? ==> !Fails(pages, step, size)
  {
    assert 1 * step == step;
  }

  lemma QuotientPositive(step: nat)
    requires step > 0
    ensures MAX_ROWS / step < 1 <==> step > MAX_ROWS
  {
    DivUnique(MAX_ROWS, step, MAX_ROWS / step, MAX_ROWS % step);
    if step <= MAX_ROWS {
      QuotientAtLeast(MAX_ROWS, 1, step);
    }
  }

  /** More rows never take fewer pages. */
  ghost predicate Monotone(pages: Pages, size: real) {
    forall a: nat, b: nat :: a <= b && FitsPage(pages, b, size) ==> FitsPage(pages, a, size)
  }

  /** With monotone pages the search finds the most rows that fit, out of all that fill whole teams. */
  lemma FittedIsLargest(pages: Pages, step: nat, size: real, rows: nat)
    requires Fitted(pages, step, size, rows) && Monotone(pages, size)
    ensures forall r: nat :: FitsPage(pages, r, size) && Divides(step, r) && r <= MAX_ROWS ==> r <= rows
    ensures forall r: nat :: r <= rows ==> FitsPage(pages, r, size)
  {
    var k: nat :| rows == k * step && Limit(pages, step, size, k);
    forall r: nat | FitsPage(pages, r, size) && Divides(step, r) && r <= MAX_ROWS
      ensures r <= rows
    {
      DividesTimes(step, r);
      var j := r / step;
      QuotientAtLeast(MAX_ROWS, j, step);
      StepsInOrder(step, j, k);
      if j > k {
        NoMoreFit(pages, step, size, k, r);
      }
    }
  }

  lemma NoMoreFit(pages: Pages, step: nat, size: real, k: nat, r: nat)
    requires Monotone(pages, size) && FitsPage(pages, r, size) && (k + 1) * step <= r
    ensures !FailsAt(pages, step, size, k + 1)
  {
    var more: nat := (k + 1) * step;
    assert FitsPage(pages, more, size);
  }

  lemma StepsInOrder(step: nat, j: nat, k: nat)
    ensures j <= k ==> step * j <= k * step
    ensures j > k ==> (k + 1) * step <= step * j
  {
    if j > k {
      assert (j - k - 1) * step >= 0;
    } else {
      assert (k - j) * step >= 0;
    }
  }

  lemma FittedIsBounded(pages: Pages, step: nat, size: real, rows: nat)
    requires Fitted(pages, step, size, rows)
    ensures 0 < rows <= MAX_ROWS && Divides(step, rows)
  {
    hide FitsAt, FailsAt;
    var k: nat :| rows == k * step && Limit(pages, step, size, k);
    TimesDivides(step, k);
    MostSteps(step, k);
  }

  lemma MostSteps(step: nat, k: nat)
    requires step > 0 && 0 < k <= MAX_ROWS / step
    ensures step * k == k * step && 0 < k * step <= MAX_ROWS
  {
    assert step * (MAX_ROWS / step) <= MAX_ROWS;
    StepsInOrder(step, k, MAX_ROWS / step);
    FactorBounds(step, k);
  }

  /** A fitted block always cuts into whole teams, and the cutting finds its team's shape. */
  lemma FittedRowsCutIntoTeams(pages: Pages, columns: nat, perTeam: nat, size: real, rows: nat, vertical: bool)
    requires columns > 0 && perTeam > 0 && Fitted(pages, RowStep(columns, perTeam), size, rows)
    ensures Divides(perTeam, columns * rows)
    ensures exists l :: IsBest(l, columns, rows, perTeam, vertical)
  {
    FittedIsBounded(pages, RowStep(columns, perTeam), size, rows);
    WholeTeams(columns, rows, perTeam);
    GcdDivides(columns, perTeam);
    GcdDivides(rows, perTeam);
    TeamBlock(columns, rows, perTeam,
              if vertical then Layout(perTeam / Gcd(rows, perTeam), Gcd(rows, perTeam))
              else Layout(Gcd(columns, perTeam), perTeam / Gcd(columns, perTeam)), vertical);
  }

  // ---- trading image size for rows ----

  /** The settings of the shrink pass and what the page measures. */
  datatype Config = Config(off: bool, shrinkPercent: real, minResize: real, refineIterations: nat,
                           ratio: real, paperHeight: real, available: real)

  function Max(a: real, b: real): real {
    if a >= b then a else b
  }

  function Min(a: real, b: real): real {
    if a <= b then a else b
  }

  function Abs(a: real): real {
    if a >= 0.0 then a else -a
  }

  function Shrink(cfg: Config): real {
    1.0 - cfg.shrinkPercent / 100.0
  }

  function Threshold(cfg: Config, bottom: real, rows: nat): real
    requires rows > 0
  {
    cfg.ratio * Max(0.0, cfg.available - bottom) / rows as real
  }

  datatype Fit = Fit(rows: nat, size: real) | Failed

  /** The row search cannot answer at this size. */
  ghost predicate NoRows(pages: Pages, step: nat, size: real) {
    || step > MAX_ROWS
    || Fails(pages, step, size)
    || exists k: nat :: 0 < k && pages(k * step, size).None?
  }

  /** The row search answers with enough rows, or with too few. */
  ghost predicate Enough(pages: Pages, step: nat, size: real, rows: nat) {
    exists n: nat :: Fitted(pages, step, size, n) && n >= rows
  }

  ghost predicate TooFew(pages: Pages, step: nat, size: real, rows: nat) {
    exists n: nat :: Fitted(pages, step, size, n) && n < rows
  }

  /** Halve in on the largest size that still fits so many rows: the answer fits (if the low end did), and the
      last size above it that did not is as near as the halvings can bring it. */
  method MaxResizeForRows(pages: Pages, step: nat, iterations: nat, rows: nat, low0: real, high0: real)
      returns (ok: bool, best: real, ghost above: real)
    requires step > 0 && low0 <= high0
    ensures ok ==> low0 <= best <= above <= high0
    ensures ok ==> best == low0 || Enough(pages, step, best, rows)
    ensures ok ==> above == high0 || TooFew(pages, step, above, rows)
    ensures ok ==> Narrowed(best, above, high0 - low0, iterations)
    ensures !ok ==> low0 <= above <= high0 && NoRows(pages, step, above)
  {
    hide Narrowed, Fitted, NoRows;
    var low, high := low0, high0;
    best, above := low, high;
    NothingNarrowed(low, high);
    for i := 0 to iterations
      invariant low0 <= best == low <= high == above <= high0
      invariant best == low0 || Enough(pages, step, best, rows)
      invariant above == high0 || TooFew(pages, step, above, rows)
      invariant Narrowed(low, high, high0 - low0, i)
    {
      var mid := (low + high) / 2.0;
      var fitted, _ := FitRows(pages, step, mid);
      if !fitted.Rows? {
        Unanswered(pages, step, mid);
        return false, best, mid;
      }
      Halved(low, high, mid, high0 - low0, i);
      if fitted.rows >= rows {
        best, low := mid, mid;
      } else {
        high, above := mid, mid;
      }
    }
    ok := true;
  }

  /** The span has been halved n times. */
  ghost predicate Narrowed(low: real, high: real, span: real, n: nat) {
    (high - low) * Pow2(n) as real == span
  }

  lemma NothingNarrowed(low: real, high: real)
    ensures Narrowed(low, high, high - low, 0)
  {
  }

  lemma Halved(low: real, high: real, mid: real, span: real, n: nat)
    requires mid == (low + high) / 2.0 && Narrowed(low, high, span, n)
    ensures Narrowed(low, mid, span, n + 1) && Narrowed(mid, high, span, n + 1)
  {
    var p := Pow2(n) as real;
    assert Pow2(n + 1) as real == 2.0 * p;
    assert mid - low == (high - low) / 2.0 && high - mid == (high - low) / 2.0;
    assert (high - low) / 2.0 * (2.0 * p) == (high - low) * p;
  }

  /** One shrinking step. */
  function Smaller(cfg: Config, size: real): real {
    Max(cfg.minResize, size * Shrink(cfg))
  }

  /** The size after n shrinking steps. */
  function TrialAt(cfg: Config, size: real, n: nat): real {
    if n == 0 then size else Smaller(cfg, TrialAt(cfg, size, n - 1))
  }

  ghost predicate NotBetter(pages: Pages, step: nat, cfg: Config, size: real, rows: nat, upTo: nat) {
    forall i :: 0 < i < upTo ==> TooFew(pages, step, TrialAt(cfg, size, i), rows + 1)
  }

  /** Shrink in steps until one more row fits or the floor is reached; 0 rows when none does. */
  method ShrinkForRow(pages: Pages, step: nat, cfg: Config, rows: nat, size: real)
      returns (ok: bool, trial: real, improved: nat, ghost turns: nat)
    requires step > 0 && cfg.shrinkPercent > 0.0 && 0.0 <= cfg.minResize < size
    ensures turns > 0 && trial == TrialAt(cfg, size, turns) && cfg.minResize <= trial <= size
    ensures NotBetter(pages, step, cfg, size, rows, turns)
    ensures ok && improved > 0 ==> improved > rows && Fitted(pages, step, trial, improved)
    ensures ok && improved == 0 ==> TooFew(pages, step, trial, rows + 1) && Abs(trial - cfg.minResize) < RESIZE_TOLERANCE
    ensures !ok ==> NoRows(pages, step, trial)
  {
    hide Smaller, Shrink, Max, Least, Abs, NoRows, TrialAt, NotBetter, Fitted, TooFew;
    NoTrials(pages, step, cfg, size, rows);
    trial, improved, turns := size, 0, 0;
    LeastIsPositive(cfg);
    while trial > cfg.minResize
      invariant cfg.minResize <= trial <= size && improved == 0 && trial == TrialAt(cfg, size, turns)
      invariant NotBetter(pages, step, cfg, size, rows, turns + 1)
      invariant turns > 0 ==> TooFew(pages, step, trial, rows + 1)
      invariant turns == 0 ==> trial == size
      decreases trial / Least(cfg)
    {
      ShrinkStep(cfg, trial);
      ghost var before := trial;
      NextTrial(cfg, size, turns);
      trial, turns := Smaller(cfg, trial), turns + 1;
      var n, _ := FitRows(pages, step, trial);
      if !n.Rows? {
        Unanswered(pages, step, trial);
        return false, trial, 0, turns;
      }
      if n.rows > rows {
        return true, trial, n.rows, turns;
      }
      RowsAreFew(pages, step, trial, rows, n.rows);
      OneMoreTrial(pages, step, cfg, size, rows, turns);
      AtFloor(cfg);
      if Abs(trial - cfg.minResize) < RESIZE_TOLERANCE {
        break;
      }
      EnoughSmaller(before, trial, Least(cfg));
    }
    AtFloor(cfg);
    FewerTrials(pages, step, cfg, size, rows, turns);
    ok := true;
  }

  lemma RowsAreFew(pages: Pages, step: nat, size: real, rows: nat, n: nat)
    requires Fitted(pages, step, size, n) && n <= rows
    ensures TooFew(pages, step, size, rows + 1)
  {
  }

  lemma NoTrials(pages: Pages, step: nat, cfg: Config, size: real, rows: nat)
    ensures TrialAt(cfg, size, 0) == size && NotBetter(pages, step, cfg, size, rows, 1)
  {
  }

  lemma NextTrial(cfg: Config, size: real, n: nat)
    ensures TrialAt(cfg, size, n + 1) == Smaller(cfg, TrialAt(cfg, size, n))
  {
    hide Smaller;
  }

  lemma OneMoreTrial(pages: Pages, step: nat, cfg: Config, size: real, rows: nat, n: nat)
    requires NotBetter(pages, step, cfg, size, rows, n) && TooFew(pages, step, TrialAt(cfg, size, n), rows + 1)
    ensures NotBetter(pages, step, cfg, size, rows, n + 1)
  {
  }

  lemma FewerTrials(pages: Pages, step: nat, cfg: Config, size: real, rows: nat, n: nat)
    requires NotBetter(pages, step, cfg, size, rows, n + 1)
    ensures NotBetter(pages, step, cfg, size, rows, n)
  {
  }

  lemma Unanswered(pages: Pages, step: nat, size: real)
    requires step > MAX_ROWS || Fails(pages, step, size) || exists k: nat :: 0 < k && pages(k * step, size).None?
    ensures NoRows(pages, step, size)
  {
  }

  /** What every step but the last takes off. */
  function Least(cfg: Config): real {
    LeastOf(cfg.minResize + RESIZE_TOLERANCE, 1.0 - Shrink(cfg))
  }

  function LeastOf(floor: real, share: real): (least: real)
    ensures floor > 0.0 && share > 0.0 ==> least > 0.0
  {
    floor * share
  }

  lemma LeastIsPositive(cfg: Config)
    requires cfg.shrinkPercent > 0.0 && cfg.minResize > -RESIZE_TOLERANCE
    ensures Least(cfg) > 0.0
  {
    ShrinkIsLess(cfg);
  }

  lemma ShrinkIsLess(cfg: Config)
    ensures Shrink(cfg) < 1.0 <==> cfg.shrinkPercent > 0.0
  {
  }

  lemma PositiveProduct(a: real, b: real)
    requires a > 0.0 && b > 0.0
    ensures a * b > 0.0
  {
  }

  lemma AtFloor(cfg: Config)
    ensures Abs(cfg.minResize - cfg.minResize) < RESIZE_TOLERANCE
  {
  }

  /** A step takes off at least a fixed amount, or comes so near the floor that it is the last. */
  lemma ShrinkStep(cfg: Config, size: real)
    requires cfg.shrinkPercent > 0.0 && 0.0 <= cfg.minResize < size
    ensures var next := Smaller(cfg, size);
            && cfg.minResize <= next <= size
            && (Abs(next - cfg.minResize) < RESIZE_TOLERANCE || next <= size - Least(cfg))
  {
    ShrinkIsLess(cfg);
    SmallerIs(cfg, size, Shrink(cfg));
    LeastIs(cfg, Shrink(cfg));
    StepDown(size, Shrink(cfg), cfg.minResize, Smaller(cfg, size), Least(cfg));
  }

  lemma SmallerIs(cfg: Config, size: real, s: real)
    requires s == Shrink(cfg)
    ensures Smaller(cfg, size) == Max(cfg.minResize, size * s)
  {
  }

  lemma LeastIs(cfg: Config, s: real)
    requires s == Shrink(cfg)
    ensures Least(cfg) == LeastOf(cfg.minResize + RESIZE_TOLERANCE, 1.0 - s)
  {
  }

  lemma StepDown(size: real, s: real, least: real, next: real, off: real)
    requires s < 1.0 && 0.0 <= least < size && next == Max(least, size * s)
    requires off == LeastOf(least + RESIZE_TOLERANCE, 1.0 - s)
    ensures least <= next <= size && (Abs(next - least) < RESIZE_TOLERANCE || next <= size - off)
  {
    hide LeastOf, Max, Abs;
    var p := size * s;
    Taken(size, s, least + RESIZE_TOLERANCE);
    assert next == Max(least, p) && p < size;
    DownTo(size, p, least, next, off);
  }

  lemma DownTo(size: real, p: real, least: real, next: real, off: real)
    requires 0.0 <= least < size && p < size && next == Max(least, p)
    requires p >= least + RESIZE_TOLERANCE ==> p <= size - off
    ensures least <= next <= size && (Abs(next - least) < RESIZE_TOLERANCE || next <= size - off)
  {
  }

  lemma Taken(size: real, s: real, floor: real)
    requires s < 1.0 && size > 0.0
    ensures size * s < size && (size * s >= floor > 0.0 ==> size * s <= size - LeastOf(floor, 1.0 - s))
    ensures (s <= 0.0 ==> size * s <= 0.0) && (s >= 0.0 ==> size * s >= 0.0)
  {
    assert size - size * s == size * (1.0 - s);
    PositiveProduct(size, 1.0 - s);
    if size * s >= floor > 0.0 {
      PositiveProduct(size - floor, 1.0 - s);
      assert (size - floor) * (1.0 - s) == size * (1.0 - s) - floor * (1.0 - s);
    }
  }

  lemma EnoughSmaller(before: real, after: real, least: real)
    requires least > 0.0 && after <= before - least
    ensures after / least <= before / least - 1.0
  {
    var a, b := before / least, after / least;
    assert a * least == before && b * least == after;
    CancelReal(a - b - 1.0, least);
  }

  /** At 0 percent or less, a step does not make the image smaller. */
  lemma {:induction false} NoShrinkNoProgress(cfg: Config, size: real, n: nat)
    requires cfg.shrinkPercent <= 0.0 && size > 0.0
    ensures TrialAt(cfg, size, n) >= size
  {
    if n > 0 {
      NoShrinkNoProgress(cfg, size, n - 1);
      var t, s := TrialAt(cfg, size, n - 1), Shrink(cfg);
      assert t * s - t == t * (s - 1.0);
      assert t * (s - 1.0) >= 0.0;
    }
  }

  /** Up to 100 percent, sizes stay above 0. */
  lemma {:induction false} StaysPositive(cfg: Config, size: real, n: nat)
    requires cfg.shrinkPercent <= 100.0 && size > 0.0
    ensures TrialAt(cfg, size, n) >= 0.0
  {
    if n > 0 {
      StaysPositive(cfg, size, n - 1);
      assert TrialAt(cfg, size, n - 1) * Shrink(cfg) >= 0.0;
    }
  }

  lemma {:induction false} TrialsAgain(cfg: Config, size: real, n: nat)
    ensures TrialAt(cfg, size, n + 1) == TrialAt(cfg, Smaller(cfg, size), n)
  {
    hide Smaller;
    if n > 0 {
      TrialsAgain(cfg, size, n - 1);
    } else {
      assert TrialAt(cfg, size, 0) == size;
    }
  }

  lemma NoTrial(cfg: Config, size: real)
    ensures TrialAt(cfg, size, 0) == size
  {
  }

  lemma NextOrLast(cfg: Config, size: real)
    requires cfg.shrinkPercent > 0.0 && cfg.minResize > -RESIZE_TOLERANCE && (cfg.minResize >= 0.0 || cfg.shrinkPercent <= 100.0)
    requires size > 0.0 && size >= cfg.minResize + RESIZE_TOLERANCE
    ensures var next := Smaller(cfg, size);
            && next >= cfg.minResize
            && (next >= cfg.minResize + RESIZE_TOLERANCE ==> next > 0.0 && next <= size - Least(cfg))
  {
    ShrinkIsLess(cfg);
    SmallerIs(cfg, size, Shrink(cfg));
    LeastIs(cfg, Shrink(cfg));
    hide Shrink, Smaller, LeastOf, Least;
    Taken(size, Shrink(cfg), cfg.minResize + RESIZE_TOLERANCE);
  }

  /** The number of steps to the floor. */
  lemma ReachesFloor(cfg: Config, size: real) returns (n: nat)
    requires cfg.shrinkPercent > 0.0 && cfg.minResize > -RESIZE_TOLERANCE && (cfg.minResize >= 0.0 || cfg.shrinkPercent <= 100.0)
    requires size > 0.0 && size >= cfg.minResize
    ensures Abs(TrialAt(cfg, size, n) - cfg.minResize) < RESIZE_TOLERANCE
    decreases if Least(cfg) > 0.0 then size / Least(cfg) else 0.0
  {
    hide Smaller, Shrink, Least, TrialAt;
    LeastIsPositive(cfg);
    NoTrial(cfg, size);
    if size < cfg.minResize + RESIZE_TOLERANCE {
      n := 0;
    } else {
      var next := Smaller(cfg, size);
      TrialsAgain(cfg, size, 0);
      NoTrial(cfg, next);
      NextOrLast(cfg, size);
      if next < cfg.minResize + RESIZE_TOLERANCE {
        n := 1;
      } else {
        EnoughSmaller(size, next, Least(cfg));
        var m := ReachesFloor(cfg, next);
        TrialsAgain(cfg, size, m);
        n := m + 1;
      }
    }
  }

  ghost predicate ShrinkingEnds(cfg: Config, size: real) {
    exists n: nat :: Abs(TrialAt(cfg, size, n) - cfg.minResize) < RESIZE_TOLERANCE
  }

  /** With more than 100 percent every step changes the sign; while it does not reach the floor, it only multiplies. */
  lemma SignChanges(cfg: Config, size: real)
    requires cfg.shrinkPercent > 100.0 && cfg.minResize + RESIZE_TOLERANCE <= size * Shrink(cfg) && size > 0.0
    ensures var s := Shrink(cfg);
            && s < 0.0 && cfg.minResize + RESIZE_TOLERANCE < 0.0
            && Smaller(cfg, size) == size * s && Smaller(cfg, Smaller(cfg, size)) == size * s * s > 0.0
  {
    Negative(size, Shrink(cfg));
    Negative(-(size * Shrink(cfg)), Shrink(cfg));
  }

  lemma Negative(a: real, s: real)
    requires a > 0.0 && s < 0.0
    ensures a * s < 0.0
  {
  }

  /** The sizes then stay between the first two. */
  lemma {:induction false} Swings(cfg: Config, size: real, s: real, n: nat)
    requires s == Shrink(cfg) && -1.0 <= s < 0.0
    requires size > 0.0 && cfg.minResize + RESIZE_TOLERANCE <= size * s
    ensures size * s <= TrialAt(cfg, size, n) <= size
  {
    hide Smaller, Shrink;
    if n > 0 {
      var t := TrialAt(cfg, size, n - 1);
      Swings(cfg, size, s, n - 1);
      Swing(size, s, t);
      SmallerAbove(cfg, t, s);
      assert TrialAt(cfg, size, n) == Smaller(cfg, t);
    } else {
      Negative(size, s);
    }
  }

  lemma SmallerAbove(cfg: Config, size: real, s: real)
    requires s == Shrink(cfg) && size * s >= cfg.minResize
    ensures Smaller(cfg, size) == size * s
  {
  }

  lemma Swing(size: real, s: real, t: real)
    requires -1.0 <= s < 0.0 && size > 0.0 && size * s <= t <= size
    ensures size * s <= t * s <= size
  {
    assert (size - t) * -s >= 0.0;
    assert (t + size) * -s >= 0.0 by {
      assert size * (1.0 + s) >= 0.0;
    }
    assert size * -s <= size;
  }

  /** How far the size still is from where it must have reached the floor, in steps of d. */
  function Room(cfg: Config, size: real, d: real): real
    requires d > 0.0
  {
    if size > -cfg.minResize then 0.0 else (-cfg.minResize - size) / d + 1.0
  }

  lemma LessRoom(cfg: Config, size: real, next: real, d: real)
    requires d > 0.0 && size <= -cfg.minResize && size + d <= next
    ensures Room(cfg, next, d) <= Room(cfg, size, d) - 1.0 && Room(cfg, size, d) >= 0.0
  {
    var room := -cfg.minResize - size;
    NotNegativeQuotient(room, d);
    if next <= -cfg.minResize {
      EnoughSmaller(room, -cfg.minResize - next, d);
    }
  }

  lemma NotNegativeQuotient(a: real, d: real)
    requires a >= 0.0 && d > 0.0
    ensures a / d >= 0.0
  {
  }

  lemma GrowsBy(size: real, s: real, d: real)
    requires s < -1.0 && size > 0.0 && d > 0.0 && d <= size * (s * s - 1.0)
    ensures size + d <= size * s * s && size <= -(size * s) && d <= (size * s * s) * (s * s - 1.0)
  {
    assert s * s >= 1.0 && size * (-s - 1.0) >= 0.0;
    assert size * s * s == size + size * (s * s - 1.0);
    assert (size * s * s - size) * (s * s - 1.0) >= 0.0;
  }

  /** Over 200 percent the swings grow until one of them reaches the floor. */
  lemma SwingsOut(cfg: Config, size: real, d: real) returns (n: nat)
    requires cfg.shrinkPercent > 200.0 && size > 0.0 && size >= cfg.minResize + RESIZE_TOLERANCE
    requires 0.0 < d <= size * (Shrink(cfg) * Shrink(cfg) - 1.0)
    ensures Abs(TrialAt(cfg, size, n) - cfg.minResize) < RESIZE_TOLERANCE
    decreases Room(cfg, size, d)
  {
    hide TrialAt, Smaller, Room;
    var s := Shrink(cfg);
    if size * s < cfg.minResize + RESIZE_TOLERANCE {
      n := ReachedAtOnce(cfg, size);
    } else {
      SignChanges(cfg, size);
      GrowsBy(size, s, d);
      var next := size * s * s;
      LessRoom(cfg, size, next, d);
      n := SwingsOut(cfg, next, d);
      TrialsAgain(cfg, size * s, n);
      TrialsAgain(cfg, size, n + 1);
      n := n + 2;
    }
  }

  lemma ReachedAtOnce(cfg: Config, size: real) returns (n: nat)
    requires size * Shrink(cfg) < cfg.minResize + RESIZE_TOLERANCE
    ensures Abs(TrialAt(cfg, size, n) - cfg.minResize) < RESIZE_TOLERANCE
  {
    n := 1;
    assert TrialAt(cfg, size, 0) == size;
    assert TrialAt(cfg, size, 1) == Smaller(cfg, size);
  }

  lemma SteepShrink(cfg: Config, size: real) returns (d: real)
    requires cfg.shrinkPercent > 200.0 && size > 0.0
    ensures 0.0 < d <= size * (Shrink(cfg) * Shrink(cfg) - 1.0)
  {
    var s := Shrink(cfg);
    assert s < -1.0;
    assert s * s > 1.0;
    d := size * (s * s - 1.0);
    PositiveProduct(size, s * s - 1.0);
  }

  /** Whether shrinking comes to the floor. Over 100 percent sizes change their sign, and miss a floor far below 0
      for good unless the first step reaches it or they grow. */
  predicate Descends(cfg: Config, size: real) {
    if cfg.shrinkPercent <= 100.0 then cfg.shrinkPercent > 0.0 && cfg.minResize > -RESIZE_TOLERANCE
    else size * Shrink(cfg) < cfg.minResize + RESIZE_TOLERANCE || cfg.shrinkPercent > 200.0
  }

  /** From a size above the floor, shrinking comes to the floor if and only if it descends. */
  lemma ShrinkingEndsExactly(cfg: Config, size: real)
    requires size > 0.0 && size >= cfg.minResize + RESIZE_TOLERANCE
    ensures ShrinkingEnds(cfg, size) <==> Descends(cfg, size)
    ensures cfg.minResize >= 0.0 ==> (Descends(cfg, size) <==> cfg.shrinkPercent > 0.0)
  {
    hide TrialAt;
    if cfg.shrinkPercent > 100.0 {
      Negative(size, Shrink(cfg));
    }
    if !Descends(cfg, size) {
      forall n: nat
        ensures Abs(TrialAt(cfg, size, n) - cfg.minResize) >= RESIZE_TOLERANCE
      {
        if cfg.shrinkPercent <= 0.0 {
          NoShrinkNoProgress(cfg, size, n);
        } else if cfg.shrinkPercent <= 100.0 {
          StaysPositive(cfg, size, n);
        } else {
          Swings(cfg, size, Shrink(cfg), n);
        }
      }
    } else if cfg.shrinkPercent <= 100.0 {
      var n := ReachesFloor(cfg, size);
    } else if size * Shrink(cfg) < cfg.minResize + RESIZE_TOLERANCE {
      var n := ReachedAtOnce(cfg, size);
    } else {
      var d := SteepShrink(cfg, size);
      var n := SwingsOut(cfg, size, d);
    }
  }

  /** What is blank under the one page, or 0. */
  function BottomOf(m: Measured, cfg: Config): real {
    if m.pages <= 1 then Max(0.0, cfg.paperHeight - m.bottomY) else 0.0
  }

  /** Shrinking is tried when the blank strip under the one page is more than the given share of a row: of what the
      rows take up, divided among them. */
  lemma BlankIsShareOfRow(cfg: Config, m: Measured, rows: nat, height: real)
    requires rows > 0 && m.pages <= 1 && m.bottomY <= cfg.paperHeight
    requires var blank := cfg.paperHeight - m.bottomY;
             height * rows as real == if blank <= cfg.available then cfg.available - blank else 0.0
    ensures BottomOf(m, cfg) == cfg.paperHeight - m.bottomY
    ensures BottomOf(m, cfg) > Threshold(cfg, BottomOf(m, cfg), rows) <==> cfg.paperHeight - m.bottomY > cfg.ratio * height
  {
    var taken := height * rows as real;
    assert taken / rows as real == height;
    assert cfg.ratio * taken / rows as real == cfg.ratio * (taken / rows as real);
  }

  /** Nothing is left to gain: the block takes more than a page, or the image is at its least size, or too little
      is blank, or no shrinking step down to the least size finds another row. */
  ghost predicate Settled(pages: Pages, measure: Measure, step: nat, cfg: Config, rows: nat, size: real) {
    && rows > 0 && measure(rows, size).Some?
    && var m := measure(rows, size).value;
       || m.pages > 1
       || size <= cfg.minResize
       || BottomOf(m, cfg) <= Threshold(cfg, BottomOf(m, cfg), rows)
       || NothingFound(pages, step, cfg, rows, size)
  }

  ghost predicate NothingFound(pages: Pages, step: nat, cfg: Config, rows: nat, size: real) {
    exists n: nat ::
      n > 0 && NotBetter(pages, step, cfg, size, rows, n + 1) && Abs(TrialAt(cfg, size, n) - cfg.minResize) < RESIZE_TOLERANCE
  }

  /** What stops the fitting of a block: no answer of the row search, or none of the measurement. */
  ghost predicate Stuck(pages: Pages, measure: Measure, step: nat, least: real, most: real) {
    || (exists s: real :: least <= s <= most && NoRows(pages, step, s))
    || (exists rows: nat, s: real :: least <= s <= most && measure(rows, s).None?)
  }

  /** Fit a block, then shrink the image until another row fits and grow it back, for as long as that helps. */
  method FitBlock(pages: Pages, measure: Measure, step: nat, cfg: Config, hasImage: bool, size0: real)
      returns (r: Fit, ghost history: seq<nat>)
    requires step > 0 && size0 > 0.0
    requires cfg.shrinkPercent > 0.0 && cfg.minResize >= 0.0
    ensures r.Fit? ==>
              && 0 < r.rows <= MAX_ROWS && Divides(step, r.rows)
              && Min(size0, cfg.minResize) <= r.size <= size0
              && Enough(pages, step, r.size, r.rows)
              && history != [] && history[|history| - 1] == r.rows
              && forall i, j :: 0 <= i < j < |history| ==> history[i] < history[j]
    ensures r.Fit? && (cfg.off || !hasImage) ==> r.size == size0 && Fitted(pages, step, size0, r.rows)
    ensures r.Fit? && !cfg.off && hasImage ==> Settled(pages, measure, step, cfg, r.rows, r.size)
    ensures r.Failed? ==> Stuck(pages, measure, step, Min(size0, cfg.minResize), size0)
    ensures r.Fit? && Monotone(pages, r.size) ==> FitsPage(pages, r.rows, r.size)
  {
    hide NoRows, Threshold, TrialAt, NotBetter, Fitted, Divides, NothingFound, Abs;
    var size := size0;
    history := [];
    var first, _ := FitRows(pages, step, size);
    if !first.Rows? {
      Unanswered(pages, step, size);
      return Failed, [];
    }
    var rows := first.rows;
    history := [rows];
    FittedIsBounded(pages, step, size, rows);
    RowsFit(pages, step, size, rows);
    if cfg.off || !hasImage {
      return Fit(rows, size), history;
    }
    while true
      invariant 0 < rows <= MAX_ROWS && Divides(step, rows)
      invariant Min(size0, cfg.minResize) <= size <= size0
      invariant Enough(pages, step, size, rows)
      invariant history != [] && history[|history| - 1] == rows
      invariant forall i, j :: 0 <= i < j < |history| ==> history[i] < history[j]
      decreases MAX_ROWS - rows
    {
      RowsFit(pages, step, size, rows);
      var seen := measure(rows, size);
      if seen.None? {
        return Failed, history;
      }
      var onePage := seen.value.pages <= 1;
      var bottom := if onePage then Max(0.0, cfg.paperHeight - seen.value.bottomY) else 0.0;
      assert bottom == BottomOf(seen.value, cfg);
      if !onePage || size <= cfg.minResize {
        break;
      }
      if bottom <= Threshold(cfg, bottom, rows) {
        break;
      }
      ghost var turns, above;
      var ok, trial, improved;
      ok, trial, improved, turns := ShrinkForRow(pages, step, cfg, rows, size);
      if !ok {
        return Failed, history;
      }
      if improved == 0 {
        NothingBetter(pages, step, cfg, rows, size, turns);
        break;
      }
      FittedIsBounded(pages, step, trial, improved);
      var grown;
      ok, grown, above := MaxResizeForRows(pages, step, cfg.refineIterations, improved, trial, size);
      if !ok {
        return Failed, history;
      }
      size, rows := grown, improved;
      history := history + [rows];
    }
    r := Fit(rows, size);
  }

  lemma NothingBetter(pages: Pages, step: nat, cfg: Config, rows: nat, size: real, turns: nat)
    requires turns > 0 && NotBetter(pages, step, cfg, size, rows, turns)
    requires TooFew(pages, step, TrialAt(cfg, size, turns), rows + 1)
    requires Abs(TrialAt(cfg, size, turns) - cfg.minResize) < RESIZE_TOLERANCE
    ensures NothingFound(pages, step, cfg, rows, size)
  {
    assert NotBetter(pages, step, cfg, size, rows, turns + 1);
  }

  lemma RowsFit(pages: Pages, step: nat, size: real, rows: nat)
    requires Enough(pages, step, size, rows)
    ensures Monotone(pages, size) ==> FitsPage(pages, rows, size)
  {
    if Monotone(pages, size) {
      var n: nat :| Fitted(pages, step, size, n) && n >= rows;
      FittedIsLargest(pages, step, size, n);
    }
  }
}
