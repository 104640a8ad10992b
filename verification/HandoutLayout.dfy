/** How handouts are laid out in whole teams: row steps, team blocks, one-team grids and page counts. */
module HandoutLayout {
  import opened Outcomes
  import opened Numbers

  // ---- divisors ----

  predicate Divides(d: nat, n: nat) {
    d > 0 && n % d == 0
  }

  lemma DividesTimes(d: nat, n: nat)
    requires Divides(d, n)
    ensures d > 0 && n == d * (n / d)
  {
  }

  lemma TimesDivides(d: nat, q: nat)
    requires d > 0
    ensures Divides(d, d * q) && d * q / d == q
  {
    DivUnique(d * q, d, q, 0);
  }

  lemma DivisorsAreSmaller(d: nat, n: nat)
    requires Divides(d, n) && n > 0
    ensures 0 < d <= n && 0 < n / d <= n && Divides(n / d, n) && n / (n / d) == d
  {
    DividesTimes(d, n);
    FactorBounds(d, n / d);
    TimesDivides(n / d, d);
  }

  lemma FactorBounds(a: nat, b: nat)
    requires a * b > 0
    ensures 0 < a <= a * b && 0 < b <= a * b
  {
  }

  lemma CancelNonNegative(a: nat, k: int)
    requires a > 0 && a * k >= 0
    ensures k >= 0
  {
    NoSmallMultiple(a, k);
  }

  /** Divisors turn around: the larger one of a pair, the smaller the other. */
  lemma QuotientsTurnAround(a: nat, b: nat, n: nat)
    requires Divides(a, n) && Divides(b, n) && a <= b && n > 0
    ensures n / b <= n / a
  {
    DividesTimes(a, n);
    DividesTimes(b, n);
    assert a * (n / a - n / b) == a * (n / a) - a * (n / b) == (b - a) * (n / b) >= 0;
    CancelNonNegative(a, n / a - n / b);
  }

  // ---- the greatest common divisor ----

  function Gcd(a: nat, b: nat): (g: nat)
    decreases b
    ensures a + b > 0 ==> g > 0
  {
    if b == 0 then a else Gcd(b, a % b)
  }

  method GcdLoop(a0: nat, b0: nat) returns (g: nat)
    ensures g == Gcd(a0, b0)
  {
    var a, b := a0, b0;
    while b != 0
      invariant Gcd(a, b) == Gcd(a0, b0)
    {
      a, b := b, a % b;
    }
    g := a;
  }

  /** The gcd is an integer combination of the two numbers. */
  lemma {:induction false} Bezout(a: nat, b: nat) returns (x: int, y: int)
    ensures a * x + b * y == Gcd(a, b)
    decreases b
  {
    if b == 0 {
      x, y := 1, 0;
    } else {
      var u, v := Bezout(b, a % b);
      x, y := v, u - a / b * v;
      assert a == b * (a / b) + a % b;
      assert a * v == b * (a / b) * v + a % b * v;
      assert b * (u - a / b * v) == b * u - b * (a / b) * v;
    }
  }

  lemma DividesSum(d: nat, a: nat, b: nat)
    requires Divides(d, a) && Divides(d, b)
    ensures Divides(d, a + b)
  {
    assert a + b == d * (a / d + b / d);
    TimesDivides(d, a / d + b / d);
  }

  lemma DividesProduct(d: nat, a: nat, k: nat)
    requires Divides(d, a)
    ensures Divides(d, a * k) && Divides(d, k * a)
  {
    assert a * k == d * (a / d * k);
    TimesDivides(d, a / d * k);
  }

  lemma {:induction false} GcdDivides(a: nat, b: nat)
    requires a + b > 0
    ensures Divides(Gcd(a, b), a) && Divides(Gcd(a, b), b)
    decreases b
  {
    var g := Gcd(a, b);
    if b == 0 {
      TimesDivides(a, 1);
      TimesDivides(a, 0);
    } else {
      GcdDivides(b, a % b);
      DividesProduct(g, b, a / b);
      DividesSum(g, b * (a / b), a % b);
      assert a == b * (a / b) + a % b;
    }
  }

  /** Whatever divides both numbers divides their gcd. */
  lemma CommonDivides(d: nat, a: nat, b: nat)
    requires Divides(d, a) && Divides(d, b)
    ensures Divides(d, Gcd(a, b))
  {
    var x, y := Bezout(a, b);
    var p, q := a / d, b / d;
    DividesTimes(d, a);
    DividesTimes(d, b);
    Combine(d, p, q, x, y);
    MultipleDivides(d, p * x + q * y, Gcd(a, b));
  }

  lemma Combine(d: int, p: int, q: int, x: int, y: int)
    ensures d * p * x + d * q * y == d * (p * x + q * y)
  {
  }

  lemma MultipleDivides(d: nat, k: int, n: nat)
    requires d > 0 && n == d * k
    ensures Divides(d, n)
  {
    DivUnique(n, d, k, 0);
  }

  // ---- whole teams ----

  /** Rows come in steps that fill whole teams. */
  function RowStep(columns: nat, perTeam: nat): (step: nat)
    requires columns > 0 && perTeam > 0
    ensures 0 < step <= perTeam
  {
    GcdDivides(columns, perTeam);
    DivisorsAreSmaller(Gcd(columns, perTeam), perTeam);
    perTeam / Gcd(columns, perTeam)
  }

  /** The grid holds whole teams exactly when its rows are a multiple of the row step. */
  lemma WholeTeams(columns: nat, rows: nat, perTeam: nat)
    requires columns > 0 && perTeam > 0
    ensures Divides(perTeam, columns * rows) <==> Divides(RowStep(columns, perTeam), rows)
  {
    var g, step := Gcd(columns, perTeam), RowStep(columns, perTeam);
    GcdDivides(columns, perTeam);
    DividesTimes(g, columns);
    DividesTimes(g, perTeam);
    if Divides(step, rows) {
      DividesTimes(step, rows);
      assert columns * rows == (g * (columns / g)) * (step * (rows / step)) == (g * step) * ((columns / g) * (rows / step));
      TimesDivides(perTeam, (columns / g) * (rows / step));
    }
    if Divides(perTeam, columns * rows) {
      StepDivides(columns, rows, perTeam);
    }
  }

  lemma StepDivides(columns: nat, rows: nat, perTeam: nat)
    requires columns > 0 && perTeam > 0 && Divides(perTeam, columns * rows)
    ensures Divides(RowStep(columns, perTeam), rows)
  {
    var g, step := Gcd(columns, perTeam), RowStep(columns, perTeam);
    GcdDivides(columns, perTeam);
    DividesTimes(g, perTeam);
    DividesTimes(perTeam, columns * rows);
    var teams := columns * rows / perTeam;
    var x, y := Bezout(columns, perTeam);
    var k := teams * x + rows * y;
    RowsTimesGcd(columns, rows, perTeam, teams, g, x, y);
    assert perTeam * k == (g * step) * k == g * (step * k);
    CancelLeft(g, rows, step * k);
    MultipleDivides(step, k, rows);
  }

  /** Rows times the gcd is a multiple of the team size. */
  lemma RowsTimesGcd(columns: int, rows: int, perTeam: int, teams: int, g: int, x: int, y: int)
    requires columns * x + perTeam * y == g && columns * rows == perTeam * teams
    ensures rows * g == perTeam * (teams * x + rows * y)
  {
    assert rows * g == rows * (columns * x) + rows * (perTeam * y);
    assert rows * (columns * x) == (columns * rows) * x == perTeam * (teams * x);
    assert rows * (perTeam * y) == perTeam * (rows * y);
  }

  lemma CancelLeft(g: nat, a: int, b: int)
    requires g > 0 && a * g == g * b
    ensures a == b
  {
    assert g * (a - b) == 0;
    NoSmallMultiple(g, a - b);
  }

  // ---- the shape of one team's block ----

  datatype Layout = Layout(cols: nat, rows: nat)

  /** A team's handouts in a block of this shape tile the grid. */
  predicate Tiles(l: Layout, columns: nat, rows: nat, perTeam: nat) {
    && l.rows > 0 && l.cols > 0
    && Divides(l.rows, perTeam) && l.cols == perTeam / l.rows
    && Divides(l.cols, columns) && Divides(l.rows, rows)
  }

  /** Among blocks that tile: the one with fewest rows, or fewest columns when grouped vertically. */
  ghost predicate IsBest(l: Layout, columns: nat, rows: nat, perTeam: nat, vertical: bool) {
    && Tiles(l, columns, rows, perTeam)
    && forall m: Layout :: Tiles(m, columns, rows, perTeam) ==> if vertical then l.cols <= m.cols else l.rows <= m.rows
  }

  method GetCutDirection(columns: nat, numRows: nat, handoutsPerTeam: nat, vertical: bool) returns (r: Option<Layout>)
    ensures r.Some? ==> IsBest(r.value, columns, numRows, handoutsPerTeam, vertical)
    ensures r.None? ==> columns * numRows == 0 || handoutsPerTeam == 0
                        || forall l :: !Tiles(l, columns, numRows, handoutsPerTeam)
  {
    var total := columns * numRows;
    if handoutsPerTeam == 0 || total % handoutsPerTeam != 0 {
      if handoutsPerTeam != 0 {
        forall l | Tiles(l, columns, numRows, handoutsPerTeam)
          ensures false
        {
          TilesMeansWhole(l, columns, numRows, handoutsPerTeam);
        }
      }
      return None;
    }
    if total / handoutsPerTeam < 1 {
      assert total == handoutsPerTeam * (total / handoutsPerTeam);
      return None;
    }
    var valid: seq<Layout> := [];
    for teamRows := 1 to handoutsPerTeam + 1
      invariant forall k :: 0 <= k < |valid| ==> Tiles(valid[k], columns, numRows, handoutsPerTeam)
      invariant forall l: Layout :: Tiles(l, columns, numRows, handoutsPerTeam) && l.rows < teamRows ==> l in valid
    {
      if handoutsPerTeam % teamRows == 0 {
        DivisorsAreSmaller(teamRows, handoutsPerTeam);
        var teamCols := handoutsPerTeam / teamRows;
        if columns % teamCols == 0 && numRows % teamRows == 0 {
          valid := valid + [Layout(teamCols, teamRows)];
        }
      }
    }
    assert forall l: Layout :: Tiles(l, columns, numRows, handoutsPerTeam) ==> l in valid by {
      forall l: Layout | Tiles(l, columns, numRows, handoutsPerTeam)
        ensures l.rows < handoutsPerTeam + 1
      {
        DivisorsAreSmaller(l.rows, handoutsPerTeam);
      }
    }
    if |valid| == 0 {
      return None;
    }
    var best := valid[0];
    for k := 1 to |valid|
      invariant Tiles(best, columns, numRows, handoutsPerTeam)
      invariant forall i :: 0 <= i < k ==> if vertical then best.cols <= valid[i].cols else best.rows <= valid[i].rows
    {
      var l := valid[k];
      if vertical {
        if l.cols < best.cols {
          best := l;
        }
      } else if l.rows < best.rows {
        best := l;
      }
    }
    r := Some(best);
  }

  lemma TilesMeansWhole(l: Layout, columns: nat, rows: nat, perTeam: nat)
    requires Tiles(l, columns, rows, perTeam) && perTeam > 0
    ensures columns * rows % perTeam == 0
  {
    DividesTimes(l.rows, perTeam);
    DividesTimes(l.cols, columns);
    DividesTimes(l.rows, rows);
    assert columns * rows == (l.cols * (columns / l.cols)) * (l.rows * (rows / l.rows))
                          == (l.rows * l.cols) * ((columns / l.cols) * (rows / l.rows));
    TimesDivides(perTeam, (columns / l.cols) * (rows / l.rows));
  }

  /** Every grid of whole teams has its team block: as wide as can be, or as tall as can be. */
  lemma TeamBlock(columns: nat, rows: nat, perTeam: nat, l: Layout, vertical: bool)
    requires columns > 0 && rows > 0 && perTeam > 0 && Divides(perTeam, columns * rows)
    ensures IsBest(l, columns, rows, perTeam, vertical) <==>
            l == if vertical then Layout(perTeam / Gcd(rows, perTeam), Gcd(rows, perTeam))
                 else Layout(Gcd(columns, perTeam), perTeam / Gcd(columns, perTeam))
  {
    var g, h := Gcd(columns, perTeam), Gcd(rows, perTeam);
    GcdDivides(columns, perTeam);
    GcdDivides(rows, perTeam);
    DivisorsAreSmaller(g, perTeam);
    DivisorsAreSmaller(h, perTeam);
    WholeTeams(columns, rows, perTeam);
    assert rows * columns == columns * rows;
    WholeTeams(rows, columns, perTeam);
    var wide, tall := Layout(g, perTeam / g), Layout(perTeam / h, h);
    assert Tiles(wide, columns, rows, perTeam) && Tiles(tall, columns, rows, perTeam);
    forall m: Layout | Tiles(m, columns, rows, perTeam)
      ensures m.cols <= g && m.rows <= h && wide.rows <= m.rows && tall.cols <= m.cols
    {
      DivisorsAreSmaller(m.rows, perTeam);
      CommonDivides(m.cols, columns, perTeam);
      CommonDivides(m.rows, rows, perTeam);
      DivisorsAreSmaller(m.cols, g);
      DivisorsAreSmaller(m.rows, h);
      QuotientsTurnAround(m.cols, g, perTeam);
      QuotientsTurnAround(m.rows, h, perTeam);
    }
    assert IsBest(if vertical then tall else wide, columns, rows, perTeam, vertical);
    if IsBest(l, columns, rows, perTeam, vertical) {
      DivisorsAreSmaller(l.rows, perTeam);
    }
  }

  // ---- one team's grid ----

  /** One team's handouts in the widest divisor of their number that the columns allow. */
  method AllQ(columns: nat, perTeam: nat) returns (one: nat, rows: nat)
    requires columns > 0 && perTeam > 0
    ensures 0 < one <= columns && Divides(one, perTeam)
    ensures one * rows == perTeam
    ensures forall d: nat :: Divides(d, perTeam) && d <= columns ==> d <= one
  {
    one := 1;
    var d := 2;
    while d <= perTeam && d <= columns
      invariant 2 <= d && 0 < one <= columns && one < d && Divides(one, perTeam)
      invariant forall e: nat :: Divides(e, perTeam) && e < d ==> e <= one
    {
      if perTeam % d == 0 {
        one := d;
      }
      d := d + 1;
    }
    forall e: nat | Divides(e, perTeam) && e <= columns
      ensures e <= one
    {
      DivisorsAreSmaller(e, perTeam);
    }
    rows := perTeam / one;
    DividesTimes(one, perTeam);
  }

  lemma CancelReal(d: real, e: real)
    requires e > 0.0 && d * e >= 0.0
    ensures d >= 0.0
  {
  }
}
