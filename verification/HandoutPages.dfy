/** How many pages of a handout to print, in double precision as the program computes it. */
module HandoutPages {
  import opened Numbers
  import opened Outcomes
  import opened Floats
  import opened HandoutLayout

  const DEFAULT_PER_TEAM := 3

  /** A handout block's settings as numbers; a block with no settings and no text is skipped. */
  type Block = map<string, int>

  datatype Pages = Pages(count: int, colour: bool) | Multiple | NoBlock | NoGrid

  function Setting(b: Block, key: string): int {
    if key in b then b[key] else 0
  }

  function PerTeam(b: Block): (n: int)
    ensures n != 0
  {
    if Setting(b, "handouts_per_team") != 0 then b["handouts_per_team"] else DEFAULT_PER_TEAM
  }

  function PerPage(b: Block): int {
    Setting(b, "columns") * Setting(b, "rows")
  }

  function Ceiling(x: real): int {
    -((-x).Floor)
  }

  /** Rounding with a sign. */
  function Rounded(x: real): (r: real)
    ensures x != 0.0 ==> r != 0.0
  {
    if x == 0.0 then 0.0
    else if x > 0.0 then (FloatIsNear(x); Float(x))
    else (FloatIsNear(-x); -Float(-x))
  }

  function FloatOf(n: int): (r: real)
    ensures n != 0 ==> r != 0.0
  {
    Rounded(n as real)
  }

  /** The two rounded divisions of the program. */
  function PagesFor(perPage: int, perTeam: int, teams: int): int
    requires perPage != 0 && perTeam != 0
  {
    Ceiling(Rounded(FloatOf(teams + 1) / Rounded(FloatOf(perPage) / FloatOf(perTeam))))
  }

  function NonEmpty(blocks: seq<Block>): seq<Block> {
    if blocks == [] then []
    else NonEmpty(blocks[..|blocks| - 1]) + if blocks[|blocks| - 1] == map[] then [] else [blocks[|blocks| - 1]]
  }

  /** The least number of pages with places for the handouts of `need` teams. */
  ghost predicate IsFewest(perPage: nat, perTeam: nat, need: nat, pages: int) {
    pages * perPage >= need * perTeam && forall p: int :: p * perPage >= need * perTeam ==> p >= pages
  }

  /** One page too many is counted: the handouts fill n pages exactly, and the handouts per page, in teams, are
      rounded down so far that n times the error shows in the last digit of n. */
  ghost predicate Overcounts(perPage: nat, perTeam: nat, need: nat)
    requires perPage > 0 && perTeam > 0 && need > 0
  {
    var each, n := perPage as real / perTeam as real, need * perTeam / perPage;
    need * perTeam % perPage == 0 && n > 0 && each > 0.0
    && n as real * (each - Float(each)) > HalfUlp(n as real) * Float(each)
  }

  const MOST := 0x4_0000_0000_0000 // 2^50

  /** What the page count means: one team more than there are gets its handouts on the fewest pages, unless one
      page too many is counted. */
  ghost predicate Counts(perPage: int, perTeam: int, teams: int, pages: int) {
    perPage > 0 && perTeam > 0 && teams >= 0 && perPage <= MOST && (teams + 1) * perTeam <= MOST ==>
      IsFewest(perPage, perTeam, teams + 1, if Overcounts(perPage, perTeam, teams + 1) then pages - 1 else pages)
  }

  method PackPages(blocks: seq<Block>, teams: int) returns (r: Pages)
    ensures |NonEmpty(blocks)| > 1 ==> r == Multiple
    ensures |NonEmpty(blocks)| == 0 ==> r == NoBlock
    ensures |NonEmpty(blocks)| == 1 ==>
              var b := NonEmpty(blocks)[0];
              if PerPage(b) == 0 then r == NoGrid
              else
                r.Pages? && r.count == PagesFor(PerPage(b), PerTeam(b), teams) && (r.colour <==> Setting(b, "color") != 0)
                && Counts(PerPage(b), PerTeam(b), teams, r.count)
    ensures r.Pages? ==>
              var b := NonEmpty(blocks)[0];
              var perTeam := if Setting(b, "handouts_per_team") != 0 then Setting(b, "handouts_per_team") else 3;
              Counts(Setting(b, "columns") * Setting(b, "rows"), perTeam, teams, r.count)
  {
    hide PagesFor, Counts;
    var only: Option<Block> := None;
    for k := 0 to |blocks|
      invariant NonEmpty(blocks[..k]) == if only.Some? then [only.value] else []
    {
      assert blocks[..k + 1][..k] == blocks[..k];
      var b := blocks[k];
      if b == map[] {
        continue;
      }
      if only.Some? {
        MoreBlocks(blocks, k + 1);
        return Multiple;
      }
      only := Some(b);
    }
    assert blocks[..|blocks|] == blocks;
    if only.None? {
      return NoBlock;
    }
    var b := only.value;
    var perPage := Setting(b, "columns") * Setting(b, "rows");
    if perPage == 0 {
      return NoGrid;
    }
    PagesAreCounted(perPage, PerTeam(b), teams);
    r := Pages(PagesFor(perPage, PerTeam(b), teams), Setting(b, "color") != 0);
  }

  lemma {:induction false} MoreBlocks(blocks: seq<Block>, k: nat)
    requires k <= |blocks|
    ensures |NonEmpty(blocks[..k])| <= |NonEmpty(blocks)|
    decreases |blocks|
  {
    if k < |blocks| {
      assert blocks[..|blocks| - 1][..k] == blocks[..k];
      MoreBlocks(blocks[..|blocks| - 1], k);
    } else {
      assert blocks[..k] == blocks;
    }
  }

  // ---- the rounded divisions ----

  const EPS: real := 1.0 / 9007199254740992.0 // 2^-53

  lemma PowersHere()
    ensures Pow(DIGITS + 1) == 9007199254740992.0 && Pow(DIGITS) == 4503599627370496.0
    ensures Pow(DIGITS + 1) * EPS == 1.0
  {
    SmallPowers();
    hide Pow;
    PowAdd(8, 8);
    PowAdd(16, 16);
    PowAdd(32, 16);
    PowAdd(48, 4);
    PowStep(52);
  }

  lemma SmallPowers()
    ensures Pow(4) == 16.0 && Pow(8) == 256.0
  {
    assert Pow(2) == 4.0;
    PowAdd(2, 2);
    PowAdd(4, 4);
  }

  lemma EpsTimes(x: real)
    ensures x * EPS * 9007199254740992.0 == x
  {
  }

  /** The relative error of rounding. */
  lemma FloatError(x: real)
    requires x > 0.0
    ensures x - x * EPS <= Float(x) <= x + x * EPS && 0.0 < HalfUlp(x) <= x * EPS && Float(x) > 0.0
  {
    hide Float, HalfUlp, Pow;
    FloatIsNear(x);
    PowersHere();
    HalfUlpIsPositive(x);
    assert (x - HalfUlp(x) * Pow(DIGITS + 1)) * EPS >= 0.0;
    assert HalfUlp(x) * Pow(DIGITS + 1) * EPS == HalfUlp(x) * (Pow(DIGITS + 1) * EPS);
  }

  lemma HalfUlpIsPositive(x: real)
    requires x > 0.0
    ensures HalfUlp(x) > 0.0
  {
  }

  lemma SmallIntegers(n: int)
    requires 0 < n <= MOST
    ensures FloatOf(n) == n as real
  {
    hide Float, Pow;
    PowersHere();
    FloatOfWhole(n);
  }

  /** On numbers that are doubles, the conversions change nothing. */
  lemma PagesForIs(perPage: nat, perTeam: nat, teams: nat)
    requires 0 < perPage <= MOST && 0 < perTeam <= MOST && teams + 1 <= MOST
    ensures var each := perPage as real / perTeam as real;
            each > 0.0 && Float(each) > 0.0 && (teams + 1) as real / Float(each) > 0.0
            && PagesFor(perPage, perTeam, teams) == Ceiling(Float((teams + 1) as real / Float(each)))
  {
    hide Float, Pow;
    SmallIntegers(perPage);
    SmallIntegers(perTeam);
    SmallIntegers(teams + 1);
    var each := perPage as real / perTeam as real;
    Positive(perPage as real, perTeam as real);
    FloatError(each);
    Positive((teams + 1) as real, Float(each));
  }

  lemma Positive(a: real, b: real)
    requires a > 0.0 && b > 0.0
    ensures a / b > 0.0 && (a / b) * b == a
  {
  }

  /** A number between whole ones is rounded up to the next. */
  lemma CeilingBetween(x: real, n: int)
    requires (n - 1) as real < x <= n as real
    ensures Ceiling(x) == n
  {
  }

  /** The quotient a, known up to its rounding error, and the handouts it stands for. */
  predicate Close(q: real, a: real) {
    a > 0.0 && q > 0.0 && a - a * EPS <= q <= a + a * EPS
  }

  /** The product with the other number is off by as much. */
  lemma TimesClose(g: real, q: real, a: real, perTeam: real, perPage: real)
    requires Close(q, a) && g >= 0.0 && perTeam > 0.0 && a * perTeam == perPage
    ensures g * perPage - g * perPage * EPS <= g * q * perTeam <= g * perPage + g * perPage * EPS
  {
    var f := g * perTeam;
    NotNegative(f, q - (a - a * EPS), g, perTeam);
    NotNegative(f, a + a * EPS - q, g, perTeam);
    assert f * a == g * perPage by {
      Regroup(g, perTeam, a);
    }
    assert f * q == g * q * perTeam by {
      Regroup(g, perTeam, q);
    }
    assert f * (a * EPS) == (f * a) * EPS;
  }

  lemma NotNegative(f: real, d: real, g: real, t: real)
    requires g >= 0.0 && t >= 0.0 && f == g * t && d >= 0.0
    ensures f * d >= 0.0
  {
    ProductIsNotNegative(g, t);
    ProductIsNotNegative(f, d);
  }

  lemma ProductIsNotNegative(a: real, b: real)
    requires a >= 0.0 && b >= 0.0
    ensures a * b >= 0.0
  {
  }

  lemma Regroup(g: real, t: real, x: real)
    ensures (g * t) * x == g * (x * t) && (g * t) * x == g * x * t
  {
  }

  lemma Cancel(x: real, y: real, t: real)
    requires t > 0.0
    ensures (x * t < y * t <==> x < y) && (x * t <= y * t <==> x <= y)
  {
    var d := y - x;
    assert d * t == y * t - x * t;
    if d > 0.0 {
      assert d * t > 0.0;
    } else if d < 0.0 {
      assert d * t < 0.0;
    }
  }

  /** More than g pages are needed, and the quotient stays clear of g. */
  lemma ClearBelow(g: nat, q: real, a: real, need: nat, perTeam: nat, perPage: nat)
    requires Close(q, a) && 0 < g && 0 < perTeam && a * perTeam as real == perPage as real
    requires g * perPage < need * perTeam <= MOST
    ensures (g as real + HalfUlp(g as real)) * q < need as real
  {
    hide HalfUlp, Float, Close;
    LastDigit(g as real);
    Products(g, perPage);
    Products(need, perTeam);
    ProductIsNotNegative(g as real, perPage as real);
    BelowReal(g as real, HalfUlp(g as real), q, a, perTeam as real, perPage as real, need as real);
  }

  lemma LastDigit(x: real)
    requires x > 0.0
    ensures 0.0 < HalfUlp(x) <= x * EPS
  {
    hide HalfUlp, Float;
    FloatError(x);
  }

  lemma BelowReal(x: real, h: real, q: real, a: real, t: real, p: real, need: real)
    requires Close(q, a) && x >= 0.0 && 0.0 < h <= x * EPS && t > 0.0 && a * t == p
    requires 0.0 <= x * p && x * p + 1.0 <= need * t <= MOST as real
    ensures (x + h) * q < need
  {
    Distribute(x, EPS, p);
    WithRoom(x * p, need * t);
    RoundedTwice(x + x * EPS, x * p + x * p * EPS, q, a, t, p, need);
    Less(x + h, x + x * EPS, q, need);
  }

  lemma RoundedTwice(f: real, fp: real, q: real, a: real, t: real, p: real, need: real)
    requires Close(q, a) && f >= 0.0 && t > 0.0 && a * t == p && f * p == fp && fp + fp * EPS < need * t
    ensures f * q < need
  {
    TimesClose(f, q, a, t, p);
    Cancel(f * q, need, t);
  }

  lemma Less(x: real, f: real, q: real, need: real)
    requires x <= f && q > 0.0 && f * q < need
    ensures x * q < need
  {
    assert (f - x) * q >= 0.0;
  }

  lemma Distribute(x: real, e: real, p: real)
    ensures (x + x * e) * p == x * p + x * p * e
  {
  }

  /** Two rounding errors on less than 2^50 do not reach 1. */
  lemma WithRoom(gp: real, most: real)
    requires 0.0 <= gp && gp + 1.0 <= most <= MOST as real
    ensures (gp + gp * EPS) + (gp + gp * EPS) * EPS < most
  {
    EpsTimes(gp);
    EpsTimes(gp + gp * EPS);
  }

  lemma Products(a: int, b: int)
    ensures a as real * b as real == (a * b) as real
  {
  }

  /** n + 1 is never passed, and n only when the pages are filled exactly. */
  lemma ClearAbove(n: nat, q: real, a: real, need: nat, perTeam: nat, perPage: nat)
    requires Close(q, a) && 0 < n && 0 < perTeam && a * perTeam as real == perPage as real && 0 < perPage <= MOST
    requires (n - 1) * perPage < need * perTeam <= n * perPage && need * perTeam <= MOST
    ensures need as real <= (n + 1) as real * q
    ensures need * perTeam < n * perPage ==> need as real <= n as real * q
    ensures n <= MOST
  {
    Products(n, perPage);
    Products(need, perTeam);
    OneLess(n, perPage);
    AtMost(n - 1, perPage);
    AboveReal(n as real, n as real * perPage as real, q, a, perTeam as real, perPage as real, need as real);
  }

  lemma AboveReal(x: real, xp: real, q: real, a: real, t: real, p: real, need: real)
    requires Close(q, a) && x >= 0.0 && t > 0.0 && a * t == p && x * p == xp
    requires 1.0 <= p <= MOST as real && 0.0 <= xp <= 2.0 * MOST as real && need * t <= xp
    ensures need <= (x + 1.0) * q
    ensures need * t + 1.0 <= xp ==> need <= x * q
  {
    RoomAbove(xp, p, need * t);
    assert (x + 1.0) * p == xp + p;
    NotShort(x + 1.0, xp + p, q, a, t, p, need);
    if need * t + 1.0 <= xp {
      NotShort(x, xp, q, a, t, p, need);
    }
  }

  lemma NotShort(f: real, fp: real, q: real, a: real, t: real, p: real, need: real)
    requires Close(q, a) && f >= 0.0 && t > 0.0 && a * t == p && f * p == fp && need * t <= fp - fp * EPS
    ensures need <= f * q
  {
    TimesClose(f, q, a, t, p);
    Cancel(need, f * q, t);
  }

  lemma OneLess(n: nat, p: nat)
    ensures (n - 1) * p == n * p - p
  {
  }

  lemma RoomAbove(np: real, p: real, all: real)
    requires 0.0 < p <= MOST as real && 0.0 <= np <= 2.0 * MOST as real && all <= np
    ensures all <= (np + p) - (np + p) * EPS || p < 1.0
    ensures all + 1.0 <= np ==> all <= np - np * EPS
  {
    EpsTimes(np);
    EpsTimes(np + p);
  }

  lemma AtMost(n: nat, p: nat)
    requires p > 0
    ensures n <= n * p
  {
  }

  /** The second division, seen as a product. */
  lemma Divided(need: real, q: real, x: real)
    requires q > 0.0
    ensures (need / q <= x <==> need <= x * q) && (need / q < x <==> need < x * q)
    ensures (need / q >= x <==> need >= x * q) && (need / q > x <==> need > x * q)
  {
    var y := need / q;
    assert y * q == need;
    Cancel(y, x, q);
    Cancel(x, y, q);
  }

  /** Where the two divisions come out, when n pages are needed. */
  lemma Computed(perPage: nat, perTeam: nat, need: nat, n: nat)
    requires 0 < perPage <= MOST && 0 < perTeam && 0 < need && need * perTeam <= MOST
    requires 0 < n && (n - 1) * perPage < need * perTeam <= n * perPage
    ensures PagesFor(perPage, perTeam, need - 1) == if Overcounts(perPage, perTeam, need) then n + 1 else n
  {
    hide Float, HalfUlp, Pow, PagesFor, Overcounts;
    AtMost(need, perTeam);
    AtMost(perTeam, need);
    var each := perPage as real / perTeam as real;
    PagesForIs(perPage, perTeam, need - 1);
    FloatError(each);
    var q := Float(each);
    var y := need as real / q;
    Positive(perPage as real, perTeam as real);
    ClearAbove(n, q, each, need, perTeam, perPage);
    Divided(need as real, q, (n + 1) as real);
    Divided(need as real, q, n as real);
    PowersHere();
    FloatKeepsOrder(y, n + 1);
    FloatKeepsOrder(y, n);
    AboveLess(y, q, each, need, perTeam, perPage, n - 1);
    if need * perTeam < n * perPage {
      NotFilled(perPage, perTeam, need, n);
      CeilingBetween(Float(y), n);
    } else {
      Filled(perPage, perTeam, need, n, y);
      CeilingBetween(Float(y), if Overcounts(perPage, perTeam, need) then n + 1 else n);
    }
  }

  lemma AboveLess(y: real, q: real, a: real, need: nat, perTeam: nat, perPage: nat, g: nat)
    requires Close(q, a) && 0 < perTeam && a * perTeam as real == perPage as real
    requires g * perPage < need * perTeam <= MOST && y == need as real / q && 0.0 < y < Pow(DIGITS)
    ensures Float(y) > g as real
  {
    hide Float, HalfUlp, Pow;
    if g == 0 {
      FloatError(y);
    } else {
      ClearBelow(g, q, a, need, perTeam, perPage);
      Divided(need as real, q, g as real + HalfUlp(g as real));
      FloatError(g as real);
      FloatIsAbove(y, g);
    }
  }

  lemma NotFilled(perPage: nat, perTeam: nat, need: nat, n: nat)
    requires 0 < perPage && 0 < perTeam && 0 < need
    requires 0 < n && (n - 1) * perPage < need * perTeam < n * perPage
    ensures !Overcounts(perPage, perTeam, need)
  {
    hide Float, HalfUlp;
    var k := need * perTeam / perPage;
    if need * perTeam % perPage == 0 {
      assert need * perTeam == k * perPage;
      Between(k, n, perPage);
    }
  }

  lemma Between(k: int, n: int, p: nat)
    requires p > 0
    ensures !((n - 1) * p < k * p < n * p)
  {
    if k <= n - 1 {
      assert (n - 1 - k) * p >= 0;
    } else {
      assert (k - n) * p >= 0;
    }
  }

  lemma Filled(perPage: nat, perTeam: nat, need: nat, n: nat, y: real)
    requires 0 < perPage && 0 < perTeam && 0 < need && 0 < n <= MOST && need * perTeam == n * perPage
    requires var each := perPage as real / perTeam as real;
             each > 0.0 && Float(each) > 0.0 && y == need as real / Float(each) && 0.0 < y < Pow(DIGITS)
    ensures Float(y) > n as real <==> Overcounts(perPage, perTeam, need)
  {
    hide Float, Pow, HalfUlp;
    var each := perPage as real / perTeam as real;
    var q, h := Float(each), HalfUlp(n as real);
    Quotient(n, perPage);
    FloatError(n as real);
    PowersHere();
    FloatKeepsOrder(y, n);
    Divided(need as real, q, n as real);
    Divided(need as real, q, n as real + h);
    Positive(perPage as real, perTeam as real);
    Products(n, perPage);
    Products(need, perTeam);
    assert n as real * each * perTeam as real == need as real * perTeam as real;
    Cancel(n as real * each, need as real, perTeam as real);
    Cancel(need as real, n as real * each, perTeam as real);
    assert need as real == n as real * each;
    assert n as real * (each - q) == need as real - n as real * q;
    assert (n as real + h) * q == n as real * q + h * q;
    assert h * q > 0.0;
    if y >= n as real {
      FloatIsAbove(y, n);
    }
    OvercountsIs(perPage, perTeam, need, n);
  }

  lemma OvercountsIs(perPage: nat, perTeam: nat, need: nat, n: nat)
    requires 0 < perPage && 0 < perTeam && 0 < need && 0 < n && need * perTeam % perPage == 0 && need * perTeam / perPage == n
    requires perPage as real / perTeam as real > 0.0
    ensures var each := perPage as real / perTeam as real;
            Overcounts(perPage, perTeam, need) <==>
              n as real * (each - Float(each)) > HalfUlp(n as real) * Float(each)
  {
    hide Float, HalfUlp;
  }

  lemma Quotient(n: nat, p: nat)
    requires p > 0
    ensures (n * p) % p == 0 && (n * p) / p == n
  {
    DivUnique(n * p, p, n, 0);
  }

  /** The least number of pages. */
  function Fewest(perPage: nat, perTeam: nat, need: nat): (n: nat)
    requires perPage > 0 && perTeam > 0 && need > 0
    ensures n > 0 && (n - 1) * perPage < need * perTeam <= n * perPage
  {
    var all := need * perTeam;
    assert all > 0 by {
      AtMost(need, perTeam);
    }
    var n := (all - 1) / perPage + 1;
    assert all - 1 == (n - 1) * perPage + (all - 1) % perPage;
    n
  }

  lemma LessHoldsLess(p: int, m: int, perPage: nat)
    ensures p <= m ==> p * perPage <= m * perPage
  {
    if p <= m {
      assert (m - p) * perPage >= 0;
    }
  }

  lemma FewestIsFewest(perPage: nat, perTeam: nat, need: nat)
    requires perPage > 0 && perTeam > 0 && need > 0
    ensures IsFewest(perPage, perTeam, need, Fewest(perPage, perTeam, need))
  {
    var n := Fewest(perPage, perTeam, need);
    forall p: int | p * perPage >= need * perTeam
      ensures p >= n
    {
      LessHoldsLess(p, n - 1, perPage);
    }
  }

  lemma PagesAreCounted(perPage: int, perTeam: int, teams: int)
    requires perPage != 0 && perTeam != 0
    ensures Counts(perPage, perTeam, teams, PagesFor(perPage, perTeam, teams))
  {
    hide PagesFor, Overcounts, IsFewest;
    if perPage > 0 && perTeam > 0 && teams >= 0 && perPage <= MOST && (teams + 1) * perTeam <= MOST {
      var n := Fewest(perPage, perTeam, teams + 1);
      FewestIsFewest(perPage, perTeam, teams + 1);
      Computed(perPage, perTeam, teams + 1, n);
    }
  }

  /** The pages printed are the fewest if and only if no page is overcounted; otherwise they are one too many. */
  lemma PagesAreFewest(perPage: nat, perTeam: nat, teams: nat)
    requires 0 < perPage <= MOST && 0 < perTeam && (teams + 1) * perTeam <= MOST
    ensures IsFewest(perPage, perTeam, teams + 1, PagesFor(perPage, perTeam, teams)) <==>
            !Overcounts(perPage, perTeam, teams + 1)
    ensures Overcounts(perPage, perTeam, teams + 1) ==>
            IsFewest(perPage, perTeam, teams + 1, PagesFor(perPage, perTeam, teams) - 1)
  {
    hide PagesFor, Overcounts;
    PagesAreCounted(perPage, perTeam, teams);
    var p := PagesFor(perPage, perTeam, teams);
    assert !(IsFewest(perPage, perTeam, teams + 1, p) && IsFewest(perPage, perTeam, teams + 1, p - 1));
  }

  /** A grid of whole teams is never overcounted, and the pages are the fewest whose whole teams are enough. */
  lemma WholeTeamPages(perPage: nat, perTeam: nat, teams: nat)
    requires 0 < perPage <= MOST && 0 < perTeam && (teams + 1) * perTeam <= MOST && Divides(perTeam, perPage)
    ensures !Overcounts(perPage, perTeam, teams + 1)
    ensures var pages := PagesFor(perPage, perTeam, teams);
            pages * (perPage / perTeam) >= teams + 1 && forall p: int :: p * (perPage / perTeam) >= teams + 1 ==> p >= pages
  {
    hide PagesFor, Float, HalfUlp, Pow;
    DividesTimes(perTeam, perPage);
    var t := perPage / perTeam;
    AtMost(t, perTeam);
    PowersHere();
    WholeQuotient(t, perTeam);
    assert t > 0;
    FloatOfWhole(t);
    NotRounded(perPage, perTeam, teams + 1);
    PagesAreFewest(perPage, perTeam, teams);
    var pages := PagesFor(perPage, perTeam, teams);
    TeamsOnPages(pages, t, perTeam, teams + 1);
    forall p: int | p * t >= teams + 1
      ensures p >= pages
    {
      TeamsOnPages(p, t, perTeam, teams + 1);
    }
  }

  lemma WholeQuotient(t: nat, perTeam: nat)
    requires perTeam > 0
    ensures (perTeam * t) as real / perTeam as real == t as real
  {
    Products(perTeam, t);
  }

  lemma NotRounded(perPage: nat, perTeam: nat, need: nat)
    requires perPage > 0 && perTeam > 0 && need > 0
    requires var each := perPage as real / perTeam as real; each > 0.0 && Float(each) == each
    ensures !Overcounts(perPage, perTeam, need)
  {
    hide Float, HalfUlp;
    var each, n := perPage as real / perTeam as real, need * perTeam / perPage;
    if n > 0 {
      HalfUlpIsPositive(n as real);
      assert HalfUlp(n as real) * each > 0.0;
    }
  }

  lemma TeamsOnPages(p: int, t: nat, perTeam: nat, n: int)
    requires perTeam > 0
    ensures p * t >= n <==> p * (perTeam * t) >= n * perTeam
  {
    var d := p * t - n;
    assert p * (perTeam * t) - n * perTeam == perTeam * d;
    NoSmallMultiple(perTeam, d);
  }

  // ---- an overcounted grid ----

  lemma QuotientRoundsDown()
    ensures Float(1.4) == 6305039478318694.0 / 4503599627370496.0 && HalfUlp(15.0) == 8.0 / 9007199254740992.0
  {
    hide Pow;
    PowersHere();
    PowZero();
    PowStep(0);
    PowStep(1);
    PowStep(2);
    PowStep(3);
    ExponentIs(1.4, 0);
    ExponentIs(15.0, 3);
    PowInverse(52);
    PowInverse(50);
    PowAdd(50, 2);
    PowAdd(-50, 0);
  }

  /** Seven handouts on a page, five to a team, for twenty teams and one more: 15 pages hold them exactly, and 16
      are counted. */
  lemma SixteenForFifteen()
    ensures PagesFor(7, 5, 20) == 16 && IsFewest(7, 5, 21, 15)
  {
    hide PagesFor, Float, HalfUlp, Pow;
    QuotientRoundsDown();
    Computed(7, 5, 21, 15);
    assert 7 as real / 5 as real == 1.4;
    OvercountsIs(7, 5, 21, 15);
  }
}
