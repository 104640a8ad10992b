/** Decimal numbers, and the counter macros that are expanded before 4s source is parsed. */
module SourceCounters {
  import opened Outcomes

  // ---- decimal numbers ----

  const MAX_INT := 0x7FFF_FFFF_FFFF_FFFF
  const MIN_INT := -0x8000_0000_0000_0000

  /** 64-bit arithmetic wraps around. */
  function Wrapped(n: int): int {
    if n > MAX_INT then n - 0x1_0000_0000_0000_0000 else n
  }

  predicate IsDigit(c: char) {
    '0' <= c <= '9'
  }

  function Digit(d: nat): char
    requires d < 10
  {
    ['0', '1', '2', '3', '4', '5', '6', '7', '8', '9'][d]
  }

  function Digits(n: nat): string {
    if n < 10 then [Digit(n)] else Digits(n / 10) + [Digit(n % 10)]
  }

  function Decimal(n: int): string {
    if n < 0 then "-" + Digits(-n) else Digits(n)
  }

  function DigitOf(c: char): nat
    requires IsDigit(c)
  {
    c as int - '0' as int
  }

  function DigitsValue(s: string): nat
    requires forall k :: 0 <= k < |s| ==> IsDigit(s[k])
  {
    if s == "" then 0 else DigitsValue(s[..|s| - 1]) * 10 + DigitOf(s[|s| - 1])
  }

  predicate AllDigits(s: string) {
    s != "" && forall k :: 0 <= k < |s| ==> IsDigit(s[k])
  }

  /** The number a text spells, and whether it spells one that fits 64 bits; one that does not is clamped. */
  function Atoi(s: string): (int, bool) {
    var negative := s != "" && s[0] == '-';
    var rest := if s != "" && (s[0] == '-' || s[0] == '+') then s[1..] else s;
    if !AllDigits(rest) then (0, false)
    else
      var n: int := if negative then 0 - DigitsValue(rest) else DigitsValue(rest);
      if n > MAX_INT then (MAX_INT, false) else if n < MIN_INT then (MIN_INT, false) else (n, true)
  }

  lemma {:induction false} DigitsAreDigits(n: nat)
    ensures AllDigits(Digits(n)) && DigitsValue(Digits(n)) == n
  {
    if n >= 10 {
      DigitsAreDigits(n / 10);
      var s := Digits(n);
      assert s[..|s| - 1] == Digits(n / 10);
    }
  }

  /** Every 64-bit number is read back as written. */
  lemma AtoiOfDecimal(n: int)
    ensures MIN_INT <= n <= MAX_INT ==> Atoi(Decimal(n)) == (n, true)
    ensures Decimal(n) != "" && (n >= 0 ==> AllDigits(Decimal(n)))
  {
    hide Digits, DigitsValue;
    if n < 0 {
      DigitsAreDigits(-n);
      assert Decimal(n)[1..] == Digits(-n);
    } else {
      DigitsAreDigits(n);
      assert IsDigit(Digits(n)[0]);
    }
  }

  /** A number that does not fit 64 bits is none, and a counter is set to the nearest one that does. */
  lemma AtoiIsClamped(ds: string)
    requires AllDigits(ds)
    ensures DigitsValue(ds) > MAX_INT ==> Atoi(ds) == (0x7FFF_FFFF_FFFF_FFFF, false)
    ensures DigitsValue(ds) > MAX_INT + 1 ==> Atoi("-" + ds) == (-0x8000_0000_0000_0000, false)
  {
    hide DigitsValue;
    assert IsDigit(ds[0]);
    assert ("-" + ds)[1..] == ds;
  }

  // ---- macros ----

  const USE := "4SCOUNTER"
  const SET := "set 4SCOUNTER"

  predicate IsNameChar(c: char) {
    IsDigit(c) || 'a' <= c <= 'z' || 'A' <= c <= 'Z' || c == '_'
  }

  function NameLength(s: string): (n: nat)
    ensures n <= |s|
  {
    if s != "" && IsNameChar(s[0]) then 1 + NameLength(s[1..]) else 0
  }

  function ValueLength(s: string): (n: nat)
    ensures n <= |s|
  {
    if s != "" && (IsDigit(s[0]) || s[0] == '+') then 1 + ValueLength(s[1..]) else 0
  }

  /** The length of the use of a counter at the head of the text, or 0. */
  function UseLength(s: string): (n: nat)
    ensures n <= |s| && (n > 0 <==> USE <= s) && (n > 0 ==> n >= |USE|)
  {
    if USE <= s then |USE| + NameLength(s[|USE|..]) else 0
  }

  /** The length of the setting of a counter at the head of the text, or 0. */
  function SetLength(s: string): (n: nat)
    ensures n <= |s| && (n > 0 ==> SET <= s && n >= |SET|)
  {
    if SET <= s then
      var name := NameLength(s[|SET|..]);
      var rest := s[|SET| + name..];
      if |rest| >= 3 && rest[..3] == " = " && ValueLength(rest[3..]) > 0 then |SET| + name + 3 + ValueLength(rest[3..])
      else 0
    else 0
  }

  function MacroLength(s: string): (n: nat)
    ensures n <= |s|
  {
    if UseLength(s) > 0 then UseLength(s) else SetLength(s)
  }

  /** Where the first macro begins. */
  function FindMacro(s: string): (r: Option<nat>)
    ensures r.Some? ==> r.value < |s| && MacroLength(s[r.value..]) > 0
  {
    if MacroLength(s) > 0 then Some(0)
    else if s == "" then None
    else
      var r := FindMacro(s[1..]);
      if r.None? then None else (assert s[1..][r.value..] == s[1 + r.value..]; Some(1 + r.value))
  }

  function WithoutPluses(s: string): string {
    if s != "" && s[|s| - 1] == '+' then WithoutPluses(s[..|s| - 1]) else s
  }

  /** What replaces the macro at the head of the text, and the counters after it: nothing for a setting, the
      next value for a use. */
  function Expand(s: string, counters: map<string, int>): (string, map<string, int>)
    requires MacroLength(s) > 0
  {
    if UseLength(s) > 0 then
      var name := s[|USE|..UseLength(s)];
      var v := if name in counters then counters[name] else 1;
      (Decimal(v), counters[name := Wrapped(v + 1)])
    else
      var n := NameLength(s[|SET|..]);
      ("", counters[s[|SET|..|SET| + n] := Atoi(WithoutPluses(s[|SET| + n + 3..SetLength(s)])).0])
  }

  // ---- the number of macros is bounded by the letters S ----

  function CountS(s: string): nat {
    if s == "" then 0 else CountS(s[1..]) + if s[0] == 'S' then 1 else 0
  }

  lemma {:induction false} CountSBoth(a: string, b: string)
    ensures CountS(a + b) == CountS(a) + CountS(b)
  {
    if a == "" {
      assert a + b == b;
    } else {
      CountSBoth(a[1..], b);
      assert (a + b)[1..] == a[1..] + b;
    }
  }

  lemma {:induction false} NoSInDigits(n: nat)
    ensures CountS(Digits(n)) == 0
  {
    if n >= 10 {
      NoSInDigits(n / 10);
      CountSBoth(Digits(n / 10), [Digit(n % 10)]);
    }
  }

  /** A value that replaces a macro has no letter S. */
  lemma NoSInDecimal(n: int)
    ensures CountS(Decimal(n)) == 0
  {
    NoSInDigits(if n < 0 then -n else n);
    if n < 0 {
      CountSBoth("-", Digits(-n));
    }
  }

  lemma SInPrefix(p: string, s: string, k: nat)
    requires p <= s && k < |p| && p[k] == 'S'
    ensures CountS(s) > 0
  {
    assert s == s[..k] + s[k..];
    CountSBoth(s[..k], s[k..]);
  }

  lemma SInMacro(s: string)
    requires MacroLength(s) > 0
    ensures CountS(s[..MacroLength(s)]) > 0
  {
    var macro := s[..MacroLength(s)];
    if UseLength(s) > 0 {
      assert USE[1] == 'S';
      SInPrefix(USE, macro, 1);
    } else {
      assert SET[5] == 'S';
      SInPrefix(SET, macro, 5);
    }
  }

  /** The text with the macro at `at` replaced. */
  function Replaced(s: string, at: nat, counters: map<string, int>): string
    requires at < |s| && MacroLength(s[at..]) > 0
  {
    s[..at] + Expand(s[at..], counters).0 + s[at + MacroLength(s[at..])..]
  }

  lemma ReplacingShrinks(s: string, at: nat, counters: map<string, int>)
    requires at < |s| && MacroLength(s[at..]) > 0
    ensures CountS(Replaced(s, at, counters)) < CountS(s)
  {
    hide CountS, MacroLength, Decimal;
    var n, e := MacroLength(s[at..]), Expand(s[at..], counters).0;
    SInMacro(s[at..]);
    assert CountS(e) == 0 by {
      ValueHasNoS(s[at..], counters);
    }
    assert s == s[..at] + (s[at..][..n] + s[at + n..]);
    CountSBoth(s[at..][..n], s[at + n..]);
    CountSBoth(s[..at], s[at..][..n] + s[at + n..]);
    CountSBoth(s[..at], e);
    CountSBoth(s[..at] + e, s[at + n..]);
  }

  lemma ValueHasNoS(s: string, counters: map<string, int>)
    requires MacroLength(s) > 0
    ensures CountS(Expand(s, counters).0) == 0
  {
    if UseLength(s) > 0 {
      var name := s[|USE|..UseLength(s)];
      NoSInDecimal(if name in counters then counters[name] else 1);
    }
  }

  /** The text with every macro expanded, from the left. */
  function ReplaceFrom(s: string, counters: map<string, int>): string
    decreases CountS(s)
  {
    var at := FindMacro(s);
    if at.None? then s
    else
      (ReplacingShrinks(s, at.value, counters);
       ReplaceFrom(Replaced(s, at.value, counters), Expand(s[at.value..], counters).1))
  }

  method ReplaceCounters(source: string) returns (s: string)
    ensures s == ReplaceFrom(source, map[]) && NoCounter(s)
  {
    hide MacroLength, Expand, CountS, FindMacro, NoCounter;
    s := source;
    var counters: map<string, int> := map[];
    while true
      invariant ReplaceFrom(s, counters) == ReplaceFrom(source, map[])
      decreases CountS(s)
    {
      var at := FindMacro(s);
      if at.None? {
        NoMacroIsLeft(s);
        break;
      }
      ReplacingShrinks(s, at.value, counters);
      var value := Expand(s[at.value..], counters);
      s, counters := s[..at.value] + value.0 + s[at.value + MacroLength(s[at.value..])..], value.1;
    }
  }

  // ---- text without counters ----

  ghost predicate NoCounter(s: string) {
    forall i :: 0 <= i <= |s| ==> !(USE <= s[i..])
  }

  lemma {:induction false} NoMacroIsLeft(s: string)
    ensures FindMacro(s).None? <==> NoCounter(s)
  {
    if s != "" && MacroLength(s) == 0 {
      NoMacroIsLeft(s[1..]);
      assert s[0..] == s;
      if NoCounter(s[1..]) {
        forall i | 0 <= i <= |s|
          ensures !(USE <= s[i..])
        {
          if i > 0 {
            assert s[i..] == s[1..][i - 1..];
          }
        }
      } else {
        var i :| 0 <= i <= |s[1..]| && USE <= s[1..][i..];
        assert s[1..][i..] == s[1 + i..];
      }
    } else if s != "" {
      MacroHoldsCounter(s);
    }
  }

  lemma MacroHoldsCounter(s: string)
    requires MacroLength(s) > 0
    ensures !NoCounter(s)
  {
    assert s[0..] == s;
    if UseLength(s) == 0 {
      assert SET[4..] == USE;
      assert USE <= s[4..];
    }
  }

  /** Text without counters is left alone. */
  lemma NoCounterStays(s: string)
    requires NoCounter(s)
    ensures ReplaceFrom(s, map[]) == s
  {
    NoMacroIsLeft(s);
  }

  /** A character no counter holds keeps counters from forming across it. */
  lemma NoCounterTogether(a: string, c: char, b: string)
    requires NoCounter(a) && NoCounter(b) && c !in USE
    ensures NoCounter(a + [c] + b)
  {
    var s := a + [c] + b;
    forall i | 0 <= i <= |s|
      ensures !(USE <= s[i..])
    {
      if i > |a| {
        assert s[i..] == b[i - |a| - 1..];
      } else if i + |USE| <= |a| {
        assert s[i..][..|USE|] == a[i..][..|USE|];
      } else if i + |USE| <= |s| {
        assert s[i..][|a| - i] == c != USE[|a| - i];
      }
    }
  }

  lemma ShortHasNoCounter(s: string)
    requires |s| < |USE|
    ensures NoCounter(s)
  {
  }
}
