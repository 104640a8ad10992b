/** What the counter macros come to: a counter counts from 1, or from what it was set to, in the order of the text. */
module SourceCounting {
  import opened Outcomes
  import opened SourceText
  import opened SourceCounters

  predicate IsName(name: string) {
    forall k :: 0 <= k < |name| ==> IsNameChar(name[k])
  }

  /** Text that may stand between two uses of a counter. */
  ghost predicate Between(t: string) {
    NoCounter(t) && !EndsInSet(t) && (t == "" || !IsNameChar(t[0]))
  }

  predicate EndsInSet(t: string) {
    |t| >= 4 && t[|t| - 4..] == "set "
  }

  /** The texts with a use of the counter before each but the first. */
  function WithUses(ts: seq<string>, name: string): string {
    if ts == [] then "" else USE + name + ts[0] + WithUses(ts[1..], name)
  }

  /** The texts with a number before each, from v on. */
  function WithNumbers(ts: seq<string>, v: int): string {
    if ts == [] then "" else Decimal(v) + ts[0] + WithNumbers(ts[1..], v + 1)
  }

  lemma {:induction false} NameEnds(name: string, rest: string)
    requires IsName(name) && (rest == "" || !IsNameChar(rest[0]))
    ensures NameLength(name + rest) == |name|
  {
    if name == "" {
      assert name + rest == rest;
    } else {
      assert (name + rest)[1..] == name[1..] + rest;
      NameEnds(name[1..], rest);
    }
  }

  /** No counter begins in `done` and ends behind it, when another one or a digit comes next. */
  lemma NoneAcross(done: string, more: string, i: nat)
    requires NoCounter(done) && i < |done| && (more == "" || more[0] == '4' || IsDigit(more[0]) || !IsNameChar(more[0]))
    ensures !(USE <= (done + more)[i..])
  {
    var s := done + more;
    if i + |USE| <= |done| {
      assert s[i..][..|USE|] == done[i..][..|USE|];
    } else if more != "" {
      var k := |done| - i;
      assert s[i..][k] == more[0];
      assert forall j :: 0 < j < |USE| ==> IsNameChar(USE[j]) && !IsDigit(USE[j]);
    }
  }

  /** The first macro of the text is the use behind a text without counters. */
  lemma UseIsFirst(done: string, name: string, rest: string)
    requires NoCounter(done) && !EndsInSet(done) && IsName(name) && (rest == "" || !IsNameChar(rest[0]))
    ensures var s := done + (USE + name + rest);
            FindMacro(s) == Some(|done|) && UseLength(s[|done|..]) == |USE| + |name| && MacroLength(s[|done|..]) == |USE| + |name|
  {
    hide NoCounter;
    var more := USE + name + rest;
    var s := done + more;
    assert s[|done|..] == more;
    assert more[|USE|..] == name + rest;
    NameEnds(name, rest);
    forall i | 0 <= i < |done|
      ensures MacroLength(s[i..]) == 0
    {
      NoneAcross(done, more, i);
      NoSetBefore(done, more, i);
    }
    FoundAt(s, |done|);
  }

  lemma SetHolds(s: string)
    ensures SET <= s ==> |s| >= 4 && s[..4] == "set " && USE <= s[4..]
  {
    assert SET[4..] == USE && SET[..4] == "set ";
  }

  lemma NoSetBefore(done: string, more: string, i: nat)
    requires NoCounter(done) && !EndsInSet(done) && i < |done| && more != "" && more[0] == '4'
    ensures SetLength((done + more)[i..]) == 0
  {
    var s := done + more;
    SetHolds(s[i..]);
    if i + 4 < |done| {
      NoneAcross(done, more, i + 4);
      assert s[i..][4..] == s[i + 4..];
    } else if i + 4 == |done| {
      assert |s| >= i + 4 ==> s[i..][..4] == done[|done| - 4..];
    } else {
      assert s[i..][|done| - i] == '4';
      assert forall j :: 0 <= j < 4 ==> SET[j] != '4';
    }
  }

  lemma FindStep(s: string)
    requires s != ""
    ensures FindMacro(s) ==
            if MacroLength(s) > 0 then Some(0)
            else if FindMacro(s[1..]).None? then None else Some(1 + FindMacro(s[1..]).value)
  {
    hide MacroLength;
  }

  lemma {:induction false} FoundAt(s: string, at: nat)
    requires at < |s| && MacroLength(s[at..]) > 0 && forall i :: 0 <= i < at ==> MacroLength(s[i..]) == 0
    ensures FindMacro(s) == Some(at)
  {
    hide MacroLength, FindMacro;
    assert s[0..] == s;
    FindStep(s);
    if at > 0 {
      assert MacroLength(s[0..]) == 0;
      var rest := s[1..];
      assert rest[at - 1..] == s[at..];
      forall i | 0 <= i < at - 1
        ensures MacroLength(rest[i..]) == 0
      {
        assert rest[i..] == s[i + 1..];
      }
      FoundAt(rest, at - 1);
    }
  }

  /** A number and a text that may stand between keep the text before them free of counters. */
  lemma StillNone(done: string, ds: string, t: string)
    requires NoCounter(done) && AllDigits(ds) && Between(t)
    ensures NoCounter(done + ds + t)
    ensures !EndsInSet(done + ds + t)
  {
    var s, more := done + ds + t, ds + t;
    assert s == done + more;
    forall i | 0 <= i <= |s|
      ensures !(USE <= s[i..])
    {
      if i < |done| {
        NoneAcross(done, more, i);
      } else if i < |done| + |ds| {
        DigitsThenNone(s[i..], ds[i - |done|..], t);
      } else {
        assert s[i..] == t[i - |done| - |ds|..];
      }
    }
    SetBehindDigits(done + ds, t);
  }

  lemma DigitsThenNone(s: string, ds: string, t: string)
    requires ds != "" && (forall k :: 0 <= k < |ds| ==> IsDigit(ds[k])) && s == ds + t && (t == "" || !IsNameChar(t[0]))
    ensures !(USE <= s)
  {
    assert USE[1] == 'S' && IsNameChar('S') && !IsDigit('S');
    if |ds| > 1 {
      assert s[1] == ds[1];
    } else if t != "" {
      assert s[1] == t[0];
    }
  }

  lemma SetBehindDigits(head: string, t: string)
    requires head != "" && IsDigit(head[|head| - 1]) && !EndsInSet(t)
    ensures !EndsInSet(head + t)
  {
    var s := head + t;
    assert s[|head| - 1] == head[|head| - 1];
    if |t| >= 4 {
      assert s[|s| - 4..] == t[|t| - 4..];
    } else if |s| >= 4 {
      assert s[|s| - 4..][3 - |t|] == s[|head| - 1];
      assert forall k :: 0 <= k < 4 ==> !IsDigit("set "[k]);
    }
  }

  function ValueOf(name: string, counters: map<string, int>): int {
    if name in counters then counters[name] else 1
  }

  /** Uses of a counter become its numbers one after the other; the text around them stays. */
  lemma {:induction false} UsesAreNumbered(done: string, ts: seq<string>, name: string, counters: map<string, int>)
    requires NoCounter(done) && !EndsInSet(done) && IsName(name) && forall k :: 0 <= k < |ts| ==> Between(ts[k])
    requires forall k :: 0 <= k < |ts| - 1 ==> ts[k] != ""
    requires 0 <= ValueOf(name, counters) && ValueOf(name, counters) + |ts| <= MAX_INT
    ensures ReplaceFrom(done + WithUses(ts, name), counters) == done + WithNumbers(ts, ValueOf(name, counters))
    decreases |ts|
  {
    hide NoCounter, FindMacro, MacroLength, Expand, ReplaceFrom, Decimal, NameLength, CountS, AllDigits, EndsInSet, UseLength;
    if ts == [] {
      assert done + WithUses(ts, name) == done && done + WithNumbers(ts, ValueOf(name, counters)) == done;
      NoneIsLeft(done, counters);
    } else {
      var v, t, more := ValueOf(name, counters), ts[0], WithUses(ts[1..], name);
      var s := done + WithUses(ts, name);
      assert s == done + (USE + name + (t + more));
      assert Between(t);
      BehindUse(t, ts[1..], name);
      UseIsFirst(done, name, t + more);
      UseExpands(s, |done|, name, t + more, counters);
      AtoiOfDecimal(v);
      StillNone(done, Decimal(v), t);
      UsesAreNumbered(done + Decimal(v) + t, ts[1..], name, counters[name := v + 1]);
      Together(done, Decimal(v), t, more);
      Together(done, Decimal(v), t, WithNumbers(ts[1..], v + 1));
    }
  }

  lemma Together(a: string, b: string, c: string, d: string)
    ensures a + b + (c + d) == (a + b + c) + d && a + (b + c + d) == (a + b + c) + d
  {
  }

  lemma BehindUse(t: string, ts: seq<string>, name: string)
    requires (t == "" || !IsNameChar(t[0])) && (ts != [] ==> t != "")
    ensures var rest := t + WithUses(ts, name); rest == "" || !IsNameChar(rest[0])
  {
  }

  lemma NoneIsLeft(s: string, counters: map<string, int>)
    requires NoCounter(s)
    ensures ReplaceFrom(s, counters) == s
  {
    NoMacroIsLeft(s);
  }

  lemma UseExpands(s: string, at: nat, name: string, rest: string, counters: map<string, int>)
    requires at <= |s| && s[at..] == USE + name + rest && IsName(name)
    requires FindMacro(s) == Some(at) && UseLength(s[at..]) == |USE| + |name| && MacroLength(s[at..]) == |USE| + |name|
    requires ValueOf(name, counters) < MAX_INT
    ensures var v := ValueOf(name, counters);
            ReplaceFrom(s, counters) == ReplaceFrom(s[..at] + Decimal(v) + rest, counters[name := v + 1])
  {
    hide FindMacro, MacroLength, UseLength, Decimal, CountS;
    var v, n := ValueOf(name, counters), |USE| + |name|;
    assert s[at..][|USE|..n] == name;
    assert s[at + n..] == s[at..][n..] == rest;
    assert Expand(s[at..], counters) == (Decimal(v), counters[name := v + 1]);
    assert Replaced(s, at, counters) == s[..at] + Decimal(v) + rest;
  }

  // ---- a counter that is set ----

  lemma {:induction false} NumberEnds(ds: string, rest: string)
    requires (forall k :: 0 <= k < |ds| ==> IsDigit(ds[k])) && (rest == "" || !(IsDigit(rest[0]) || rest[0] == '+'))
    ensures ValueLength(ds + rest) == |ds|
  {
    if ds == "" {
      assert ds + rest == rest;
    } else {
      assert (ds + rest)[1..] == ds[1..] + rest;
      NumberEnds(ds[1..], rest);
    }
  }

  lemma SetIsFirst(name: string, ds: string, rest: string)
    requires IsName(name) && AllDigits(ds) && (rest == "" || !(IsDigit(rest[0]) || rest[0] == '+'))
    ensures var s := SET + name + " = " + ds + rest; var n := |SET| + |name| + 3 + |ds|;
            FindMacro(s) == Some(0) && UseLength(s) == 0 && SetLength(s) == MacroLength(s) == n && NameLength(s[|SET|..]) == |name|
            && s[|SET|..|SET| + |name|] == name && s[|SET| + |name| + 3..n] == ds && s[n..] == rest
  {
    hide NameLength, ValueLength, FindMacro;
    var s := SET + name + " = " + ds + rest;
    SetSlices(name, ds, rest);
    NameEnds(name, " = " + ds + rest);
    NumberEnds(ds, rest);
    SetMeasured(s, |name|, ds, rest);
    NoUseAtSet(s);
    FindStep(s);
  }

  lemma SetSlices(name: string, ds: string, rest: string)
    ensures var s := SET + name + " = " + ds + rest; var n := |SET| + |name| + 3 + |ds|;
            && SET <= s && s[|SET|..] == name + (" = " + ds + rest) && s[|SET| + |name|..] == " = " + (ds + rest)
            && s[|SET|..|SET| + |name|] == name && s[|SET| + |name| + 3..n] == ds && s[n..] == rest
  {
  }

  lemma SetMeasured(s: string, name: nat, ds: string, rest: string)
    requires SET <= s && NameLength(s[|SET|..]) == name && |SET| + name <= |s| && s[|SET| + name..] == " = " + (ds + rest)
    requires ds != "" && ValueLength(ds + rest) == |ds|
    ensures SetLength(s) == |SET| + name + 3 + |ds|
  {
    assert (" = " + (ds + rest))[..3] == " = " && (" = " + (ds + rest))[3..] == ds + rest;
  }

  lemma NoUseAtSet(s: string)
    requires SET <= s
    ensures UseLength(s) == 0
  {
    assert s[0] == SET[0] == 's' && USE[0] == '4';
  }

  lemma NoPluses(ds: string)
    requires AllDigits(ds)
    ensures WithoutPluses(ds) == ds
  {
    assert IsDigit(ds[|ds| - 1]);
  }

  /** After a setting the counter goes on from the number it was set to. */
  lemma SetThenNumbered(name: string, n: nat, t: string, ts: seq<string>)
    requires IsName(name) && Between(t) && t != "" && t[0] != '+' && n + |ts| <= MAX_INT
    requires (forall k :: 0 <= k < |ts| ==> Between(ts[k])) && forall k :: 0 <= k < |ts| - 1 ==> ts[k] != ""
    ensures ReplaceFrom(SET + name + " = " + Decimal(n) + (t + WithUses(ts, name)), map[]) == t + WithNumbers(ts, n)
  {
    hide NoCounter, FindMacro, MacroLength, Decimal, NameLength, CountS, AllDigits, UseLength, SetLength, WithUses, WithoutPluses, Atoi;
    var ds, rest := Decimal(n), t + WithUses(ts, name);
    var s := SET + name + " = " + ds + rest;
    AtoiOfDecimal(n);
    SetIsFirst(name, ds, rest);
    NoPluses(ds);
    assert s[0..] == s && s[..0] == "";
    assert Expand(s, map[]) == ("", map[name := n as int]);
    assert Replaced(s, 0, map[]) == rest;
    UsesAreNumbered(t, ts, name, map[name := n as int]);
  }
}
