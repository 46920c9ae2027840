/** Parameter substitution: replacing `$n` down to `$1` one after the other, against all at once. */
module Params {
  import opened Types
  import opened Index
  import opened Decimals

  /** `str::replace`: all non-overlapping occurrences, from the left. */
  function ReplaceAll(s: string, pattern: string, filler: string): string
    requires pattern != []
  {
    if s == [] then []
    else if pattern <= s then filler + ReplaceAll(s[|pattern|..], pattern, filler)
    else [s[0]] + ReplaceAll(s[1..], pattern, filler)
  }

  function Placeholder(k: nat): string {
    "$" + Decimal(k)
  }

  function Replacement(param: Option<string>): string {
    match param
    case None => "NULL"
    case Some(v) =>
      if EqIgnoreCase(v, "null") then "NULL"
      else if v != [] && IsDigit(v[0]) then v
      else "'" + v + "'"
  }

  /** The text a parameter was given as, read off its replacement. */
  function Unquoted(replacement: string): string {
    if |replacement| >= 2 && replacement[0] == '\'' then replacement[1..|replacement| - 1] else replacement
  }

  /** NULL stands for a missing parameter and for the word in any case; every other text can be read back. */
  lemma ReplacementReadBack(param: Option<string>)
    ensures Replacement(param) == "NULL" <==> param.None? || EqIgnoreCase(param.value, "null")
    ensures param.Some? && !EqIgnoreCase(param.value, "null") ==> Unquoted(Replacement(param)) == param.value
    ensures param.Some? && !EqIgnoreCase(param.value, "null") ==>
      (Replacement(param) == param.value <==> param.value != [] && IsDigit(param.value[0]))
  {
    hide EqIgnoreCase;
    if param.Some? {
      var v := param.value;
      assert ("'" + v + "'")[1..|v| + 1] == v;
      assert |"'" + v + "'"| == |v| + 2;
    }
  }

  /** The text after the replacements of `$m` down to `$1`. */
  function Replaced(s: string, params: seq<Option<string>>, m: nat): string
    requires m <= |params|
    decreases m
  {
    if m == 0 then s
    else Replaced(ReplaceAll(s, Placeholder(m), Replacement(params[m - 1])), params, m - 1)
  }

  /** One after the other, from the last parameter to the first. */
  function Sequential(sql: string, params: seq<Option<string>>): string {
    Replaced(sql, params, |params|)
  }

  /** Of a well-placed text the result is the simultaneous substitution. */
  method SubstituteParams(sql: string, params: seq<Option<string>>) returns (result: string)
    ensures result == Sequential(sql, params)
    ensures WellPlaced(sql, |params|) && NoDollars(params) ==> result == Substituted(sql, params)
  {
    hide WellPlaced, NoDollars, Substituted;
    result := sql;
    var i := |params|;
    while i > 0
      invariant 0 <= i <= |params|
      invariant Replaced(result, params, i) == Sequential(sql, params)
    {
      i := i - 1;
      var placeholder := Placeholder(i + 1);
      var replacement := Replacement(params[i]);
      result := ReplaceAll(result, placeholder, replacement);
    }
    if WellPlaced(sql, |params|) && NoDollars(params) {
      WellPlacedSubstituted(sql, params);
    }
  }

  // ---- All placeholders at once.

  /** The digits behind a dollar sign at the front. */
  function NumeralAt(s: string): (d: string)
    requires s != []
    ensures Digits(d)
  {
    s[1..][..DigitRun(s[1..])]
  }

  function AfterNumeral(s: string): (r: string)
    requires s != []
    ensures |r| < |s|
    ensures r == [] || !IsDigit(r[0])
  {
    s[1..][DigitRun(s[1..])..]
  }

  /** A numeral that names one of `n` parameters. */
  predicate IsPlaceholder(d: string, n: nat)
    requires Digits(d)
  {
    Canonical(d) && ValueOf(d) <= n
  }

  lemma PlaceholderValue(d: string, n: nat)
    requires Digits(d) && IsPlaceholder(d, n)
    ensures 1 <= ValueOf(d) <= n
  {
    CanonicalPositive(d);
  }

  function ParamOf(d: string, params: seq<Option<string>>): string
    requires Digits(d) && IsPlaceholder(d, |params|)
  {
    PlaceholderValue(d, |params|);
    Replacement(params[ValueOf(d) - 1])
  }

  function Substituted(sql: string, params: seq<Option<string>>): string
    decreases |sql|
  {
    if sql == [] then []
    else if sql[0] == '$' then
      var d := NumeralAt(sql);
      (if IsPlaceholder(d, |params|) then ParamOf(d, params) else ['$'] + d)
        + Substituted(AfterNumeral(sql), params)
    else [sql[0]] + Substituted(sql[1..], params)
  }

  /** The number of the placeholder a text begins with; 0 if it begins with none. */
  function NextNumber(s: string, n: nat): (k: nat)
    ensures k <= n
  {
    if s != [] && s[0] == '$' && IsPlaceholder(NumeralAt(s), n) then ValueOf(NumeralAt(s)) else 0
  }

  /**
   No number in front of `rest` that the steps could replace wrongly.  A placeholder `$a` directly
   before `$b` must have 10 a >= b, or a replacement of `$b` that starts with a digit completes it
   to a number whose turn is still to come; a dollar sign alone before `$b` takes b <= 1.  What is
   no placeholder must not begin with one.
   */
  predicate Apart(d: string, rest: string, n: nat)
    requires Digits(d)
  {
    if IsPlaceholder(d, n) then NextNumber(rest, n) <= 10 * ValueOf(d)
    else Taken(d, n) == 0 && (d == [] ==> NextNumber(rest, n) <= 1)
  }

  predicate WellPlaced(sql: string, n: nat)
    decreases |sql|
  {
    sql == [] ||
    if sql[0] == '$' then Apart(NumeralAt(sql), AfterNumeral(sql), n) && WellPlaced(AfterNumeral(sql), n)
    else WellPlaced(sql[1..], n)
  }

  ghost predicate NoDollars(params: seq<Option<string>>) {
    forall i :: 0 <= i < |params| && params[i].Some? ==> '$' !in params[i].value
  }

  // ---- One replacement after the other.

  /** The text once the placeholders from `m` up are replaced. */
  function Partly(sql: string, params: seq<Option<string>>, m: nat): string
    decreases |sql|
  {
    if sql == [] then []
    else if sql[0] == '$' then
      var d := NumeralAt(sql);
      (if IsPlaceholder(d, |params|) && m <= ValueOf(d) then ParamOf(d, params) else ['$'] + d)
        + Partly(AfterNumeral(sql), params, m)
    else [sql[0]] + Partly(sql[1..], params, m)
  }

  lemma {:induction false} NothingSubstituted(sql: string, params: seq<Option<string>>, m: nat)
    requires m > |params|
    ensures Partly(sql, params, m) == sql
    decreases |sql|
  {
    if sql != [] {
      if sql[0] == '$' {
        NothingSubstituted(AfterNumeral(sql), params, m);
        assert sql == ['$'] + NumeralAt(sql) + AfterNumeral(sql);
      } else {
        NothingSubstituted(sql[1..], params, m);
      }
    }
  }

  lemma {:induction false} AllSubstituted(sql: string, params: seq<Option<string>>)
    ensures Partly(sql, params, 1) == Substituted(sql, params)
    decreases |sql|
  {
    if sql != [] {
      if sql[0] == '$' {
        AllSubstituted(AfterNumeral(sql), params);
        if IsPlaceholder(NumeralAt(sql), |params|) {
          PlaceholderValue(NumeralAt(sql), |params|);
        }
      } else {
        AllSubstituted(sql[1..], params);
      }
    }
  }

  predicate DigitFirst(s: string) {
    s != [] && IsDigit(s[0])
  }

  /** What the step for `$m` needs to find: no number runs into a digit that an earlier step put behind it. */
  predicate Separate(d: string, rest: string, params: seq<Option<string>>, m: nat)
    requires Digits(d)
  {
    var n, next := |params|, NextNumber(rest, |params|);
    && (IsPlaceholder(d, n) || Taken(d, n) == 0)
    && (next > m && DigitFirst(Replacement(params[next - 1])) ==>
          d != [] && (IsPlaceholder(d, n) ==> next <= 10 * ValueOf(d)))
  }

  predicate Ready(sql: string, params: seq<Option<string>>, m: nat)
    decreases |sql|
  {
    sql == [] ||
    if sql[0] == '$' then
      Separate(NumeralAt(sql), AfterNumeral(sql), params, m) && Ready(AfterNumeral(sql), params, m)
    else Ready(sql[1..], params, m)
  }

  lemma {:induction false} WellPlacedReady(sql: string, params: seq<Option<string>>, m: nat)
    requires WellPlaced(sql, |params|) && m >= 1
    ensures Ready(sql, params, m)
    decreases |sql|
  {
    hide Replacement, NextNumber, IsPlaceholder;
    if sql != [] {
      if sql[0] == '$' {
        WellPlacedReady(AfterNumeral(sql), params, m);
      } else {
        WellPlacedReady(sql[1..], params, m);
      }
    }
  }

  lemma {:induction false} SkipPlain(a: string, b: string, pattern: string, filler: string)
    requires pattern != [] && pattern[0] == '$' && '$' !in a
    ensures ReplaceAll(a + b, pattern, filler) == a + ReplaceAll(b, pattern, filler)
    decreases |a|
  {
    if a == [] {
      assert a + b == b;
    } else {
      assert (a + b)[0] == a[0] && a[0] in a;
      assert (a + b)[1..] == a[1..] + b;
      SkipPlain(a[1..], b, pattern, filler);
    }
  }

  lemma ReplacementPlain(param: Option<string>)
    requires param.Some? ==> '$' !in param.value
    ensures '$' !in Replacement(param) && Replacement(param) != []
  {
  }

  lemma ReplaceMatch(tail: string, pattern: string, filler: string)
    requires pattern != []
    ensures ReplaceAll(pattern + tail, pattern, filler) == filler + ReplaceAll(tail, pattern, filler)
  {
    assert (pattern + tail)[|pattern|..] == tail;
  }

  lemma DropFirst(c: char, a: string, b: string)
    ensures [c] + a <= [c] + b <==> a <= b
  {
    if [c] + a <= [c] + b {
      assert a == ([c] + a)[1..] && b == ([c] + b)[1..];
      assert forall i :: 0 <= i < |a| ==> a[i] == ([c] + a)[i + 1] == ([c] + b)[i + 1] == b[i];
    }
  }

  // A numeral that begins with `d` and goes on.
  lemma Extends(d: string, dm: string)
    requires Canonical(dm) && d < dm
    ensures Digits(d) && 10 * ValueOf(d) <= ValueOf(dm)
    ensures d != [] ==> Canonical(d)
  {
    var c := dm[|d|];
    assert dm[..|d| + 1] == d + [c];
    assert d == dm[..|d|];
    OneDigitMore(d, c);
    PrefixValue(dm, |d| + 1);
  }

  // Unless a digit that follows completes it, a smaller number does not start with `m`.
  lemma NoMatch(d: string, tail: string, m: nat, n: nat)
    requires Digits(d) && 1 <= m <= n && (IsPlaceholder(d, n) ==> ValueOf(d) < m)
    requires IsPlaceholder(d, n) || Taken(d, n) == 0
    requires DigitFirst(tail) ==> d != [] && (IsPlaceholder(d, n) ==> m < 10 * ValueOf(d))
    ensures !(Decimal(m) <= d + tail)
  {
    hide ValueOf, Decimal, Taken, IsDigit;
    var dm := Decimal(m);
    DecimalValue(m);
    DecimalCanonical(m);
    if dm <= d + tail {
      if |dm| <= |d| {
        assert d[..|dm|] == dm;
        TakenIsLongest(d, n, |dm|);
        PrefixValue(d, |dm|);
      } else {
        assert d < dm by {
          assert forall i :: 0 <= i < |d| ==> d[i] == (d + tail)[i] == dm[i];
        }
        assert dm[|d|] == (d + tail)[|d|] == tail[0];
        assert IsDigit(dm[|d|]);
        Extends(d, dm);
      }
    }
  }

  lemma NotReplaced(d: string, tail: string, m: nat, filler: string)
    requires Digits(d) && !(Decimal(m) <= d + tail)
    ensures ReplaceAll(['$'] + d + tail, Placeholder(m), filler)
         == ['$'] + d + ReplaceAll(tail, Placeholder(m), filler)
  {
    hide Decimal;
    var s := ['$'] + d + tail;
    assert s == ['$'] + (d + tail) && s[1..] == d + tail;
    DropFirst('$', Decimal(m), d + tail);
    assert !(Placeholder(m) <= s);
    SkipPlain(d, tail, Placeholder(m), filler);
  }

  // The text behind a number begins with a digit only if a placeholder there was replaced by one.
  lemma PartlyFirst(rest: string, params: seq<Option<string>>, m: nat)
    requires NoDollars(params) && (rest == [] || !IsDigit(rest[0]))
    ensures DigitFirst(Partly(rest, params, m)) ==>
      var next := NextNumber(rest, |params|);
      next >= m && next >= 1 && DigitFirst(Replacement(params[next - 1]))
  {
    hide Replacement, ValueOf, IsDigit, Canonical, Partly, NumeralAt, AfterNumeral;
    if rest == [] {
      PartlyOfNothing(params, m);
    } else if rest[0] != '$' {
      PartlyAtPlain(rest, params, m);
    } else {
      var d := NumeralAt(rest);
      NotADigit();
      PartlyAtDollar(rest, params, m);
      if IsPlaceholder(d, |params|) && m <= ValueOf(d) {
        PlaceholderValue(d, |params|);
        ReplacementPlain(params[ValueOf(d) - 1]);
        assert Partly(rest, params, m)[0] == Replacement(params[ValueOf(d) - 1])[0];
      } else {
        assert Partly(rest, params, m)[0] == '$';
      }
    }
  }

  lemma PartlyOfNothing(params: seq<Option<string>>, m: nat)
    ensures Partly([], params, m) == []
  {
  }

  lemma PartlyAtPlain(sql: string, params: seq<Option<string>>, m: nat)
    requires sql != [] && sql[0] != '$'
    ensures Partly(sql, params, m) == [sql[0]] + Partly(sql[1..], params, m)
  {
  }

  lemma NotADigit()
    ensures !IsDigit('$')
  {
  }

  lemma PartlyAtDollar(sql: string, params: seq<Option<string>>, m: nat)
    requires sql != [] && sql[0] == '$'
    ensures var d := NumeralAt(sql);
      Partly(sql, params, m)
      == (if IsPlaceholder(d, |params|) && m <= ValueOf(d) then ParamOf(d, params) else ['$'] + d)
         + Partly(AfterNumeral(sql), params, m)
  {
  }

  // The number `d` at a dollar sign: larger ones were replaced before, equal ones are now.
  lemma NumberStep(d: string, tail: string, params: seq<Option<string>>, m: nat)
    requires Digits(d) && NoDollars(params) && 1 <= m <= |params|
    requires IsPlaceholder(d, |params|) || Taken(d, |params|) == 0
    requires DigitFirst(tail) ==> d != [] && (IsPlaceholder(d, |params|) ==> m < 10 * ValueOf(d))
    ensures var p, filler := Placeholder(m), Replacement(params[m - 1]);
      ReplaceAll((if IsPlaceholder(d, |params|) && m + 1 <= ValueOf(d) then ParamOf(d, params) else ['$'] + d) + tail,
                 p, filler)
      == (if IsPlaceholder(d, |params|) && m <= ValueOf(d) then ParamOf(d, params) else ['$'] + d)
         + ReplaceAll(tail, p, filler)
  {
    hide ReplaceAll, Replacement, ValueOf, IsDigit, Decimal, Taken;
    var filler := Replacement(params[m - 1]);
    if IsPlaceholder(d, |params|) && m < ValueOf(d) {
      ReplacementPlain(params[ValueOf(d) - 1]);
      SkipPlain(ParamOf(d, params), tail, Placeholder(m), filler);
    } else if IsPlaceholder(d, |params|) && m == ValueOf(d) {
      CanonicalIsDecimal(d);
      assert ['$'] + d == Placeholder(m);
      ReplaceMatch(tail, Placeholder(m), filler);
    } else {
      NoMatch(d, tail, m, |params|);
      NotReplaced(d, tail, m, filler);
    }
  }

  /** Replacing `$m` takes the text from one stage to the next. */
  lemma {:induction false} OneStep(sql: string, params: seq<Option<string>>, m: nat)
    requires Ready(sql, params, m) && NoDollars(params) && 1 <= m <= |params|
    ensures ReplaceAll(Partly(sql, params, m + 1), Placeholder(m), Replacement(params[m - 1]))
         == Partly(sql, params, m)
    decreases |sql|
  {
    hide Decimal, Replacement, ValueOf, IsDigit, Taken, NextNumber, NoDollars, ReplaceAll, Partly, NumeralAt,
         AfterNumeral;
    var p, filler := Placeholder(m), Replacement(params[m - 1]);
    if sql == [] {
      NothingReplaced(p, filler);
      PartlyOfNothing(params, m);
      PartlyOfNothing(params, m + 1);
    } else if sql[0] != '$' {
      OneStep(sql[1..], params, m);
      PartlyAtPlain(sql, params, m);
      PartlyAtPlain(sql, params, m + 1);
      SkipPlain([sql[0]], Partly(sql[1..], params, m + 1), p, filler);
    } else {
      var d, rest := NumeralAt(sql), AfterNumeral(sql);
      OneStep(rest, params, m);
      PartlyFirst(rest, params, m + 1);
      NumberStep(d, Partly(rest, params, m + 1), params, m);
      PartlyAtDollar(sql, params, m);
      PartlyAtDollar(sql, params, m + 1);
    }
  }

  lemma NothingReplaced(pattern: string, filler: string)
    requires pattern != []
    ensures ReplaceAll([], pattern, filler) == []
  {
  }

  /** The steps from `$n` down to `$m`. */
  lemma {:induction false} Stages(sql: string, params: seq<Option<string>>, m: nat, from: nat)
    requires NoDollars(params) && 1 <= m <= from + 1 <= |params| + 1
    requires forall k :: m <= k <= from ==> Ready(sql, params, k)
    ensures Replaced(Partly(sql, params, from + 1), params, from) == Replaced(Partly(sql, params, m), params, m - 1)
    decreases from
  {
    hide Ready, ReplaceAll, Partly, NoDollars;
    if from >= m {
      OneStep(sql, params, from);
      Stages(sql, params, m, from - 1);
    }
  }

  lemma WellPlacedSubstituted(sql: string, params: seq<Option<string>>)
    requires WellPlaced(sql, |params|) && NoDollars(params)
    ensures Sequential(sql, params) == Substituted(sql, params)
  {
    hide WellPlaced, Ready, Partly, NoDollars;
    forall k | 1 <= k <= |params| ensures Ready(sql, params, k) {
      WellPlacedReady(sql, params, k);
    }
    NothingSubstituted(sql, params, |params| + 1);
    Stages(sql, params, 1, |params|);
    AllSubstituted(sql, params);
  }
}
