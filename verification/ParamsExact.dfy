/** For which texts the order of the replacements does not matter. */
module ParamsExact {
  import opened Types
  import opened Decimals
  import opened Params

  // ---- What the steps do if no replacement starts with a digit.

  /** What becomes of a dollar sign and the digits behind it: the longest number up to `m` is replaced. */
  function Resolved(d: string, params: seq<Option<string>>, m: nat): string
    requires Digits(d) && m <= |params|
  {
    var l := Taken(d, m);
    (if l == 0 then "$" else assert IsPlaceholder(d[..l], |params|); ParamOf(d[..l], params)) + d[l..]
  }

  function Greedy(s: string, params: seq<Option<string>>, m: nat): string
    requires m <= |params|
    decreases |s|
  {
    if s == [] then []
    else if s[0] == '$' then Resolved(NumeralAt(s), params, m) + Greedy(AfterNumeral(s), params, m)
    else [s[0]] + Greedy(s[1..], params, m)
  }

  lemma GreedyAtDollar(s: string, params: seq<Option<string>>, m: nat, d: string, tail: string)
    requires m <= |params| && s == ['$'] + d + tail && Digits(d) && !DigitFirst(tail)
    ensures Greedy(s, params, m) == Resolved(d, params, m) + Greedy(tail, params, m)
  {
    hide Resolved;
    assert s[1..] == d + tail;
    DigitRunOf(d, tail);
    assert (d + tail)[..|d|] == d && (d + tail)[|d|..] == tail;
  }

  lemma {:induction false} GreedyPlain(a: string, b: string, params: seq<Option<string>>, m: nat)
    requires m <= |params| && '$' !in a
    ensures Greedy(a + b, params, m) == a + Greedy(b, params, m)
    decreases |a|
  {
    hide Resolved;
    if a == [] {
      assert a + b == b;
    } else {
      assert (a + b)[0] == a[0] && a[0] in a;
      assert (a + b)[1..] == a[1..] + b;
      GreedyPlain(a[1..], b, params, m);
    }
  }

  lemma GreedyOfNothing(params: seq<Option<string>>, m: nat)
    requires m <= |params|
    ensures Greedy([], params, m) == []
  {
  }

  lemma SplitAtDollar(s: string)
    requires s != [] && s[0] == '$'
    ensures s == ['$'] + NumeralAt(s) + AfterNumeral(s) && !DigitFirst(AfterNumeral(s))
  {
  }

  lemma DigitsPlain(d: string)
    requires Digits(d)
    ensures '$' !in d
  {
  }

  // ---- One step.

  lemma ReplacedFirst(s: string, m: nat, filler: string)
    requires !DigitFirst(s) && !DigitFirst(filler) && filler != []
    ensures !DigitFirst(ReplaceAll(s, Placeholder(m), filler))
  {
  }

  // The longest number up to `m` at a dollar sign is `m` itself ...
  lemma TakesM(d: string, m: nat)
    requires Digits(d) && m >= 1 && Decimal(m) <= d
    ensures Taken(d, m) == |Decimal(m)|
  {
    hide Decimal, ValueOf;
    var dm, l := Decimal(m), Taken(d, m);
    DecimalCanonical(m);
    DecimalValue(m);
    assert d[..|dm|] == dm;
    TakenIsLongest(d, m, |dm|);
    if l > |dm| {
      assert dm < d[..l];
      Params.Extends(dm, d[..l]);
      CanonicalPositive(dm);
    }
  }

  // ... or is less than `m`.
  lemma TakesLess(d: string, m: nat)
    requires Digits(d) && m >= 1 && !(Decimal(m) <= d)
    ensures Taken(d, m) == Taken(d, m - 1)
  {
    hide Decimal, ValueOf;
    var k, l := Taken(d, m - 1), Taken(d, m);
    if k > 0 {
      TakenIsLongest(d, m, k);
    }
    if l > 0 {
      NumeralOf(d[..l], m);
      assert ValueOf(d[..l]) != m;
      TakenIsLongest(d, m - 1, l);
    }
  }

  lemma StepAtDollar(d: string, tail: string, params: seq<Option<string>>, m: nat)
    requires Digits(d) && !DigitFirst(tail) && NoDollars(params) && 1 <= m <= |params|
    requires !DigitFirst(Replacement(params[m - 1]))
    ensures var p, filler := Placeholder(m), Replacement(params[m - 1]);
      Greedy(ReplaceAll(['$'] + d + tail, p, filler), params, m - 1)
      == Resolved(d, params, m) + Greedy(ReplaceAll(tail, p, filler), params, m - 1)
  {
    hide Decimal, ValueOf, Greedy, ReplaceAll, DigitFirst, Replacement;
    var p, filler := Placeholder(m), Replacement(params[m - 1]);
    var dm, tail' := Decimal(m), ReplaceAll(tail, p, filler);
    ReplacementPlain(params[m - 1]);
    DigitsPlain(d);
    ReplacedFirst(tail, m, filler);
    if dm <= d {
      var l := |dm|;
      assert d == dm + d[l..];
      assert ['$'] + d + tail == p + (d[l..] + tail);
      ReplaceMatch(d[l..] + tail, p, filler);
      SkipPlain(d[l..], tail, p, filler);
      GreedyPlain(filler, d[l..] + tail', params, m - 1);
      GreedyPlain(d[l..], tail', params, m - 1);
      TakesM(d, m);
      DecimalValue(m);
      assert filler + (d[l..] + Greedy(tail', params, m - 1)) == (filler + d[l..]) + Greedy(tail', params, m - 1);
      assert d[..l] == dm;
    } else {
      NumeralEnds(d, tail, m);
      NotReplaced(d, tail, m, filler);
      GreedyAtDollar(['$'] + d + tail', params, m - 1, d, tail');
      TakesLess(d, m);
    }
  }

  lemma NumeralEnds(d: string, tail: string, m: nat)
    requires Digits(d) && !DigitFirst(tail) && !(Decimal(m) <= d)
    ensures !(Decimal(m) <= d + tail)
  {
    hide Decimal, IsDigit;
    var dm := Decimal(m);
    assert |dm| <= |d| ==> (d + tail)[..|dm|] == d[..|dm|];
    assert |d| < |dm| <= |d + tail| ==> (d + tail)[|d|] == tail[0];
  }

  lemma {:induction false} GreedyStep(s: string, params: seq<Option<string>>, m: nat)
    requires NoDollars(params) && 1 <= m <= |params| && !DigitFirst(Replacement(params[m - 1]))
    ensures Greedy(ReplaceAll(s, Placeholder(m), Replacement(params[m - 1])), params, m - 1) == Greedy(s, params, m)
    decreases |s|
  {
    hide Decimal, Replacement, Resolved, DigitFirst, ReplaceAll, Greedy, NoDollars;
    var p, filler := Placeholder(m), Replacement(params[m - 1]);
    if s == [] {
      NothingReplaced(p, filler);
      GreedyOfNothing(params, m);
      GreedyOfNothing(params, m - 1);
    } else if s[0] == '$' {
      var d, tail := NumeralAt(s), AfterNumeral(s);
      SplitAtDollar(s);
      GreedyStep(tail, params, m);
      StepAtDollar(d, tail, params, m);
      GreedyAtDollar(s, params, m, d, tail);
    } else {
      assert s == [s[0]] + s[1..];
      GreedyStep(s[1..], params, m);
      SkipPlain([s[0]], s[1..], p, filler);
      GreedyPlain([s[0]], s[1..], params, m);
      GreedyPlain([s[0]], ReplaceAll(s[1..], p, filler), params, m - 1);
    }
  }

  lemma {:induction false} GreedyZero(s: string, params: seq<Option<string>>)
    ensures Greedy(s, params, 0) == s
    decreases |s|
  {
    if s != [] {
      if s[0] == '$' {
        var d := NumeralAt(s);
        SplitAtDollar(s);
        if Taken(d, 0) > 0 {
          CanonicalPositive(d[..Taken(d, 0)]);
        }
        GreedyZero(AfterNumeral(s), params);
      } else {
        GreedyZero(s[1..], params);
      }
    }
  }

  /**
   Of any text, if no replacement starts with a digit: at every dollar sign the longest number that
   names a parameter is replaced.
   */
  lemma {:induction false} StepsAreGreedy(s: string, params: seq<Option<string>>, m: nat)
    requires NoDollars(params) && m <= |params|
    requires forall k :: 0 <= k < m ==> !DigitFirst(Replacement(params[k]))
    ensures Replaced(s, params, m) == Greedy(s, params, m)
    decreases m
  {
    hide Greedy, ReplaceAll, NoDollars, DigitFirst, Replacement;
    if m == 0 {
      GreedyZero(s, params);
    } else {
      GreedyStep(s, params, m);
      StepsAreGreedy(ReplaceAll(s, Placeholder(m), Replacement(params[m - 1])), params, m - 1);
    }
  }

  // ---- A text that is not well placed, and parameters that show it.

  /** The length, dollar signs counted twice. */
  function Weight(s: string): nat {
    if s == [] then 0 else (if s[0] == '$' then 2 else 1) + Weight(s[1..])
  }

  lemma {:induction false} WeightSum(a: string, b: string)
    ensures Weight(a + b) == Weight(a) + Weight(b)
  {
    if a == [] {
      assert a + b == b;
    } else {
      assert (a + b)[1..] == a[1..] + b;
      WeightSum(a[1..], b);
    }
  }

  lemma {:induction false} WeightPlain(a: string)
    requires '$' !in a
    ensures Weight(a) == |a|
  {
    if a != [] {
      assert a[0] in a;
      WeightPlain(a[1..]);
    }
  }

  /** All parameters are empty, except that parameter `b` is the digit `c`. */
  function Probe(n: nat, b: nat, c: char): seq<Option<string>> {
    seq(n, i => if i + 1 == b then Some([c]) else Some(""))
  }

  /** What a probe for `b` finds: a number that a digit in place of `$b` makes longer, or one cut short. */
  predicate Found(d: string, rest: string, n: nat, b: nat, c: char)
    requires Digits(d)
  {
    if b > n then !IsPlaceholder(d, n) && Taken(d, n) > 0
    else
      && NextNumber(rest, n) == b
      && (if IsPlaceholder(d, n) then c == '0' && 10 * ValueOf(d) < b else d == [] && c == '1' && 1 < b)
  }

  predicate FoundIn(sql: string, n: nat, b: nat, c: char)
    decreases |sql|
  {
    sql != [] &&
    if sql[0] == '$' then Found(NumeralAt(sql), AfterNumeral(sql), n, b, c) || FoundIn(AfterNumeral(sql), n, b, c)
    else FoundIn(sql[1..], n, b, c)
  }

  /** No numeral that is not a placeholder begins with one. */
  predicate NoneCut(sql: string, n: nat)
    decreases |sql|
  {
    sql == [] ||
    if sql[0] == '$' then
      (IsPlaceholder(NumeralAt(sql), n) || Taken(NumeralAt(sql), n) == 0) && NoneCut(AfterNumeral(sql), n)
    else NoneCut(sql[1..], n)
  }

  lemma {:induction false} NotWellPlaced(sql: string, n: nat) returns (b: nat, c: char)
    requires !WellPlaced(sql, n)
    ensures 1 <= b <= n + 1 && IsDigit(c) && FoundIn(sql, n, b, c) && (b <= n ==> NoneCut(sql, n))
    decreases |sql|
  {
    hide ValueOf, Taken, NumeralAt, AfterNumeral;
    b, c := n + 1, '0';
    if !NoneCut(sql, n) {
      CutIsFound(sql, n);
    } else if sql[0] != '$' {
      b, c := NotWellPlaced(sql[1..], n);
      CutIsNotFound(sql[1..], n);
    } else {
      var d, rest := NumeralAt(sql), AfterNumeral(sql);
      if Apart(d, rest, n) {
        b, c := NotWellPlaced(rest, n);
        CutIsNotFound(rest, n);
      } else {
        b := NextNumber(rest, n);
        c := if IsPlaceholder(d, n) then '0' else '1';
      }
    }
  }

  lemma {:induction false} CutIsFound(sql: string, n: nat)
    requires !NoneCut(sql, n)
    ensures FoundIn(sql, n, n + 1, '0')
    decreases |sql|
  {
    hide ValueOf, Taken, NumeralAt, AfterNumeral, IsPlaceholder;
    if sql[0] == '$' {
      if IsPlaceholder(NumeralAt(sql), n) || Taken(NumeralAt(sql), n) == 0 {
        CutIsFound(AfterNumeral(sql), n);
      }
    } else {
      CutIsFound(sql[1..], n);
    }
  }

  lemma {:induction false} CutIsNotFound(sql: string, n: nat)
    requires NoneCut(sql, n)
    ensures forall b, c :: b > n ==> !FoundIn(sql, n, b, c)
    decreases |sql|
  {
    hide ValueOf, Taken, NumeralAt, AfterNumeral, IsPlaceholder;
    if sql != [] {
      if sql[0] == '$' {
        CutIsNotFound(AfterNumeral(sql), n);
      } else {
        CutIsNotFound(sql[1..], n);
      }
    }
  }

  lemma ProbeReplacements(n: nat, b: nat, c: char)
    requires IsDigit(c)
    ensures NoDollars(Probe(n, b, c))
    ensures forall k :: 0 <= k < n ==> Replacement(Probe(n, b, c)[k]) == if k + 1 == b then [c] else "''"
  {
  }

  /** The steps above `b` see no digit that they could run into. */
  lemma {:induction false} ProbeReady(sql: string, n: nat, b: nat, c: char, m: nat)
    requires NoneCut(sql, n) && IsDigit(c) && 1 <= b <= m
    ensures Ready(sql, Probe(n, b, c), m)
    decreases |sql|
  {
    hide ValueOf, Taken, NumeralAt, AfterNumeral, IsPlaceholder, Replacement, Probe, NextNumber;
    ProbeReplacements(n, b, c);
    assert |Probe(n, b, c)| == n by { ProbeLength(n, b, c); }
    if sql != [] {
      if sql[0] == '$' {
        ProbeReady(AfterNumeral(sql), n, b, c, m);
      } else {
        ProbeReady(sql[1..], n, b, c, m);
      }
    }
  }

  lemma ProbeLength(n: nat, b: nat, c: char)
    ensures |Probe(n, b, c)| == n
  {
  }

  lemma ProbeFirst(rest: string, n: nat, b: nat, c: char)
    requires IsDigit(c) && 1 <= b && NextNumber(rest, n) == b
    ensures Partly(rest, Probe(n, b, c), b) != [] && Partly(rest, Probe(n, b, c), b)[0] == c
  {
    hide ValueOf, IsDigit, Canonical, Replacement, Partly, NumeralAt, AfterNumeral;
    ProbeReplacements(n, b, c);
    PartlyAtDollar(rest, Probe(n, b, c), b);
  }

  lemma TextWeight(d: string)
    requires Digits(d)
    ensures Weight(d) == |d| && Weight("$" + d) == 2 + |d|
  {
    DigitsPlain(d);
    WeightPlain(d);
    WeightSum("$", d);
    assert "$"[1..] == [];
  }

  lemma ResolvedWeight(s: string, n: nat, b: nat, c: char)
    requires Digits(s) && IsDigit(c) && 1 <= b <= n + 1
    ensures |Probe(n, b, c)| == n
    ensures Weight(Resolved(s, Probe(n, b, c), b - 1)) == 2 + |s| - Taken(s, b - 1)
  {
    hide Taken, Weight, Probe, Replacement, Decimal, ValueOf;
    var l, p := Taken(s, b - 1), Probe(n, b, c);
    ProbeReplacements(n, b, c);
    ProbeLength(n, b, c);
    if l > 0 {
      PlaceholderValue(s[..l], b - 1);
      TwoQuotes();
      WeightSum("''", s[l..]);
      TextWeight(s[l..]);
    } else {
      TextWeight(s);
      assert s[0..] == s;
    }
  }

  lemma TwoQuotes()
    ensures Weight("''") == 2
  {
    assert "''"[1..] == "'" && "'"[1..] == [];
  }

  lemma DigitsJoin(d: string, z: string)
    requires Digits(d) && Digits(z)
    ensures Digits(d + z)
  {
  }

  // With the digits `z` that come to stand behind it, at least the number `d` itself is taken.
  lemma TakenAhead(d: string, z: string, rest: string, n: nat, b: nat, c: char)
    requires Digits(d) && Digits(d + z) && IsDigit(c) && 1 <= b <= n + 1
    requires IsPlaceholder(d, n) ==> ValueOf(d) < b
    requires b <= n && NextNumber(rest, n) == b ==> z != [] && z[0] == c
    ensures var l := Taken(d + z, b - 1);
      if IsPlaceholder(d, n) then l >= |d| && (Found(d, rest, n, b, c) ==> l > |d|)
      else Found(d, rest, n, b, c) ==> l > 0
  {
    hide Taken, NextNumber, ValueOf;
    if IsPlaceholder(d, n) {
      PlaceholderTaken(d, z, b - 1);
      if Found(d, rest, n, b, c) {
        OneDigitMore(d, c);
        assert d + [c] + z[1..] == d + z;
        PlaceholderTaken(d + [c], z[1..], b - 1);
      }
    } else if Found(d, rest, n, b, c) {
      if b > n {
        var k := Taken(d, n);
        assert d[..k] + (d[k..] + z) == d + z;
        PlaceholderTaken(d[..k], d[k..] + z, n);
      } else {
        OneDigitMore([], c);
        NoValue();
        assert [] + [c] == [c] && [c] + z[1..] == d + z;
        PlaceholderTaken([c], z[1..], b - 1);
      }
    }
  }

  lemma NoValue()
    ensures ValueOf([]) == 0
  {
  }

  lemma PlaceholderTaken(d: string, z: string, m: nat)
    requires Digits(d) && Digits(d + z) && IsPlaceholder(d, m)
    ensures Taken(d + z, m) >= |d|
  {
    assert (d + z)[..|d|] == d;
    TakenIsLongest(d + z, m, |d|);
  }

  /** The result of the steps below `b` weighs no more than the simultaneous substitution. */
  lemma {:induction false} ProbeWeight(sql: string, n: nat, b: nat, c: char)
    requires IsDigit(c) && 1 <= b <= n + 1
    ensures var p := Probe(n, b, c);
      && |p| == n
      && Weight(Greedy(Partly(sql, p, b), p, b - 1)) <= Weight(Substituted(sql, p))
      && (FoundIn(sql, n, b, c) ==> Weight(Greedy(Partly(sql, p, b), p, b - 1)) < Weight(Substituted(sql, p)))
    decreases |sql|
  {
    hide Greedy, Partly, Weight, Substituted, Probe, NumeralAt, AfterNumeral, Found;
    var p := Probe(n, b, c);
    ProbeLength(n, b, c);
    if sql == [] {
      PartlyOfNothing(p, b);
      GreedyOfNothing(p, b - 1);
      NothingWeighs(p);
    } else if sql[0] != '$' {
      ProbeWeight(sql[1..], n, b, c);
      PartlyAtPlain(sql, p, b);
      SubstitutedAtPlain(sql, p);
      GreedyPlain([sql[0]], Partly(sql[1..], p, b), p, b - 1);
      WeightSum([sql[0]], Greedy(Partly(sql[1..], p, b), p, b - 1));
      WeightSum([sql[0]], Substituted(sql[1..], p));
    } else {
      ProbeWeight(AfterNumeral(sql), n, b, c);
      ProbeWeightAtDollar(sql, n, b, c);
    }
  }

  lemma NothingWeighs(p: seq<Option<string>>)
    ensures Weight([]) == 0 && Substituted([], p) == []
  {
  }

  lemma SubstitutedAtPlain(sql: string, p: seq<Option<string>>)
    requires sql != [] && sql[0] != '$'
    ensures Substituted(sql, p) == [sql[0]] + Substituted(sql[1..], p)
  {
  }

  lemma SubstitutedAtDollar(sql: string, p: seq<Option<string>>)
    requires sql != [] && sql[0] == '$'
    ensures var d := NumeralAt(sql);
      Substituted(sql, p)
      == (if IsPlaceholder(d, |p|) then ParamOf(d, p) else ['$'] + d) + Substituted(AfterNumeral(sql), p)
  {
  }

  lemma SplitDigits(x: string)
    ensures x == x[..DigitRun(x)] + x[DigitRun(x)..] && !DigitFirst(x[DigitRun(x)..])
  {
  }

  lemma HeadWeight(d: string, n: nat, b: nat, c: char)
    requires Digits(d) && IsDigit(c) && 1 <= b <= n + 1 && (IsPlaceholder(d, n) ==> ValueOf(d) < b)
    ensures var p := Probe(n, b, c);
      && |p| == n
      && Weight(if IsPlaceholder(d, n) then ParamOf(d, p) else ['$'] + d)
         == if IsPlaceholder(d, n) then 2 else 2 + |d|
  {
    hide Weight, Probe, Replacement, ValueOf, Canonical;
    ProbeReplacements(n, b, c);
    ProbeLength(n, b, c);
    TwoQuotes();
    TextWeight(d);
    if IsPlaceholder(d, n) {
      PlaceholderValue(d, n);
    }
  }

  lemma NotFoundAbove(d: string, rest: string, n: nat, b: nat, c: char)
    requires Digits(d) && IsPlaceholder(d, n) && b <= ValueOf(d)
    ensures !Found(d, rest, n, b, c)
  {
  }

  lemma KeptWeight(d: string, x: string, n: nat, b: nat, c: char)
    requires Digits(d) && Digits(d + x[..DigitRun(x)]) && IsDigit(c) && 1 <= b <= n + 1
    ensures var p := Probe(n, b, c);
      && |p| == n
      && Weight(Greedy(['$'] + d + x, p, b - 1))
         == 2 + |d| - Taken(d + x[..DigitRun(x)], b - 1) + Weight(Greedy(x, p, b - 1))
  {
    hide Greedy, Weight, Probe, Taken, Resolved, Digits, DigitFirst, IsDigit, DigitRun, Canonical, ValueOf;
    var p, z, y := Probe(n, b, c), x[..DigitRun(x)], x[DigitRun(x)..];
    ProbeLength(n, b, c);
    SplitDigits(x);
    DigitsPlain(z);
    GreedyPlain(z, y, p, b - 1);
    assert ['$'] + d + x == ['$'] + (d + z) + y;
    GreedyAtDollar(['$'] + d + x, p, b - 1, d + z, y);
    WeightSum(z, Greedy(y, p, b - 1));
    TextWeight(z);
    WeightSum(Resolved(d + z, p, b - 1), Greedy(y, p, b - 1));
    ResolvedWeight(d + z, n, b, c);
  }

  lemma ProbeWeightAtDollar(sql: string, n: nat, b: nat, c: char)
    requires IsDigit(c) && 1 <= b <= n + 1 && sql != [] && sql[0] == '$'
    ensures var p, rest := Probe(n, b, c), AfterNumeral(sql);
      && |p| == n
      && var slack := Weight(Substituted(rest, p)) - Weight(Greedy(Partly(rest, p, b), p, b - 1));
         var total := Weight(Substituted(sql, p)) - Weight(Greedy(Partly(sql, p, b), p, b - 1));
         slack <= total && (Found(NumeralAt(sql), rest, n, b, c) ==> slack < total)
  {
    hide Greedy, Partly, Weight, Substituted, Probe, NumeralAt, AfterNumeral, Taken, ValueOf, Canonical, Resolved;
    var p, d, rest := Probe(n, b, c), NumeralAt(sql), AfterNumeral(sql);
    ProbeLength(n, b, c);
    ProbeReplacements(n, b, c);
    var x := Partly(rest, p, b);
    PartlyAtDollar(sql, p, b);
    SubstitutedAtDollar(sql, p);
    if IsPlaceholder(d, n) && b <= ValueOf(d) {
      NotFoundAbove(d, rest, n, b, c);
      var r := ParamOf(d, p);
      ReplacementPlain(p[ValueOf(d) - 1]);
      GreedyPlain(r, x, p, b - 1);
      WeightSum(r, Greedy(x, p, b - 1));
      WeightSum(r, Substituted(rest, p));
    } else {
      var z := x[..DigitRun(x)];
      DigitsJoin(d, z);
      KeptWeight(d, x, n, b, c);
      if b <= n && NextNumber(rest, n) == b {
        ProbeFirst(rest, n, b, c);
      }
      TakenAhead(d, z, rest, n, b, c);
      HeadWeight(d, n, b, c);
      var head := if IsPlaceholder(d, n) then ParamOf(d, p) else ['$'] + d;
      WeightSum(head, Substituted(rest, p));
    }
  }

  /** The probe's parameters are substituted differently by the steps. */
  lemma ProbeDiffers(sql: string, n: nat, b: nat, c: char)
    requires IsDigit(c) && 1 <= b <= n + 1 && FoundIn(sql, n, b, c) && (b <= n ==> NoneCut(sql, n))
    ensures var p := Probe(n, b, c);
      |p| == n && NoDollars(p) && Sequential(sql, p) != Substituted(sql, p)
  {
    hide Greedy, Partly, Weight, Substituted, Probe, FoundIn, NoneCut, Ready, Replacement, ReplaceAll, NoDollars;
    var p := Probe(n, b, c);
    ProbeLength(n, b, c);
    ProbeReplacements(n, b, c);
    NothingSubstituted(sql, p, n + 1);
    if b <= n {
      forall m | b <= m <= n ensures Ready(sql, p, m) {
        ProbeReady(sql, n, b, c, m);
      }
      Stages(sql, p, b, n);
    }
    assert Sequential(sql, p) == Replaced(Partly(sql, p, b), p, b - 1);
    QuotesAreNoDigits();
    StepsAreGreedy(Partly(sql, p, b), p, b - 1);
    ProbeWeight(sql, n, b, c);
  }

  lemma QuotesAreNoDigits()
    ensures !DigitFirst("''")
  {
  }

  /**
   Replacing one placeholder after the other, from the last to the first, is substituting all at
   once, for all parameters without dollar signs, exactly if the text is well placed.
   */
  lemma SubstitutionExact(sql: string, n: nat)
    ensures (forall params :: |params| == n && NoDollars(params) ==>
               Sequential(sql, params) == Substituted(sql, params))
      <==> WellPlaced(sql, n)
  {
    hide WellPlaced, NoDollars, Sequential, Substituted, FoundIn, NoneCut;
    if WellPlaced(sql, n) {
      forall params | |params| == n && NoDollars(params) ensures Sequential(sql, params) == Substituted(sql, params) {
        WellPlacedSubstituted(sql, params);
      }
    } else {
      var b, c := NotWellPlaced(sql, n);
      ProbeDiffers(sql, n, b, c);
    }
  }

  // ---- Two placeholders side by side.

  lemma AtNumeral(d: string, rest: string)
    requires Digits(d) && !DigitFirst(rest)
    ensures NumeralAt(['$'] + d + rest) == d && AfterNumeral(['$'] + d + rest) == rest
  {
    assert (['$'] + d + rest)[1..] == d + rest;
    DigitRunOf(d, rest);
    assert (d + rest)[..|d|] == d && (d + rest)[|d|..] == rest;
  }

  /** `$a$b` is substituted correctly, whatever the parameters, exactly if 10 a >= b. */
  lemma AdjacentPair(a: nat, b: nat, n: nat)
    requires 1 <= a <= n && 1 <= b <= n
    ensures WellPlaced(Placeholder(a) + Placeholder(b), n) <==> b <= 10 * a
  {
    hide Decimal, ValueOf, NumeralAt, AfterNumeral, Taken;
    var da, db := Decimal(a), Decimal(b);
    DecimalCanonical(a);
    DecimalCanonical(b);
    DecimalValue(a);
    DecimalValue(b);
    assert Placeholder(a) + Placeholder(b) == ['$'] + da + (['$'] + db + []);
    assert ['$'] + db + [] == Placeholder(b);
    AtNumeral(da, ['$'] + db + []);
    AtNumeral(db, []);
    assert WellPlaced([], n);
    assert NextNumber([], n) == 0;
    assert WellPlaced(Placeholder(b), n);
  }

  /** Twelve parameters: the eleventh is 9, the others are 1. */
  function NineAtEleven(): seq<Option<string>> {
    seq(12, i => if i == 10 then Some("9") else Some("1"))
  }

  lemma Numerals()
    ensures Decimal(1) == "1" && Decimal(11) == "11" && Decimal(12) == "12"
    ensures Canonical("1") && Canonical("12") && ValueOf("1") == 1 && ValueOf("12") == 12
  {
    DecimalCanonical(1);
    DecimalCanonical(12);
    DecimalValue(1);
    DecimalValue(12);
  }

  lemma AllAtOnce()
    ensures Substituted("$1$12", NineAtEleven()) == "11"
  {
    hide ValueOf, Decimal, NumeralAt, AfterNumeral, Substituted, Replacement, NineAtEleven, IsDigit, Canonical;
    var params := NineAtEleven();
    Numerals();
    NineReplacements();
    assert "$1$12" == ['$'] + "1" + "$12" && "$12" == ['$'] + "12" + "";
    NotADigit();
    NoDigitFirst();
    AtNumeral("1", "$12");
    AtNumeral("12", "");
    SubstitutedAtDollar("$1$12", params);
    SubstitutedAtDollar("$12", params);
    NothingWeighs(params);
  }

  lemma NoDigitFirst()
    ensures !DigitFirst("$12") && !DigitFirst("")
  {
  }

  lemma NineReplacements()
    ensures var params := NineAtEleven();
      && |params| == 12
      && Replacement(params[11]) == "1" && Replacement(params[10]) == "9" && Replacement(params[0]) == "1"
  {
  }

  lemma FirstSteps()
    ensures ReplaceAll("$1$12", "$12", "1") == "$11" && ReplaceAll("$11", "$11", "9") == "9"
  {
    assert "$1$12"[2] != "$12"[2] && "$1$12"[1..] == "1$12" && "1$12"[1..] == "$12" && "$12"[3..] == "";
    assert ReplaceAll("$12", "$12", "1") == "1" + "" == "1";
    assert ReplaceAll("1$12", "$12", "1") == "1" + "1" == "11";
    assert "$11"[3..] == "";
  }

  lemma {:induction false} NoDollarsLeft(s: string, params: seq<Option<string>>, m: nat)
    requires '$' !in s && m <= |params|
    ensures Replaced(s, params, m) == s
    decreases m
  {
    if m > 0 {
      hide ReplaceAll, Replacement;
      var p, filler := Placeholder(m), Replacement(params[m - 1]);
      SkipPlain(s, [], p, filler);
      NothingReplaced(p, filler);
      assert s + [] == s;
      NoDollarsLeft(s, params, m - 1);
    }
  }

  /**
   Placeholders that run together: the replacement of `$12` behind `$1` makes a `$11`, which the
   next step replaces.
   */
  lemma PlaceholdersRunTogether()
    ensures Sequential("$1$12", NineAtEleven()) == "9"
    ensures Substituted("$1$12", NineAtEleven()) == "11"
  {
    hide ReplaceAll, Decimal, Placeholder, Substituted, Replacement, NineAtEleven, Replaced;
    AllAtOnce();
    FirstSteps();
    Numerals();
    NineReplacements();
    var params := NineAtEleven();
    ElevenAndTwelve();
    StepOf("$1$12", params, 12);
    StepOf("$11", params, 11);
    NoDollarsLeft("9", params, 10);
  }

  lemma ElevenAndTwelve()
    ensures Placeholder(12) == "$12" && Placeholder(11) == "$11"
  {
    hide Decimal;
    Numerals();
  }

  lemma StepOf(s: string, params: seq<Option<string>>, m: nat)
    requires 1 <= m <= |params|
    ensures Replaced(s, params, m)
      == Replaced(ReplaceAll(s, Placeholder(m), Replacement(params[m - 1])), params, m - 1)
  {
  }
}
