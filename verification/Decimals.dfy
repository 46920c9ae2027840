/** Decimal numerals. */
module Decimals {

  predicate IsDigit(c: char) {
    '0' <= c <= '9'
  }

  predicate Digits(d: string) {
    forall i :: 0 <= i < |d| ==> IsDigit(d[i])
  }

  function DigitOf(n: nat): (c: char)
    requires n < 10
    ensures IsDigit(c) && c as int - '0' as int == n
  {
    ('0' as int + n) as char
  }

  function Decimal(n: nat): (d: string)
    ensures d != [] && Digits(d)
  {
    if n < 10 then [DigitOf(n)] else Decimal(n / 10) + [DigitOf(n % 10)]
  }

  function ValueOf(d: string): nat
    requires Digits(d)
  {
    if d == [] then 0 else 10 * ValueOf(d[..|d| - 1]) + (d[|d| - 1] as int - '0' as int)
  }

  lemma {:induction false} DecimalValue(n: nat)
    ensures ValueOf(Decimal(n)) == n
  {
    if n >= 10 {
      DecimalValue(n / 10);
      assert Decimal(n)[..|Decimal(n)| - 1] == Decimal(n / 10);
    }
  }

  /** A number without leading zeros, and not 0. */
  predicate Canonical(d: string) {
    d != [] && Digits(d) && d[0] != '0'
  }

  lemma {:induction false} CanonicalPositive(d: string)
    requires Canonical(d)
    ensures ValueOf(d) >= 1
  {
    if |d| > 1 {
      CanonicalPositive(d[..|d| - 1]);
    }
  }

  lemma DecimalSnoc(n: nat, c: char)
    requires n >= 1 && IsDigit(c)
    ensures Decimal(10 * n + (c as int - '0' as int)) == Decimal(n) + [c]
  {
    var digit := c as int - '0' as int;
    assert (10 * n + digit) / 10 == n && (10 * n + digit) % 10 == digit;
    assert DigitOf(digit) == c;
  }

  lemma {:induction false} CanonicalIsDecimal(d: string)
    requires Canonical(d)
    ensures Decimal(ValueOf(d)) == d
  {
    var init, last := d[..|d| - 1], d[|d| - 1];
    if |d| == 1 {
      assert init == [] && ValueOf([]) == 0;
      assert ValueOf(d) < 10 && DigitOf(ValueOf(d)) == last;
    } else {
      hide Decimal;
      CanonicalIsDecimal(init);
      CanonicalPositive(init);
      DecimalSnoc(ValueOf(init), last);
      assert d == init + [last];
    }
  }

  /** A prefix of a number is not larger. */
  lemma {:induction false} PrefixValue(d: string, n: nat)
    requires Digits(d) && n <= |d|
    ensures ValueOf(d[..n]) <= ValueOf(d)
    decreases |d|
  {
    if n == |d| {
      assert d[..n] == d;
    } else {
      PrefixValue(d[..|d| - 1], n);
      assert d[..|d| - 1][..n] == d[..n];
    }
  }

  lemma {:induction false} DecimalCanonical(n: nat)
    requires n >= 1
    ensures Canonical(Decimal(n))
  {
    if n >= 10 {
      DecimalCanonical(n / 10);
    }
  }

  /** Numbers are equal if and only if their numerals are. */
  lemma NumeralOf(d: string, n: nat)
    requires Canonical(d)
    ensures ValueOf(d) == n <==> d == Decimal(n)
  {
    CanonicalIsDecimal(d);
    DecimalValue(n);
  }

  lemma OneDigitMore(d: string, c: char)
    requires Digits(d) && IsDigit(c)
    ensures Digits(d + [c]) && ValueOf(d + [c]) == 10 * ValueOf(d) + (c as int - '0' as int)
  {
    assert (d + [c])[..|d|] == d;
  }

  /** The digits a text begins with. */
  function DigitRun(s: string): (n: nat)
    ensures n <= |s| && Digits(s[..n]) && (n < |s| ==> !IsDigit(s[n]))
  {
    if s == [] || !IsDigit(s[0]) then 0
    else
      var n := DigitRun(s[1..]);
      assert forall i :: 0 <= i < n + 1 ==> IsDigit(s[i]) by {
        assert forall i :: 1 <= i < n + 1 ==> s[i] == s[1..][..n][i - 1];
      }
      n + 1
  }

  lemma {:induction false} DigitRunOf(d: string, rest: string)
    requires Digits(d) && (rest == [] || !IsDigit(rest[0]))
    ensures DigitRun(d + rest) == |d|
  {
    if d == [] {
      assert d + rest == rest;
    } else {
      assert (d + rest)[1..] == d[1..] + rest;
      DigitRunOf(d[1..], rest);
    }
  }

  /** The length of the longest canonical prefix that is at most `n`; 0 if there is none. */
  function Taken(d: string, n: nat): (l: nat)
    requires Digits(d)
    ensures l <= |d| && (l > 0 ==> Canonical(d[..l]) && ValueOf(d[..l]) <= n)
  {
    if d == [] then 0
    else if Canonical(d) && ValueOf(d) <= n then assert d[..|d|] == d; |d|
    else
      var l := Taken(d[..|d| - 1], n);
      assert d[..|d| - 1][..l] == d[..l];
      l
  }

  lemma {:induction false} TakenIsLongest(d: string, n: nat, k: nat)
    requires Digits(d) && k <= |d| && Canonical(d[..k]) && ValueOf(d[..k]) <= n
    ensures Taken(d, n) >= k
  {
    if k == |d| {
      assert d[..k] == d;
    } else {
      assert d[..|d| - 1][..k] == d[..k];
      TakenIsLongest(d[..|d| - 1], n, k);
    }
  }
}
