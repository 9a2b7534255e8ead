/** Decimal notation of natural numbers, as Go's `%d` verb prints them. */
module Decimal {

  predicate IsDigit(c: char) { '0' <= c <= '9' }

  predicate AllDigits(s: string) { forall c :: c in s ==> IsDigit(c) }

  function Digit(d: nat): (c: char)
    requires d < 10
    ensures IsDigit(c) && c as int == '0' as int + d
  {
    ('0' as int + d) as char
  }

  function Dec(n: nat): string {
    if n < 10 then [Digit(n)] else Dec(n / 10) + [Digit(n % 10)]
  }

  /** The value of the last digit. */
  function LastDigit(s: string): (d: nat)
    requires s != "" && AllDigits(s)
    ensures d < 10 && s == s[..|s| - 1] + [Digit(d)]
  {
    assert IsDigit(s[|s| - 1]);
    s[|s| - 1] as int - '0' as int
  }

  function Value(s: string): nat
    requires AllDigits(s)
  {
    if s == "" then 0 else 10 * Value(s[..|s| - 1]) + LastDigit(s)
  }

  /** The numerals that Dec prints: digits, no superfluous leading zero. */
  predicate Canonical(s: string) {
    s != "" && AllDigits(s) && (s[0] == '0' ==> |s| == 1)
  }

  /** Reading what was printed gives the number back. */
  lemma {:induction false} ValueOfDec(n: nat)
    ensures Canonical(Dec(n)) && Value(Dec(n)) == n
    ensures Dec(n)[0] == '0' ==> n == 0
  {
    if n >= 10 {
      ValueOfDec(n / 10);
      var s := Dec(n / 10) + [Digit(n % 10)];
      assert s[..|s| - 1] == Dec(n / 10);
      assert s[0] == Dec(n / 10)[0];
    } else {
      assert Dec(n)[..0] == "";
      assert Value("") == 0;
    }
  }

  lemma ValueSnoc(init: string, d: nat)
    requires AllDigits(init) && d < 10
    ensures AllDigits(init + [Digit(d)])
    ensures Value(init + [Digit(d)]) == 10 * Value(init) + d
  {
    var s := init + [Digit(d)];
    assert s[..|s| - 1] == init;
  }

  lemma DecSnoc(n: nat, d: nat)
    requires n > 0 && d < 10
    ensures Dec(10 * n + d) == Dec(n) + [Digit(d)]
  {
    assert (10 * n + d) / 10 == n && (10 * n + d) % 10 == d;
  }

  lemma CanonicalInit(s: string)
    requires Canonical(s) && |s| > 1
    ensures Canonical(s[..|s| - 1]) && s[..|s| - 1][0] == s[0] != '0'
  {
    forall c | c in s[..|s| - 1]
      ensures IsDigit(c)
    {
      assert c in s;
    }
  }

  /** Printing what a canonical numeral denotes gives the numeral back. */
  lemma {:induction false} DecOfValue(s: string)
    requires Canonical(s)
    ensures Dec(Value(s)) == s
    ensures s[0] != '0' ==> Value(s) > 0
  {
    var init, d := s[..|s| - 1], LastDigit(s);
    if |s| > 1 {
      CanonicalInit(s);
      DecOfValue(init);
      ValueSnoc(init, d);
      DecSnoc(Value(init), d);
    } else {
      assert init == "";
    }
  }

  lemma DecInjective(m: nat, n: nat)
    requires Dec(m) == Dec(n)
    ensures m == n
  {
    ValueOfDec(m);
    ValueOfDec(n);
  }
}
