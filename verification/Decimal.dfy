/** strconv.FormatUint and strconv.ParseUint in base 10. */
module Decimal {
  import opened Wrappers

  function DigitChar(d: nat): char
    requires d < 10
  {
    ('0' as int + d) as char
  }

  predicate IsDigit(c: char) {
    '0' <= c <= '9'
  }

  function DigitValue(c: char): nat
    requires IsDigit(c)
  {
    c as int - '0' as int
  }

  predicate AllDigits(s: string) {
    forall i :: 0 <= i < |s| ==> IsDigit(s[i])
  }

  /** FormatUint(n, 10). */
  function Render(n: nat): string {
    if n < 10 then [DigitChar(n)] else Render(n / 10) + [DigitChar(n % 10)]
  }

  function Value(s: string): nat
    requires AllDigits(s)
  {
    if s == "" then 0 else 10 * Value(s[..|s| - 1]) + DigitValue(s[|s| - 1])
  }

  /** ParseUint(s, 10, bits) with `max` the largest number of that width: no sign, no underscore. */
  function ParseUint(s: string, max: nat): Option<nat> {
    if s == "" || !AllDigits(s) || Value(s) > max then None else Some(Value(s))
  }

  /** A decimal numeral with no superfluous leading zero. */
  predicate Canonical(s: string) {
    s != "" && AllDigits(s) && (|s| > 1 ==> s[0] != '0')
  }

  lemma {:induction false} RenderIsCanonical(n: nat)
    ensures Canonical(Render(n))
    ensures Value(Render(n)) == n
    ensures n > 0 ==> Render(n)[0] != '0'
  {
    if n >= 10 {
      RenderIsCanonical(n / 10);
      assert Render(n)[..|Render(n)| - 1] == Render(n / 10);
    } else {
      assert Render(n)[..0] == "";
    }
  }

  lemma {:induction false} CanonicalIsRendered(s: string)
    requires Canonical(s)
    ensures Render(Value(s)) == s
    ensures |s| > 1 ==> Value(s) > 0
  {
    var front, last := s[..|s| - 1], s[|s| - 1];
    assert s == front + [last];
    if |s| > 1 {
      CanonicalIsRendered(front);
      assert front[0] == s[0];
      if |front| == 1 {
        assert front[..0] == "";
        assert Value(front) == DigitValue(front[0]);
      }
      assert Value(s) / 10 == Value(front) && Value(s) % 10 == DigitValue(last);
    }
  }

  /** Distinct numbers render differently. */
  lemma RenderInjective(m: nat, n: nat)
    requires Render(m) == Render(n)
    ensures m == n
  {
    RenderIsCanonical(m);
    RenderIsCanonical(n);
  }

  lemma NoDash(n: nat)
    ensures '-' !in Render(n)
  {
    RenderIsCanonical(n);
  }

  function Pow10(k: nat): nat {
    if k == 0 then 1 else 10 * Pow10(k - 1)
  }

  lemma {:induction false} RenderLength(n: nat, k: nat)
    requires k > 0 && n < Pow10(k)
    ensures |Render(n)| <= k
  {
    if n >= 10 {
      RenderLength(n / 10, k - 1);
    }
  }

  lemma RenderLength32(n: nat)
    requires n < 0x1_0000_0000
    ensures |Render(n)| <= 10
  {
    assert Pow10(4) == 10000;
    assert Pow10(7) == 1000_0000;
    assert Pow10(10) == 100_0000_0000;
    RenderLength(n, 10);
  }
}
