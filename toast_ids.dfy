/** Toast ids: the module-level counter that `genId` advances modulo
    `Number.MAX_SAFE_INTEGER`, and the decimal text `count.toString()` gives. */
module ToastIds {

  /** `Number.MAX_SAFE_INTEGER`, 2^53 - 1. */
  const MAX_SAFE_INTEGER: nat := 9007199254740991

  /** `(count + 1) % Number.MAX_SAFE_INTEGER`. */
  function NextCount(count: nat): (next: nat)
    ensures next < MAX_SAFE_INTEGER
    ensures count + 1 < MAX_SAFE_INTEGER ==> next == count + 1
    ensures count + 1 == MAX_SAFE_INTEGER ==> next == 0
  {
    (count + 1) % MAX_SAFE_INTEGER
  }

  /** The counter after `k` calls of `genId`. */
  function CountAfter(count: nat, k: nat): (c: nat)
    ensures k == 0 ==> c == count
    ensures k > 0 ==> c < MAX_SAFE_INTEGER
  {
    if k == 0 then count else NextCount(CountAfter(count, k - 1))
  }

  /** `k` calls advance the counter by `k`, modulo the wrap-around bound. */
  lemma {:induction false} CountAfterIsModular(count: nat, k: nat)
    requires count < MAX_SAFE_INTEGER
    ensures CountAfter(count, k) == (count + k) % MAX_SAFE_INTEGER
  {
    if k > 0 {
      CountAfterIsModular(count, k - 1);
      var x := count + k - 1;
      var q := x / MAX_SAFE_INTEGER;
      assert x == q * MAX_SAFE_INTEGER + x % MAX_SAFE_INTEGER;
      if x % MAX_SAFE_INTEGER + 1 == MAX_SAFE_INTEGER {
        assert x + 1 == (q + 1) * MAX_SAFE_INTEGER;
      } else {
        assert x + 1 == q * MAX_SAFE_INTEGER + (x % MAX_SAFE_INTEGER + 1);
      }
    }
  }

  /** Two calls fewer than `MAX_SAFE_INTEGER` apart see different counters. */
  lemma CountsDistinctUntilWrap(count: nat, i: nat, j: nat)
    requires count < MAX_SAFE_INTEGER
    requires i < j && j - i < MAX_SAFE_INTEGER
    ensures CountAfter(count, i) != CountAfter(count, j)
  {
    CountAfterIsModular(count, i);
    CountAfterIsModular(count, j);
    var a, b := count + i, count + j;
    var qa, qb := a / MAX_SAFE_INTEGER, b / MAX_SAFE_INTEGER;
    assert a == qa * MAX_SAFE_INTEGER + a % MAX_SAFE_INTEGER;
    assert b == qb * MAX_SAFE_INTEGER + b % MAX_SAFE_INTEGER;
  }

  /** After exactly `MAX_SAFE_INTEGER` calls the counter is back where it was. */
  lemma CountWrapsAfterMax(count: nat)
    requires count < MAX_SAFE_INTEGER
    ensures CountAfter(count, MAX_SAFE_INTEGER) == count
  {
    CountAfterIsModular(count, MAX_SAFE_INTEGER);
    assert count + MAX_SAFE_INTEGER == 1 * MAX_SAFE_INTEGER + count;
  }

  predicate IsDigit(c: char) { '0' <= c <= '9' }

  predicate IsDigits(s: string) { forall k | 0 <= k < |s| :: IsDigit(s[k]) }

  function Digit(d: nat): (c: char)
    requires d < 10
    ensures IsDigit(c)
  {
    "0123456789"[d]
  }

  function DigitValue(c: char): (d: nat)
    requires IsDigit(c)
    ensures d < 10
  {
    c as int - '0' as int
  }

  /** `n.toString()` for a non-negative integer below 10^21. */
  function DecimalString(n: nat): (s: string)
    ensures |s| >= 1 && IsDigits(s)
    ensures s[0] == '0' ==> n == 0
  {
    if n < 10 then [Digit(n)] else DecimalString(n / 10) + [Digit(n % 10)]
  }

  /** The number a string of decimal digits denotes. */
  function ParseDecimal(s: string): nat
    requires IsDigits(s)
  {
    if s == [] then 0 else 10 * ParseDecimal(s[..|s| - 1]) + DigitValue(s[|s| - 1])
  }

  /** Reading back the decimal text of `n` gives `n`. */
  lemma {:induction false} ParseDecimalString(n: nat)
    ensures ParseDecimal(DecimalString(n)) == n
  {
    var s := DecimalString(n);
    if n >= 10 {
      ParseDecimalString(n / 10);
      assert s[..|s| - 1] == DecimalString(n / 10);
    } else {
      assert s[..|s| - 1] == [];
    }
  }

  /** Different counters give different ids. */
  lemma DecimalStringInjective(a: nat, b: nat)
    requires DecimalString(a) == DecimalString(b)
    ensures a == b
  {
    ParseDecimalString(a);
    ParseDecimalString(b);
  }

  /** Consecutive `genId` results are distinct until the counter wraps. */
  lemma GeneratedIdsDistinct(count: nat, i: nat, j: nat)
    requires count < MAX_SAFE_INTEGER
    requires i < j && j - i < MAX_SAFE_INTEGER
    ensures DecimalString(CountAfter(count, i)) != DecimalString(CountAfter(count, j))
  {
    CountsDistinctUntilWrap(count, i, j);
    if DecimalString(CountAfter(count, i)) == DecimalString(CountAfter(count, j)) {
      DecimalStringInjective(CountAfter(count, i), CountAfter(count, j));
    }
  }
}
