/**
 * `validateCPF` of the user controller: the modulo-11 check digits of a
 * Brazilian CPF number, as the sign-up handler computes them.
 */
module Cpf {
  import opened Wrappers

  /** 400 "Tamanho do CPF inválido!": fewer or more than 11 digits. */
  datatype CpfError = InvalidLength

  predicate IsDigit(c: char)
  {
    '0' <= c <= '9'
  }

  predicate AllDigits(s: string)
  {
    forall i :: 0 <= i < |s| ==> IsDigit(s[i])
  }

  /** `cpf.replace(/[^\d]/g, "")`: the digits of `s`, in order. */
  function DigitsOnly(s: string): (r: string)
    ensures AllDigits(r)
    ensures forall c :: IsDigit(c) ==> multiset(r)[c] == multiset(s)[c]
    ensures AllDigits(s) ==> r == s
  {
    if s == [] then []
    else
      assert s == [s[0]] + s[1..];
      (if IsDigit(s[0]) then [s[0]] else []) + DigitsOnly(s[1..])
  }

  /** Stripping distributes over concatenation, so the digits keep their order. */
  lemma {:induction false} DigitsOnlyAppend(a: string, b: string)
    ensures DigitsOnly(a + b) == DigitsOnly(a) + DigitsOnly(b)
  {
    if a == [] {
      assert a + b == b;
    } else {
      assert (a + b)[1..] == a[1..] + b;
      DigitsOnlyAppend(a[1..], b);
    }
  }

  /** `parseInt` of one digit. */
  function DigitValue(c: char): (v: int)
    requires IsDigit(c)
    ensures 0 <= v <= 9
  {
    c as int - '0' as int
  }

  /** The sum of the first `n` digits of `d`, digit `i` weighted `top - i`. */
  function WeightedSum(d: string, n: nat, top: int): (s: int)
    requires n <= |d| && AllDigits(d)
    ensures n <= top ==> 0 <= s <= 9 * n * top
  {
    if n == 0 then 0
    else
      var w := top - (n - 1);
      var v := DigitValue(d[n - 1]);
      if n <= top then
        SumStep(WeightedSum(d, n - 1, top), v, w, n, top);
        WeightedSum(d, n - 1, top) + v * w
      else
        WeightedSum(d, n - 1, top) + v * w
  }

  /** Adding one digit `v` with a weight `w` between 1 and `top` keeps the running sum within its bound. */
  lemma SumStep(prev: int, v: int, w: int, n: nat, top: int)
    requires 1 <= n && 1 <= w <= top && 0 <= v <= 9
    requires 0 <= prev <= 9 * (n - 1) * top
    ensures 0 <= prev + v * w <= 9 * n * top
  {
    assert 0 <= v * w <= 9 * w by {
      assert v * w <= 9 * w;
    }
    assert 9 * (n - 1) * top + 9 * top == 9 * n * top;
  }

  /** `mod < 2 ? 0 : 11 - mod` with `mod = sum % 11`: always a single digit. */
  function CheckDigit(sum: int): (digit: int)
    ensures 0 <= digit <= 9
    ensures sum % 11 < 2 ==> digit == 0
    ensures sum % 11 >= 2 ==> (digit + sum) % 11 == 0
  {
    var mod := sum % 11;
    if mod < 2 then 0 else 11 - mod
  }

  /** `/^(\d)\1+$/` on an 11-digit string: every digit equals the first. */
  predicate AllSame(d: string)
    ensures AllSame(d) <==> forall i, j :: 0 <= i < |d| && 0 <= j < |d| ==> d[i] == d[j]
  {
    forall i :: 0 <= i < |d| ==> d[i] == d[0]
  }

  /** The rule `validateCPF` applies: the second check digit weighs only the first nine digits, `11 - i`. */
  ghost predicate PassesWrittenRule(d: string)
    requires |d| == 11 && AllDigits(d)
  {
    !AllSame(d) &&
    DigitValue(d[9]) == CheckDigit(WeightedSum(d, 9, 10)) &&
    DigitValue(d[10]) == CheckDigit(WeightedSum(d, 9, 11))
  }

  /** The published CPF rule: the second check digit weighs the first ten digits, `11 - i`. */
  ghost predicate PassesStandardRule(d: string)
    requires |d| == 11 && AllDigits(d)
  {
    !AllSame(d) &&
    DigitValue(d[9]) == CheckDigit(WeightedSum(d, 9, 10)) &&
    DigitValue(d[10]) == CheckDigit(WeightedSum(d, 10, 11))
  }

  /**
   * `validateCPF` as written: throws on a length other than 11 after
   * stripping, rejects eleven equal digits, then compares both check digits.
   */
  method ValidateCpf(cpf: string) returns (r: Result<bool, CpfError>)
    ensures r.Failure? <==> |DigitsOnly(cpf)| != 11
    ensures r.Failure? ==> r.error == InvalidLength
    ensures r.Success? ==> (r.value <==> PassesWrittenRule(DigitsOnly(cpf)))
  {
    var d := DigitsOnly(cpf);
    if |d| != 11 {
      return Failure(InvalidLength);
    }
    if AllSame(d) {
      return Success(false);
    }

    var sum := 0;
    for i := 0 to 9
      invariant sum == WeightedSum(d, i, 10)
    {
      sum := sum + DigitValue(d[i]) * (10 - i);
    }
    var mod := sum % 11;
    var firstDigit := if mod < 2 then 0 else 11 - mod;
    assert firstDigit == CheckDigit(WeightedSum(d, 9, 10));

    sum := 0;
    for i := 0 to 9
      invariant sum == WeightedSum(d, i, 11)
    {
      sum := sum + DigitValue(d[i]) * (11 - i);
    }
    mod := sum % 11;
    var secondDigit := if mod < 2 then 0 else 11 - mod;
    assert secondDigit == CheckDigit(sum);

    if DigitValue(d[9]) != firstDigit || DigitValue(d[10]) != secondDigit {
      return Success(false);
    }
    return Success(true);
  }

  /**
   * `validateCPF` with the second sum running over the first ten digits,
   * as the published CPF rule has it.
   */
  method ValidateCpfStandard(cpf: string) returns (r: Result<bool, CpfError>)
    ensures r.Failure? <==> |DigitsOnly(cpf)| != 11
    ensures r.Failure? ==> r.error == InvalidLength
    ensures r.Success? ==> (r.value <==> PassesStandardRule(DigitsOnly(cpf)))
  {
    var d := DigitsOnly(cpf);
    if |d| != 11 {
      return Failure(InvalidLength);
    }
    if AllSame(d) {
      return Success(false);
    }

    var sum := 0;
    for i := 0 to 9
      invariant sum == WeightedSum(d, i, 10)
    {
      sum := sum + DigitValue(d[i]) * (10 - i);
    }
    var mod := sum % 11;
    var firstDigit := if mod < 2 then 0 else 11 - mod;
    assert firstDigit == CheckDigit(WeightedSum(d, 9, 10));

    sum := 0;
    for i := 0 to 10
      invariant sum == WeightedSum(d, i, 11)
    {
      sum := sum + DigitValue(d[i]) * (11 - i);
    }
    mod := sum % 11;
    var secondDigit := if mod < 2 then 0 else 11 - mod;
    assert secondDigit == CheckDigit(sum);

    if DigitValue(d[9]) != firstDigit || DigitValue(d[10]) != secondDigit {
      return Success(false);
    }
    return Success(true);
  }

  /** A weighted sum over the first `n` digits does not look past them. */
  lemma {:induction false} WeightedSumPrefix(d: string, e: string, n: nat, top: int)
    requires n <= |d| && n <= |e| && AllDigits(d) && AllDigits(e)
    requires d[..n] == e[..n]
    ensures WeightedSum(d, n, top) == WeightedSum(e, n, top)
  {
    if n > 0 {
      assert d[n - 1] == d[..n][n - 1] == e[..n][n - 1] == e[n - 1];
      assert d[..n - 1] == d[..n][..n - 1];
      assert e[..n - 1] == e[..n][..n - 1];
      WeightedSumPrefix(d, e, n - 1, top);
    }
  }

  /**
   * The as-written second check digit ignores the first check digit: two
   * numbers that differ only there get the same second digit, so the
   * second digit cannot guard the first as the published rule makes it do.
   */
  lemma WrittenSecondDigitIgnoresFirst(d: string, e: string)
    requires |d| == 11 && |e| == 11 && AllDigits(d) && AllDigits(e)
    requires d[..9] == e[..9]
    ensures CheckDigit(WeightedSum(d, 9, 11)) == CheckDigit(WeightedSum(e, 9, 11))
  {
    WeightedSumPrefix(d, e, 9, 11);
  }

  /** 529.982.247-25, a CPF number that satisfies the published rule. */
  const GenuineCpf: string := "52998224725"

  /**
   * The as-written rule rejects a number the published rule accepts: its
   * second sum for 529.982.247-25 is 343, whose check digit is 9, not 5.
   */
  lemma WrittenRuleRejectsGenuineCpf()
    ensures |GenuineCpf| == 11 && AllDigits(GenuineCpf)
    ensures PassesStandardRule(GenuineCpf)
    ensures !PassesWrittenRule(GenuineCpf)
  {
    var d := GenuineCpf;
    assert WeightedSum(d, 1, 10) == 50 && WeightedSum(d, 2, 10) == 68 && WeightedSum(d, 3, 10) == 140;
    assert WeightedSum(d, 4, 10) == 203 && WeightedSum(d, 5, 10) == 251 && WeightedSum(d, 6, 10) == 261;
    assert WeightedSum(d, 7, 10) == 269 && WeightedSum(d, 8, 10) == 281 && WeightedSum(d, 9, 10) == 295;
    assert WeightedSum(d, 1, 11) == 55 && WeightedSum(d, 2, 11) == 75 && WeightedSum(d, 3, 11) == 156;
    assert WeightedSum(d, 4, 11) == 228 && WeightedSum(d, 5, 11) == 284 && WeightedSum(d, 6, 11) == 296;
    assert WeightedSum(d, 7, 11) == 306 && WeightedSum(d, 8, 11) == 322 && WeightedSum(d, 9, 11) == 343;
    assert WeightedSum(d, 10, 11) == 347;
    assert d[1] != d[0];
  }

  /**
   * Completing nine digits (not all equal) with the published check digits
   * yields a number the corrected validator accepts.
   */
  lemma {:induction false} StandardCompletionAccepted(base: string)
    requires |base| == 9 && AllDigits(base) && !AllSame(base)
    ensures var first := CheckDigit(WeightedSum(base, 9, 10));
      var d1 := base + [('0' as int + first) as char];
      var second := CheckDigit(WeightedSum(d1, 10, 11));
      var d := d1 + [('0' as int + second) as char];
      |d| == 11 && AllDigits(d) && PassesStandardRule(d)
  {
    var first := CheckDigit(WeightedSum(base, 9, 10));
    var d1 := base + [('0' as int + first) as char];
    var second := CheckDigit(WeightedSum(d1, 10, 11));
    var d := d1 + [('0' as int + second) as char];
    assert d[..9] == base[..9];
    WeightedSumPrefix(d, base, 9, 10);
    assert d[..10] == d1[..10];
    WeightedSumPrefix(d, d1, 10, 11);
    var i :| 0 <= i < 9 && base[i] != base[0];
    assert d[i] != d[0];
  }
}
