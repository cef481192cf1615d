/** The Receita Federal CNPJ rule: a 14-digit registration number whose last
    two digits are mod-11 check digits over the first twelve. */
module Cnpj {
  import opened Text

  const Weights1: seq<int> := [5, 4, 3, 2, 9, 8, 7, 6, 5, 4, 3, 2]
  const Weights2: seq<int> := [6, 5, 4, 3, 2, 9, 8, 7, 6, 5, 4, 3, 2]

  /** `sum(int(n) * w for n, w in zip(numbers, weights))`; `zip` stops at the shorter input. */
  function WeightedSum(numbers: string, weights: seq<int>): int
    requires AllDigits(numbers)
  {
    WeightedSumFrom(numbers, weights, 0)
  }

  /** The products from position `i` on. */
  function WeightedSumFrom(numbers: string, weights: seq<int>, i: nat): int
    requires AllDigits(numbers)
    decreases |numbers| - i
  {
    if i >= |numbers| || i >= |weights| then 0
    else DigitValue(numbers[i]) * weights[i] + WeightedSumFrom(numbers, weights, i + 1)
  }

  /** One check digit: `'0'` when the weighted sum leaves remainder 0 or 1
      modulo 11, otherwise the digit `11 - remainder`. */
  function CheckDigit(numbers: string, weights: seq<int>): (d: char)
    requires AllDigits(numbers)
    ensures IsDigit(d)
    ensures d == '0' <==> WeightedSum(numbers, weights) % 11 < 2
    ensures d != '0' ==> DigitValue(d) + WeightedSum(numbers, weights) % 11 == 11
  {
    var r := WeightedSum(numbers, weights) % 11;
    if r < 2 then '0' else DigitChar(11 - r)
  }

  /** The two check digits a 12-digit base calls for, in order. */
  function CheckDigits(base: string): (pair: string)
    requires AllDigits(base)
    ensures |pair| == 2 && AllDigits(pair)
  {
    var d1 := CheckDigit(base, Weights1);
    [d1, CheckDigit(base + [d1], Weights2)]
  }

  predicate AllSame(s: string) {
    forall i :: 0 <= i < |s| ==> s[i] == s[0]
  }

  /** Whether `cnpj`, with every non-digit character dropped, is a 14-digit
      number, not one digit repeated, ending in the check digits of its first twelve. */
  function IsValidCnpj(cnpj: string): (ok: bool)
    ensures ok ==> |OnlyDigits(cnpj)| == 14
    ensures ok ==> !AllSame(OnlyDigits(cnpj))
    ensures ok ==> OnlyDigits(cnpj)[12..] == CheckDigits(OnlyDigits(cnpj)[..12])
  {
    var digits := OnlyDigits(cnpj);
    if |digits| != 14 then false
    else if AllSame(digits) then false
    else digits[12..] == CheckDigits(digits[..12])
  }

  /** Formatting characters never matter: only the digits are looked at. */
  lemma ValidityIgnoresFormatting(cnpj: string)
    ensures IsValidCnpj(cnpj) == IsValidCnpj(OnlyDigits(cnpj))
  {
    OnlyDigitsIdempotent(cnpj);
  }

  /** A 14-digit number is valid exactly when its digits are not all equal and
      its last two are the check digits of its first twelve. */
  lemma ValidDigitsCharacterised(digits: string)
    requires AllDigits(digits) && |digits| == 14
    ensures IsValidCnpj(digits) <==> !AllSame(digits) && digits[12..] == CheckDigits(digits[..12])
  {
    OnlyDigitsOfDigits(digits);
  }

  /** The first twelve digits decide: for a base that is not one repeated
      digit, exactly one final pair of characters makes the number valid,
      namely its check digits. */
  lemma CheckDigitsUnique(base: string, a: char, b: char)
    requires AllDigits(base) && |base| == 12 && !AllSame(base)
    ensures IsValidCnpj(base + [a, b]) <==> [a, b] == CheckDigits(base)
  {
    var s := base + [a, b];
    var pair := CheckDigits(base);
    if IsDigit(a) && IsDigit(b) {
      assert AllDigits(s);
      ValidDigitsCharacterised(s);
      assert s[..12] == base && s[12..] == [a, b];
      var i :| 0 <= i < 12 && base[i] != base[0];
      assert s[i] != s[0];
    } else {
      OnlyDigitsAppend(base, [a, b]);
      OnlyDigitsOfDigits(base);
      assert |OnlyDigits([a, b])| < 2 by {
        assert [a, b][1..] == [b];
        assert [b][1..] == [];
      }
    }
  }

  /** Appending the check digits to any base that is not one repeated digit
      yields a valid number. */
  lemma WithCheckDigitsIsValid(base: string)
    requires AllDigits(base) && |base| == 12 && !AllSame(base)
    ensures IsValidCnpj(base + CheckDigits(base))
  {
    var pair := CheckDigits(base);
    assert pair == [pair[0], pair[1]];
    CheckDigitsUnique(base, pair[0], pair[1]);
  }

  /** Every 14-fold repetition of one digit is rejected, though `00000000000000`
      carries the check digits of its base. */
  lemma RepeatedDigitsInvalid(c: char)
    requires IsDigit(c)
    ensures !IsValidCnpj(seq(14, _ => c))
  {
    var s := seq(14, _ => c);
    assert AllSame(OnlyDigits(s)) by {
      OnlyDigitsOfDigits(s);
    }
  }

  /** A base, a pair of digits and the sums that justify them make a valid number. */
  lemma ValidVia(base: string, d1: char, d2: char)
    requires AllDigits(base) && |base| == 12 && !AllSame(base)
    requires IsDigit(d1) && IsDigit(d2)
    requires CheckDigit(base, Weights1) == d1
    requires CheckDigit(base + [d1], Weights2) == d2
    ensures IsValidCnpj(base + [d1, d2])
  {
    CheckDigitsUnique(base, d1, d2);
  }

  lemma ExampleSum1()
    ensures WeightedSum("114447770001", Weights1) == 214
  {
  }

  lemma ExampleSum2()
    ensures WeightedSum("1144477700016", Weights2) == 230
  {
  }

  /** The worked example `11444777000161` is valid. */
  lemma ExampleValid()
    ensures IsValidCnpj("11444777000161")
  {
    var base := "114447770001";
    ExampleSum1();
    assert base + ['6'] == "1144477700016";
    ExampleSum2();
    assert base[2] != base[0];
    ValidVia(base, '6', '1');
    assert base + ['6', '1'] == "11444777000161";
  }

  lemma CollisionSum1()
    ensures WeightedSum("228944240160", Weights1) == 188
  {
  }

  lemma CollisionSum2()
    ensures WeightedSum("2289442401600", Weights2) == 198
  {
  }

  lemma CollisionSum3()
    ensures WeightedSum("428944240160", Weights1) == 198
  {
  }

  lemma CollisionSum4()
    ensures WeightedSum("4289442401600", Weights2) == 210
  {
  }

  /** The first check digit of both collision bases: weighted sums 188 and
      198 leave remainders 1 and 0 modulo 11. */
  lemma CollisionDigit1(base: string)
    requires base == "228944240160" || base == "428944240160"
    ensures AllDigits(base) && CheckDigit(base, Weights1) == '0'
  {
    if base == "228944240160" {
      CollisionSum1();
    } else {
      CollisionSum3();
    }
  }

  /** The second check digit of both collision bases: weighted sums 198 and
      210 leave remainders 0 and 1 modulo 11. */
  lemma CollisionDigit2(base: string)
    requires base == "2289442401600" || base == "4289442401600"
    ensures AllDigits(base) && CheckDigit(base, Weights2) == '0'
  {
    if base == "2289442401600" {
      CollisionSum2();
    } else {
      CollisionSum4();
    }
  }

  lemma CollisionFirst()
    ensures IsValidCnpj("22894424016000")
  {
    var base := "228944240160";
    CollisionDigit1(base);
    assert base + ['0'] == "2289442401600";
    CollisionDigit2(base + ['0']);
    assert base[2] != base[0];
    ValidVia(base, '0', '0');
    assert base + ['0', '0'] == "22894424016000";
  }

  lemma CollisionSecond()
    ensures IsValidCnpj("42894424016000")
  {
    var base := "428944240160";
    CollisionDigit1(base);
    assert base + ['0'] == "4289442401600";
    CollisionDigit2(base + ['0']);
    assert base[1] != base[0];
    ValidVia(base, '0', '0');
    assert base + ['0', '0'] == "42894424016000";
  }

  /** The check digits do not catch every single-digit substitution: two
      numbers that differ only in their first digit are both valid, because
      remainders 0 and 1 both give the check digit `'0'`. */
  lemma SubstitutionNotAlwaysDetected()
    ensures IsValidCnpj("22894424016000") && IsValidCnpj("42894424016000")
    ensures "22894424016000"[1..] == "42894424016000"[1..]
  {
    CollisionFirst();
    CollisionSecond();
  }
}
