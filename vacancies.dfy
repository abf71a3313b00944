/** The vacancy record and its salary comparison (src/Vacancy.py). */
module Vacancies {
  import opened Wrappers
  import opened Strings

  /** The value under a `from` or `to` key of a salary object:
      the key is absent, present with `null`, or present with an integer. */
  datatype Amount = Missing | Null | Num(n: int)

  /** A vacancy's salary as the program meets it: `null`, a `{from, to}` object
      (an empty object is `Range(Missing, Missing)`), or a display string such
      as "от 1000". */
  datatype Salary = NullSalary | Range(from: Amount, to: Amount) | Text(text: string)

  /** A vacancy; the constructor stores its five arguments verbatim. */
  datatype Vacancy = Vacancy(id: string, title: string, link: string, salary: Salary, description: Option<string>)

  /** The display string meaning "salary not specified". */
  const UnspecifiedSalaryText: string := "Зарплата не указана"

  /** `int(salary.split(" ")[1])`: `None` where Python raises, either `IndexError`
      (no second piece) or `ValueError` (the piece is not an integer). */
  function SecondPieceAmount(salary: string): Option<int>
  {
    var pieces := Split(salary);
    if |pieces| < 2 then None else ParseInt(pieces[1])
  }

  /** `extract_salary_amount`: the number after "от" or "до", otherwise 0. */
  function ExtractSalaryAmount(salary: string): Option<int>
  {
    if Contains(salary, "от") then SecondPieceAmount(salary)
    else if Contains(salary, "до") then SecondPieceAmount(salary)
    else Some(0)
  }

  /** The piece after the first space of "word N" is N, parsed back. */
  lemma SecondPieceOfBound(word: string, x: int)
    requires ' ' !in word
    ensures SecondPieceAmount(word + " " + IntToString(x)) == Some(x)
  {
    SplitFirst(word, IntToString(x));
    SplitNoSpace(IntToString(x));
    ParseIntToString(x);
  }

  /** "от X" mentions "от" and not "до". */
  lemma MentionsLowerOnly(x: int)
    ensures Contains("от " + IntToString(x), "от")
    ensures !Contains("от " + IntToString(x), "до")
  {
    var r := "от " + IntToString(x);
    ContainsAt(r, "от", 0);
    assert 'д' !in r by {
      forall i | 0 <= i < |r| ensures r[i] != 'д' {
        if i >= 3 {
          assert r[i] == IntToString(x)[i - 3];
        }
      }
    }
    MissingCharNotContained(r, "до", 0);
  }

  /** "до Y" mentions "до" and not "от". */
  lemma MentionsUpperOnly(y: int)
    ensures Contains("до " + IntToString(y), "до")
    ensures !Contains("до " + IntToString(y), "от")
  {
    var r := "до " + IntToString(y);
    ContainsAt(r, "до", 0);
    assert 'т' !in r by {
      forall i | 0 <= i < |r| ensures r[i] != 'т' {
        if i >= 3 {
          assert r[i] == IntToString(y)[i - 3];
        }
      }
    }
    MissingCharNotContained(r, "от", 1);
  }

  /** "от X" yields X. */
  lemma ExtractLowerBound(x: int)
    ensures ExtractSalaryAmount("от " + IntToString(x)) == Some(x)
  {
    MentionsLowerOnly(x);
    assert "от " + IntToString(x) == "от" + " " + IntToString(x);
    SecondPieceOfBound("от", x);
  }

  /** "до Y" yields Y. */
  lemma ExtractUpperBound(y: int)
    ensures ExtractSalaryAmount("до " + IntToString(y)) == Some(y)
  {
    MentionsUpperOnly(y);
    assert "до " + IntToString(y) == "до" + " " + IntToString(y);
    SecondPieceOfBound("до", y);
  }

  /** "от X до Y" mentions both bounds. */
  lemma MentionsBoth(x: int, y: int)
    ensures Contains("от " + IntToString(x) + " до " + IntToString(y), "от")
    ensures Contains("от " + IntToString(x) + " до " + IntToString(y), "до")
  {
    var xs, ys := IntToString(x), IntToString(y);
    ContainsAt("от " + xs + " до " + ys, "от", 0);
    ContainsAt(" до ", "до", 1);
    ContainsWithin("от " + xs, " до ", ys, "до");
  }

  /** "от X до Y" yields X. */
  lemma ExtractBothBounds(x: int, y: int)
    ensures ExtractSalaryAmount("от " + IntToString(x) + " до " + IntToString(y)) == Some(x)
  {
    var xs, ys := IntToString(x), IntToString(y);
    var r := "от " + xs + " до " + ys;
    ContainsAt(r, "от", 0);
    assert r == "от" + " " + (xs + " " + ("до " + ys));
    SplitFirst("от", xs + " " + ("до " + ys));
    SplitFirst(xs, "до " + ys);
    ParseIntToString(x);
  }

  /** A string mentioning neither "от" nor "до" yields 0. */
  lemma ExtractWithoutBound(s: string)
    requires !Contains(s, "от") && !Contains(s, "до")
    ensures ExtractSalaryAmount(s) == Some(0)
  {
  }

  /** A string without the letters "о" and "д" mentions neither bound, so it
      yields 0; the "unspecified" string is one such. */
  lemma ExtractWithoutLetters(s: string)
    requires 'о' !in s && 'д' !in s
    ensures ExtractSalaryAmount(s) == Some(0)
  {
    MissingCharNotContained(s, "от", 0);
    MissingCharNotContained(s, "до", 0);
    ExtractWithoutBound(s);
  }

  /** The cases of tests/test_Vacancy.py:6-7. */
  lemma ExtractExamples()
    ensures ExtractSalaryAmount("от 1000") == Some(1000)
    ensures ExtractSalaryAmount("до 2000") == Some(2000)
  {
    ThousandsDigits();
    ExtractLowerBound(1000);
    ExtractUpperBound(2000);
  }

  /** The cases of tests/test_Vacancy.py:8-9. */
  lemma ExtractNoBoundExamples()
    ensures ExtractSalaryAmount("1000") == Some(0)
    ensures ExtractSalaryAmount(UnspecifiedSalaryText) == Some(0)
  {
    ExtractWithoutLetters("1000");
    ExtractWithoutLetters(UnspecifiedSalaryText);
  }

  lemma ThousandsDigits()
    ensures "от " + IntToString(1000) == "от 1000"
    ensures "до " + IntToString(2000) == "до 2000"
  {
    assert NatToString(1) == "1" && NatToString(2) == "2";
    assert NatToString(10) == "10" && NatToString(20) == "20";
    assert NatToString(100) == "100" && NatToString(200) == "200";
    assert IntToString(1000) == "1000" && IntToString(2000) == "2000";
  }

  /** What `extract_salary_amount` makes of any salary value: a string is
      parsed; an object has neither "от" nor "до" among its keys, so it gives 0;
      for `None`, `in` raises `TypeError`. */
  function SalaryAmount(s: Salary): Option<int>
  {
    match s
    case Text(t) => ExtractSalaryAmount(t)
    case Range(_, _) => Some(0)
    case NullSalary => None
  }

  predicate IsUnspecified(v: Vacancy)
  {
    v.salary == Text(UnspecifiedSalaryText)
  }

  /** `a < b` (`Vacancy.__lt__`); `None` where an amount cannot be extracted. */
  function Less(a: Vacancy, b: Vacancy): Option<bool>
  {
    if IsUnspecified(a) then Some(false)
    else if IsUnspecified(b) then Some(true)
    else
      match (SalaryAmount(a.salary), SalaryAmount(b.salary))
      case (Some(x), Some(y)) => Some(x < y)
      case _ => None
  }

  /** `a > b` (`Vacancy.__gt__`). */
  function Greater(a: Vacancy, b: Vacancy): Option<bool>
  {
    if IsUnspecified(a) then Some(true)
    else if IsUnspecified(b) then Some(false)
    else
      match (SalaryAmount(a.salary), SalaryAmount(b.salary))
      case (Some(x), Some(y)) => Some(x > y)
      case _ => None
  }

  /** `a == b` (`Vacancy.__eq__`). */
  function Equal(a: Vacancy, b: Vacancy): Option<bool>
  {
    if IsUnspecified(a) || IsUnspecified(b) then Some(false)
    else
      match (SalaryAmount(a.salary), SalaryAmount(b.salary))
      case (Some(x), Some(y)) => Some(x == y)
      case _ => None
  }

  /** An unspecified salary on the left compares as greater than anything,
      and equal to nothing. */
  lemma UnspecifiedOnLeft(a: Vacancy, b: Vacancy)
    requires IsUnspecified(a)
    ensures Less(a, b) == Some(false) && Greater(a, b) == Some(true) && Equal(a, b) == Some(false)
  {
  }

  /** An unspecified salary on the right only: the left side is the smaller one. */
  lemma UnspecifiedOnRight(a: Vacancy, b: Vacancy)
    requires !IsUnspecified(a) && IsUnspecified(b)
    ensures Less(a, b) == Some(true) && Greater(a, b) == Some(false) && Equal(a, b) == Some(false)
  {
  }

  /** Equality is not reflexive: an unspecified vacancy is not equal to itself. */
  lemma EqualNotReflexive(v: Vacancy)
    ensures IsUnspecified(v) ==> Equal(v, v) == Some(false)
    ensures !IsUnspecified(v) && SalaryAmount(v.salary).Some? ==> Equal(v, v) == Some(true)
  {
  }

  /** Two unspecified vacancies are each greater than the other. */
  lemma GreaterNotAsymmetric(a: Vacancy, b: Vacancy)
    requires IsUnspecified(a) && IsUnspecified(b)
    ensures Greater(a, b) == Some(true) && Greater(b, a) == Some(true)
    ensures Less(a, b) == Some(false) && Less(b, a) == Some(false)
  {
  }

  /** Without the unspecified string, the three comparisons follow the
      extracted amounts, and exactly one of them holds. */
  lemma Trichotomy(a: Vacancy, b: Vacancy, x: int, y: int)
    requires !IsUnspecified(a) && !IsUnspecified(b)
    requires SalaryAmount(a.salary) == Some(x) && SalaryAmount(b.salary) == Some(y)
    ensures Less(a, b) == Some(x < y) && Equal(a, b) == Some(x == y) && Greater(a, b) == Some(x > y)
    ensures (if x < y then 1 else 0) + (if x == y then 1 else 0) + (if x > y then 1 else 0) == 1
  {
  }

  /** Vacancies whose salaries are "от X" and "до Y" compare as X and Y
      (tests/test_Vacancy.py:36-49). */
  lemma CompareBounds(a: Vacancy, b: Vacancy, x: int, y: int)
    requires a.salary == Text("от " + IntToString(x))
    requires b.salary == Text("до " + IntToString(y))
    ensures Less(a, b) == Some(x < y) && Greater(a, b) == Some(x > y) && Equal(a, b) == Some(x == y)
    ensures Less(b, a) == Some(y < x) && Greater(b, a) == Some(y > x) && Equal(b, a) == Some(x == y)
  {
    assert a.salary.text[0] != UnspecifiedSalaryText[0];
    assert b.salary.text[0] != UnspecifiedSalaryText[0];
    ExtractLowerBound(x);
    ExtractUpperBound(y);
  }
}
