/**
  Candidate codes: `"HR"`, the calendar year, a hyphen and a random
  four-digit number, as `generate_candidate_code` formats them.
*/
module CandidateCodes {
  import opened Wrappers
  import opened Strings

  /** A calendar year as Python's `datetime` represents it. */
  type Year = y: int | 1 <= y <= 9999 witness 1

  /** A value of `random.randint(1000, 9999)`, both ends included. */
  type FourDigit = n: int | 1000 <= n <= 9999 witness 1000

  /** One call of the code generator: the year it read and the number it drew. */
  datatype Draw = Draw(year: Year, number: FourDigit)

  /** `f"HR{year}-{random_num}"`: the code the generator formats from its inputs. */
  function CandidateCode(year: Year, number: FourDigit): (c: string)
    ensures ParseCode(c) == Some((year, number))
    ensures c[|c| - 4..] == Decimal(number) && |c[|c| - 4..]| == 4
  {
    CodeRoundTrip(year, number);
    DecimalFourDigits(number);
    "HR" + Decimal(year) + "-" + Decimal(number)
  }

  function DrawCode(d: Draw): string {
    CandidateCode(d.year, d.number)
  }

  /** The year digits of a string shaped like a code. */
  function YearPart(c: string): string
    requires |c| >= 7
  {
    c[2..|c| - 5]
  }

  /** The four characters after the hyphen. */
  function NumberPart(c: string): string
    requires |c| >= 4
  {
    c[|c| - 4..]
  }

  /**
    The code format: `HR`, a year written without leading zeros, `-`, and a
    number in [1000, 9999] written with exactly four digits.
  */
  predicate IsCandidateCode(c: string) {
    && |c| >= 8
    && c[..2] == "HR"
    && c[|c| - 5] == '-'
    && IsDecimal(YearPart(c)) && 1 <= Value(YearPart(c)) <= 9999
    && IsDecimal(NumberPart(c)) && 1000 <= Value(NumberPart(c)) <= 9999
  }

  /** Reads the year and the number back out of a code. */
  function ParseCode(c: string): Option<(Year, FourDigit)> {
    if IsCandidateCode(c) then Some((Value(YearPart(c)), Value(NumberPart(c)))) else None
  }

  /** Parsing a formatted code gives back the year and number it was made from. */
  lemma CodeRoundTrip(year: Year, number: FourDigit)
    ensures ParseCode("HR" + Decimal(year) + "-" + Decimal(number)) == Some((year, number))
  {
    var y, n := Decimal(year), Decimal(number);
    var c := "HR" + y + "-" + n;
    DecimalFourDigits(number);
    ValueOfDecimal(year);
    ValueOfDecimal(number);
    assert YearPart(c) == y;
    assert NumberPart(c) == n;
    assert c[..2] == "HR";
  }

  /** Every string in the code format is the code of the year and number it parses to. */
  lemma ParseCodeInverse(c: string)
    requires ParseCode(c).Some?
    ensures CandidateCode(ParseCode(c).value.0, ParseCode(c).value.1) == c
  {
    var y, n := YearPart(c), NumberPart(c);
    DecimalOfValue(y);
    DecimalOfValue(n);
    assert c == c[..2] + y + [c[|c| - 5]] + n;
  }

  /** Distinct draws give distinct codes. */
  lemma CodeInjective(y1: Year, n1: FourDigit, y2: Year, n2: FourDigit)
    requires CandidateCode(y1, n1) == CandidateCode(y2, n2)
    ensures y1 == y2 && n1 == n2
  {
  }
}
