/**
 * MathController.add: GET /add?a=..&b=.. answered with the int sum of the two
 * parameters, or an error text when either is missing or not an int.
 */
module MathController {
  import opened Wrappers
  import opened Text

  const RESULT_PREFIX: string := "Result: "
  const INVALID_NUMBERS: string := "Error: Invalid numbers"

  /** Integer.parseInt on a request parameter: a missing one (null) throws
      NumberFormatException just as text that is not an int does. */
  function ParseParam(s: Option<string>): (r: Option<int>)
    ensures r.Some? ==> s.Some? && ParseInt(s.value) == r
    ensures s.Some? && ParseInt(s.value).Some? ==> r.Some?
  {
    if s.None? then None else ParseInt(s.value)
  }

  /** add(a, b): the error text as soon as one parameter is not an int; otherwise
      "Result: " and the sum, added in 32-bit int arithmetic. */
  function Add(a: Option<string>, b: Option<string>): (r: string)
    ensures r == INVALID_NUMBERS <==> ParseParam(a).None? || ParseParam(b).None?
    ensures r != INVALID_NUMBERS ==> RESULT_PREFIX <= r
  {
    match ParseParam(a)
    case None => INVALID_NUMBERS
    case Some(numA) =>
      match ParseParam(b)
      case None => INVALID_NUMBERS
      case Some(numB) =>
        assert (RESULT_PREFIX + IntToString(Wrap32(numA + numB)))[5] != INVALID_NUMBERS[5];
        RESULT_PREFIX + IntToString(Wrap32(numA + numB))
  }

  // ------------------------------------------------------------------
  // Properties
  // ------------------------------------------------------------------

  /** The number after "Result: " reads back, with Integer.parseInt, as the sum of the
      two parameters; it is that sum exactly when the sum fits in an int, and wrapped
      modulo 2^32 otherwise. */
  lemma AddReadsBack(a: Option<string>, b: Option<string>)
    requires ParseParam(a).Some? && ParseParam(b).Some?
    ensures var sum := ParseParam(a).value + ParseParam(b).value;
            var r := Add(a, b);
            && RESULT_PREFIX <= r
            && ParseInt(r[|RESULT_PREFIX|..]) == Some(Wrap32(sum))
            && (IsInt32(sum) ==> ParseInt(r[|RESULT_PREFIX|..]) == Some(sum))
  {
    var sum := ParseParam(a).value + ParseParam(b).value;
    var digits := SumDigits(a, b);
    assert (RESULT_PREFIX + digits)[|RESULT_PREFIX|..] == digits;
    ParseIntToString(Wrap32(sum));
  }

  /** The text after "Result: " is Integer.toString of the int sum. */
  lemma SumDigits(a: Option<string>, b: Option<string>) returns (digits: string)
    requires ParseParam(a).Some? && ParseParam(b).Some?
    ensures digits == IntToString(Wrap32(ParseParam(a).value + ParseParam(b).value))
    ensures Add(a, b) == RESULT_PREFIX + digits
  {
    digits := IntToString(Wrap32(ParseParam(a).value + ParseParam(b).value));
  }

  /** The order of the parameters does not matter. */
  lemma AddCommutes(a: Option<string>, b: Option<string>)
    ensures Add(a, b) == Add(b, a)
  {
  }

  /** A missing parameter, or one that is not an int, gives the error text. */
  lemma AddRejects(a: Option<string>, b: Option<string>)
    requires a.None? || b.None? || ParseInt(a.value).None? || ParseInt(b.value).None?
    ensures Add(a, b) == INVALID_NUMBERS
  {
  }

  /** GET /add?a=5&b=3 answers "Result: 8". */
  lemma AddExample()
    ensures Add(Some("5"), Some("3")) == "Result: 8"
  {
    assert ParseInt("5") == Some(5) by {
      assert DigitsValue("5") == 5 by {
        assert "5"[..0] == [];
      }
    }
    assert ParseInt("3") == Some(3) by {
      assert DigitsValue("3") == 3 by {
        assert "3"[..0] == [];
      }
    }
  }

  /** The sum is an int sum: past the largest int it wraps around by 2^32, so two
      positive numbers can add up to a negative result. */
  lemma AddOverflowWraps(a: Option<string>, b: Option<string>)
    requires ParseParam(a).Some? && ParseParam(b).Some?
    requires ParseParam(a).value + ParseParam(b).value > INT_MAX
    ensures var sum := ParseParam(a).value + ParseParam(b).value;
            var r := Add(a, b);
            RESULT_PREFIX <= r && ParseInt(r[|RESULT_PREFIX|..]) == Some(sum - 0x1_0000_0000)
            && sum - 0x1_0000_0000 < 0
  {
    AddReadsBack(a, b);
    WrapOnce(ParseParam(a).value + ParseParam(b).value);
  }

  /** A sum of two ints above the largest int wraps exactly once. */
  lemma WrapOnce(n: int)
    requires INT_MAX < n <= 2 * INT_MAX
    ensures Wrap32(n) == n - 0x1_0000_0000
  {
    var m := n + 0x8000_0000;
    assert 0x1_0000_0000 <= m < 2 * 0x1_0000_0000;
    assert m % 0x1_0000_0000 == m - 0x1_0000_0000;
  }
}
