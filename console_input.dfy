/**
 * How the program turns one item read from standard input into the value of
 * the variable it extracts into. Every read (`std::cin >> x` and
 * `std::getline`) consumes exactly one item of the modelled input stream.
 *
 * `std::cin >> int` follows C++11: a token that is not a number stores 0, and
 * a number outside the range of `int` stores the nearest bound.
 * `std::cin >> bool` (without `boolalpha`) reads an integer as C++11 says: 0,
 * and a token that is not a number, store false; 1 stores true; any other
 * number stores true and fails the stream.
 */
module ConsoleInput {
  import opened Wrappers

  const INT_MIN: int := -0x8000_0000
  const INT_MAX: int := 0x7fff_ffff

  predicate IsDigit(c: char) {
    '0' <= c <= '9'
  }

  predicate AllDigits(s: string) {
    forall i :: 0 <= i < |s| ==> IsDigit(s[i])
  }

  /** The value of a string of decimal digits, most significant first. */
  function DigitsValue(s: string): (v: nat)
    requires AllDigits(s)
    ensures s == [] ==> v == 0
    decreases |s|
  {
    if s == [] then 0
    else 10 * DigitsValue(s[..|s| - 1]) + (s[|s| - 1] as int - '0' as int)
  }

  /** An optional sign followed by at least one decimal digit, as the whole token. */
  function ParseInteger(token: string): (r: Option<int>)
    ensures r.Some? <==> (|token| > 0 && AllDigits(token)) ||
                         (|token| > 1 && (token[0] == '-' || token[0] == '+') && AllDigits(token[1..]))
    ensures r.Some? && r.value < 0 ==> token[0] == '-'
  {
    if |token| > 1 && (token[0] == '-' || token[0] == '+') && AllDigits(token[1..]) then
      var magnitude: int := DigitsValue(token[1..]);
      Some(if token[0] == '-' then -magnitude else magnitude)
    else if |token| > 0 && AllDigits(token) then
      Some(DigitsValue(token))
    else
      None
  }

  /** The value `std::cin >> n` stores into an `int n`. */
  function ReadInt(token: string): (n: int)
    ensures INT_MIN <= n <= INT_MAX
    ensures ParseInteger(token).None? ==> n == 0
    ensures ParseInteger(token).Some? && INT_MIN <= ParseInteger(token).value <= INT_MAX ==>
              n == ParseInteger(token).value
    ensures ParseInteger(token).Some? && ParseInteger(token).value < INT_MIN ==> n == INT_MIN
    ensures ParseInteger(token).Some? && ParseInteger(token).value > INT_MAX ==> n == INT_MAX
  {
    match ParseInteger(token)
    case None => 0
    case Some(v) => if v < INT_MIN then INT_MIN else if v > INT_MAX then INT_MAX else v
  }

  /** The value `std::cin >> b` stores into a `bool b`. */
  function ReadBool(token: string): (b: bool)
    ensures !b <==> ReadInt(token) == 0
  {
    match ParseInteger(token)
    case None => false
    case Some(v) => v != 0
  }

  /** The student flag: "1" is yes, "0" and a non-number are no, and "2" is stored as yes. */
  lemma ReadBoolAnswers()
    ensures ReadBool("1") && !ReadBool("0") && !ReadBool("no") && ReadBool("2")
  {
    ReadIntDigit('0');
    ReadIntDigit('1');
    ReadIntDigit('2');
    assert !IsDigit("no"[0]);
  }

  /** The decimal digits of `k`, most significant first, with no leading zero. */
  function NatDigits(k: nat): (s: string)
    ensures |s| > 0 && AllDigits(s)
    ensures |s| > 1 ==> s[0] != '0'
    decreases k
  {
    var last := [('0' as int + k % 10) as char];
    if k < 10 then last else NatDigits(k / 10) + last
  }

  /** How an `int` is written in decimal: a `-` before the digits of a negative number. */
  function DecimalString(n: int): (s: string)
    ensures n < 0 <==> |s| > 0 && s[0] == '-'
  {
    if n < 0 then "-" + NatDigits(-n) else NatDigits(n)
  }

  /** Reading back the digits of `k` gives `k`. */
  lemma {:induction false} DigitsValueOfNatDigits(k: nat)
    ensures DigitsValue(NatDigits(k)) == k
    decreases k
  {
    var s := NatDigits(k);
    if k >= 10 {
      DigitsValueOfNatDigits(k / 10);
      assert s[..|s| - 1] == NatDigits(k / 10);
    }
  }

  /** Every integer, written in decimal, parses back to itself. */
  lemma ParseDecimal(n: int)
    ensures ParseInteger(DecimalString(n)) == Some(n)
  {
    var s := DecimalString(n);
    if n < 0 {
      DigitsValueOfNatDigits(-n);
      assert s[1..] == NatDigits(-n);
    } else {
      DigitsValueOfNatDigits(n);
      assert IsDigit(s[0]);
    }
  }

  /** `std::cin >> int` stores exactly the value of a decimal token in the range of `int`. */
  lemma ReadIntDecimal(n: int)
    requires INT_MIN <= n <= INT_MAX
    ensures ReadInt(DecimalString(n)) == n
  {
    ParseDecimal(n);
  }

  /** A one-character token that is a digit reads as that digit. */
  lemma ReadIntDigit(c: char)
    requires IsDigit(c)
    ensures ReadInt([c]) == c as int - '0' as int
  {
    assert AllDigits([c]);
    assert [c][..0] == [];
  }

  /** The menu choices "1" to "5" read as the integers 1 to 5. */
  lemma ReadIntChoices()
    ensures ReadInt("1") == 1 && ReadInt("2") == 2 && ReadInt("3") == 3
    ensures ReadInt("4") == 4 && ReadInt("5") == 5
  {
    ReadIntDigit('1');
    ReadIntDigit('2');
    ReadIntDigit('3');
    ReadIntDigit('4');
    ReadIntDigit('5');
  }
}
