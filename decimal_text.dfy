/** The decimal amounts of the staking API. `Decimal(text)` in the snapshot
    tool turns the `balance.amount` string of a delegation into an exact
    number; the model reads the integer spellings `[+-]?[0-9]+` exactly and
    treats every other text as malformed. */
module DecimalText {
  import opened Wrappers

  predicate IsDigit(c: char) {
    '0' <= c <= '9'
  }

  predicate AllDigits(s: string) {
    forall i :: 0 <= i < |s| ==> IsDigit(s[i])
  }

  /** The value of a run of decimal digits, most significant first. */
  function DigitsValue(s: string): nat
    requires AllDigits(s)
  {
    if |s| == 0 then 0
    else DigitsValue(s[..|s| - 1]) * 10 + (s[|s| - 1] as int - '0' as int)
  }

  /** `Decimal(text)` for the integer spellings: an optional sign, then at
      least one digit. */
  function ParseAmount(text: string): (r: Option<int>)
    ensures r.Some? <==> WellFormedAmount(text)
  {
    if |text| > 0 && (text[0] == '-' || text[0] == '+') then
      var digits := text[1..];
      if |digits| > 0 && AllDigits(digits) then
        var magnitude: int := DigitsValue(digits);
        Some(if text[0] == '-' then -magnitude else magnitude)
      else None
    else if |text| > 0 && AllDigits(text) then Some(DigitsValue(text))
    else None
  }

  predicate WellFormedAmount(text: string) {
    var digits := if |text| > 0 && (text[0] == '-' || text[0] == '+') then text[1..] else text;
    |digits| > 0 && AllDigits(digits)
  }

  /** The canonical decimal spelling of a natural number. */
  function ShowNat(n: nat): (s: string)
    ensures |s| > 0 && AllDigits(s)
  {
    if n < 10 then [(('0' as int) + n) as char]
    else ShowNat(n / 10) + [(('0' as int) + n % 10) as char]
  }

  /** The canonical decimal spelling of an integer, as the API writes it. */
  function ShowAmount(n: int): string {
    if n < 0 then "-" + ShowNat(-n) else ShowNat(n)
  }

  lemma {:induction false} DigitsValueOfShowNat(n: nat)
    ensures DigitsValue(ShowNat(n)) == n
  {
    if n >= 10 {
      var s := ShowNat(n);
      assert s[..|s| - 1] == ShowNat(n / 10);
      DigitsValueOfShowNat(n / 10);
    }
  }

  /** Reading the canonical spelling of an amount gives the amount back. */
  lemma ParseShowAmount(n: int)
    ensures ParseAmount(ShowAmount(n)) == Some(n)
  {
    var text := ShowAmount(n);
    if n < 0 {
      var digits := ShowNat(-n);
      DigitsValueOfShowNat(-n);
      assert text == "-" + digits;
      assert text[0] == '-' && text[1..] == digits;
    } else {
      DigitsValueOfShowNat(n);
      assert text[0] != '-' && text[0] != '+';
    }
  }
}
