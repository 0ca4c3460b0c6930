/** The string helpers of the factor-analysis tool: spreadsheet-style
    column letters for factor labels, and the validators of the number of
    topics and of the result name. The existing results are an input. */
module EfaAnalysis {
  import opened PyText
  import opened Validation

  // ---------------------------------------------------------------------
  // base26

  /** An upper-case letter, read as the digit `A` = 1 … `Z` = 26. */
  predicate IsLetter(c: char) {
    'A' <= c <= 'Z'
  }

  predicate IsColumn(s: string) {
    forall k :: 0 <= k < |s| ==> IsLetter(s[k])
  }

  /** The column letters of `n` in bijective base 26, most significant
      letter first: a remainder `m` in 1..25 is the letter `chr(64 + m)`
      and leaves `n / 26`; a remainder 0 is `Z` and leaves `n / 26 - 1`. */
  function ToColumn(n: nat): (s: string)
    ensures n == 0 <==> s == []
    ensures IsColumn(s)
    decreases n
  {
    if n == 0 then ""
    else if n % 26 > 0 then ToColumn(n / 26) + [(64 + n % 26) as char]
    else ToColumn(n / 26 - 1) + ['Z']
  }

  /** The number column letters stand for: each letter is worth
      `A` = 1 … `Z` = 26 times a power of 26. */
  function FromColumn(s: string): (n: nat)
    requires IsColumn(s)
    ensures s != [] ==> n >= 1
  {
    if s == [] then 0
    else 26 * FromColumn(s[..|s| - 1]) + (s[|s| - 1] as int - 64)
  }

  /** Reading the letters back gives the number. */
  lemma {:induction false} ColumnRoundTrip(n: nat)
    ensures FromColumn(ToColumn(n)) == n
    decreases n
  {
    if n > 0 {
      var s := ToColumn(n);
      var q := if n % 26 > 0 then n / 26 else n / 26 - 1;
      ColumnRoundTrip(q);
      assert s[..|s| - 1] == ToColumn(q);
    }
  }

  /** Every string of letters is the column of the number it stands for,
      so `ToColumn` reaches every such string exactly once. */
  lemma {:induction false} ColumnRoundTripBack(s: string)
    requires IsColumn(s)
    ensures ToColumn(FromColumn(s)) == s
    decreases |s|
  {
    if s != [] {
      var prefix := s[..|s| - 1];
      var m := FromColumn(prefix);
      var d := s[|s| - 1] as int - 64;
      var n := 26 * m + d;
      assert 1 <= d <= 26;
      ColumnRoundTripBack(prefix);
      if d < 26 {
        assert n / 26 == m && n % 26 == d;
      } else {
        assert n / 26 == m + 1 && n % 26 == 0;
      }
      assert s == prefix + [s[|s| - 1]];
    }
  }

  /** Different numbers have different columns. */
  lemma ToColumnInjective(m: nat, n: nat)
    requires ToColumn(m) == ToColumn(n)
    ensures m == n
  {
    ColumnRoundTrip(m);
    ColumnRoundTrip(n);
  }

  /** The digit rule at the first carries. */
  lemma ColumnExamples()
    ensures ToColumn(1) == "A" && ToColumn(26) == "Z"
    ensures ToColumn(27) == "AA" && ToColumn(52) == "AZ" && ToColumn(53) == "BA"
    ensures ToColumn(702) == "ZZ" && ToColumn(703) == "AAA"
  {
    assert ToColumn(1) == "A";
    assert ToColumn(26) == "Z";
    assert ToColumn(27) == "AA";
    assert ToColumn(52) == "AZ";
    assert ToColumn(53) == "BA";
    assert ToColumn(702) == ToColumn(26) + ['Z'];
    assert ToColumn(703) == ToColumn(27) + ['A'];
  }

  /** Appending to a string puts the new character first in its reverse. */
  lemma ReverseAppend(s: string, c: char)
    ensures Reverse(s + [c]) == [c] + Reverse(s)
  {
    var r := Reverse(s + [c]);
    assert r[0] == c;
    forall k | 1 <= k < |r|
      ensures r[k] == Reverse(s)[k - 1]
    {
      assert (s + [c])[|s| - k] == s[|s| - k];
    }
  }

  /** `base26(n)`: the letters are produced least significant first and
      reversed at the end. The loop ends because `n` decreases on every
      pass; a negative `n` never reaches 0 and is outside the model. */
  method Base26(n: nat) returns (a: string)
    ensures a == ToColumn(n)
  {
    var m := n;
    var acc := "";
    while m != 0
      invariant ToColumn(n) == ToColumn(m) + Reverse(acc)
      decreases m
    {
      var r := m % 26;
      ghost var prev := Reverse(acc);
      if r > 0 {
        m := m / 26;
        ReverseAppend(acc, (64 + r) as char);
        acc := acc + [(64 + r) as char];
      } else {
        m := m / 26 - 1;
        ReverseAppend(acc, 'Z');
        acc := acc + ['Z'];
      }
      assert ToColumn(m) + Reverse(acc) == ToColumn(m) + [acc[|acc| - 1]] + prev;
    }
    a := Reverse(acc);
  }

  // ---------------------------------------------------------------------
  // plot_efa: the factor labels

  /** `[f'Factor {base26(x + 1)}' for x in range(number_topics)]` */
  function XLabels(numberTopics: int): (labels: seq<string>)
    ensures |labels| == if numberTopics <= 0 then 0 else numberTopics
  {
    seq(if numberTopics <= 0 then 0 else numberTopics, x requires x >= 0 => "Factor " + ToColumn(x + 1))
  }

  /** Label `x` names factor `x + 1`: after the prefix `Factor ` come the
      non-empty column letters of `x + 1`. */
  lemma XLabelAt(numberTopics: int, x: nat)
    requires x < numberTopics
    ensures StartsWith(XLabels(numberTopics)[x], "Factor ")
    ensures var letters := XLabels(numberTopics)[x][7..];
            letters != [] && IsColumn(letters) && FromColumn(letters) == x + 1
  {
    var shown := XLabels(numberTopics)[x];
    assert shown == "Factor " + ToColumn(x + 1);
    assert shown[7..] == ToColumn(x + 1);
    ColumnRoundTrip(x + 1);
  }

  /** No two factors share a label. */
  lemma XLabelsDistinct(numberTopics: int, i: nat, j: nat)
    requires i < j < numberTopics
    ensures XLabels(numberTopics)[i] != XLabels(numberTopics)[j]
  {
    XLabelAt(numberTopics, i);
    XLabelAt(numberTopics, j);
  }

  // ---------------------------------------------------------------------
  // Validators

  predicate IsDigit(c: char) {
    '0' <= c <= '9'
  }

  /** `check_number`: accepts a non-empty string of digits; `isdigit` is
      false for the empty string. */
  function CheckNumber(number: string): (r: Validated)
    ensures r.Valid? <==> number != [] && forall k :: 0 <= k < |number| ==> IsDigit(number[k])
    ensures !r.Valid? ==> r == ValidationError(number + " is not a valid number...")
  {
    if number != [] && forall k :: 0 <= k < |number| ==> IsDigit(number[k]) then Valid
    else ValidationError(number + " is not a valid number...")
  }

  /** `str(n)`: the decimal digits of `n`, most significant first. */
  function Decimal(n: nat): (s: string)
    ensures s != [] && forall k :: 0 <= k < |s| ==> IsDigit(s[k])
  {
    if n < 10 then [('0' as int + n) as char] else Decimal(n / 10) + [('0' as int + n % 10) as char]
  }

  function Pow10(e: nat): (p: nat)
    ensures p >= 1
  {
    if e == 0 then 1 else 10 * Pow10(e - 1)
  }

  /** `int(s)` for a string of digits: below `10^|s|`, and at least
      `10^(|s|-1)` when the first digit is not `0`. */
  function DecimalValue(s: string): (v: nat)
    requires forall k :: 0 <= k < |s| ==> IsDigit(s[k])
    ensures v < Pow10(|s|)
    ensures s != [] && s[0] != '0' ==> Pow10(|s| - 1) <= v
  {
    if s == [] then 0
    else
      assert IsDigit(s[|s| - 1]);
      10 * DecimalValue(s[..|s| - 1]) + (s[|s| - 1] as int - '0' as int)
  }

  /** The number of topics is read back from what the user typed. */
  lemma {:induction false} DecimalRoundTrip(n: nat)
    ensures DecimalValue(Decimal(n)) == n
    decreases n
  {
    if n >= 10 {
      DecimalRoundTrip(n / 10);
      var s := Decimal(n);
      assert s[..|s| - 1] == Decimal(n / 10);
    }
  }

  /** The converse: every text `check_number` accepts is the decimal spelling
      of the number `int` makes of it, once leading zeros are set aside. */
  lemma {:induction false} AcceptedNumberRoundTrip(number: string)
    requires CheckNumber(number).Valid?
    requires number[0] != '0' || number == "0"
    ensures Decimal(DecimalValue(number)) == number
    decreases |number|
  {
    var last := number[|number| - 1];
    assert IsDigit(last);
    if |number| > 1 {
      var init := number[..|number| - 1];
      assert init[0] == number[0];
      assert CheckNumber(init).Valid?;
      AcceptedNumberRoundTrip(init);
      assert DecimalValue(init) >= 1;
      assert number == init + [last];
    }
  }

  /** Leading zeros do not change the number `int` reads. */
  lemma {:induction false} LeadingZero(number: string)
    requires forall k :: 0 <= k < |number| ==> IsDigit(number[k])
    ensures DecimalValue("0" + number) == DecimalValue(number)
    decreases |number|
  {
    var z := "0" + number;
    if number != [] {
      assert z[..|z| - 1] == "0" + number[..|number| - 1];
      LeadingZero(number[..|number| - 1]);
    }
  }

  /** `check_filename`: `existingResults` is the list of result files with
      the `.txt` extension. A bad name is reported before any collision. */
  function CheckFilename(text: string, existingResults: seq<string>): (r: Validated)
    ensures r.Valid? <==> NamePatternMatches(text) && text + ".txt" !in existingResults
    ensures !NamePatternMatches(text) ==> r == ValidationError(text + " contains invalid characters...")
    ensures NamePatternMatches(text) && text + ".txt" in existingResults ==>
              r == ValidationError(text + " is an existing result name...")
  {
    if !NamePatternMatches(text) then ValidationError(text + " contains invalid characters...")
    else if text + ".txt" in existingResults then ValidationError(text + " is an existing result name...")
    else Valid
  }

  /** The character check comes first: for a bad name the existing results
      make no difference to the outcome. */
  lemma BadNameIgnoresResults(text: string, existingResults: seq<string>)
    requires !NamePatternMatches(text)
    ensures CheckFilename(text, existingResults) == CheckFilename(text, [])
  {
  }
}
