/**
 * `xrate_check`: the sanity check on a scraped exchange-rate table. Its `Month` column must hold
 * labels `<month>/<year>`, all for the requested year.
 */
module XrateCheck {
  import opened Outcomes

  /** `label.split("/")[0]`: the text before the first "/", or the whole label if it has none. */
  function MonthOf(entry: string): (m: string)
    ensures m <= entry
    ensures '/' !in m
    ensures m == entry || entry[|m|] == '/'
  {
    if |entry| == 0 || entry[0] == '/' then ""
    else [entry[0]] + MonthOf(entry[1..])
  }

  function DigitChar(d: nat): (c: char)
    requires d < 10
    ensures '0' <= c <= '9' && c as int - '0' as int == d
  {
    "0123456789"[d]
  }

  /** Python's decimal rendering of a non-negative integer: at least one digit, nothing else. */
  function NatText(n: nat): (r: string)
    ensures |r| > 0 && forall i :: 0 <= i < |r| ==> '0' <= r[i] <= '9'
  {
    if n < 10 then [DigitChar(n)] else NatText(n / 10) + [DigitChar(n % 10)]
  }

  /** The number a string of decimal digits stands for, read most significant digit first. */
  function DecimalValue(digits: string): nat
  {
    if |digits| == 0 then 0
    else
      var last := digits[|digits| - 1] as int - '0' as int;
      DecimalValue(digits[..|digits| - 1]) * 10 + (if 0 <= last < 10 then last else 0)
  }

  /** Reading the rendering back gives the number: the rendering loses nothing. */
  lemma {:induction false} NatTextValue(n: nat)
    ensures DecimalValue(NatText(n)) == n
  {
    if n >= 10 {
      NatTextValue(n / 10);
      var text := NatText(n);
      assert text[..|text| - 1] == NatText(n / 10);
    }
  }

  /** `'{}'.format(year)`: an optional minus sign and digits, so never a "/". */
  function YearText(year: int): (r: string)
    ensures |r| > 0 && forall i :: 0 <= i < |r| ==> r[i] == '-' || '0' <= r[i] <= '9'
    ensures '/' !in r
  {
    if year < 0 then "-" + NatText(-year) else NatText(year)
  }

  /** `'{}/{}'.format(month, year)`: splitting it at its first "/" gives the month back. */
  function Label(month: string, year: int): (r: string)
    ensures '/' !in month ==> MonthOf(r) == month
  {
    var text := month + "/" + YearText(year);
    if '/' in month then text
    else MonthOfLabel(month, YearText(year)); text
  }

  /** The month parts of the labels, in order. */
  function MonthParts(months: seq<string>): seq<string>
  {
    seq(|months|, i requires 0 <= i < |months| => MonthOf(months[i]))
  }

  /** The labels the check expects: each month part followed by "/" and the year. */
  function ExpectedLabels(parts: seq<string>, year: int): set<string>
  {
    set p | p in parts :: Label(p, year)
  }

  /**
   * `xrate_check`: passes exactly when there is at least one label and every label is its own month
   * part followed by "/" and the requested year; otherwise it raises DataNotAvailableError.
   */
  function XrateCheck(months: seq<string>, year: int): (r: Outcome)
    ensures r == Pass <==>
      |months| > 0 && forall i :: 0 <= i < |months| ==> months[i] == Label(MonthOf(months[i]), year)
    ensures r != Pass ==> r == Fail(DataNotAvailable)
  {
    LabelsMatch(months, year);
    if |months| > 0 && (set m | m in months) == ExpectedLabels(MonthParts(months), year)
    then Pass
    else Fail(DataNotAvailable)
  }

  /** The month part of a label built from a month without "/" is that month. */
  lemma {:induction false} MonthOfLabel(month: string, rest: string)
    requires '/' !in month
    ensures MonthOf(month + "/" + rest) == month
  {
    var text := month + "/" + rest;
    if month == "" {
      assert text[0] == '/';
    } else {
      assert text[0] == month[0] && text[1..] == month[1..] + "/" + rest;
      MonthOfLabel(month[1..], rest);
    }
  }

  /**
   * The set comparison of the check holds exactly when every label is rebuilt from its own month
   * part and the year.
   */
  lemma LabelsMatch(months: seq<string>, year: int)
    ensures (set m | m in months) == ExpectedLabels(MonthParts(months), year) <==>
      forall i :: 0 <= i < |months| ==> months[i] == Label(MonthOf(months[i]), year)
  {
    var prefixes := MonthParts(months);
    var labels := set m | m in months;
    var expected := ExpectedLabels(prefixes, year);
    if labels == expected {
      forall i | 0 <= i < |months|
        ensures months[i] == Label(MonthOf(months[i]), year)
      {
        assert months[i] in expected;
        var j :| 0 <= j < |prefixes| && months[i] == Label(prefixes[j], year);
        assert '/' !in prefixes[j];
      }
    }
    if forall i :: 0 <= i < |months| ==> months[i] == Label(MonthOf(months[i]), year) {
      forall m | m in labels
        ensures m in expected
      {
        var i :| 0 <= i < |months| && months[i] == m;
        assert prefixes[i] in prefixes;
      }
      forall x | x in expected
        ensures x in labels
      {
        var j :| 0 <= j < |prefixes| && x == Label(prefixes[j], year);
        assert months[j] in months;
      }
      assert labels == expected;
    }
  }
}
