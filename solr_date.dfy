/** Solr dates (`2017-12-01T00:00:00Z`) as both formatters read them with
    `datetime.strptime(date, '%Y-%m-%dT%H:%M:%SZ')`, and the `strftime`
    renderings they ask for. */
module SolrDate {
  import opened Results
  import opened Text

  datatype DateTime = DateTime(year: nat, month: nat, day: nat, hour: nat, minute: nat, second: nat)

  predicate IsLeap(y: nat) {
    y % 4 == 0 && (y % 100 != 0 || y % 400 == 0)
  }

  function DaysIn(y: nat, m: nat): nat
    requires 1 <= m <= 12
  {
    if m == 2 then (if IsLeap(y) then 29 else 28)
    else if m == 4 || m == 6 || m == 9 || m == 11 then 30
    else 31
  }

  /** The dates `datetime` accepts. */
  predicate Valid(d: DateTime) {
    1 <= d.year <= 9999 && 1 <= d.month <= 12 && 1 <= d.day <= DaysIn(d.year, d.month) &&
    d.hour < 24 && d.minute < 60 && d.second < 60
  }

  /** Positions of the separators in `YYYY-MM-DDTHH:MM:SSZ`. */
  predicate SeparatorAt(i: nat) { i == 4 || i == 7 || i == 10 || i == 13 || i == 16 || i == 19 }

  /** The fixed ISO shape: digits everywhere but the separators. */
  predicate FixedShape(s: string) {
    |s| == 20 && s[4] == '-' && s[7] == '-' && s[10] == 'T' && s[13] == ':' && s[16] == ':' && s[19] == 'Z' &&
    forall i :: 0 <= i < 20 && !SeparatorAt(i) ==> IsDigit(s[i])
  }

  function Field(s: string, i: nat, j: nat): nat
    requires FixedShape(s) && i <= j <= 20
    requires forall k :: i <= k < j ==> !SeparatorAt(k)
  {
    DigitsValue(s[i..j])
  }

  /** `datetime.strptime(s, '%Y-%m-%dT%H:%M:%SZ')`; anything else, including
      a missing date (the empty text), raises ValueError. */
  function Parse(s: string): (r: Result<DateTime>)
    ensures r.Success? ==> FixedShape(s) && Valid(r.value)
    ensures r.Failure? ==> r.error == ValueError
  {
    if !FixedShape(s) then Failure(ValueError)
    else
      var d := DateTime(Field(s, 0, 4), Field(s, 5, 7), Field(s, 8, 10),
                        Field(s, 11, 13), Field(s, 14, 16), Field(s, 17, 19));
      if Valid(d) then Success(d) else Failure(ValueError)
  }

  function Pow10(w: nat): nat {
    if w == 0 then 1 else 10 * Pow10(w - 1)
  }

  /** `n` in `w` decimal digits, with leading zeros (`%02d`, `%04d`). */
  function Pad(n: nat, w: nat): (r: string)
    ensures |r| == w && AllDigits(r)
  {
    if w == 0 then "" else Pad(n / 10, w - 1) + [DigitChar(n % 10)]
  }

  /** The text `Parse` reads a date from. */
  function Iso(d: DateTime): string {
    Pad(d.year, 4) + "-" + Pad(d.month, 2) + "-" + Pad(d.day, 2) + "T" +
    Pad(d.hour, 2) + ":" + Pad(d.minute, 2) + ":" + Pad(d.second, 2) + "Z"
  }

  // ----------------------------------------------------------- renderings

  function MonthNames(): seq<string> {
    ["January", "February", "March", "April", "May", "June", "July", "August", "September", "October",
     "November", "December"]
  }

  /** `%B` (the full month name) in the English locale. */
  function MonthName(m: nat): string
    requires 1 <= m <= 12
  {
    MonthNames()[m - 1]
  }

  /** `%b`: the first three letters of the name. */
  function MonthAbbr(m: nat): string
    requires 1 <= m <= 12
  {
    MonthName(m)[..3]
  }

  /** `%m/%Y`. */
  function MonthYear(d: DateTime): string {
    Pad(d.month, 2) + "/" + Pad(d.year, 4)
  }

  /** The four `strftime` layouts the fielded formats use. */
  datatype Layout =
    | MonthSlashYear  // `%m/%Y`
    | LongDate        // `%B %d, %Y`
    | SlashedDay      // `%Y/%m/X%d`
    | MedlineDate     // `%Y %b %d`

  function Strftime(d: DateTime, l: Layout): string
    requires 1 <= d.month <= 12
  {
    match l
    case MonthSlashYear => MonthYear(d)
    case LongDate => MonthName(d.month) + " " + Pad(d.day, 2) + ", " + Pad(d.year, 4)
    case SlashedDay => Pad(d.year, 4) + "/" + Pad(d.month, 2) + "/X" + Pad(d.day, 2)
    case MedlineDate => Pad(d.year, 4) + " " + MonthAbbr(d.month) + " " + Pad(d.day, 2)
  }

  /** The fielded formatters' date: parse, render (Python 2's `strftime`
      refuses years before 1900), then drop the `X` marker and a zero after
      it. */
  function FieldedDate(s: string, l: Layout): (r: Result<string>)
    ensures r.Success? <==> Parse(s).Success? && Parse(s).value.year >= 1900
    ensures r.Failure? ==> r.error == ValueError
  {
    var d :- Parse(s);
    if d.year < 1900 then Failure(ValueError)
    else Success(Replace(Replace(Strftime(d, l), "X0", "X"), "X", ""))
  }

  /** The custom format's date: `D` is `%m/%Y`, `Y` is `%Y`; its own
      `strftime` accepts every year. Any other letter is not in the table. */
  function CustomDate(s: string, letter: char): (r: Result<string>)
    ensures letter != 'D' && letter != 'Y' ==> r == Failure(KeyError)
    ensures (letter == 'D' || letter == 'Y') ==> (r.Success? <==> Parse(s).Success?)
  {
    if letter != 'D' && letter != 'Y' then Failure(KeyError)
    else
      var d :- Parse(s);
      if letter == 'D' then Success(MonthYear(d)) else Success(Pad(d.year, 4))
  }

  // --------------------------------------------------------------- lemmas

  lemma {:induction false} DigitsOfPad(n: nat, w: nat)
    requires n < Pow10(w)
    ensures DigitsValue(Pad(n, w)) == n
    decreases w
  {
    if w > 0 {
      DigitsOfPad(n / 10, w - 1);
      var p := Pad(n, w);
      assert p[..|p| - 1] == Pad(n / 10, w - 1);
    }
  }

  lemma {:induction false} PadOfDigits(t: string)
    requires AllDigits(t)
    ensures Pad(DigitsValue(t), |t|) == t
    decreases |t|
  {
    if t != "" {
      var init := t[..|t| - 1];
      PadOfDigits(init);
      var v := DigitsValue(t);
      var c := t[|t| - 1] as int - '0' as int;
      assert v == DigitsValue(init) * 10 + c;
      assert v / 10 == DigitsValue(init) && v % 10 == c;
      assert [DigitChar(c)] == [t[|t| - 1]];
      assert t == init + [t[|t| - 1]];
    }
  }

  /** The fields of the fixed shape are read back from the text verbatim. */
  lemma FieldText(s: string, i: nat, j: nat)
    requires FixedShape(s) && i <= j <= 20
    requires forall k :: i <= k < j ==> !SeparatorAt(k)
    ensures Pad(Field(s, i, j), j - i) == s[i..j]
  {
    assert AllDigits(s[i..j]) by {
      forall k | 0 <= k < j - i ensures IsDigit(s[i..j][k]) {
        assert s[i..j][k] == s[i + k];
      }
    }
    PadOfDigits(s[i..j]);
  }

  /** Every valid date is read back from its ISO text. */
  lemma ParseIso(d: DateTime)
    requires Valid(d)
    ensures Parse(Iso(d)) == Success(d)
  {
    var s := Iso(d);
    IsoShape(d);
    assert s[0..4] == Pad(d.year, 4);
    assert s[5..7] == Pad(d.month, 2);
    assert s[8..10] == Pad(d.day, 2);
    assert s[11..13] == Pad(d.hour, 2);
    assert s[14..16] == Pad(d.minute, 2);
    assert s[17..19] == Pad(d.second, 2);
    DigitsOfPad(d.year, 4);
    DigitsOfPad(d.month, 2);
    DigitsOfPad(d.day, 2);
    DigitsOfPad(d.hour, 2);
    DigitsOfPad(d.minute, 2);
    DigitsOfPad(d.second, 2);
  }

  lemma IsoShape(d: DateTime)
    ensures FixedShape(Iso(d))
  {
    var s := Iso(d);
    var y, mo, da, h, mi, se := Pad(d.year, 4), Pad(d.month, 2), Pad(d.day, 2), Pad(d.hour, 2), Pad(d.minute, 2), Pad(d.second, 2);
    assert s == y + "-" + mo + "-" + da + "T" + h + ":" + mi + ":" + se + "Z";
    forall i | 0 <= i < 20 && !SeparatorAt(i) ensures IsDigit(s[i]) {
      if i < 4 { assert s[i] == y[i]; }
      else if i < 7 { assert s[i] == mo[i - 5]; }
      else if i < 10 { assert s[i] == da[i - 8]; }
      else if i < 13 { assert s[i] == h[i - 11]; }
      else if i < 16 { assert s[i] == mi[i - 14]; }
      else { assert s[i] == se[i - 17]; }
    }
  }

  /** `%m/%Y` of a parsed date is the month and year text of the input. */
  lemma MonthYearSlices(s: string)
    requires Parse(s).Success?
    ensures MonthYear(Parse(s).value) == s[5..7] + "/" + s[0..4]
  {
    FieldText(s, 5, 7);
    FieldText(s, 0, 4);
  }

  /** The custom `%D` and `%Y` are the month and year text of the Solr date. */
  lemma CustomDateSlices(s: string)
    requires Parse(s).Success?
    ensures CustomDate(s, 'D') == Success(s[5..7] + "/" + s[0..4])
    ensures CustomDate(s, 'Y') == Success(s[0..4])
  {
    MonthYearSlices(s);
    FieldText(s, 0, 4);
  }

  /** The only `X` of `t` is at `|a|`, where `pat` starts. */
  lemma FindMarker(a: string, rest: string, pat: string)
    requires 'X' !in a && pat != "" && pat[0] == 'X' && OccursAt(a + rest, pat, |a|)
    ensures Find(a + rest, pat) == |a|
  {
    var t := a + rest;
    var r := Find(t, pat);
    if 0 <= r < |a| {
      OccursFirstChar(t, pat, r);
      assert false;
    }
  }

  lemma NoMarker(t: string)
    requires 'X' !in t
    ensures !Contains(t, "X0") && !Contains(t, "X")
  {
    Lacks(t, 'X');
    var r := Find(t, "X0");
    if r >= 0 {
      OccursFirstChar(t, "X0", r);
      assert false;
    }
  }

  lemma OccursSecondChar(s: string, t: string, i: nat)
    requires OccursAt(s, t, i) && |t| >= 2
    ensures i + 1 < |s| && s[i + 1] == t[1]
  {
    assert s[i..i + |t|][1] == t[1];
  }

  /** Dropping the marker leaves a text without `X` as it is. */
  lemma Unmarked(t: string)
    requires 'X' !in t
    ensures Replace(Replace(t, "X0", "X"), "X", "") == t
  {
    NoMarker(t);
    ReplaceAbsent(t, "X0", "X");
    ReplaceAbsent(t, "X", "");
  }

  /** The first replacement: `X0` becomes `X` when the day starts with `0`. */
  lemma ZeroAfterMarker(a: string, dd: string)
    requires 'X' !in a && |dd| == 2 && AllDigits(dd) && dd[0] == '0'
    ensures Replace(a + "X" + dd, "X0", "X") == a + "X" + dd[1..]
  {
    var t := a + "X" + dd;
    assert OccursAt(t, "X0", |a|) by { assert t[|a|..|a| + 2] == "X0"; }
    FindMarker(a, "X" + dd, "X0");
    assert t[..|a|] == a;
    assert t[|a| + 2..] == dd[1..];
    ReplaceAt(t, "X0", "X", |a|);
    NoMarker(dd[1..]);
    ReplaceAbsent(dd[1..], "X0", "X");
  }

  lemma NoZeroAfterMarker(a: string, dd: string)
    requires 'X' !in a && |dd| == 2 && AllDigits(dd) && dd[0] != '0'
    ensures Replace(a + "X" + dd, "X0", "X") == a + "X" + dd
  {
    var t := a + "X" + dd;
    var r := Find(t, "X0");
    if r >= 0 {
      OccursFirstChar(t, "X0", r);
      OccursSecondChar(t, "X0", r);
      assert false;
    }
    ReplaceAbsent(t, "X0", "X");
  }

  /** The second replacement removes the marker itself. */
  lemma MarkerRemoved(a: string, e: string)
    requires 'X' !in a && 'X' !in e
    ensures Replace(a + "X" + e, "X", "") == a + e
  {
    var u := a + "X" + e;
    assert OccursAt(u, "X", |a|) by { assert u[|a|..|a| + 1] == "X"; }
    FindMarker(a, "X" + e, "X");
    ReplaceAt(u, "X", "", |a|);
    assert u[..|a|] == a;
    assert u[|a| + 1..] == e;
    NoMarker(e);
    ReplaceAbsent(e, "X", "");
  }

  /** `%Y/%m/X%d` with the marker dropped: the day loses its leading zero. */
  lemma DropMarker(a: string, dd: string)
    requires 'X' !in a && |dd| == 2 && AllDigits(dd)
    ensures Replace(Replace(a + "X" + dd, "X0", "X"), "X", "") == a + (if dd[0] == '0' then dd[1..] else dd)
  {
    if dd[0] == '0' {
      ZeroAfterMarker(a, dd);
      assert 'X' !in dd[1..] by { assert IsDigit(dd[1]); }
      MarkerRemoved(a, dd[1..]);
    } else {
      NoZeroAfterMarker(a, dd);
      assert 'X' !in dd by { assert IsDigit(dd[0]) && IsDigit(dd[1]); }
      MarkerRemoved(a, dd);
    }
  }

  /** A two-digit day without its leading zero is `str(day)`. */
  lemma DayText(day: nat)
    requires 1 <= day <= 31
    ensures (if Pad(day, 2)[0] == '0' then Pad(day, 2)[1..] else Pad(day, 2)) == NatToString(day)
  {
    if day >= 10 {
      assert NatToString(day) == NatToString(day / 10) + [DigitChar(day % 10)];
    }
  }

  /** ProCite, Refman and RefWorks dates read `YYYY/MM/D`: the year and month
      text of the Solr date and the day without a leading zero. */
  lemma SlashedDayText(s: string)
    requires Parse(s).Success? && Parse(s).value.year >= 1900
    ensures FieldedDate(s, SlashedDay) == Success(s[0..4] + "/" + s[5..7] + "/" + NatToString(Parse(s).value.day))
  {
    var d := Parse(s).value;
    var a := Pad(d.year, 4) + "/" + Pad(d.month, 2) + "/";
    assert a == s[0..4] + "/" + s[5..7] + "/" by {
      FieldText(s, 0, 4);
      FieldText(s, 5, 7);
    }
    assert Strftime(d, SlashedDay) == a + "X" + Pad(d.day, 2);
    assert Replace(Replace(a + "X" + Pad(d.day, 2), "X0", "X"), "X", "") == a + NatToString(d.day) by {
      assert 'X' !in a;
      DropMarker(a, Pad(d.day, 2));
      DayText(d.day);
    }
  }

  /** ADS dates read `MM/YYYY`, taken from the Solr date. */
  lemma MonthSlashYearText(s: string)
    requires Parse(s).Success? && Parse(s).value.year >= 1900
    ensures FieldedDate(s, MonthSlashYear) == Success(s[5..7] + "/" + s[0..4])
  {
    var d := Parse(s).value;
    MonthYearSlices(s);
    Unmarked(MonthYear(d));
  }

  lemma NamesUnmarked(m: nat)
    requires 1 <= m <= 12
    ensures 'X' !in MonthName(m)
  {
  }

  /** EndNote dates read `Month DD, YYYY`. */
  lemma LongDateText(s: string)
    requires Parse(s).Success? && Parse(s).value.year >= 1900
    ensures FieldedDate(s, LongDate) ==
            Success(MonthName(Parse(s).value.month) + " " + s[8..10] + ", " + s[0..4])
  {
    var d := Parse(s).value;
    FieldText(s, 0, 4);
    FieldText(s, 8, 10);
    NamesUnmarked(d.month);
    Unmarked(Strftime(d, LongDate));
  }

  /** MEDLARS dates read `YYYY Mon DD`. */
  lemma MedlineDateText(s: string)
    requires Parse(s).Success? && Parse(s).value.year >= 1900
    ensures FieldedDate(s, MedlineDate) ==
            Success(s[0..4] + " " + MonthAbbr(Parse(s).value.month) + " " + s[8..10])
  {
    var d := Parse(s).value;
    FieldText(s, 0, 4);
    FieldText(s, 8, 10);
    NamesUnmarked(d.month);
    assert 'X' !in MonthAbbr(d.month);
    Unmarked(Strftime(d, MedlineDate));
  }
}
