/** The regular expressions `CustomFormat` scans a template with, written out
    as matchers, and `findall` over them.

    Every one of these patterns is deterministic once Python's backtracking is
    taken into account (a shorter digit run, or leaving out an optional part,
    never lets the rest of the pattern match where the greedy choice failed),
    so each matcher returns the single length the engine finds, 0 when the
    pattern does not match at that position. */
module CustomScan {
  import opened Text

  datatype Pattern =
    | EncodingOrLinelength  // `%Z(Encoding|Linelength):(unicode|html|latex|\d+)\s?`
    | HeaderOrFooter        // `%Z(Header|Footer):".+?"\s?`
    | Enumeration           // `%z`
    | FieldSpecifier        // `%(\d+|\*)?(\.(\d+|\*))?[type letter]`

  /** The letters a field specifier may end with: every capital up to `Y`,
      and `a c d g h j l m n p q u x`. */
  predicate IsSpecifierLetter(c: char) {
    'A' <= c <= 'Y' || c == 'a' || 'c' <= c <= 'd' || 'g' <= c <= 'h' || c == 'j' ||
    'l' <= c <= 'n' || 'p' <= c <= 'q' || c == 'u' || c == 'x'
  }

  /** `\s?`: one whitespace character if there is one. */
  function OptSpace(s: string, k: nat): (n: nat)
    ensures n == 1 <==> k < |s| && IsSpace(s[k])
    ensures n <= 1
  {
    if k < |s| && IsSpace(s[k]) then 1 else 0
  }

  /** `unicode|html|latex|\d+`, alternatives tried in that order. */
  function CommandValueLength(s: string, j: nat): (n: nat)
    requires j <= |s|
    ensures j + n <= |s|
  {
    if OccursAt(s, "unicode", j) then 7
    else if OccursAt(s, "html", j) then 4
    else if OccursAt(s, "latex", j) then 5
    else DigitRun(s, j)
  }

  function EncodingOrLinelengthLength(s: string, i: nat): (n: nat)
    requires i <= |s|
    ensures i + n <= |s|
    ensures n > 0 ==> OccursAt(s, "%ZEncoding:", i) || OccursAt(s, "%ZLinelength:", i)
  {
    var key := if OccursAt(s, "%ZEncoding:", i) then 11
               else if OccursAt(s, "%ZLinelength:", i) then 13 else 0;
    if key == 0 then 0
    else
      var v := CommandValueLength(s, i + key);
      if v == 0 then 0 else key + v + OptSpace(s, i + key + v)
  }

  /** The closing quote of `".+?"`: the first `"` at or after `c`, provided no
      newline comes before it; -1 when there is none. */
  function CloseQuote(s: string, c: nat): (r: int)
    requires c <= |s|
    ensures r == -1 || (c <= r < |s| && s[r] == '"')
    ensures r >= 0 ==> forall k :: c <= k < r ==> s[k] != '"' && s[k] != '\n'
    decreases |s| - c
  {
    if c == |s| then -1
    else if s[c] == '"' then c
    else if s[c] == '\n' then -1
    else CloseQuote(s, c + 1)
  }

  function HeaderOrFooterLength(s: string, i: nat): (n: nat)
    requires i <= |s|
    ensures i + n <= |s|
    ensures n > 0 ==> (OccursAt(s, "%ZHeader:\"", i) || OccursAt(s, "%ZFooter:\"", i)) && n >= 12
  {
    if !(OccursAt(s, "%ZHeader:\"", i) || OccursAt(s, "%ZFooter:\"", i)) then 0
    else
      var j := i + 10;
      if j == |s| || s[j] == '\n' then 0
      else
        var c := CloseQuote(s, j + 1);
        if c < 0 then 0 else c + 1 - i + OptSpace(s, c + 1)
  }

  /** `\d+|\*` or nothing. */
  function WidthLength(s: string, k: nat): (n: nat)
    requires k <= |s|
    ensures k + n <= |s| && IsWidth(s[k..k + n])
  {
    if k < |s| && s[k] == '*' then 1 else DigitRun(s, k)
  }

  /** `\.(\d+|\*)` or nothing. */
  function PrecisionLength(s: string, k: nat): (n: nat)
    requires k <= |s|
    ensures k + n <= |s| && IsPrecision(s[k..k + n])
  {
    if k < |s| && s[k] == '.' && WidthLength(s, k + 1) > 0 then
      assert s[k..k + 1 + WidthLength(s, k + 1)][1..] == s[k + 1..k + 1 + WidthLength(s, k + 1)];
      1 + WidthLength(s, k + 1)
    else 0
  }

  predicate IsWidth(w: string) {
    w == "" || w == "*" || (|w| >= 1 && AllDigits(w))
  }

  predicate IsPrecision(p: string) {
    p == "" || (|p| >= 2 && p[0] == '.' && IsWidth(p[1..]))
  }

  /** The shape of a field specifier: `%`, a width, a precision and a type
      letter. */
  predicate IsSpecifier(t: string) {
    |t| >= 2 && t[0] == '%' && IsSpecifierLetter(t[|t| - 1]) &&
    exists k :: 1 <= k <= |t| - 1 && SplitsAt(t, k)
  }

  /** Width and precision of `t` meet at `k`. */
  predicate SplitsAt(t: string, k: int) {
    1 <= k <= |t| - 1 && IsWidth(t[1..k]) && IsPrecision(t[k..|t| - 1])
  }

  function SpecifierLength(s: string, i: nat): (n: nat)
    requires i <= |s|
    ensures i + n <= |s|
    ensures n > 0 ==> s[i] == '%'
  {
    if !(i < |s| && s[i] == '%') then 0
    else
      var w := WidthLength(s, i + 1);
      var p := PrecisionLength(s, i + 1 + w);
      var t := i + 1 + w + p;
      if t < |s| && IsSpecifierLetter(s[t]) then 2 + w + p else 0
  }

  /** Every match is a field specifier: `%`, a width, a precision and a type
      letter. */
  lemma SpecifierFound(s: string, i: nat)
    requires i <= |s| && SpecifierLength(s, i) > 0
    ensures IsSpecifier(s[i..i + SpecifierLength(s, i)])
  {
    var w := WidthLength(s, i + 1);
    var p := PrecisionLength(s, i + 1 + w);
    var n := SpecifierLength(s, i);
    SpecifierParts(s, i);
    SpecifierShape(s, i, w, p, n);
  }

  lemma SpecifierParts(s: string, i: nat)
    requires i <= |s| && SpecifierLength(s, i) > 0
    ensures i < |s| && s[i] == '%'
    ensures var w := WidthLength(s, i + 1); var p := PrecisionLength(s, i + 1 + w);
      SpecifierLength(s, i) == 2 + w + p && i + 1 + w + p < |s| && IsSpecifierLetter(s[i + 1 + w + p])
  {
  }

  lemma SpecifierShape(s: string, i: nat, w: nat, p: nat, n: nat)
    requires n == 2 + w + p && i + n <= |s| && s[i] == '%' && IsSpecifierLetter(s[i + 1 + w + p])
    requires IsWidth(s[i + 1..i + 1 + w]) && IsPrecision(s[i + 1 + w..i + 1 + w + p])
    ensures IsSpecifier(s[i..i + n])
  {
    var tok := s[i..i + n];
    SliceOfSlice(s, i, i + n, 1, 1 + w);
    SliceOfSlice(s, i, i + n, 1 + w, 1 + w + p);
    assert SplitsAt(tok, 1 + w);
  }

  lemma SliceOfSlice(s: string, a: nat, b: nat, c: nat, d: nat)
    requires a <= b <= |s| && c <= d <= b - a
    ensures s[a..b][c..d] == s[a + c..a + d]
  {
    forall j | 0 <= j < d - c
      ensures s[a..b][c..d][j] == s[a + c..a + d][j]
    {
    }
  }

  /** Length of the match of `p` at `i`; 0 when there is none. */
  function MatchLength(p: Pattern, s: string, i: nat): (n: nat)
    requires i <= |s|
    ensures i + n <= |s|
    ensures n > 0 ==> s[i] == '%'
  {
    match p
    case EncodingOrLinelength =>
      var n := EncodingOrLinelengthLength(s, i);
      if n > 0 then
        if OccursAt(s, "%ZEncoding:", i) then OccursFirstChar(s, "%ZEncoding:", i); n
        else OccursFirstChar(s, "%ZLinelength:", i); n
      else 0
    case HeaderOrFooter =>
      var n := HeaderOrFooterLength(s, i);
      if n > 0 then
        if OccursAt(s, "%ZHeader:\"", i) then OccursFirstChar(s, "%ZHeader:\"", i); n
        else OccursFirstChar(s, "%ZFooter:\"", i); n
      else 0
    case Enumeration =>
      if OccursAt(s, "%z", i) then OccursFirstChar(s, "%z", i); 2 else 0
    case FieldSpecifier => SpecifierLength(s, i)
  }

  datatype Match = Match(start: nat, text: string)

  /** Matches that really are matches of `p` in `s`, in increasing order and
      without overlap. */
  predicate MatchesOf(p: Pattern, s: string, ms: seq<Match>, from: nat) {
    MatchesWith(Lengths(p, s), s, ms, from)
  }

  /** The length of the match of `p` at each position of `s`. */
  function Lengths(p: Pattern, s: string): nat -> nat {
    (k: nat) => if k <= |s| then MatchLength(p, s, k) else 0
  }

  /** A length for every position that stays inside `s`. */
  predicate Fits(lens: nat -> nat, s: string) {
    forall k: nat :: k <= |s| ==> k + lens(k) <= |s|
  }

  lemma LengthsFit(p: Pattern, s: string)
    ensures Fits(Lengths(p, s), s)
  {
    forall k: nat | k <= |s|
      ensures k + Lengths(p, s)(k) <= |s|
    {
      assert Lengths(p, s)(k) == MatchLength(p, s, k);
    }
  }

  /** Matches of `s` at or after `from` as `lens` measures them, in
      increasing order and without overlap. */
  predicate MatchesWith(lens: nat -> nat, s: string, ms: seq<Match>, from: nat) {
    (forall k :: 0 <= k < |ms| ==>
       from <= ms[k].start && ms[k].start + |ms[k].text| <= |s| &&
       lens(ms[k].start) == |ms[k].text| > 0 &&
       ms[k].text == s[ms[k].start..ms[k].start + |ms[k].text|]) &&
    (forall a, b :: 0 <= a < b < |ms| ==> ms[a].start + |ms[a].text| <= ms[b].start)
  }

  /** `pattern.findall(s[i:])` / `pattern.finditer`: leftmost matches, each
      search resuming after the previous match. */
  function FindAll(p: Pattern, s: string, i: nat): seq<Match>
    requires i <= |s|
  {
    LengthsFit(p, s);
    Scan(Lengths(p, s), s, i)
  }

  /** The search loop of `findall`, for a pattern whose match length at each
      position `lens` gives (0 where it does not match). */
  function Scan(lens: nat -> nat, s: string, i: nat): seq<Match>
    requires i <= |s| && Fits(lens, s)
    decreases |s| - i
  {
    if i == |s| then []
    else
      var n := lens(i);
      if n > 0 then [Match(i, s[i..i + n])] + Scan(lens, s, i + n)
      else Scan(lens, s, i + 1)
  }

  /** What `findall` returns are genuine matches, left to right, not
      overlapping. */
  lemma FindAllMatches(p: Pattern, s: string, i: nat)
    requires i <= |s|
    ensures MatchesOf(p, s, FindAll(p, s, i), i)
  {
    LengthsFit(p, s);
    ScanMatches(Lengths(p, s), s, i);
  }

  lemma ScanMatches(lens: nat -> nat, s: string, i: nat)
    requires i <= |s| && Fits(lens, s)
    ensures MatchesWith(lens, s, Scan(lens, s, i), i)
  {
    var ms := Scan(lens, s, i);
    forall k | 0 <= k < |ms|
      ensures i <= ms[k].start && ms[k].start + |ms[k].text| <= |s|
      ensures lens(ms[k].start) == |ms[k].text| > 0
      ensures ms[k].text == s[ms[k].start..ms[k].start + |ms[k].text|]
    {
      ScanAt(lens, s, i, k);
    }
    forall a, b | 0 <= a < b < |ms|
      ensures ms[a].start + |ms[a].text| <= ms[b].start
    {
      ScanOrdered(lens, s, i, a, b);
    }
  }

  /** Match `k` of the scan from `i` is a genuine match at or after `i`. */
  lemma {:induction false} ScanAt(lens: nat -> nat, s: string, i: nat, k: nat)
    requires i <= |s| && Fits(lens, s) && k < |Scan(lens, s, i)|
    ensures var m := Scan(lens, s, i)[k];
            i <= m.start && m.start + |m.text| <= |s| && lens(m.start) == |m.text| > 0 &&
            m.text == s[m.start..m.start + |m.text|]
    decreases |s| - i
  {
    var n := lens(i);
    if n > 0 {
      var rest := Scan(lens, s, i + n);
      ScanHit(lens, s, i, rest);
      if k > 0 {
        ScanAt(lens, s, i + n, k - 1);
        assert Scan(lens, s, i)[k] == rest[k - 1];
      }
    } else {
      ScanSkip(lens, s, i, Scan(lens, s, i + 1));
      ScanAt(lens, s, i + 1, k);
    }
  }

  /** An earlier match of the scan ends before a later one starts. */
  lemma {:induction false} ScanOrdered(lens: nat -> nat, s: string, i: nat, a: nat, b: nat)
    requires i <= |s| && Fits(lens, s) && a < b < |Scan(lens, s, i)|
    ensures Scan(lens, s, i)[a].start + |Scan(lens, s, i)[a].text| <= Scan(lens, s, i)[b].start
    decreases |s| - i
  {
    var n := lens(i);
    if n > 0 {
      var rest := Scan(lens, s, i + n);
      ScanHit(lens, s, i, rest);
      assert Scan(lens, s, i)[b] == rest[b - 1];
      if a > 0 {
        ScanOrdered(lens, s, i + n, a - 1, b - 1);
        assert Scan(lens, s, i)[a] == rest[a - 1];
      } else {
        ScanAt(lens, s, i + n, b - 1);
      }
    } else {
      ScanSkip(lens, s, i, Scan(lens, s, i + 1));
      ScanOrdered(lens, s, i + 1, a, b);
    }
  }

  lemma ScanHit(lens: nat -> nat, s: string, i: nat, rest: seq<Match>)
    requires i < |s| && Fits(lens, s) && lens(i) > 0 && rest == Scan(lens, s, i + lens(i))
    ensures Scan(lens, s, i) == [Match(i, s[i..i + lens(i)])] + rest
  {
  }

  lemma ScanSkip(lens: nat -> nat, s: string, i: nat, rest: seq<Match>)
    requires i < |s| && Fits(lens, s) && lens(i) == 0 && rest == Scan(lens, s, i + 1)
    ensures Scan(lens, s, i) == rest
  {
  }

  /** Every match found starts with `%`, so a text without one has none. */
  lemma NoPercentNoMatch(p: Pattern, s: string, i: nat)
    requires i <= |s| && '%' !in s[i..]
    ensures FindAll(p, s, i) == []
  {
    LengthsFit(p, s);
    forall k | i <= k < |s|
      ensures Lengths(p, s)(k) == 0
    {
      assert s[k] == s[i..][k - i];
    }
    ScanNone(Lengths(p, s), s, i);
  }

  lemma {:induction false} ScanNone(lens: nat -> nat, s: string, i: nat)
    requires i <= |s| && Fits(lens, s)
    requires forall k :: i <= k < |s| ==> lens(k) == 0
    ensures Scan(lens, s, i) == []
    decreases |s| - i
  {
    if i < |s| {
      ScanNone(lens, s, i + 1);
    }
  }

  /** No position where `p` matches is skipped: a match that starts where no
      earlier match covers it is found. */
  lemma FindAllFinds(p: Pattern, s: string, i: nat, j: nat)
    requires i <= j < |s| && MatchLength(p, s, j) > 0
    requires forall k :: i <= k < j ==> MatchLength(p, s, k) == 0
    ensures |FindAll(p, s, i)| > 0 && FindAll(p, s, i)[0].start == j
  {
    LengthsFit(p, s);
    var lens := Lengths(p, s);
    assert lens(j) > 0;
    forall k | i <= k < j
      ensures lens(k) == 0
    {
    }
    ScanFinds(lens, s, i, j);
  }

  lemma {:induction false} ScanFinds(lens: nat -> nat, s: string, i: nat, j: nat)
    requires i <= j < |s| && Fits(lens, s) && lens(j) > 0
    requires forall k :: i <= k < j ==> lens(k) == 0
    ensures |Scan(lens, s, i)| > 0 && Scan(lens, s, i)[0].start == j
    decreases j - i
  {
    if i < j {
      ScanFinds(lens, s, i + 1, j);
    }
  }

  /** `__get_solr_field`: the Solr field a specifier asks for, chosen by its
      last letter; letters outside the table ask for no field. */
  function SolrField(letter: char): (f: string)
    ensures f == "author" <==> letter in {'A', 'a', 'G', 'g', 'H', 'h', 'I', 'L', 'l', 'M', 'm', 'N', 'n'}
    ensures f == "" <==> letter !in {'A', 'a', 'B', 'c', 'C', 'd', 'D', 'F', 'G', 'g', 'H', 'h', 'I', 'J', 'j', 'K', 'L', 'l', 'M', 'm', 'N', 'n', 'p', 'P', 'Q', 'q', 'R', 'T', 'U', 'u', 'V', 'W', 'X', 'x', 'Y'}
  {
    match letter
    case 'A' => "author" case 'a' => "author"
    case 'B' => "abstract"
    case 'c' => "citation_count"
    case 'C' => "copyright"
    case 'd' => "doi"
    case 'D' => "date"
    case 'F' => "aff"
    case 'G' => "author" case 'g' => "author"
    case 'H' => "author" case 'h' => "author"
    case 'I' => "author"
    case 'J' => "pub" case 'j' => "pub"
    case 'K' => "keyword"
    case 'L' => "author" case 'l' => "author"
    case 'M' => "author" case 'm' => "author"
    case 'N' => "author" case 'n' => "author"
    case 'O' => ""
    case 'p' => "page"
    case 'P' => "lastpage"
    case 'Q' => "pub_raw"
    case 'q' => "pub"
    case 'R' => "bibcode"
    case 'T' => "title"
    case 'U' => "url" case 'u' => "url"
    case 'V' => "volume"
    case 'W' => "doctype"
    case 'X' => "pub_raw"
    case 'x' => "comment"
    case 'Y' => "year"
    case _ => ""
  }
}
