/** Author lists in custom formats: reading the `m.n` limit out of a specifier
    with `REGEX_AUTHOR`, and shortening an author list the way each author
    letter prescribes (`__get_author_list`, `__get_author_list_shorten`,
    `__get_n_authors`). */
module CustomAuthors {
  import opened Results
  import opened Text

  /** The two groups of a `REGEX_AUTHOR` match: the `\d*\.?\d*` limit text and
      the `\w` letter. */
  datatype AuthorMatch = AuthorMatch(group: string, letter: char)

  /** `m` is the limit text `s[start..e]` followed by the `\w` letter `s[e]`. */
  ghost predicate GroupEndsAt(s: string, start: nat, e: nat, m: AuthorMatch) {
    start <= e < |s| && m == AuthorMatch(s[start..e], s[e]) && IsWordChar(s[e])
  }

  /** `m` is what the pattern captures behind the `%` at `s[j]`. */
  ghost predicate MatchedAt(s: string, j: nat, m: AuthorMatch) {
    j < |s| && s[j] == '%' && Captured(s, j + 1, m)
  }

  /** Some letter ends the limit text that starts at `s[start]`. */
  ghost predicate Captured(s: string, start: nat, m: AuthorMatch) {
    exists e :: GroupEndsAt(s, start, e, m)
  }

  /** Second `\d*` of length `b` (tried from longest to empty), then `\w`. */
  function TryWord(s: string, start: nat, q: nat, b: nat): (r: Option<AuthorMatch>)
    requires start <= q && q + b <= |s|
    ensures r.Some? ==> exists e :: q <= e <= q + b && GroupEndsAt(s, start, e, r.value)
    decreases b
  {
    if q + b < |s| && IsWordChar(s[q + b]) then
      var m := AuthorMatch(s[start..q + b], s[q + b]);
      assert GroupEndsAt(s, start, q + b, m);
      Some(m)
    else if b == 0 then None
    else TryWord(s, start, q, b - 1)
  }

  /** `\.?`: the dot taken first, then left out. */
  function TryDot(s: string, start: nat, p: nat): (r: Option<AuthorMatch>)
    requires start <= p <= |s|
    ensures r.Some? ==> exists e :: p <= e && GroupEndsAt(s, start, e, r.value)
  {
    var withDot := if p < |s| && s[p] == '.' then TryWord(s, start, p + 1, DigitRun(s, p + 1)) else None;
    if withDot.Some? then withDot else TryWord(s, start, p, DigitRun(s, p))
  }

  /** First `\d*` of length `a`, tried from longest to empty. */
  function TryFirst(s: string, start: nat, a: nat): (r: Option<AuthorMatch>)
    requires start + a <= |s|
    ensures r.Some? ==> exists e :: GroupEndsAt(s, start, e, r.value)
    decreases a
  {
    var r := TryDot(s, start, start + a);
    if r.Some? then r else if a == 0 then None else TryFirst(s, start, a - 1)
  }

  /** The first match of `%(\d*\.?\d*)(\w)` in `s[i:]`, as `findall(s)[0]`. */
  function AuthorSearch(s: string, i: nat): (r: Option<AuthorMatch>)
    requires i <= |s|
    ensures r.Some? ==> exists j :: i <= j && MatchedAt(s, j, r.value)
    decreases |s| - i
  {
    if i == |s| then None
    else
      var r := if s[i] == '%' then TryFirst(s, i + 1, DigitRun(s, i + 1)) else None;
      if r.Some? then
        assert MatchedAt(s, i, r.value);
        r
      else AuthorSearch(s, i + 1)
  }

  /** What `__get_author_list` does with a specifier. */
  datatype Shortening =
    | Keep                                   // no limit given
    | Shorten(letter: char, m: nat, n: nat)  // `%m.nX`; `%mX` means `%m.1X`

  /** The limit of an author specifier; `int()` of an empty part raises
      ValueError. */
  function ShorteningOf(token: string): (r: Result<Shortening>)
    ensures AuthorSearch(token, 0).None? ==> r == Success(Keep)
  {
    match AuthorSearch(token, 0)
    case None => Success(Keep)
    case Some(am) =>
      if am.group == "" then Success(Keep)
      else
        var parts := Split(am.group, ".");
        if |parts| > 1 then
          match (ParseInt(parts[0]), ParseInt(parts[1]))
          case (Some(m), Some(n)) => Success(Shorten(am.letter, m, n))
          case _ => Failure(ValueError)
        else
          match ParseInt(parts[0])
          case Some(m) => Success(Shorten(am.letter, m, 1))
          case None => Failure(ValueError)
  }

  /** `__get_n_authors`: the first `n` authors of a list whose authors are
      `k` separator-delimited pieces each, `beforeLast` removed from the list
      and put back (a space when empty) before the last author kept. */
  function NAuthors(list: string, n: nat, sep: string, k: nat, beforeLast: string): (r: string)
    requires sep != ""
  {
    var parts := Split(Replace(list, beforeLast, ""), sep);
    if n == 1 then Join(PySlice(parts, 0, k), sep)
    else
      var bl := if beforeLast == "" then " " else beforeLast;
      Join(PySlice(parts, 0, (n - 1) * k), sep) + bl + Join(PySlice(parts, (n - 1) * k, n * k), sep)
  }

  function EtAl(s: string): string { s + ", et al." }

  /** `__get_author_list_shorten`: the letters' policies, tried in the order
      the source tests them. */
  function ShortenAuthors(list: string, count: nat, letter: char, m: nat, n: nat): (r: Result<string>)
    ensures count <= m || count <= n ==> r == Success(list)
    ensures letter !in {'A', 'G', 'M', 'm', 'H', 'I', 'L', 'N', 'g', 'l', 'h', 'n', 'a'} ==> r == Success(list)
    ensures r.Failure? ==> letter == 'H' && m != 1
  {
    if count <= n || count <= m then Success(list)
    else if letter == 'A' then Success(EtAl(NAuthors(list, n, ",", 2, ", and")))
    else if letter == 'G' then Success(EtAl(NAuthors(list, n, " ", 2, "")))
    else if letter == 'M' then Success(EtAl(NAuthors(list, n, ",", 1, ", and")))
    else if letter == 'm' then Success(EtAl(NAuthors(list, n, ",", 1, ", \\&")))
    else if letter == 'H' then HAuthors(Split(list, " "), m)
    else if letter in {'I', 'L', 'N', 'g'} then
      Success(Split(list, ",")[0] + ", and " + IntToString(count - 1) + " colleagues")
    else if letter == 'l' then Success(EtAl(NAuthors(list, n, ",", 2, " \\&")))
    else if letter == 'h' then Success(Split(list, " ")[0] + " \\emph{et al.}")
    else if letter == 'n' then Success(Split(list, " ")[0] + "+")
    else if letter == 'a' then Success(EtAl(NAuthors(list, n, ",", 2, ", \\&")))
    else Success(list)
  }

  /** The H policy on the words of the list: the first word when `m == 1`,
      otherwise the words without the first "and", the first `m - 1` of them
      joined, " and ", and the word at index `m`. */
  function HAuthors(authors: seq<string>, m: nat): (r: Result<string>)
    requires |authors| >= 1
    ensures r.Failure? <==> m != 1 && ("and" !in authors || m >= |authors| - 1)
  {
    if m == 1 then Success(authors[0])
    else if "and" !in authors then Failure(ValueError)
    else
      var rest := RemoveFirst(authors, "and");
      if m < |rest| then Success(Join(PySlice(rest, 0, m - 1), " ") + " and " + rest[m])
      else Failure(IndexError)
  }

  /** `xs.index(x)`: the first position holding `x`. */
  function IndexOf(xs: seq<string>, x: string): (i: nat)
    requires x in xs
    ensures i < |xs| && xs[i] == x && forall j :: 0 <= j < i ==> xs[j] != x
  {
    if xs[0] == x then 0
    else
      IndexOf(xs[1..], x) + 1
  }

  /** `list.remove(x)`: drops the first element equal to `x`. */
  function RemoveFirst(xs: seq<string>, x: string): (r: seq<string>)
    requires x in xs
    ensures |r| == |xs| - 1
    ensures multiset(r) + multiset{x} == multiset(xs)
    ensures forall k :: 0 <= k < |r| ==> r[k] == (if k < IndexOf(xs, x) then xs[k] else xs[k + 1])
  {
    var i := IndexOf(xs, x);
    assert xs == xs[..i] + [xs[i]] + xs[i + 1..];
    xs[..i] + xs[i + 1..]
  }

  /** `__get_author_list`: the styled authors and author count of document
      `index` for this specifier, shortened as the specifier asks. A specifier
      that was never styled is a TypeError (`None[index]`), a document past
      the end an IndexError. */
  function AuthorList(token: string, index: nat, styled: map<string, seq<string>>,
                      counts: map<string, seq<nat>>): (r: Result<string>)
    ensures token !in styled ==> r == Failure(TypeError)
    ensures r.Success? ==> token in styled && index < |styled[token]| &&
                           token in counts && index < |counts[token]|
  {
    if token !in styled then Failure(TypeError)
    else if index >= |styled[token]| then Failure(IndexError)
    else if token !in counts then Failure(TypeError)
    else if index >= |counts[token]| then Failure(IndexError)
    else
      var authors := styled[token][index];
      var s :- ShorteningOf(token);
      match s
      case Keep => Success(authors)
      case Shorten(letter, m, n) => ShortenAuthors(authors, counts[token][index], letter, m, n)
  }

  // ------------------------------------------------------------- lemmas

  /** `%m.nX` with a letter `X`: the whole limit is captured. */
  lemma {:induction false} SearchTwoNumbers(w: string, p: string, letter: char)
    requires |w| >= 1 && AllDigits(w) && |p| >= 1 && AllDigits(p) && (IsUpper(letter) || IsLower(letter))
    ensures AuthorSearch("%" + w + "." + p + [letter], 0) == Some(AuthorMatch(w + "." + p, letter))
  {
    var s := "%" + w + "." + p + [letter];
    var e := 2 + |w| + |p|;
    assert s[1..1 + |w|] == w;
    assert s[2 + |w|..e] == p;
    assert s[1..e] == w + "." + p;
    assert s[0] == '%' && s[1 + |w|] == '.' && s[e] == letter;
    DigitRunExact(s, 1, |w|);
    DigitRunExact(s, 2 + |w|, |p|);
    SearchDotted(s, |w|, |p|);
  }

  /** The search on `%`, a run of `a` digits, `.`, a run of `b` digits and
      a letter takes everything up to the letter. */
  lemma SearchDotted(s: string, a: nat, b: nat)
    requires 2 + a + b < |s| && s[0] == '%' && s[1 + a] == '.'
    requires DigitRun(s, 1) == a && DigitRun(s, 2 + a) == b && IsWordChar(s[2 + a + b])
    ensures AuthorSearch(s, 0) == Some(AuthorMatch(s[1..2 + a + b], s[2 + a + b]))
  {
    var m := AuthorMatch(s[1..2 + a + b], s[2 + a + b]);
    assert TryWord(s, 1, 2 + a, b) == Some(m);
    assert TryDot(s, 1, 1 + a) == Some(m);
    assert TryFirst(s, 1, a) == Some(m);
  }

  /** `%mX` with a letter `X`: the limit is the one number. */
  lemma {:induction false} SearchOneNumber(w: string, letter: char)
    requires |w| >= 1 && AllDigits(w) && (IsUpper(letter) || IsLower(letter))
    ensures AuthorSearch("%" + w + [letter], 0) == Some(AuthorMatch(w, letter))
  {
    var s := "%" + w + [letter];
    assert s[1..1 + |w|] == w;
    DigitRunExact(s, 1, |w|);
    DigitRunExact(s, 1 + |w|, 0);
    assert TryDot(s, 1, 1 + |w|) == Some(AuthorMatch(w, letter));
  }

  /** `%m.nX` shortens to `n` of more than `m` authors. */
  lemma ShorteningTwoNumbers(w: string, p: string, letter: char)
    requires |w| >= 1 && AllDigits(w) && |p| >= 1 && AllDigits(p) && (IsUpper(letter) || IsLower(letter))
    ensures ShorteningOf("%" + w + "." + p + [letter]) == Success(Shorten(letter, DigitsValue(w), DigitsValue(p)))
  {
    SearchTwoNumbers(w, p, letter);
    ShorteningOfDotted("%" + w + "." + p + [letter], w, p, letter);
  }

  /** A match whose limit text is two digit runs around a dot. */
  lemma ShorteningOfDotted(token: string, w: string, p: string, letter: char)
    requires |w| >= 1 && AllDigits(w) && |p| >= 1 && AllDigits(p)
    requires AuthorSearch(token, 0) == Some(AuthorMatch(w + "." + p, letter))
    ensures ShorteningOf(token) == Success(Shorten(letter, DigitsValue(w), DigitsValue(p)))
  {
    DottedParts(w, p);
  }

  /** Two digit runs around a dot split into the two runs, each read whole. */
  lemma DottedParts(w: string, p: string)
    requires |w| >= 1 && AllDigits(w) && |p| >= 1 && AllDigits(p)
    ensures Split(w + "." + p, ".") == [w, p]
    ensures ParseInt(w) == Some(DigitsValue(w)) && ParseInt(p) == Some(DigitsValue(p))
  {
    DigitsNoDot(w);
    DigitsNoDot(p);
    SplitCons(w, ".", p);
    SplitFirst(p, ".");
  }

  /** A lone number `%mX` means `%m.1X`. */
  lemma ShorteningOneNumber(w: string, letter: char)
    requires |w| >= 1 && AllDigits(w) && (IsUpper(letter) || IsLower(letter))
    ensures ShorteningOf("%" + w + [letter]) == Success(Shorten(letter, DigitsValue(w), 1))
  {
    SearchOneNumber(w, letter);
    ShorteningOfRun("%" + w + [letter], w, letter);
  }

  /** A match whose limit text is one digit run. */
  lemma ShorteningOfRun(token: string, w: string, letter: char)
    requires |w| >= 1 && AllDigits(w)
    requires AuthorSearch(token, 0) == Some(AuthorMatch(w, letter))
    ensures ShorteningOf(token) == Success(Shorten(letter, DigitsValue(w), 1))
  {
    DigitsNoDot(w);
    SplitFirst(w, ".");
  }

  /** A specifier without digits, `%X`, keeps the list whole. */
  lemma ShorteningNone(letter: char)
    requires IsUpper(letter) || IsLower(letter)
    ensures ShorteningOf("%" + [letter]) == Success(Keep)
  {
    var s := "%" + [letter];
    DigitRunExact(s, 1, 0);
    assert TryDot(s, 1, 1) == Some(AuthorMatch("", letter));
  }

  /** A `*` precision, as in `%5.*l`, is not read as a limit: the engine falls
      back to an empty group (matching the digit as the letter) and the list
      is kept whole. */
  lemma StarPrecisionKeeps(token: string)
    requires |token| >= 4 && token[0] == '%' && IsDigit(token[1]) && token[2] == '.' && token[3] == '*'
    ensures ShorteningOf(token) == Success(Keep)
  {
    DotBeforeStar(token);
    DigitBeforeDot(token);
    assert TryFirst(token, 1, 1) == TryFirst(token, 1, 0);
    assert AuthorSearch(token, 0) == TryFirst(token, 1, 1);
  }

  /** In `%5.*`, the dot cannot start the second digits: `*` is no letter. */
  lemma DotBeforeStar(s: string)
    requires 3 < |s| && s[2] == '.' && s[3] == '*'
    ensures TryDot(s, 1, 2) == None
  {
    DigitRunExact(s, 3, 0);
    DigitRunExact(s, 2, 0);
    assert TryWord(s, 1, 3, 0) == None;
    assert TryWord(s, 1, 2, 0) == None;
  }

  /** In `%5.`, the digit itself is the first letter reached once the digits
      give up theirs. */
  lemma DigitBeforeDot(s: string)
    requires 2 < |s| && IsDigit(s[1]) && s[2] == '.'
    ensures DigitRun(s, 1) == 1 && TryDot(s, 1, 1) == Some(AuthorMatch("", s[1]))
  {
    assert AllDigits(s[1..2]) by { assert s[1..2] == [s[1]]; }
    DigitRunExact(s, 1, 1);
    assert TryWord(s, 1, 1, 1) == TryWord(s, 1, 1, 0);
    assert s[1..1] == "";
  }

  /** With `n == 1`, `__get_n_authors` keeps exactly the first `k` pieces of
      the list (once `beforeLast` is removed), a prefix of that list. */
  lemma NAuthorsFirst(list: string, sep: string, k: nat, beforeLast: string)
    requires |sep| == 1 && k >= 1
    ensures var parts := Split(Replace(list, beforeLast, ""), sep);
            var j := if k <= |parts| then k else |parts|;
            NAuthors(list, 1, sep, k, beforeLast) <= Replace(list, beforeLast, "") &&
            Split(NAuthors(list, 1, sep, k, beforeLast), sep) == parts[..j]
  {
    var cleaned := Replace(list, beforeLast, "");
    var parts := Split(cleaned, sep);
    var j := if k <= |parts| then k else |parts|;
    assert PySlice(parts, 0, k) == parts[..j];
    JoinPrefix(parts, j, sep);
    SplitJoin(cleaned, sep);
    SplitPiecesFree(cleaned, sep);
    assert forall i :: 0 <= i < j ==> parts[..j][i] in parts;
    SplitOfJoin(parts[..j], sep);
  }

  /** With `n >= 2` and enough authors, `__get_n_authors` gives the first
      `n - 1` authors (a prefix of the list), then `beforeLast`, then the
      `n`-th author. */
  lemma NAuthorsMany(list: string, n: nat, sep: string, k: nat, beforeLast: string)
    requires |sep| == 1 && n >= 2 && k >= 1
    requires n * k <= |Split(Replace(list, beforeLast, ""), sep)|
    ensures var parts := Split(Replace(list, beforeLast, ""), sep);
            var head := Join(parts[..(n - 1) * k], sep);
            var last := Join(parts[(n - 1) * k..n * k], sep);
            NAuthors(list, n, sep, k, beforeLast) == head + (if beforeLast == "" then " " else beforeLast) + last &&
            head <= Replace(list, beforeLast, "") &&
            Split(head, sep) == parts[..(n - 1) * k] &&
            Split(last, sep) == parts[(n - 1) * k..n * k]
  {
    var cleaned := Replace(list, beforeLast, "");
    var parts := Split(cleaned, sep);
    var a := (n - 1) * k;
    var b := n * k;
    assert 1 <= a < b <= |parts| by {
      assert a + k == b;
    }
    assert Join(parts[..a], sep) <= cleaned by {
      JoinPrefix(parts, a, sep);
      SplitJoin(cleaned, sep);
    }
    SplitPiecesFree(cleaned, sep);
    SplitOfJoinSlice(parts, sep, 0, a);
    SplitOfJoinSlice(parts, sep, a, b);
    assert parts[0..a] == parts[..a];
  }

  /** Splitting the join of a run of separator-free parts gives the run back. */
  lemma SplitOfJoinSlice(parts: seq<string>, sep: string, i: nat, j: nat)
    requires |sep| == 1 && i < j <= |parts|
    requires forall p :: p in parts ==> !Contains(p, sep)
    ensures Split(Join(parts[i..j], sep), sep) == parts[i..j]
  {
    forall q | 0 <= q < j - i
      ensures !Contains(parts[i..j][q], sep)
    {
      assert parts[i..j][q] == parts[i + q];
    }
    SplitOfJoin(parts[i..j], sep);
  }

  /** The separator the et-al letters split the list on. */
  function EtAlSep(letter: char): string {
    if letter == 'G' then " " else ","
  }

  /** How many pieces of the list make one author for an et-al letter. */
  function EtAlPieces(letter: char): nat {
    if letter == 'M' || letter == 'm' then 1 else 2
  }

  /** The word an et-al letter removes and puts back before the last author. */
  function EtAlBeforeLast(letter: char): string {
    match letter
    case 'A' => ", and" case 'M' => ", and" case 'G' => ""
    case 'm' => ", \\&" case 'a' => ", \\&" case _ => " \\&"
  }

  /** The et-al letters (A G M m l a) take the first `n` authors with their
      own separator, pieces per author and before-last word, and append
      ", et al.": A and l split `lastname, first` pairs on commas, G splits
      on spaces, M and m keep one comma piece per author. */
  lemma ShortenEtAl(list: string, count: nat, letter: char, m: nat, n: nat)
    requires letter in {'A', 'G', 'M', 'm', 'l', 'a'} && count > m && count > n
    ensures ShortenAuthors(list, count, letter, m, n) ==
            Success(NAuthors(list, n, EtAlSep(letter), EtAlPieces(letter), EtAlBeforeLast(letter)) + ", et al.")
  {
  }

  /** The et-al letters with `n == 1` keep the first author's pieces of the
      list (once the before-last word is removed) and add ", et al.". */
  lemma ShortenEtAlFirst(list: string, count: nat, letter: char, m: nat)
    requires letter in {'A', 'G', 'M', 'm', 'l', 'a'} && count > m && count > 1
    ensures var sep := EtAlSep(letter);
            var k := EtAlPieces(letter);
            var cleaned := Replace(list, EtAlBeforeLast(letter), "");
            var parts := Split(cleaned, sep);
            var j := if k <= |parts| then k else |parts|;
            exists f :: ShortenAuthors(list, count, letter, m, 1) == Success(f + ", et al.") &&
                        f <= cleaned && Split(f, sep) == parts[..j]
  {
    var sep := EtAlSep(letter);
    var k := EtAlPieces(letter);
    var bl := EtAlBeforeLast(letter);
    ShortenEtAl(list, count, letter, m, 1);
    NAuthorsFirst(list, sep, k, bl);
    var f := NAuthors(list, 1, sep, k, bl);
    assert ShortenAuthors(list, count, letter, m, 1) == Success(f + ", et al.");
  }

  /** The et-al letters with `n >= 2`, on a list holding at least `n`
      authors: the first `n - 1` authors (a prefix of the cleaned list), the
      before-last word (a space when it is empty), the `n`-th author, and
      ", et al.". */
  lemma ShortenEtAlMany(list: string, count: nat, letter: char, m: nat, n: nat)
    requires letter in {'A', 'G', 'M', 'm', 'l', 'a'} && count > m && count > n && n >= 2
    requires n * EtAlPieces(letter) <= |Split(Replace(list, EtAlBeforeLast(letter), ""), EtAlSep(letter))|
    ensures var sep := EtAlSep(letter);
            var k := EtAlPieces(letter);
            var bl := EtAlBeforeLast(letter);
            var cleaned := Replace(list, bl, "");
            var parts := Split(cleaned, sep);
            var head := Join(parts[..(n - 1) * k], sep);
            var last := Join(parts[(n - 1) * k..n * k], sep);
            ShortenAuthors(list, count, letter, m, n) ==
              Success(head + (if bl == "" then " " else bl) + last + ", et al.") &&
            head <= cleaned && Split(head, sep) == parts[..(n - 1) * k] &&
            Split(last, sep) == parts[(n - 1) * k..n * k]
  {
    ShortenEtAl(list, count, letter, m, n);
    NAuthorsMany(list, n, EtAlSep(letter), EtAlPieces(letter), EtAlBeforeLast(letter));
  }

  /** h and n keep the first space-separated word and mark the rest: h
      with ` \emph{et al.}`, n with `+`. */
  lemma ShortenFirstWord(list: string, count: nat, letter: char, m: nat, n: nat)
    requires (letter == 'h' || letter == 'n') && count > m && count > n
    ensures var first := Split(list, " ")[0];
            first <= list && !Contains(first, " ") &&
            ShortenAuthors(list, count, letter, m, n) ==
              Success(first + (if letter == 'h' then " \\emph{et al.}" else "+"))
  {
    SplitFirst(list, " ");
  }

  /** I, L, N and g name the first author (the list up to its first comma)
      and how many colleagues follow. */
  lemma ShortenColleagues(list: string, count: nat, letter: char, m: nat, n: nat)
    requires letter in {'I', 'L', 'N', 'g'} && count > m && count > n
    ensures var first := Split(list, ",")[0];
            first <= list && !Contains(first, ",") &&
            ShortenAuthors(list, count, letter, m, n) ==
              Success(first + ", and " + IntToString(count - 1) + " colleagues")
  {
    SplitFirst(list, ",");
  }

  /** H with `m == 1` keeps the first word only. */
  lemma ShortenHOne(list: string, count: nat, n: nat)
    requires count > 1 && count > n
    ensures var first := Split(list, " ")[0];
            first <= list && !Contains(first, " ") &&
            ShortenAuthors(list, count, 'H', 1, n) == Success(first)
  {
    SplitFirst(list, " ");
  }

  /** H with a larger `m` needs an "and" word in the list: without one,
      `list.remove` raises ValueError. */
  lemma ShortenHNeedsAnd(list: string, count: nat, m: nat, n: nat)
    requires count > m && count > n && m != 1 && "and" !in Split(list, " ")
    ensures ShortenAuthors(list, count, 'H', m, n) == Failure(ValueError)
  {
  }

  /** Example of `ShortenHWords`: "A B and C" at `%2.1H` (m = 2, n = 1)
      gives "A and C", skipping B. */
  lemma ShortenHSkipsOne(a: string, b: string, c: string, count: nat)
    requires ' ' !in a && ' ' !in b && ' ' !in c && a != "and" && b != "and" && count > 2
    ensures ShortenAuthors(Join([a, b, "and", c], " "), count, 'H', 2, 1) == Success(a + " and " + c)
  {
    var words := [a, b, "and", c];
    Lacks(a, ' ');
    Lacks(b, ' ');
    Lacks("and", ' ');
    Lacks(c, ' ');
    SplitOfJoin(words, " ");
    HSkipsOne(a, b, c);
    ShortenH(Join(words, " "), count, 2, 1);
  }

  /** H with `m >= 2` on a list with an "and" word and enough words: the
      words of the result are the first `m - 1` words of the list without its
      first "and", then "and", then the word after the next one, so the
      `m`-th remaining word is always left out. */
  lemma ShortenHWords(list: string, count: nat, m: nat, n: nat)
    requires count > m && count > n && m >= 2
    requires "and" in Split(list, " ") && m + 1 < |Split(list, " ")|
    ensures var rest := RemoveFirst(Split(list, " "), "and");
            ShortenAuthors(list, count, 'H', m, n).Success? &&
            Split(ShortenAuthors(list, count, 'H', m, n).value, " ") == rest[..m - 1] + ["and", rest[m]]
  {
    var words := Split(list, " ");
    var rest := RemoveFirst(words, "and");
    var kept := rest[..m - 1] + ["and", rest[m]];
    ShortenH(list, count, m, n);
    HKept(words, m);
    SplitPiecesFree(list, " ");
    KeptFree(words, rest, m, kept);
    SplitOfJoin(kept, " ");
  }

  /** H with `m >= 2` joins the kept words with spaces. */
  lemma HKept(words: seq<string>, m: nat)
    requires "and" in words && m >= 2 && m + 1 < |words|
    ensures var rest := RemoveFirst(words, "and");
            HAuthors(words, m) == Success(Join(rest[..m - 1] + ["and", rest[m]], " "))
  {
    var rest := RemoveFirst(words, "and");
    var head := rest[..m - 1];
    assert PySlice(rest, 0, m - 1) == head;
    assert head + ["and", rest[m]] == head + ["and"] + [rest[m]];
    JoinSnoc(head, "and", " ");
    JoinSnoc(head + ["and"], rest[m], " ");
    SpacedAnd(Join(head, " "), rest[m]);
  }

  lemma SpacedAnd(x: string, y: string)
    ensures x + " " + "and" + " " + y == x + " and " + y
  {
    assert " " + "and" + " " == " and ";
    AppendAssoc(x, " ", "and");
    AppendAssoc(x, " " + "and", " ");
  }

  /** The kept words hold no space when the list's words hold none. */
  lemma KeptFree(words: seq<string>, rest: seq<string>, m: nat, kept: seq<string>)
    requires "and" in words && rest == RemoveFirst(words, "and") && 2 <= m < |rest|
    requires kept == rest[..m - 1] + ["and", rest[m]]
    requires forall w :: w in words ==> !Contains(w, " ")
    ensures forall k :: 0 <= k < |kept| ==> !Contains(kept[k], " ")
  {
    Lacks("and", ' ');
    forall k | 0 <= k < |rest|
      ensures rest[k] in words
    {
      var i := IndexOf(words, "and");
      if k < i { assert rest[k] == words[k]; } else { assert rest[k] == words[k + 1]; }
    }
    forall k | 0 <= k < |kept|
      ensures !Contains(kept[k], " ")
    {
      if k < m - 1 {
        assert kept[k] == rest[k];
      } else if k == m {
        assert kept[k] == rest[m];
      }
    }
  }

  /** H works on the space-separated words of the list. */
  lemma ShortenH(list: string, count: nat, m: nat, n: nat)
    requires count > m && count > n
    ensures ShortenAuthors(list, count, 'H', m, n) == HAuthors(Split(list, " "), m)
  {
    assert 'H' != 'A' && 'H' != 'G' && 'H' != 'M' && 'H' != 'm';
  }

  /** Example: H with m = 2 on the words a, b, "and", c gives `a and c`. */
  lemma HSkipsOne(a: string, b: string, c: string)
    requires a != "and" && b != "and"
    ensures HAuthors([a, b, "and", c], 2) == Success(a + " and " + c)
  {
    var words := [a, b, "and", c];
    RemoveAndExample(a, b, c);
    var rest := [a, b, c];
    assert PySlice(rest, 0, 1) == [a];
    assert Join([a], " ") == a;
    assert rest[2] == c;
  }

  /** Example: `remove('and')` on a, b, "and", c leaves a, b, c. */
  lemma RemoveAndExample(a: string, b: string, c: string)
    requires a != "and" && b != "and"
    ensures "and" in [a, b, "and", c] && RemoveFirst([a, b, "and", c], "and") == [a, b, c]
  {
    var words := [a, b, "and", c];
    var i := IndexOf(words, "and");
    assert words[0] != "and" && words[1] != "and" && words[2] == "and";
    assert i != 0 && i != 1 && !(i > 2);
    assert words[..2] + words[3..] == [a, b, c];
  }

  /** A specifier without a limit shows the styled list unchanged. */
  lemma AuthorListKeeps(token: string, index: nat, styled: map<string, seq<string>>,
                        counts: map<string, seq<nat>>)
    requires token in styled && index < |styled[token]| && token in counts && index < |counts[token]|
    requires ShorteningOf(token) == Success(Keep)
    ensures AuthorList(token, index, styled, counts) == Success(styled[token][index])
  {
  }
}
