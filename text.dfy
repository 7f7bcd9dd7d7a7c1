/** The Python `str` and list operations the formatters are built from, with
    Python's semantics: `in`, `find`, `split(sep)`, `sep.join`, `replace`,
    `strip`, `str(int)`, `int(str)`, `'{:>2}'.format` and slicing. */
module Text {
  import opened Results

  predicate IsDigit(c: char) { '0' <= c <= '9' }

  predicate IsUpper(c: char) { 'A' <= c <= 'Z' }

  predicate IsLower(c: char) { 'a' <= c <= 'z' }

  /** `\w` of Python 2's `re` without the UNICODE flag. */
  predicate IsWordChar(c: char) { IsDigit(c) || IsUpper(c) || IsLower(c) || c == '_' }

  /** `\s` of Python 2's `re`, and the characters `str.strip()` removes from the
      command text. */
  predicate IsSpace(c: char) {
    c == ' ' || c == '\t' || c == '\n' || c == '\r' || c == '\U{000C}' || c == '\U{000B}'
  }

  predicate AllDigits(s: string) { forall i :: 0 <= i < |s| ==> IsDigit(s[i]) }

  // ---------------------------------------------------------------- search

  predicate OccursAt(s: string, t: string, i: nat) {
    i + |t| <= |s| && s[i..i + |t|] == t
  }

  /** `s.find(t, i)`: the first index at or after `i` where `t` occurs, or -1. */
  function FindFrom(s: string, t: string, i: nat): (r: int)
    requires i <= |s|
    ensures r == -1 || (i <= r && OccursAt(s, t, r))
    ensures r == -1 ==> forall j :: i <= j <= |s| ==> !OccursAt(s, t, j)
    ensures r >= 0 ==> forall j :: i <= j < r ==> !OccursAt(s, t, j)
    decreases |s| - i
  {
    if OccursAt(s, t, i) then i
    else if i == |s| then -1
    else FindFrom(s, t, i + 1)
  }

  function Find(s: string, t: string): int { FindFrom(s, t, 0) }

  /** Python's `t in s`. */
  predicate Contains(s: string, t: string) { Find(s, t) >= 0 }

  lemma ContainsAt(s: string, t: string, i: nat)
    requires OccursAt(s, t, i)
    ensures Contains(s, t)
  {
  }

  lemma NotContains(s: string, t: string, i: nat)
    requires !Contains(s, t)
    ensures !OccursAt(s, t, i)
  {
    if i <= |s| {
    } else {
      assert i + |t| > |s|;
    }
  }

  lemma OccursInPrefix(s: string, t: string, i: nat, k: nat)
    requires k <= |s| && OccursAt(s[..k], t, i)
    ensures OccursAt(s, t, i)
  {
    assert s[..k][i..i + |t|] == s[i..i + |t|];
  }

  lemma OccursInSuffix(s: string, t: string, i: nat, k: nat)
    requires k <= |s| && OccursAt(s[k..], t, i)
    ensures OccursAt(s, t, k + i)
  {
    assert s[k..][i..i + |t|] == s[k + i..k + i + |t|];
  }

  // ------------------------------------------------------------ split/join

  /** `s.split(sep)` for a non-empty separator. */
  function Split(s: string, sep: string): (r: seq<string>)
    requires sep != ""
    ensures |r| >= 1
    decreases |s|
  {
    var i := Find(s, sep);
    if i < 0 then [s] else [s[..i]] + Split(s[i + |sep|..], sep)
  }

  /** `sep.join(parts)`. */
  function Join(parts: seq<string>, sep: string): string
    decreases |parts|
  {
    if |parts| == 0 then ""
    else if |parts| == 1 then parts[0]
    else parts[0] + sep + Join(parts[1..], sep)
  }

  /** `''.join(parts)`. */
  function Concat(parts: seq<string>): string
    decreases |parts|
  {
    if parts == [] then "" else parts[0] + Concat(parts[1..])
  }

  lemma AppendAssoc(a: string, b: string, c: string)
    ensures a + b + c == a + (b + c)
  {
  }

  lemma TakeAll<T>(s: seq<T>)
    ensures s[..|s|] == s
  {
  }

  lemma TakeSnoc<T>(s: seq<T>)
    requires s != []
    ensures s[..|s| - 1] + [s[|s| - 1]] == s
  {
  }

  lemma JoinCons(x: string, tail: seq<string>, sep: string)
    requires |tail| >= 1
    ensures Join([x] + tail, sep) == x + sep + Join(tail, sep)
  {
    assert ([x] + tail)[1..] == tail;
  }

  lemma {:induction false} JoinSnoc(xs: seq<string>, x: string, sep: string)
    requires |xs| >= 1
    ensures Join(xs + [x], sep) == Join(xs, sep) + sep + x
    decreases |xs|
  {
    if |xs| == 1 {
      assert xs + [x] == [xs[0]] + [x];
      JoinCons(xs[0], [x], sep);
    } else {
      JoinSnoc(xs[1..], x, sep);
      assert xs + [x] == [xs[0]] + (xs[1..] + [x]);
      JoinCons(xs[0], xs[1..] + [x], sep);
      JoinCons(xs[0], xs[1..], sep);
      assert xs == [xs[0]] + xs[1..];
    }
  }

  /** Splitting at the first separator: the text before it, then the split of
      the rest. */
  lemma SplitStep(s: string, sep: string, i: int)
    requires sep != "" && i == Find(s, sep) && i >= 0
    ensures i + |sep| <= |s| && s == s[..i] + sep + s[i + |sep|..]
    ensures Split(s, sep) == [s[..i]] + Split(s[i + |sep|..], sep)
  {
    assert s == s[..i] + sep + s[i + |sep|..] by {
      assert s[i..i + |sep|] == sep;
      Slices3(s, i, i + |sep|);
    }
  }

  lemma Slices3<T>(s: seq<T>, i: nat, j: nat)
    requires i <= j <= |s|
    ensures s == s[..i] + s[i..j] + s[j..]
  {
  }

  /** Joining the pieces of a split gives back the original text. */
  lemma {:induction false} SplitJoin(s: string, sep: string)
    requires sep != ""
    ensures Join(Split(s, sep), sep) == s
    decreases |s|
  {
    var i := Find(s, sep);
    if i >= 0 {
      var rest := s[i + |sep|..];
      SplitStep(s, sep, i);
      SplitJoin(rest, sep);
      JoinCons(s[..i], Split(rest, sep), sep);
    }
  }

  /** No piece of a split contains the separator. */
  lemma {:induction false} SplitPiecesFree(s: string, sep: string)
    requires sep != ""
    ensures forall p :: p in Split(s, sep) ==> !Contains(p, sep)
    decreases |s|
  {
    var i := Find(s, sep);
    if i < 0 {
      assert Split(s, sep) == [s];
    } else {
      SplitPiecesFree(s[i + |sep|..], sep);
      if Contains(s[..i], sep) {
        var j := Find(s[..i], sep);
        OccursInPrefix(s, sep, j, i);
        assert false;
      }
    }
  }

  /** The first piece of a split is the text before the first separator; it is
      all of `s` when `s` has no separator. */
  lemma SplitFirst(s: string, sep: string)
    requires sep != ""
    ensures s[..|Split(s, sep)[0]|] == Split(s, sep)[0] && |Split(s, sep)[0]| <= |s|
    ensures !Contains(Split(s, sep)[0], sep)
    ensures !Contains(s, sep) <==> Split(s, sep) == [s]
  {
    SplitPiecesFree(s, sep);
    if Contains(s, sep) {
      assert |Split(s, sep)| >= 2;
    }
  }

  /** Splitting `a + sep + b`, where `a` has no occurrence of the one-character
      separator, yields `a` first. */
  lemma SplitCons(a: string, sep: string, b: string)
    requires |sep| == 1 && !Contains(a, sep)
    ensures Split(a + sep + b, sep) == [a] + Split(b, sep)
  {
    var s := a + sep + b;
    assert OccursAt(s, sep, |a|);
    var i := Find(s, sep);
    if i < |a| {
      assert s[..|a|] == a;
      assert OccursAt(s[..|a|], sep, i);
      ContainsAt(a, sep, i);
    }
    assert i == |a|;
    assert s[..i] == a;
    assert s[i + |sep|..] == b;
  }

  /** A text with at least one separator splits into at least two pieces. */
  lemma SplitAtLeastTwo(s: string, sep: string)
    requires sep != "" && Contains(s, sep)
    ensures |Split(s, sep)| >= 2
  {
  }

  // --------------------------------------------------------------- replace

  /** `s.replace("", rep)`: `rep` at every character boundary of `s`. */
  function InsertAround(s: string, rep: string): (r: string)
    ensures |r| == |s| + (|s| + 1) * |rep|
    decreases |s|
  {
    if s == "" then rep else rep + [s[0]] + InsertAround(s[1..], rep)
  }

  /** `s.replace(pat, rep)`: every non-overlapping occurrence, left to right. */
  function Replace(s: string, pat: string, rep: string): string
    decreases |s|
  {
    if pat == "" then InsertAround(s, rep)
    else
      var i := Find(s, pat);
      if i < 0 then s else s[..i] + rep + Replace(s[i + |pat|..], pat, rep)
  }

  /** `s.replace(pat, rep, count)` for a non-empty `pat`. */
  function ReplaceN(s: string, pat: string, rep: string, count: nat): string
    requires pat != ""
    decreases |s|
  {
    var i := Find(s, pat);
    if count == 0 || i < 0 then s else s[..i] + rep + ReplaceN(s[i + |pat|..], pat, rep, count - 1)
  }

  /** `s.replace("", "")` leaves `s` as it is. */
  lemma {:induction false} InsertNothing(s: string)
    ensures InsertAround(s, "") == s
    decreases |s|
  {
    if s != "" {
      InsertNothing(s[1..]);
    }
  }

  /** Joining the first `j` parts gives a prefix of joining them all. */
  lemma {:induction false} JoinPrefix(xs: seq<string>, j: nat, sep: string)
    requires j <= |xs|
    ensures Join(xs[..j], sep) <= Join(xs, sep)
    decreases |xs|
  {
    if j == 0 || |xs| == 1 {
      assert j == |xs| ==> xs[..j] == xs;
    } else if j == 1 {
      assert Join(xs[..1], sep) == xs[0];
    } else {
      JoinPrefix(xs[1..], j - 1, sep);
      assert xs[..j] == [xs[0]] + xs[1..][..j - 1];
      JoinCons(xs[0], xs[1..][..j - 1], sep);
      JoinCons(xs[0], xs[1..], sep);
      assert xs == [xs[0]] + xs[1..];
    }
  }

  /** Splitting the join of parts that hold no (one-character) separator gives
      the parts back. */
  lemma {:induction false} SplitOfJoin(xs: seq<string>, sep: string)
    requires |sep| == 1 && |xs| >= 1
    requires forall k :: 0 <= k < |xs| ==> !Contains(xs[k], sep)
    ensures Split(Join(xs, sep), sep) == xs
    decreases |xs|
  {
    if |xs| == 1 {
      SplitFirst(xs[0], sep);
    } else {
      SplitOfJoin(xs[1..], sep);
      JoinCons(xs[0], xs[1..], sep);
      assert xs == [xs[0]] + xs[1..];
      SplitCons(xs[0], sep, Join(xs[1..], sep));
    }
  }

  /** Replacing is splitting on `pat` and joining with `rep`. */
  lemma {:induction false} ReplaceIsSplitJoin(s: string, pat: string, rep: string)
    requires pat != ""
    ensures Replace(s, pat, rep) == Join(Split(s, pat), rep)
    decreases |s|
  {
    var i := Find(s, pat);
    if i >= 0 {
      var rest := s[i + |pat|..];
      SplitStep(s, pat, i);
      ReplaceIsSplitJoin(rest, pat, rep);
      JoinCons(s[..i], Split(rest, pat), rep);
    }
  }

  /** The first occurrence is replaced and the search resumes after it. */
  lemma ReplaceAt(s: string, pat: string, rep: string, i: int)
    requires pat != "" && i == Find(s, pat) && i >= 0
    ensures Replace(s, pat, rep) == s[..i] + rep + Replace(s[i + |pat|..], pat, rep)
  {
  }

  /** A text without `pat` is left alone by `replace`. */
  lemma ReplaceAbsent(s: string, pat: string, rep: string)
    requires pat != "" && !Contains(s, pat)
    ensures Replace(s, pat, rep) == s
  {
  }

  /** Replacing a string by itself changes nothing. */
  lemma ReplaceSelf(s: string, pat: string)
    requires pat != ""
    ensures Replace(s, pat, pat) == s
  {
    ReplaceIsSplitJoin(s, pat, pat);
    SplitJoin(s, pat);
  }

  function CountChar(s: string, c: char): nat
    decreases |s|
  {
    if s == "" then 0 else (if s[0] == c then 1 else 0) + CountChar(s[1..], c)
  }

  lemma {:induction false} CountCharAppend(a: string, b: string, c: char)
    ensures CountChar(a + b, c) == CountChar(a, c) + CountChar(b, c)
    decreases |a|
  {
    if a != "" {
      assert (a + b)[0] == a[0];
      assert (a + b)[1..] == a[1..] + b;
      CountCharAppend(a[1..], b, c);
    } else {
      assert a + b == b;
    }
  }

  lemma CountCharSplit(s: string, i: nat, c: char)
    requires i <= |s|
    ensures CountChar(s, c) == CountChar(s[..i], c) + CountChar(s[i..], c)
  {
    assert s == s[..i] + s[i..];
    CountCharAppend(s[..i], s[i..], c);
  }

  /** Deleting every occurrence of a text that does not contain `c` keeps the
      number of `c` characters. */
  lemma {:induction false} DeleteKeepsCount(s: string, pat: string, c: char)
    requires pat != "" && c !in pat
    ensures CountChar(Replace(s, pat, ""), c) == CountChar(s, c)
    decreases |s|
  {
    var i := Find(s, pat);
    if i >= 0 {
      var rest := s[i + |pat|..];
      DeleteKeepsCount(rest, pat, c);
      CountCharSplit(s, i, c);
      CountCharSplit(s[i..], |pat|, c);
      assert s[i..][..|pat|] == pat;
      assert s[i..][|pat|..] == rest;
      NoCount(pat, c);
      CountCharAppend(s[..i], Replace(rest, pat, ""), c);
      assert Replace(s, pat, "") == s[..i] + "" + Replace(rest, pat, "");
      assert s[..i] + "" == s[..i];
    }
  }

  lemma {:induction false} NoCount(s: string, c: char)
    requires c !in s
    ensures CountChar(s, c) == 0
    decreases |s|
  {
    if s != "" {
      assert s[0] != c;
      NoCount(s[1..], c);
    }
  }

  // ----------------------------------------------------------------- strip

  function TrimLeft(s: string, cs: char -> bool): (r: string)
    ensures |r| <= |s| && (|r| == |s| ==> r == s) && (|r| < |s| ==> r == s[|s| - |r|..])
    ensures r == "" || !cs(r[0])
    decreases |s|
  {
    if s != "" && cs(s[0]) then TrimLeft(s[1..], cs) else s
  }

  function TrimRight(s: string, cs: char -> bool): (r: string)
    ensures |r| <= |s| && r == s[..|r|]
    ensures r == "" || !cs(r[|r| - 1])
    decreases |s|
  {
    if s != "" && cs(s[|s| - 1]) then TrimRight(s[..|s| - 1], cs) else s
  }

  /** `s.strip(chars)`, the characters given as a predicate. */
  function Strip(s: string, cs: char -> bool): string {
    TrimRight(TrimLeft(s, cs), cs)
  }

  // -------------------------------------------------------------- integers

  function DigitChar(d: nat): char
    requires d < 10
  {
    ('0' as int + d) as char
  }

  /** `str(n)` for a non-negative `n`. */
  function NatToString(n: nat): (r: string)
    ensures |r| >= 1 && AllDigits(r)
    decreases n
  {
    if n < 10 then [DigitChar(n)] else NatToString(n / 10) + [DigitChar(n % 10)]
  }

  /** `str(n)`. */
  function IntToString(n: int): string {
    if n < 0 then "-" + NatToString(-n) else NatToString(n)
  }

  function DigitsValue(s: string): nat
    requires AllDigits(s)
    decreases |s|
  {
    if s == "" then 0 else DigitsValue(s[..|s| - 1]) * 10 + (s[|s| - 1] as int - '0' as int)
  }

  /** `int(s)` on the texts that reach it here: a run of decimal digits gives its
      value; anything else (the empty text, a word) raises ValueError. */
  function ParseInt(s: string): Option<nat> {
    if s != "" && AllDigits(s) then Some(DigitsValue(s)) else None
  }

  /** `int(str(n)) == n`. */
  lemma {:induction false} ParseIntOfString(n: nat)
    ensures ParseInt(NatToString(n)) == Some(n)
    decreases n
  {
    var r := NatToString(n);
    if n < 10 {
      assert r[..|r| - 1] == "";
      assert r[|r| - 1] as int - '0' as int == n;
      assert DigitsValue(r) == n;
    } else {
      ParseIntOfString(n / 10);
      assert r[..|r| - 1] == NatToString(n / 10);
      assert r[|r| - 1] == DigitChar(n % 10);
    }
  }

  /** `'{:>w}'.format(s)`: right-justify `s` in a field `w` wide. */
  function RJust(s: string, w: nat): (r: string)
    ensures |r| == if |s| < w then w else |s|
    ensures r[|r| - |s|..] == s
    decreases w - |s|
  {
    if |s| < w then
      var r := RJust(" " + s, w);
      assert r[|r| - |s|..] == r[|r| - |" " + s|..][1..];
      r
    else s
  }

  /** Length of the run of digits starting at `i`. */
  function DigitRun(s: string, i: nat): (n: nat)
    requires i <= |s|
    ensures i + n <= |s| && AllDigits(s[i..i + n])
    ensures i + n == |s| || !IsDigit(s[i + n])
    decreases |s| - i
  {
    if i < |s| && IsDigit(s[i]) then
      var m := DigitRun(s, i + 1);
      assert s[i..i + 1 + m] == [s[i]] + s[i + 1..i + 1 + m];
      1 + m
    else 0
  }

  /** The digit run at `i` is exactly a run of digits followed by a
      non-digit or the end. */
  lemma {:induction false} DigitRunExact(s: string, i: nat, k: nat)
    requires i + k <= |s| && AllDigits(s[i..i + k]) && (i + k == |s| || !IsDigit(s[i + k]))
    ensures DigitRun(s, i) == k
    decreases k
  {
    if k > 0 {
      assert IsDigit(s[i..i + k][0]);
      assert s[i + 1..i + k] == s[i..i + k][1..];
      DigitRunExact(s, i + 1, k - 1);
    }
  }

  /** A text without the character `c` does not contain it. */
  lemma Lacks(w: string, c: char)
    requires c !in w
    ensures !Contains(w, [c])
  {
    var i := Find(w, [c]);
    if i >= 0 {
      OccursFirstChar(w, [c], i);
      assert false;
    }
  }

  /** A run of digits holds no `.`. */
  lemma DigitsNoDot(w: string)
    requires AllDigits(w)
    ensures !Contains(w, ".")
  {
    var i := Find(w, ".");
    if i >= 0 {
      OccursFirstChar(w, ".", i);
      assert false;
    }
  }

  lemma OccursFirstChar(s: string, t: string, i: nat)
    requires OccursAt(s, t, i) && t != ""
    ensures i < |s| && s[i] == t[0]
  {
    assert s[i..i + |t|][0] == t[0];
  }

  // --------------------------------------------------------------- slicing

  /** Python's normalisation of a slice bound against a length. */
  function PyIndex(i: int, len: nat): (r: nat)
    ensures r <= len
  {
    if i < 0 then (if len + i < 0 then 0 else len + i) else if i > len then len else i
  }

  /** `xs[start:stop]`. */
  function PySlice<T>(xs: seq<T>, start: int, stop: int): (r: seq<T>)
    ensures 0 <= start <= stop <= |xs| ==> r == xs[start..stop]
  {
    var a := PyIndex(start, |xs|);
    var b := PyIndex(stop, |xs|);
    if a < b then xs[a..b] else []
  }
}
