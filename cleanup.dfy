/** The cleanup `CustomFormat.__add_in` performs when a specifier resolves to an
    empty value: `re.sub(precede + token + succeed, '', text)`.

    The regular expression is written out as a small datatype and matched the
    way Python's backtracking engine does: `Ends` lists the positions where a
    match starting at `i` can end, in the order the engine tries them (greedy
    optionals and stars try "one more" first), so the match `re.sub` uses is
    the first element of that list.

    The token is spliced into the pattern without escaping, so in it `.` matches
    any character but a newline and `*` repeats the character before it. */
module Cleanup {
  import opened Text

  datatype Atom = Lit(c: char) | Class(cs: set<char>, space: bool) | Lower | AnyButNewline

  datatype Re = Eps | One(a: Atom) | Cat(l: Re, r: Re) | Opt(r: Re) | Star(a: Atom)

  predicate AtomMatches(a: Atom, c: char) {
    match a
    case Lit(d) => c == d
    case Class(cs, space) => c in cs || (space && IsSpace(c))
    case Lower => IsLower(c)
    case AnyButNewline => c != '\n'
  }

  /** End positions of the matches of `re` that start at `i`, in the order the
      backtracking engine tries them. */
  function Ends(re: Re, s: string, i: nat): (r: seq<nat>)
    requires i <= |s|
    ensures Bounded(r, i, |s|)
    decreases re, 0, |s| - i
  {
    match re
    case Eps => [i]
    case One(a) => if i < |s| && AtomMatches(a, s[i]) then [i + 1] else []
    case Opt(r) => Ends(r, s, i) + [i]
    case Star(a) => (if i < |s| && AtomMatches(a, s[i]) then Ends(re, s, i + 1) else []) + [i]
    case Cat(l, r) => ThenAll(r, s, Ends(l, s, i), i)
  }

  predicate Bounded(es: seq<nat>, lo: nat, hi: nat) {
    forall k :: 0 <= k < |es| ==> lo <= es[k] <= hi
  }

  /** The ends of `re` started from each position of `es` in turn. */
  function ThenAll(re: Re, s: string, es: seq<nat>, lo: nat): (r: seq<nat>)
    requires Bounded(es, lo, |s|)
    ensures Bounded(r, lo, |s|)
    decreases re, 1, |es|
  {
    if es == [] then [] else Ends(re, s, es[0]) + ThenAll(re, s, es[1..], lo)
  }

  /** `(\\?[\(|\{|\[|\"]?(\\\\[a-z]{2}\s)?[\\|\s|,|-]?` */
  const Precede: Re :=
    Cat(Opt(One(Lit('\\'))),
    Cat(Opt(One(Class({'(', '|', '{', '[', '"'}, false))),
    Cat(Opt(Cat(One(Lit('\\')), Cat(One(Lit('\\')), Cat(One(Lower), Cat(One(Lower), One(Class({}, true))))))),
        Opt(One(Class({'\\', '|', ',', '-'}, true))))))

  /** `[\\|,]?[\)|\}|\]|\"]?[\\|,]?)` */
  const Succeed: Re :=
    Cat(Opt(One(Class({'\\', '|', ','}, false))),
    Cat(Opt(One(Class({')', '|', '}', ']', '"'}, false))),
        Opt(One(Class({'\\', '|', ','}, false)))))

  function TokenAtom(c: char): Atom {
    if c == '.' then AnyButNewline else Lit(c)
  }

  /** A specifier token read as a regular expression. */
  function TokenRe(t: string): Re
    decreases |t|
  {
    if t == "" then Eps
    else if |t| >= 2 && t[1] == '*' then Cat(Star(TokenAtom(t[0])), TokenRe(t[2..]))
    else Cat(One(TokenAtom(t[0])), TokenRe(t[1..]))
  }

  function CleanupRe(token: string): Re {
    Cat(Precede, Cat(TokenRe(token), Succeed))
  }

  /** `re.sub(re, '', s[i:])`: scan left to right, drop the first-priority match
      found at each position, copy the character where there is none. */
  function Sub(re: Re, s: string, i: nat): (r: string)
    requires i <= |s|
    ensures |r| <= |s| - i
    decreases |s| - i
  {
    if i == |s| then ""
    else
      var es := Ends(re, s, i);
      if es != [] && es[0] > i then Sub(re, s, es[0])
      else [s[i]] + Sub(re, s, i + 1)
  }

  /** What `__add_in` leaves of `text` when `token` has an empty value. */
  function DeleteToken(text: string, token: string): (r: string)
    ensures |r| <= |text|
  {
    Sub(CleanupRe(token), text, 0)
  }

  // ---------------------------------------------------------------- lemmas

  /** The fewest characters a match of `re` consumes. */
  function MinLen(re: Re): nat {
    match re
    case Eps => 0
    case One(_) => 1
    case Cat(l, r) => MinLen(l) + MinLen(r)
    case Opt(_) => 0
    case Star(_) => 0
  }

  lemma {:induction false} EndsAtLeast(re: Re, s: string, i: nat)
    requires i <= |s|
    ensures forall k :: 0 <= k < |Ends(re, s, i)| ==> Ends(re, s, i)[k] >= i + MinLen(re)
    decreases re, 0, |s| - i
  {
    match re
    case Eps =>
    case One(a) =>
    case Opt(r) =>
    case Star(a) =>
    case Cat(l, r) =>
      EndsAtLeast(l, s, i);
      ThenAllAtLeast(r, s, Ends(l, s, i), i, i + MinLen(l));
  }

  lemma {:induction false} ThenAllAtLeast(re: Re, s: string, es: seq<nat>, lo: nat, m: nat)
    requires Bounded(es, lo, |s|)
    requires forall k :: 0 <= k < |es| ==> es[k] >= m
    ensures forall k :: 0 <= k < |ThenAll(re, s, es, lo)| ==> ThenAll(re, s, es, lo)[k] >= m + MinLen(re)
    decreases re, 1, |es|
  {
    if es != [] {
      EndsAtLeast(re, s, es[0]);
      ThenAllAtLeast(re, s, es[1..], lo, m);
    }
  }

  lemma {:induction false} ThenAllHas(re: Re, s: string, es: seq<nat>, lo: nat, e: nat, f: nat)
    requires Bounded(es, lo, |s|)
    requires e in es && e <= |s| && f in Ends(re, s, e)
    ensures f in ThenAll(re, s, es, lo)
    decreases |es|
  {
    if es[0] != e {
      ThenAllHas(re, s, es[1..], lo, e, f);
    }
  }

  /** A match of `l` followed by a match of `r` is a match of their
      concatenation. */
  lemma CatHas(l: Re, r: Re, s: string, i: nat, e: nat, f: nat)
    requires i <= |s| && e in Ends(l, s, i) && f in Ends(r, s, e)
    ensures f in Ends(Cat(l, r), s, i)
  {
    ThenAllHas(r, s, Ends(l, s, i), i, e, f);
  }

  /** Every part of the decoration is optional: each can match nothing. */
  lemma DecorationOptional(s: string, i: nat)
    requires i <= |s|
    ensures i in Ends(Precede, s, i) && i in Ends(Succeed, s, i)
  {
    var optA := Opt(One(Lit('\\')));
    var optB := Opt(One(Class({'(', '|', '{', '[', '"'}, false)));
    var optC := Opt(Cat(One(Lit('\\')), Cat(One(Lit('\\')), Cat(One(Lower), Cat(One(Lower), One(Class({}, true)))))));
    var optD := Opt(One(Class({'\\', '|', ',', '-'}, true)));
    CatHas(optC, optD, s, i, i, i);
    CatHas(optB, Cat(optC, optD), s, i, i, i);
    CatHas(optA, Cat(optB, Cat(optC, optD)), s, i, i, i);
    var optE := Opt(One(Class({'\\', '|', ','}, false)));
    var optF := Opt(One(Class({')', '|', '}', ']', '"'}, false)));
    CatHas(optF, optE, s, i, i, i);
    CatHas(optE, Cat(optF, optE), s, i, i, i);
  }

  /** A token without `*` matches its own text. */
  lemma {:induction false} TokenMatchesItself(t: string, s: string, i: nat)
    requires '*' !in t && OccursAt(s, t, i)
    ensures i + |t| in Ends(TokenRe(t), s, i)
    decreases |t|
  {
    if t != "" {
      assert s[i] == t[0];
      assert Ends(One(TokenAtom(t[0])), s, i) == [i + 1];
      assert s[i + 1..i + 1 + |t[1..]|] == t[1..];
      TokenMatchesItself(t[1..], s, i + 1);
      CatHas(One(TokenAtom(t[0])), TokenRe(t[1..]), s, i, i + 1, i + |t|);
    }
  }

  /** A token without `*` consumes at least its own length. */
  lemma {:induction false} TokenMinLen(t: string)
    requires '*' !in t
    ensures MinLen(TokenRe(t)) == |t|
    decreases |t|
  {
    if t != "" {
      assert t[1..] == t[1..] && '*' !in t[1..];
      TokenMinLen(t[1..]);
    }
  }

  lemma {:induction false} SubShortensFrom(re: Re, s: string, i: nat, p: nat)
    requires i <= p < |s| && MinLen(re) >= 1 && Ends(re, s, p) != []
    ensures |Sub(re, s, i)| < |s| - i
    decreases p - i
  {
    var es := Ends(re, s, i);
    if es != [] {
      EndsAtLeast(re, s, i);
      assert es[0] in es;
    }
    if !(es != [] && es[0] > i) {
      assert i != p;
      SubShortensFrom(re, s, i + 1, p);
    }
  }

  /** When the text holds a `*`-free token, an empty value always deletes
      something: at the latest the token itself matches. */
  lemma DeleteTokenShortens(text: string, token: string)
    requires token != "" && '*' !in token && Contains(text, token)
    ensures |DeleteToken(text, token)| < |text|
  {
    var p := Find(text, token);
    CleanupMatchesToken(text, token, p);
    SubShortensFrom(CleanupRe(token), text, 0, p);
  }

  /** The bare token, without any decoration, is a match of the cleanup
      pattern, and every match is at least as long as a `*`-free token. */
  lemma CleanupMatchesToken(text: string, token: string, p: nat)
    requires '*' !in token && OccursAt(text, token, p)
    ensures p + |token| in Ends(CleanupRe(token), text, p)
    ensures MinLen(CleanupRe(token)) >= |token|
  {
    var q := p + |token|;
    var tre := TokenRe(token);
    DecorationOptional(text, p);
    TokenMatchesItself(token, text, p);
    DecorationOptional(text, q);
    CatHas(tre, Succeed, text, p, q, q);
    CatHas(Precede, Cat(tre, Succeed), text, p, p, q);
    TokenMinLen(token);
  }

  /** A text in which no match starts anywhere is returned unchanged. */
  lemma {:induction false} SubNoMatch(re: Re, s: string, i: nat)
    requires i <= |s|
    requires forall j :: i <= j <= |s| ==> Ends(re, s, j) == []
    ensures Sub(re, s, i) == s[i..]
    decreases |s| - i
  {
    if i < |s| {
      SubNoMatch(re, s, i + 1);
      assert s[i..] == [s[i]] + s[i + 1..];
    }
  }

  lemma CatSingle(l: Re, r: Re, s: string, i: nat, j: nat)
    requires i <= |s| && j <= |s| && Ends(l, s, i) == [j]
    ensures Ends(Cat(l, r), s, i) == Ends(r, s, j)
  {
    assert ThenAll(r, s, [j], i) == Ends(r, s, j) + ThenAll(r, s, [], i);
  }

  lemma CatNone(l: Re, r: Re, s: string, i: nat)
    requires i <= |s| && Ends(l, s, i) == []
    ensures Ends(Cat(l, r), s, i) == []
  {
  }

  lemma OptNone(r: Re, s: string, i: nat)
    requires i <= |s| && Ends(r, s, i) == []
    ensures Ends(Opt(r), s, i) == [i]
  {
  }

  /** `Ends` of `Cat(Star(a), r)` when `a` matches only at `i`: the engine tries
      one repetition first, then none. */
  lemma StarOnceThen(a: Atom, r: Re, s: string, i: nat)
    requires i + 1 < |s| && AtomMatches(a, s[i]) && !AtomMatches(a, s[i + 1])
    ensures Ends(Cat(Star(a), r), s, i) == Ends(r, s, i + 1) + Ends(r, s, i)
  {
    assert Ends(Star(a), s, i) == [i + 1, i] by {
      assert Ends(Star(a), s, i + 1) == [i + 1];
    }
    ThenAllTwo(r, s, i + 1, i, i);
  }

  lemma ThenAllTwo(r: Re, s: string, j: nat, k: nat, lo: nat)
    requires lo <= j <= |s| && lo <= k <= |s|
    ensures ThenAll(r, s, [j, k], lo) == Ends(r, s, j) + Ends(r, s, k)
  {
    assert [j, k][1..] == [k];
    assert ThenAll(r, s, [k], lo) == Ends(r, s, k) + ThenAll(r, s, [], lo);
  }

  lemma StarNoneThen(a: Atom, r: Re, s: string, i: nat)
    requires i <= |s| && (i < |s| ==> !AtomMatches(a, s[i]))
    ensures Ends(Cat(Star(a), r), s, i) == Ends(r, s, i)
  {
    assert Ends(Star(a), s, i) == [i];
    CatSingle(Star(a), r, s, i, i);
  }

  /** Because the token is read as a pattern, a record `%*X` (any letter X)
      with an empty value only loses its `X`: `%*` means "any number of `%`",
      which matches none. */
  lemma StarTokenLeavesPrefix(letter: char)
    requires IsUpper(letter) || IsLower(letter)
    ensures DeleteToken("%*" + [letter], "%*" + [letter]) == "%*"
  {
    StarTokenSub("%*" + [letter]);
  }

  lemma StarTokenSub(s: string)
    requires |s| == 3 && s[0] == '%' && s[1] == '*' && (IsUpper(s[2]) || IsLower(s[2]))
    ensures DeleteToken(s, s) == "%*"
  {
    var re := CleanupRe(s);
    StarTokenEnds(s);
    assert Sub(re, s, 3) == "";
    assert Sub(re, s, 2) == "";
    assert Sub(re, s, 1) == "*";
    assert Sub(re, s, 0) == "%*";
  }

  lemma StarTokenEnds(s: string)
    requires |s| == 3 && s[0] == '%' && s[1] == '*' && (IsUpper(s[2]) || IsLower(s[2]))
    ensures Ends(CleanupRe(s), s, 0) == [] && Ends(CleanupRe(s), s, 1) == []
    ensures Ends(CleanupRe(s), s, 2) == [3]
  {
    var tre := Cat(Star(Lit('%')), Cat(One(Lit(s[2])), Eps));
    StarTokenRe(s);
    StarTokenThenSucceed(s);
    PrecedeEndsAt(s, 0);
    PrecedeEndsAt(s, 1);
    PrecedeEndsAt(s, 2);
    CatSingle(Precede, Cat(tre, Succeed), s, 0, 0);
    CatSingle(Precede, Cat(tre, Succeed), s, 1, 1);
    CatSingle(Precede, Cat(tre, Succeed), s, 2, 2);
  }

  lemma StarTokenThenSucceed(s: string)
    requires |s| == 3 && s[0] == '%' && s[1] == '*' && (IsUpper(s[2]) || IsLower(s[2]))
    ensures Ends(Cat(Cat(Star(Lit('%')), Cat(One(Lit(s[2])), Eps)), Succeed), s, 0) == []
    ensures Ends(Cat(Cat(Star(Lit('%')), Cat(One(Lit(s[2])), Eps)), Succeed), s, 1) == []
    ensures Ends(Cat(Cat(Star(Lit('%')), Cat(One(Lit(s[2])), Eps)), Succeed), s, 2) == [3]
  {
    var tre := Cat(Star(Lit('%')), Cat(One(Lit(s[2])), Eps));
    StarTokenReEnds(s);
    CatNone(tre, Succeed, s, 0);
    CatNone(tre, Succeed, s, 1);
    SucceedAtEnd(s);
    CatSingle(tre, Succeed, s, 2, 3);
  }

  lemma StarTokenRe(s: string)
    requires |s| == 3 && s[0] == '%' && s[1] == '*' && (IsUpper(s[2]) || IsLower(s[2]))
    ensures TokenRe(s) == Cat(Star(Lit('%')), Cat(One(Lit(s[2])), Eps))
  {
    var rest := s[2..];
    assert |rest| == 1 && rest[0] == s[2] && rest[1..] == "";
    assert TokenRe(rest[1..]) == Eps;
    assert TokenRe(rest) == Cat(One(Lit(s[2])), Eps);
    assert TokenAtom('%') == Lit('%');
  }

  lemma StarTokenReEnds(s: string)
    requires |s| == 3 && s[0] == '%' && s[1] == '*' && (IsUpper(s[2]) || IsLower(s[2]))
    ensures Ends(Cat(Star(Lit('%')), Cat(One(Lit(s[2])), Eps)), s, 0) == []
    ensures Ends(Cat(Star(Lit('%')), Cat(One(Lit(s[2])), Eps)), s, 1) == []
    ensures Ends(Cat(Star(Lit('%')), Cat(One(Lit(s[2])), Eps)), s, 2) == [3]
  {
    var t := Cat(One(Lit(s[2])), Eps);
    assert !AtomMatches(Lit(s[2]), s[0]) && !AtomMatches(Lit(s[2]), s[1]);
    assert Ends(One(Lit(s[2])), s, 0) == [] && Ends(One(Lit(s[2])), s, 1) == [];
    assert Ends(One(Lit(s[2])), s, 2) == [3];
    CatNone(One(Lit(s[2])), Eps, s, 0);
    CatNone(One(Lit(s[2])), Eps, s, 1);
    CatSingle(One(Lit(s[2])), Eps, s, 2, 3);
    StarOnceThen(Lit('%'), t, s, 0);
    StarNoneThen(Lit('%'), t, s, 1);
    StarNoneThen(Lit('%'), t, s, 2);
  }

  /** The decoration before the token matches nothing at a character that
      cannot start it. */
  lemma PrecedeEndsAt(s: string, i: nat)
    requires i < |s| && s[i] !in {'\\', '(', '|', '{', '[', '"', ',', '-'} && !IsSpace(s[i])
    ensures Ends(Precede, s, i) == [i]
  {
    var lower := Cat(One(Lower), Cat(One(Lower), One(Class({}, true))));
    var c := Cat(One(Lit('\\')), Cat(One(Lit('\\')), lower));
    var optD := Opt(One(Class({'\\', '|', ',', '-'}, true)));
    CatNone(One(Lit('\\')), Cat(One(Lit('\\')), lower), s, i);
    OptNone(c, s, i);
    OptNone(One(Class({'\\', '|', ',', '-'}, true)), s, i);
    CatSingle(Opt(c), optD, s, i, i);
    var optB := One(Class({'(', '|', '{', '[', '"'}, false));
    OptNone(optB, s, i);
    CatSingle(Opt(optB), Cat(Opt(c), optD), s, i, i);
    OptNone(One(Lit('\\')), s, i);
    CatSingle(Opt(One(Lit('\\'))), Cat(Opt(optB), Cat(Opt(c), optD)), s, i, i);
  }

  /** At the end of the text the decoration after the token matches nothing. */
  lemma SucceedAtEnd(s: string)
    ensures Ends(Succeed, s, |s|) == [|s|]
  {
    var e := One(Class({'\\', '|', ','}, false));
    var f := One(Class({')', '|', '}', ']', '"'}, false));
    OptNone(e, s, |s|);
    OptNone(f, s, |s|);
    CatSingle(Opt(f), Opt(e), s, |s|, |s|);
    CatSingle(Opt(e), Cat(Opt(f), Opt(e)), s, |s|, |s|);
  }
}
