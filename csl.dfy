/** The rewrites the CSL formatter applies around citeproc: journal names
    per style before formatting, and afterwards splitting citeproc's
    citation and bibliography strings, adjusting the author text per style,
    escaping for LaTeX and filling the style's `\bibitem` template. */
module Csl {
  import opened Results
  import opened Text
  import CustomFields

  /** The CSL styles the formatter loads: seven complete styles and, under
      `AuthorOnly`, the ones used only to format author lists. */
  datatype Style = Mnras | Icarus | Soph | Aastex | Aspc | Aasj | Apsj | AuthorOnly(name: string)
  {
    /** The styles whose journals are replaced by AASTeX macros. */
    predicate UsesMacros() { this == Aastex || this == Aasj || this == Aspc }
  }

  /** One citeproc-json record: only the keys these rewrites read. A record
      passed without a `locator` key is `None` there. */
  datatype CslItem = CslItem(containerTitle: string, locator: Option<string>, authors: seq<string>)

  /** The helpers the formatter calls into; none of them is part of this
      model. */
  datatype Hooks = Hooks(
    htmlToLatex: string -> string,        // html_to_laTex
    latex: string -> string,              // encode_laTex
    latexAuthor: string -> string,        // encode_laTex_author
    unescape: string -> string)           // decode('string_escape')

  predicate IsDot(c: char) { c == '.' }

  predicate IsBlank(c: char) { c == ' ' }

  // ------------------------------------------------------- container titles

  /** The journal name a record carries after the style's adjustment:
      mnras takes the journal's abbreviation without surrounding dots when
      there is one, the AASTeX styles take the macro of the name read
      without `The `, when the table has one. */
  function TitleFor(style: Style, title: string, macros: map<string, string>,
                    abbreviation: string -> Option<string>): string
  {
    if style == Mnras then
      match abbreviation(title)
      case Some(a) => Strip(a, IsDot)
      case None => title
    else if style.UsesMacros() then
      var key := Replace(title, "The ", "");
      if key in macros then macros[key] else title
    else title
  }

  /** Every record with its journal name adjusted, nothing else touched. */
  function Titled(items: seq<CslItem>, style: Style, macros: map<string, string>,
                  abbreviation: string -> Option<string>): (r: seq<CslItem>)
    ensures |r| == |items|
  {
    seq(|items|, i requires 0 <= i < |items| =>
      items[i].(containerTitle := TitleFor(style, items[i].containerTitle, macros, abbreviation)))
  }

  /** A sequence holding every record with its journal name adjusted is
      the titled sequence. */
  lemma TitledEach(items: seq<CslItem>, r: seq<CslItem>, style: Style, macros: map<string, string>,
                   abbreviation: string -> Option<string>)
    requires |r| == |items|
    requires forall j :: 0 <= j < |r| ==>
               r[j] == items[j].(containerTitle := TitleFor(style, items[j].containerTitle, macros, abbreviation))
    ensures r == Titled(items, style, macros, abbreviation)
  {
  }

  /** For the AASTeX styles a journal whose name (read without `The `) has
      a macro takes the macro, any other journal keeps its name, and the
      other keys of every record are left as they were. */
  lemma MacroTitles(items: seq<CslItem>, style: Style, macros: map<string, string>,
                    abbreviation: string -> Option<string>, i: nat)
    requires style.UsesMacros() && i < |items|
    ensures var t := items[i].containerTitle;
            var r := Titled(items, style, macros, abbreviation)[i];
            r.containerTitle == (if Replace(t, "The ", "") in macros then macros[Replace(t, "The ", "")] else t) &&
            r.locator == items[i].locator && r.authors == items[i].authors
  {
  }

  /** mnras keeps a journal without an abbreviation, and an abbreviation it
      uses neither starts nor ends with a dot. */
  lemma MnrasTitles(items: seq<CslItem>, macros: map<string, string>,
                    abbreviation: string -> Option<string>, i: nat)
    requires i < |items|
    ensures var t := items[i].containerTitle;
            var r := Titled(items, Mnras, macros, abbreviation)[i].containerTitle;
            (abbreviation(t).None? ==> r == t) &&
            (abbreviation(t).Some? ==> r == "" || (r[0] != '.' && r[|r| - 1] != '.'))
  {
    var t := items[i].containerTitle;
    if abbreviation(t).Some? {
      var l := TrimLeft(abbreviation(t).value, IsDot);
      var r := TrimRight(l, IsDot);
      if r != "" {
        assert r == l[..|r|];
        assert r[0] == l[0];
      }
    }
  }

  /** The other styles leave every record as it is. */
  lemma OtherStylesKeepTitles(items: seq<CslItem>, style: Style, macros: map<string, string>,
                              abbreviation: string -> Option<string>)
    requires style != Mnras && !style.UsesMacros()
    ensures Titled(items, style, macros, abbreviation) == items
  {
  }

  /** The formatter's records, whose journal names it rewrites in place. */
  class CslFormatter {
    var forCls: seq<CslItem>
    const style: Style
    const exportFormat: CustomFields.Encoding

    /** Holds the records and adjusts their journal names for the style;
        the citeproc bibliography built next is not part of this model. */
    constructor(forCls: seq<CslItem>, style: Style, exportFormat: CustomFields.Encoding,
                macros: map<string, string>, abbreviation: string -> Option<string>)
      ensures this.style == style && this.exportFormat == exportFormat
      ensures this.forCls == Titled(forCls, style, macros, abbreviation)
    {
      this.forCls := forCls;
      this.style := style;
      this.exportFormat := exportFormat;
      new;
      UpdateContainerTitle(macros, abbreviation);
    }

    /** Rewrites each record's `container-title` for the style. */
    method UpdateContainerTitle(macros: map<string, string>, abbreviation: string -> Option<string>)
      modifies this`forCls
      ensures forCls == Titled(old(forCls), style, macros, abbreviation)
    {
      if style == Mnras || style.UsesMacros() {
        ghost var items := forCls;
        var i := 0;
        while i < |forCls|
          invariant 0 <= i <= |forCls| == |items|
          invariant forall j :: 0 <= j < i ==>
                      forCls[j] == items[j].(containerTitle := TitleFor(style, items[j].containerTitle, macros, abbreviation))
          invariant forall j :: i <= j < |forCls| ==> forCls[j] == items[j]
        {
          var data := forCls[i];
          forCls := forCls[i := data.(containerTitle := TitleFor(style, data.containerTitle, macros, abbreviation))];
          i := i + 1;
        }
        TitledEach(items, forCls, style, macros, abbreviation);
      } else {
        OtherStylesKeepTitles(forCls, style, macros, abbreviation);
      }
    }
  }

  // ---------------------------------------------------------- author text

  /** The `et al.` citeproc leaves for icarus, ending in a backslash. */
  const IcarusEtAl := " et al.\\"

  /** `, and <n> colleagues`, where n is the number of authors after the
      first (so `-1` for a record without authors). */
  function Colleagues(count: nat): string {
    ", and " + IntToString(count - 1) + " colleagues"
  }

  /** The icarus search: the first record whose `locator` is the bibcode
      supplies the author count; a record without a `locator` met before
      it raises KeyError, and when no record matches the author is kept. */
  function IcarusAuthor(items: seq<CslItem>, author: string, bibcode: string): (r: Result<string>)
    ensures r.Failure? ==> r.error == KeyError
    decreases |items|
  {
    if items == [] then Success(author)
    else match items[0].locator
      case None => Failure(KeyError)
      case Some(l) =>
        if l == bibcode then Success(Replace(author, IcarusEtAl, Colleagues(|items[0].authors|)))
        else IcarusAuthor(items[1..], author, bibcode)
  }

  /** The bibliography author after the style's `et al.` rewrite: icarus
      counts the colleagues, soph writes `and, ...`, the others keep it. */
  function UpdateAuthorEtal(items: seq<CslItem>, style: Style, author: string, bibcode: string): (r: Result<string>)
    ensures r.Failure? ==> style == Icarus && r.error == KeyError
    ensures style != Icarus && style != Soph ==> r == Success(author)
  {
    if style == Icarus then
      if Contains(author, IcarusEtAl) then IcarusAuthor(items, author, bibcode) else Success(author)
    else if style == Soph then
      Success(if Contains(author, "et al.") then Replace(author, "et al.", "and, ...") else author)
    else Success(author)
  }

  /** The records a search for `bibcode` passes over without a match. */
  predicate Unmatched(items: seq<CslItem>, bibcode: string) {
    forall j :: 0 <= j < |items| ==> items[j].locator.Some? && items[j].locator.value != bibcode
  }

  /** icarus: when every record has a `locator` and none is the bibcode,
      the author is unchanged. */
  lemma {:induction false} IcarusNoMatch(items: seq<CslItem>, author: string, bibcode: string)
    requires Unmatched(items, bibcode)
    ensures UpdateAuthorEtal(items, Icarus, author, bibcode) == Success(author)
  {
    IcarusNoMatchSearch(items, author, bibcode);
  }

  lemma {:induction false} IcarusNoMatchSearch(items: seq<CslItem>, author: string, bibcode: string)
    requires Unmatched(items, bibcode)
    ensures IcarusAuthor(items, author, bibcode) == Success(author)
    decreases |items|
  {
    if items != [] {
      IcarusNoMatchSearch(items[1..], author, bibcode);
    }
  }

  /** icarus: the first record whose `locator` is the bibcode decides the
      colleague count; every ` et al.\` becomes `, and <n> colleagues`. */
  lemma {:induction false} IcarusFirstMatch(items: seq<CslItem>, author: string, bibcode: string, k: nat)
    requires k < |items| && Unmatched(items[..k], bibcode) && items[k].locator == Some(bibcode)
    requires Contains(author, IcarusEtAl)
    ensures UpdateAuthorEtal(items, Icarus, author, bibcode)
            == Success(Replace(author, IcarusEtAl, Colleagues(|items[k].authors|)))
  {
    IcarusFirstMatchSearch(items, author, bibcode, k);
  }

  lemma {:induction false} IcarusFirstMatchSearch(items: seq<CslItem>, author: string, bibcode: string, k: nat)
    requires k < |items| && Unmatched(items[..k], bibcode) && items[k].locator == Some(bibcode)
    ensures IcarusAuthor(items, author, bibcode)
            == Success(Replace(author, IcarusEtAl, Colleagues(|items[k].authors|)))
    decreases k
  {
    if k > 0 {
      assert items[0] == items[..k][0];
      assert items[1..][..k - 1] == items[..k][1..];
      IcarusFirstMatchSearch(items[1..], author, bibcode, k - 1);
    }
  }

  /** icarus: a record without a `locator` met before any match raises
      KeyError. */
  lemma {:induction false} IcarusMissingLocator(items: seq<CslItem>, author: string, bibcode: string, k: nat)
    requires k < |items| && Unmatched(items[..k], bibcode) && items[k].locator.None?
    requires Contains(author, IcarusEtAl)
    ensures UpdateAuthorEtal(items, Icarus, author, bibcode) == Failure(KeyError)
  {
    IcarusMissingLocatorSearch(items, author, bibcode, k);
  }

  lemma {:induction false} IcarusMissingLocatorSearch(items: seq<CslItem>, author: string, bibcode: string, k: nat)
    requires k < |items| && Unmatched(items[..k], bibcode) && items[k].locator.None?
    ensures IcarusAuthor(items, author, bibcode) == Failure(KeyError)
    decreases k
  {
    if k > 0 {
      assert items[0] == items[..k][0];
      assert items[1..][..k - 1] == items[..k][1..];
      IcarusMissingLocatorSearch(items[1..], author, bibcode, k - 1);
    }
  }

  /** soph: the bibliography author is the text with every `et al.`
      replaced by `and, ...`, whether or not it had one. */
  lemma SophEtal(items: seq<CslItem>, author: string, bibcode: string)
    ensures UpdateAuthorEtal(items, Soph, author, bibcode) == Success(Replace(author, "et al.", "and, ..."))
  {
    if !Contains(author, "et al.") {
      ReplaceAbsent(author, "et al.", "and, ...");
    }
  }

  /** The citation author: soph in LaTeX output sets every `et al.` in
      `\emph{}`; any other style or format keeps the text. */
  function AddEmph(style: Style, format: CustomFields.Encoding, author: string): (r: string)
    ensures style != Soph || format != CustomFields.Latex ==> r == author
  {
    if style == Soph && Contains(author, "et al.") && format == CustomFields.Latex
    then Replace(author, "et al.", "\\emph{et al.}")
    else author
  }

  /** soph in LaTeX: the citation author is the text with every `et al.`
      emphasised, whether or not it had one. */
  lemma SophEmph(author: string)
    ensures AddEmph(Soph, CustomFields.Latex, author) == Replace(author, "et al.", "\\emph{et al.}")
  {
    if !Contains(author, "et al.") {
      ReplaceAbsent(author, "et al.", "\\emph{et al.}");
    }
  }

  // ------------------------------------------------------------ tokenizers

  /** Where the first line of `s` ends at or after `i`: regular-expression
      `.` does not match a newline. */
  function LineEnd(s: string, i: nat): (e: nat)
    requires i <= |s|
    ensures i <= e <= |s| && (e == |s| || s[e] == '\n')
    ensures forall k :: i <= k < e ==> s[k] != '\n'
    decreases |s| - i
  {
    if i == |s| || s[i] == '\n' then i else LineEnd(s, i + 1)
  }

  /** Four decimal digits start at `k`. */
  predicate YearAt(s: string, k: nat) {
    k + 4 <= |s| && AllDigits(s[k..k + 4])
  }

  /** `\(?(\d{4})` matches at `k`: an optional `(`, then the year. */
  predicate MatchesAt(s: string, k: nat) {
    (k < |s| && s[k] == '(' && YearAt(s, k + 1)) || YearAt(s, k)
  }

  /** The greedy `(.*)` backtracking from `k`: the longest author part
      after which the rest of the pattern matches, with where its year
      starts. The optional `(` is tried before it is skipped. */
  function CitaSplitFrom(s: string, k: nat): (r: Option<(nat, nat)>)
    requires k <= |s|
    ensures r.Some? ==> r.value.0 <= k && YearAt(s, r.value.1) &&
                        (r.value.1 == r.value.0 || (r.value.1 == r.value.0 + 1 && s[r.value.0] == '('))
    ensures r.Some? ==> forall j :: r.value.0 < j <= k ==> !MatchesAt(s, j)
    ensures r.None? ==> forall j :: 0 <= j <= k ==> !MatchesAt(s, j)
    decreases k
  {
    if k < |s| && s[k] == '(' && YearAt(s, k + 1) then Some((k, k + 1))
    else if YearAt(s, k) then Some((k, k))
    else if k == 0 then None
    else CitaSplitFrom(s, k - 1)
  }

  /** `__tokenize_cita`: the citation without its first and last
      character, split into the author before the last year on its first
      line and that year, both stripped of spaces; no year raises
      IndexError. */
  function TokenizeCita(cita: string): (r: Result<(string, string)>)
    ensures r.Failure? ==> r.error == IndexError
  {
    var s := PySlice(cita, 1, -1);
    match CitaSplitFrom(s, LineEnd(s, 0))
    case None => Failure(IndexError)
    case Some((a, y)) => Success((Strip(s[..a], IsBlank), Strip(s[y..y + 4], IsBlank)))
  }

  /** The optional `(` is never consumed: a year after `(` is matched with
      the `(` left in the author, since the greedy author part is one
      character longer that way. So the year always directly follows the
      text the author is stripped from, and is four digits. */
  lemma CitaYearFollowsAuthor(cita: string)
    requires TokenizeCita(cita).Success?
    ensures var s := PySlice(cita, 1, -1);
            var m := CitaSplitFrom(s, LineEnd(s, 0));
            m.Some? && m.value.1 == m.value.0 &&
            TokenizeCita(cita).value.1 == s[m.value.0..m.value.0 + 4] &&
            |TokenizeCita(cita).value.1| == 4 && AllDigits(TokenizeCita(cita).value.1)
  {
    var s := PySlice(cita, 1, -1);
    var e := LineEnd(s, 0);
    var m := CitaSplitFrom(s, e);
    var a, y := m.value.0, m.value.1;
    if y == a + 1 {
      assert s[a] != '\n';
      assert MatchesAt(s, a + 1);
      assert false;
    }
    YearStrip(s, a);
  }

  /** A year is left alone by stripping spaces. */
  lemma YearStrip(s: string, k: nat)
    requires YearAt(s, k)
    ensures Strip(s[k..k + 4], IsBlank) == s[k..k + 4]
  {
    var w := s[k..k + 4];
    assert IsDigit(w[0]) && IsDigit(w[3]);
    StripDigits(w);
  }

  /** Stripping spaces leaves a text that starts and ends with a digit. */
  lemma StripDigits(w: string)
    requires w != "" && IsDigit(w[0]) && IsDigit(w[|w| - 1])
    ensures Strip(w, IsBlank) == w
  {
  }

  /** Stripping a trailing space changes nothing. */
  lemma {:induction false} StripTrailingBlank(w: string)
    ensures Strip(w + " ", IsBlank) == Strip(w, IsBlank)
    decreases |w|
  {
    if w != "" && IsBlank(w[0]) {
      assert (w + " ")[1..] == w[1..] + " ";
      StripTrailingBlank(w[1..]);
    } else if w == "" {
      assert TrimLeft(" ", IsBlank) == TrimLeft("", IsBlank);
    } else {
      assert TrimLeft(w + " ", IsBlank) == w + " ";
      assert (w + " ")[..|w|] == w;
    }
  }

  /** A citation `(<author> <year>)` on one line, as citeproc renders
      these styles, splits into the stripped author and the year. */
  lemma CitaOf(open: char, author: string, year: string, close: char)
    requires forall k :: 0 <= k < |author| ==> author[k] != '\n'
    requires |year| == 4 && AllDigits(year)
    ensures TokenizeCita([open] + author + " " + year + [close]) == Success((Strip(author, IsBlank), year))
  {
    var cita := [open] + author + " " + year + [close];
    var s := author + " " + year;
    var n := |author| + 1;
    assert PySlice(cita, 1, -1) == s;
    assert LineEnd(s, 0) == |s|;
    assert s[n..n + 4] == year;
    YearAtEnd(s, n);
    assert s[..n] == author + " ";
    StripTrailingBlank(author);
    StripDigits(year);
  }

  /** A year ending the text is where the greedy split stops. */
  lemma YearAtEnd(s: string, n: nat)
    requires n + 4 == |s| && YearAt(s, n)
    ensures CitaSplitFrom(s, |s|) == Some((n, n))
  {
    assert IsDigit(s[n..n + 4][0]);
    assert s[n] != '(';
    assert CitaSplitFrom(s, n) == Some((n, n));
    assert CitaSplitFrom(s, n + 1) == Some((n, n));
    assert CitaSplitFrom(s, n + 2) == Some((n, n));
    assert CitaSplitFrom(s, n + 3) == Some((n, n));
  }

  /** The first digit of `s` in `[i, e)`, if any. */
  function FirstDigit(s: string, i: nat, e: nat): (r: Option<nat>)
    requires i <= e <= |s|
    ensures r.Some? ==> i <= r.value < e && IsDigit(s[r.value]) &&
                        forall k :: i <= k < r.value ==> !IsDigit(s[k])
    ensures r.None? ==> forall k :: i <= k < e ==> !IsDigit(s[k])
    decreases e - i
  {
    if i == e then None else if IsDigit(s[i]) then Some(i) else FirstDigit(s, i + 1, e)
  }

  /** `__tokenize_biblio`: the lazy `(.*?)` stops at the first digit of
      the first line; the author is everything before it and the rest is
      the remainder of that line with spaces stripped; a first line
      without a digit raises IndexError. */
  function TokenizeBiblio(biblio: string): (r: Result<(string, string)>)
    ensures r.Failure? ==> r.error == IndexError
    ensures r.Success? ==> |r.value.0| <= |biblio| && biblio[..|r.value.0|] == r.value.0 &&
                           forall k :: 0 <= k < |r.value.0| ==> !IsDigit(r.value.0[k]) && r.value.0[k] != '\n'
  {
    var e := LineEnd(biblio, 0);
    match FirstDigit(biblio, 0, e)
    case None => Failure(IndexError)
    case Some(k) => Success((biblio[..k], Strip(biblio[k..e], IsBlank)))
  }

  /** A one-line bibliography entry whose author part has no digit splits
      there, the rest keeping its leading digit. */
  lemma BiblioOf(author: string, rest: string)
    requires forall k :: 0 <= k < |author| ==> !IsDigit(author[k]) && author[k] != '\n'
    requires rest != "" && IsDigit(rest[0]) && forall k :: 0 <= k < |rest| ==> rest[k] != '\n'
    ensures TokenizeBiblio(author + rest) == Success((author, TrimRight(rest, IsBlank)))
  {
    OneLine(author, rest);
    FirstDigitAfter(author, rest);
    BiblioAt(author + rest, |author|);
    assert (author + rest)[..|author|] == author && (author + rest)[|author|..|author + rest|] == rest;
    assert TrimLeft(rest, IsBlank) == rest;
  }

  /** A one-line entry splits at its first digit. */
  lemma BiblioAt(b: string, n: nat)
    requires LineEnd(b, 0) == |b| && FirstDigit(b, 0, |b|) == Some(n)
    ensures TokenizeBiblio(b) == Success((b[..n], Strip(b[n..|b|], IsBlank)))
  {
  }

  /** Two pieces without a line break make one line. */
  lemma OneLine(a: string, b: string)
    requires forall k :: 0 <= k < |a| ==> a[k] != '\n'
    requires forall k :: 0 <= k < |b| ==> b[k] != '\n'
    ensures LineEnd(a + b, 0) == |a + b|
  {
  }

  /** The first digit of `a + b` is the first of `b` when `a` has none and
      `b` starts with one. */
  lemma FirstDigitAfter(a: string, b: string)
    requires forall k :: 0 <= k < |a| ==> !IsDigit(a[k])
    requires b != "" && IsDigit(b[0])
    ensures FirstDigit(a + b, 0, |a + b|) == Some(|a|)
  {
    assert (a + b)[|a|] == b[0];
  }

  /** The most a bibliography split can give: no year on the first line
      raises IndexError. */
  lemma BiblioWithoutDigit(biblio: string)
    requires forall k :: 0 <= k < |biblio| ==> !IsDigit(biblio[k])
    ensures TokenizeBiblio(biblio) == Failure(IndexError)
  {
  }

  // --------------------------------------------------------------- output

  /** The five values a style's template is filled with. */
  datatype Pieces = Pieces(citaAuthor: string, citaYear: string, bibcode: string,
                           biblioAuthor: string, biblioRest: string)

  /** How citeproc's citation and bibliography entry are cut up: apsj keeps
      the citation whole as the bibliography author, with an empty author,
      year and bibcode, and the entry with the citation removed as the
      rest; the other styles use the two tokenizers. */
  function SplitEntry(style: Style, cita: string, biblio: string, bibcode: string): (r: Result<Pieces>)
    ensures r.Failure? ==> style != Apsj && r.error == IndexError
  {
    if style == Apsj then Success(Pieces("", "", "", cita, Replace(biblio, cita, "")))
    else
      var (citaAuthor, citaYear) :- TokenizeCita(cita);
      var (biblioAuthor, biblioRest) :- TokenizeBiblio(biblio);
      Success(Pieces(citaAuthor, citaYear, bibcode, biblioAuthor, biblioRest))
  }

  /** The per-style author rewrites, the HTML-to-LaTeX translation of the
      three text pieces and, in LaTeX output, the escaping: ` &` becomes
      ` \&` in the citation author, the bibliography author goes through the
      author encoder and the rest through the text encoder, with `\{` and
      `\}` turned back into braces. */
  function Adjust(items: seq<CslItem>, style: Style, format: CustomFields.Encoding,
                  hooks: Hooks, p: Pieces): (r: Result<Pieces>)
    ensures r.Failure? ==> style == Icarus && r.error == KeyError
    ensures r.Success? ==> r.value.citaYear == p.citaYear && r.value.bibcode == p.bibcode
  {
    var citaAuthor := hooks.htmlToLatex(AddEmph(style, format, p.citaAuthor));
    var biblioAuthor :- UpdateAuthorEtal(items, style, p.biblioAuthor, p.bibcode);
    var biblioAuthor := hooks.htmlToLatex(biblioAuthor);
    var biblioRest := hooks.htmlToLatex(p.biblioRest);
    if format == CustomFields.Latex then
      var rest := Replace(Replace(hooks.unescape(hooks.latex(biblioRest)), "\\{", "{"), "\\}", "}");
      Success(Pieces(Replace(citaAuthor, " &", " \\&"), p.citaYear, p.bibcode,
                     hooks.latexAuthor(biblioAuthor), rest))
    else
      Success(Pieces(citaAuthor, p.citaYear, p.bibcode, biblioAuthor, biblioRest))
  }

  /** The style's template filled with the pieces; a style without one
      raises KeyError. */
  function Fill(style: Style, p: Pieces): (r: Result<string>)
    ensures r.Failure? <==> style.AuthorOnly?
    ensures r.Failure? ==> r.error == KeyError
  {
    match style
    case Mnras =>
      Success("\\bibitem[\\protect\\citaauthoryear{" + p.citaAuthor + "}{" + p.citaYear + "}]{"
              + p.bibcode + "} " + p.biblioAuthor + p.biblioRest)
    case Icarus | Aastex | Aspc | Aasj =>
      Success("\\bibitem[" + p.citaAuthor + "(" + p.citaYear + ")]{" + p.bibcode + "} "
              + p.biblioAuthor + p.biblioRest)
    case Soph =>
      Success("\\bibitem[" + p.citaAuthor + "(" + p.citaYear + ")]{" + p.bibcode + "}"
              + p.biblioAuthor + p.biblioRest)
    case Apsj => Success(p.citaAuthor + p.citaYear + p.bibcode + p.biblioAuthor + p.biblioRest)
    case AuthorOnly(_) => Failure(KeyError)
  }

  /** `__format_output`: one formatted entry from citeproc's citation and
      bibliography strings for a record. */
  function FormatOutput(items: seq<CslItem>, style: Style, format: CustomFields.Encoding, hooks: Hooks,
                        cita: string, biblio: string, bibcode: string): (r: Result<string>)
    ensures r.Failure? ==> r.error == IndexError || r.error == KeyError
  {
    var p :- SplitEntry(style, cita, biblio, bibcode);
    var q :- Adjust(items, style, format, hooks, p);
    Fill(style, q)
  }

  /** apsj prints the citation followed by the entry with every occurrence
      of the citation removed, each translated from HTML; nothing is
      tokenized, so it cannot fail. */
  lemma ApsjOutput(items: seq<CslItem>, hooks: Hooks, cita: string, biblio: string, bibcode: string)
    requires hooks.htmlToLatex("") == ""
    ensures FormatOutput(items, Apsj, CustomFields.Unicode, hooks, cita, biblio, bibcode)
            == Success(hooks.htmlToLatex(cita) + hooks.htmlToLatex(Replace(biblio, cita, "")))
  {
    var q := Pieces("", "", "", hooks.htmlToLatex(cita), hooks.htmlToLatex(Replace(biblio, cita, "")));
    assert Adjust(items, Apsj, CustomFields.Unicode, hooks, Pieces("", "", "", cita, Replace(biblio, cita, "")))
           == Success(q);
    assert "" + "" + "" + q.biblioAuthor + q.biblioRest == q.biblioAuthor + q.biblioRest;
  }

  /** In LaTeX output the citation author is the Unicode output's citation
      author with every ` &` written ` \&` (soph differs only by its
      `\emph`, covered by `SophEmph`). */
  lemma LatexAmpersand(items: seq<CslItem>, style: Style, hooks: Hooks, p: Pieces)
    requires style != Soph
    requires Adjust(items, style, CustomFields.Unicode, hooks, p).Success?
    ensures Adjust(items, style, CustomFields.Latex, hooks, p).Success?
    ensures Adjust(items, style, CustomFields.Latex, hooks, p).value.citaAuthor
            == Replace(Adjust(items, style, CustomFields.Unicode, hooks, p).value.citaAuthor, " &", " \\&")
  {
  }

  /** The icarus, aastex, aspc and aasj templates are the same. */
  lemma SharedTemplate(p: Pieces)
    ensures Fill(Aastex, p) == Fill(Icarus, p) && Fill(Aspc, p) == Fill(Icarus, p) && Fill(Aasj, p) == Fill(Icarus, p)
  {
  }

  /** soph's template is icarus's without the space after the bibcode. */
  lemma SophOmitsSpace(p: Pieces)
    ensures Fill(Icarus, p) == Fill(Soph, p.(biblioAuthor := " " + p.biblioAuthor))
  {
    var q := p.(biblioAuthor := " " + p.biblioAuthor);
    var head := "\\bibitem[" + p.citaAuthor + "(" + p.citaYear + ")]{" + p.bibcode + "}";
    assert Fill(Icarus, p).value == head + " " + p.biblioAuthor + p.biblioRest;
    assert Fill(Soph, q).value == head + (" " + p.biblioAuthor) + p.biblioRest;
    assert head + " " + p.biblioAuthor + p.biblioRest == head + (" " + p.biblioAuthor) + p.biblioRest;
  }

  /** mnras writes the author and year as `\protect\citaauthoryear{..}{..}`
      where icarus writes `author(year)`; the rest of the line is the same. */
  lemma MnrasCitaauthoryear(p: Pieces)
    ensures var tail := "]{" + p.bibcode + "} " + p.biblioAuthor + p.biblioRest;
            Fill(Mnras, p).value == "\\bibitem[\\protect\\citaauthoryear{" + p.citaAuthor + "}{" + p.citaYear + "}" + tail &&
            Fill(Icarus, p).value == "\\bibitem[" + p.citaAuthor + "(" + p.citaYear + ")" + tail
  {
  }

  /** A one-line aastex entry for a record cited as `(<author>
      <year>)`, whose bibliography entry starts with an author part without
      digits, formats in Unicode as the template filled with the stripped
      citation author, the year, the bibcode, the bibliography author and
      the rest. */
  lemma AastexEntry(items: seq<CslItem>, hooks: Hooks, open: char, author: string, year: string,
                    close: char, biblioAuthor: string, rest: string, bibcode: string)
    requires forall k :: 0 <= k < |author| ==> author[k] != '\n'
    requires |year| == 4 && AllDigits(year)
    requires forall k :: 0 <= k < |biblioAuthor| ==> !IsDigit(biblioAuthor[k]) && biblioAuthor[k] != '\n'
    requires rest != "" && IsDigit(rest[0]) && forall k :: 0 <= k < |rest| ==> rest[k] != '\n'
    requires forall t :: hooks.htmlToLatex(t) == t
    ensures FormatOutput(items, Aastex, CustomFields.Unicode, hooks, [open] + author + " " + year + [close],
                         biblioAuthor + rest, bibcode)
            == Success("\\bibitem[" + Strip(author, IsBlank) + "(" + year + ")]{" + bibcode + "} "
                       + biblioAuthor + TrimRight(rest, IsBlank))
  {
    var cita := [open] + author + " " + year + [close];
    CitaOf(open, author, year, close);
    BiblioOf(biblioAuthor, rest);
    var p := Pieces(Strip(author, IsBlank), year, bibcode, biblioAuthor, TrimRight(rest, IsBlank));
    SplitOf(Aastex, cita, biblioAuthor + rest, bibcode, p);
    AdjustPlain(items, hooks, p);
    FormatOutputOf(items, Aastex, CustomFields.Unicode, hooks, cita, biblioAuthor + rest, bibcode, p, p);
  }

  /** Outside apsj the pieces are what the two tokenizers give. */
  lemma SplitOf(style: Style, cita: string, biblio: string, bibcode: string, p: Pieces)
    requires style != Apsj && p.bibcode == bibcode
    requires TokenizeCita(cita) == Success((p.citaAuthor, p.citaYear))
    requires TokenizeBiblio(biblio) == Success((p.biblioAuthor, p.biblioRest))
    ensures SplitEntry(style, cita, biblio, bibcode) == Success(p)
  {
  }

  lemma FormatOutputOf(items: seq<CslItem>, style: Style, format: CustomFields.Encoding, hooks: Hooks,
                       cita: string, biblio: string, bibcode: string, p: Pieces, q: Pieces)
    requires SplitEntry(style, cita, biblio, bibcode) == Success(p)
    requires Adjust(items, style, format, hooks, p) == Success(q)
    ensures FormatOutput(items, style, format, hooks, cita, biblio, bibcode) == Fill(style, q)
  {
  }

  /** aastex in Unicode with an identity HTML translation keeps the pieces. */
  lemma AdjustPlain(items: seq<CslItem>, hooks: Hooks, p: Pieces)
    requires forall t :: hooks.htmlToLatex(t) == t
    ensures Adjust(items, Aastex, CustomFields.Unicode, hooks, p) == Success(p)
  {
    assert hooks.htmlToLatex(p.citaAuthor) == p.citaAuthor;
    assert hooks.htmlToLatex(p.biblioAuthor) == p.biblioAuthor;
    assert hooks.htmlToLatex(p.biblioRest) == p.biblioRest;
  }
}
