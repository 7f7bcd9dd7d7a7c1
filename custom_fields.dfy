/** How a custom format fills one specifier in with a Solr document's
    fields: reading values, rendering each field kind, encoding for the
    output format, substituting into the template (or deleting the
    specifier when there is no value), and wrapping the finished record. */
module CustomFields {
  import opened Results
  import opened Text
  import opened Accumulate
  import opened SolrDoc
  import Cleanup
  import SolrDate
  import CustomAuthors

  /** The output encoding a `%ZEncoding:` command selects. */
  datatype Encoding = Unicode | Html | Latex

  /** One entry of the parsed template: where the specifier starts, its
      text, and the Solr field it asks for. */
  datatype Field = Field(start: nat, token: string, name: string)

  /** The helpers the formatter calls into and the configuration it reads;
      none of them is part of this model. */
  datatype Env = Env(
    escape: string -> string,                  // cgi.escape
    latex: string -> string,                   // encode_laTex
    latexAuthor: string -> string,             // encode_laTex_author
    fill: (string, nat, string) -> string,     // textwrap.fill(text, width, subsequent_indent)
    abbreviation: string -> Option<string>,    // get_pub_abbreviation, best exact match
    cleanPubRaw: string -> string,             // the REGEX_PUB_RAW substitutions
    journalMacros: map<string, string>,        // EXPORT_SERVICE_AASTEX_JOURNAL_MACRO
    docType: string -> string,                 // the doctype lookup of the base formatter
    counterIds: nat -> seq<string>,            // generate_counter_id of the base formatter
    bbbUrl: string)                            // EXPORT_SERVICE_FROM_BBB_URL

  /** `str(v)` for `citation_count`. */
  function CitationText(v: Value): (r: Result<string>)
    ensures v.Num? ==> r == Success(IntToString(v.n))
  {
    match v
    case Num(n) => Success(IntToString(n))
    case Str(s) => Success(s)
    case Strs(_) => Failure(TypeError)
  }

  /** What `strptime` accepts as its text: a list or a number is a
      TypeError. */
  function DateInput(v: Value): (r: Result<string>)
    ensures r.Success? <==> v.Str?
    ensures r.Failure? ==> r.error == TypeError
  {
    if v.Str? then Success(v.s) else Failure(TypeError)
  }

  function Last(token: string): char {
    if token == "" then ' ' else token[|token| - 1]
  }

  // -------------------------------------------------------------- renderers

  /** `__format_url`: `U` is a link, `u` the plain address; an empty bibcode
      gives nothing. */
  function FormatUrl(bibcode: string, letter: char, path: string): (r: Result<string>)
    ensures letter != 'U' && letter != 'u' ==> r == Failure(KeyError)
    ensures (letter == 'U' || letter == 'u') && bibcode == "" ==> r == Success("")
  {
    if letter != 'U' && letter != 'u' then Failure(KeyError)
    else if |bibcode| == 0 then Success("")
    else if letter == 'U' then Success("<a href=\"" + path + "\">" + bibcode + "</a>")
    else Success(path + "/" + bibcode)
  }

  /** Each affiliation behind its counter label, `AA(first)`. */
  function Labelled(affs: seq<string>, labels: seq<string>): (r: seq<string>)
    requires |labels| >= |affs|
    ensures |r| == |affs|
  {
    seq(|affs|, i requires 0 <= i < |affs| => labels[i] + "(" + affs[i] + ")")
  }

  /** `__get_affiliation_list`: every labelled affiliation followed by `; `,
      the last separator cut. */
  function AffiliationList(doc: Doc, env: Env): (r: Result<string>)
    ensures "aff" !in doc ==> r == Success("")
  {
    if "aff" !in doc then Success("")
    else
      var affs :- Items(doc["aff"]);
      var labels := env.counterIds(|affs|);
      if |labels| < |affs| then Failure(IndexError)
      else Success(DropSeparator(Terminated(Labelled(affs, labels), "; "), "; "))
  }

  /** `__get_keywords`: every keyword followed by `, `, the last separator
      cut. */
  function KeywordList(doc: Doc): (r: Result<string>)
    ensures "keyword" !in doc ==> r == Success("")
  {
    if "keyword" !in doc then Success("")
    else
      var kws :- Items(doc["keyword"]);
      Success(DropSeparator(Terminated(kws, ", "), ", "))
  }

  /** The loop of `__get_affiliation_list`. */
  method GetAffiliationList(doc: Doc, env: Env) returns (r: Result<string>)
    ensures r == AffiliationList(doc, env)
  {
    if "aff" !in doc {
      return Success("");
    }
    var affs := Items(doc["aff"]);
    if affs.Failure? {
      return Failure(affs.error);
    }
    var labels := env.counterIds(|affs.value|);
    if |labels| < |affs.value| {
      return Failure(IndexError);
    }
    var list := AppendEach("", Labelled(affs.value, labels), "; ");
    assert "" + Terminated(Labelled(affs.value, labels), "; ") == Terminated(Labelled(affs.value, labels), "; ");
    return Success(list);
  }

  /** The loop of `__get_keywords`. */
  method GetKeywords(doc: Doc) returns (r: Result<string>)
    ensures r == KeywordList(doc)
  {
    if "keyword" !in doc {
      return Success("");
    }
    var kws := Items(doc["keyword"]);
    if kws.Failure? {
      return Failure(kws.error);
    }
    var list := AppendEach("", kws.value, ", ");
    assert "" + Terminated(kws.value, ", ") == Terminated(kws.value, ", ");
    return Success(list);
  }

  /** `__get_publication`, chosen by the specifier's letter. */
  function Publication(letter: char, doc: Doc, env: Env): (r: Result<string>)
    ensures letter !in {'J', 'j', 'Q', 'q'} ==> r == Success("")
  {
    if letter == 'J' then StrOf(Get(doc, "pub"))
    else if letter == 'j' then
      var pub :- StrOf(Get(doc, "pub"));
      var key := Replace(pub, "The ", "");
      Success(if key in env.journalMacros then env.journalMacros[key] else pub)
    else if letter == 'Q' then
      var raw :- JoinValue(Get(doc, "pub_raw"));
      Success(if Contains(raw, "<") && Contains(raw, ">") then env.cleanPubRaw(raw) else raw)
    else if letter == 'q' then
      var pub :- StrOf(Get(doc, "pub"));
      match env.abbreviation(pub)
      case Some(a) => Success(Strip(a, c => c == '.'))
      case None => Success("")
    else Success("")
  }

  /** `__encode`: unicode passes through, html is escaped, LaTeX encodes
      authors and other fields each their own way and leaves journals (which
      may already be macros) alone. */
  function Encode(text: string, name: string, enc: Encoding, env: Env): (r: string)
    ensures enc == Unicode || (enc == Latex && name == "pub") ==> r == text
  {
    match enc
    case Unicode => text
    case Html => env.escape(text)
    case Latex => if name == "author" then env.latexAuthor(text) else if name == "pub" then text else env.latex(text)
  }

  /** `__add_in`: a value replaces every occurrence of the specifier; an
      empty value deletes the specifier together with its punctuation. */
  function AddIn(result: string, f: Field, value: string, enc: Encoding, env: Env): string {
    if |value| > 0 then Replace(result, f.token, Encode(value, f.name, enc, env))
    else Cleanup.DeleteToken(result, f.token)
  }

  /** The value a field of the template gets, by the Solr field it asks
      for; `None` for fields the formatter has no branch for. */
  function FieldValue(f: Field, doc: Doc, index: nat, styled: map<string, seq<string>>,
                      counts: map<string, seq<nat>>, env: Env): (r: Result<Option<string>>)
    ensures f.name !in KnownFields ==> r == Success(None)
    ensures r.Success? && r.value.None? ==> f.name !in KnownFields
  {
    var n := f.name;
    if n == "title" || n == "page" || n == "lastpage" || n == "doi" || n == "comment" then
      var v :- JoinValue(Get(doc, n)); Success(Some(v))
    else if n == "author" then
      var v :- CustomAuthors.AuthorList(f.token, index, styled, counts); Success(Some(v))
    else if n == "doctype" then
      var v :- StrOf(Get(doc, n)); Success(Some(env.docType(v)))
    else if n == "date" then
      var d :- DateInput(Get(doc, n));
      var v :- SolrDate.CustomDate(d, Last(f.token)); Success(Some(v))
    else if n == "aff" then
      var v :- AffiliationList(doc, env); Success(Some(v))
    else if n == "keyword" then
      var v :- KeywordList(doc); Success(Some(v))
    else if n == "url" then
      var b :- StrOf(Get(doc, "bibcode"));
      var v :- FormatUrl(b, Last(f.token), env.bbbUrl); Success(Some(v))
    else if n == "abstract" || n == "copyright" || n == "bibcode" || n == "volume" || n == "year" then
      var v :- StrOf(Get(doc, n)); Success(Some(v))
    else if n == "pub" || n == "pub_raw" then
      var v :- Publication(Last(f.token), doc, env); Success(Some(v))
    else if n == "citation_count" then
      var v :- CitationText(Get(doc, n)); Success(Some(v))
    else Success(None)
  }

  const KnownFields: set<string> := {"title", "page", "lastpage", "doi", "comment", "author", "doctype",
                                     "date", "aff", "keyword", "url", "abstract", "copyright", "bibcode",
                                     "volume", "year", "pub", "pub_raw", "citation_count"}

  /** One step of `__get_doc`: fill field `f` into the record. */
  function ApplyField(result: string, f: Field, doc: Doc, index: nat, enc: Encoding,
                      styled: map<string, seq<string>>, counts: map<string, seq<nat>>, env: Env): (r: Result<string>)
    ensures f.name !in KnownFields ==> r == Success(result)
  {
    var v :- FieldValue(f, doc, index, styled, counts, env);
    match v
    case None => Success(result)
    case Some(s) => Success(AddIn(result, f, s, enc, env))
  }

  /** `'{0:>2} '.format(index + 1)`: the enumeration label. */
  function Label(index: nat): string {
    RJust(NatToString(index + 1), 2) + " "
  }

  /** `__format_line_wrapped`: drop literal `\n` escapes, then label and/or
      wrap the record, and end it with a newline. */
  function LineWrapped(text: string, index: nat, lineLength: nat, enumeration: bool, env: Env): (r: string)
    ensures |r| >= 1 && r[|r| - 1] == '\n'
  {
    var t := Replace(text, "\\n", "");
    var body :=
      if lineLength == 0 then (if enumeration then Label(index) + t else t)
      else if enumeration then Label(index) + env.fill(t, lineLength, "    ")
      else env.fill(t, lineLength, "");
    body + "\n"
  }

  // ---------------------------------------------------------------- lemmas

  /** A value fills in every occurrence of the specifier: the record is its
      pieces between occurrences, joined by the encoded value. */
  lemma AddInSubstitutes(result: string, f: Field, value: string, enc: Encoding, env: Env)
    requires value != "" && f.token != ""
    ensures AddIn(result, f, value, enc, env) == Join(Split(result, f.token), Encode(value, f.name, enc, env))
  {
    ReplaceIsSplitJoin(result, f.token, Encode(value, f.name, enc, env));
  }

  /** A field whose specifier is not in the record leaves it unchanged when
      it has a value. */
  lemma AddInAbsent(result: string, f: Field, value: string, enc: Encoding, env: Env)
    requires value != "" && f.token != "" && !Contains(result, f.token)
    ensures AddIn(result, f, value, enc, env) == result
  {
    ReplaceAbsent(result, f.token, Encode(value, f.name, enc, env));
  }

  /** An empty value removes something whenever the specifier is there. */
  lemma AddInEmptyDeletes(result: string, f: Field, enc: Encoding, env: Env)
    requires f.token != "" && '*' !in f.token && Contains(result, f.token)
    ensures |AddIn(result, f, "", enc, env)| < |result|
  {
    Cleanup.DeleteTokenShortens(result, f.token);
  }

  /** Affiliations are the labelled entries joined by `; `. */
  lemma AffiliationsJoined(doc: Doc, env: Env)
    requires "aff" in doc && Items(doc["aff"]).Success?
    requires |env.counterIds(|Items(doc["aff"]).value|)| >= |Items(doc["aff"]).value| > 0
    ensures AffiliationList(doc, env) ==
            Success(Join(Labelled(Items(doc["aff"]).value, env.counterIds(|Items(doc["aff"]).value|)), "; "))
  {
    var affs := Items(doc["aff"]).value;
    var ls := Labelled(affs, env.counterIds(|affs|));
    assert AffiliationList(doc, env) == Success(DropSeparator(Terminated(ls, "; "), "; "));
    AppendEachResult("", ls, "; ");
    assert "" + Terminated(ls, "; ") == Terminated(ls, "; ");
    assert "" + Join(ls, "; ") == Join(ls, "; ");
    JoinPrefix(ls, 1, "; ");
    assert ls[..1] == [ls[0]];
    assert |Join(ls, "; ")| > 0 by { assert |Join(ls[..1], "; ")| > 0; }
  }

  /** Keywords are joined by `, `, provided the joined text is not empty. */
  lemma KeywordsJoined(doc: Doc)
    requires "keyword" in doc && Items(doc["keyword"]).Success?
    requires Items(doc["keyword"]).value != [] && Join(Items(doc["keyword"]).value, ", ") != ""
    ensures KeywordList(doc) == Success(Join(Items(doc["keyword"]).value, ", "))
  {
    var kws := Items(doc["keyword"]).value;
    assert KeywordList(doc) == Success(DropSeparator(Terminated(kws, ", "), ", "));
    AppendEachResult("", kws, ", ");
    assert "" + Terminated(kws, ", ") == Terminated(kws, ", ");
    assert "" + Join(kws, ", ") == Join(kws, ", ");
  }

  /** The rest of the keyword cases, beside `KeywordsJoined`: when the
      joined text is empty (no keyword, or a single empty one) the separator
      is not long enough to be cut, so one empty keyword renders as a bare
      `, `. */
  lemma KeywordsBlank(doc: Doc)
    requires "keyword" in doc && Items(doc["keyword"]).Success?
    requires Join(Items(doc["keyword"]).value, ", ") == ""
    ensures KeywordList(doc) == Success(if Items(doc["keyword"]).value == [] then "" else ", ")
  {
    var kws := Items(doc["keyword"]).value;
    assert KeywordList(doc) == Success(DropSeparator(Terminated(kws, ", "), ", "));
    if kws != [] {
      TerminatedIsJoin(kws, ", ");
      assert Terminated(kws, ", ") == ", ";
    }
  }

  /** Without wrapping or enumeration only the escapes change: every real
      newline survives and one is added. */
  lemma LineWrappedNewlines(text: string, index: nat, env: Env)
    ensures CountChar(LineWrapped(text, index, 0, false, env), '\n') == CountChar(text, '\n') + 1
  {
    var t := Replace(text, "\\n", "");
    DeleteKeepsCount(text, "\\n", '\n');
    CountCharAppend(t, "\n", '\n');
  }

  /** A record without escapes is kept as it is and ended with a newline. */
  lemma LineWrappedPlain(text: string, index: nat, env: Env)
    requires !Contains(text, "\\n")
    ensures LineWrapped(text, index, 0, false, env) == text + "\n"
    ensures LineWrapped(text, index, 0, true, env) == Label(index) + text + "\n"
  {
    ReplaceAbsent(text, "\\n", "");
  }

  /** Records up to the ninth are labelled with a space before the number. */
  lemma LabelPadded(index: nat)
    requires index < 9
    ensures Label(index) == [' ', DigitChar(index + 1), ' ']
  {
    assert NatToString(index + 1) == [DigitChar(index + 1)];
    assert RJust([DigitChar(index + 1)], 2) == RJust(" " + [DigitChar(index + 1)], 2);
  }
}
