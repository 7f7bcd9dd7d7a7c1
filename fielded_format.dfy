/** The fielded (tagged) exports: ADS, EndNote, ProCite, Refman, RefWorks and
    MEDLARS. Each document becomes a run of `tag value` lines in the
    format's fixed tag order, followed by a blank line. */
module FieldedFormat {
  import opened Results
  import opened Text
  import opened SolrDoc
  import opened SolrDate
  import opened Accumulate
  import CustomFields
  import RecordLoop

  datatype Format = ADS | EndNote | ProCite | Refman | RefWorks | MEDLARS

  /** The kinds of document the five type tables tell apart: every table
      gives one name per kind. */
  datatype DocKind = Journal | Book | Chapter | Proceedings | Paper | Eprint | Misc | Thesis | Report

  /** The Solr document types the tables translate, each with its kind. */
  function SolrKinds(): map<string, DocKind> {
    map["article" := Journal, "book" := Book, "inbook" := Chapter, "proceedings" := Journal,
        "inproceedings" := Proceedings, "abstract" := Paper, "misc" := Journal, "eprint" := Eprint,
        "talk" := Paper, "software" := Misc, "proposal" := Misc, "pressrelease" := Journal,
        "circular" := Journal, "newsletter" := Journal, "catalog" := Journal, "phdthesis" := Thesis,
        "mastersthesis" := Thesis, "techreport" := Report, "intechreport" := Report]
  }

  /** Each format's name for a kind of document; ADS's table is empty. */
  function KindName(k: DocKind, f: Format): (r: string)
    ensures r == "" <==> f == ADS
  {
    match f
    case ADS => ""
    case EndNote => (
      match k
      case Journal => "Journal Article" case Book => "Book" case Chapter => "Book Section"
      case Proceedings => "Conference Proceedings" case Paper => "Conference Paper"
      case Eprint => "Electronic Article" case Misc => "Miscellaneous" case Thesis => "Thesis"
      case Report => "Report")
    case ProCite => (
      match k
      case Journal => "Journal" case Book => "Book, Whole" case Chapter => "Book Chapter"
      case Proceedings => "Conference" case Paper => "Conference" case Eprint => "Preprint"
      case Misc => "Miscellaneous" case Thesis => "Thesis/Dissertation" case Report => "Report")
    case Refman => (
      match k
      case Journal => "JOUR" case Book => "BOOK" case Chapter => "CHAP" case Proceedings => "CONF"
      case Paper => "CONF" case Eprint => "Preprint" case Misc => "MISC"
      case Thesis => "Thesis/Dissertation" case Report => "RPRT")
    case RefWorks => (
      match k
      case Journal => "Journal" case Book => "Book, Whole" case Chapter => "Book, Chapter"
      case Proceedings => "Conference Proceeding" case Paper => "Conference Proceeding"
      case Eprint => "Preprint" case Misc => "Generic" case Thesis => "Thesis/Dissertation"
      case Report => "Report")
    case MEDLARS => (
      match k
      case Journal => "Journal Article" case Book => "Book" case Chapter => "Book Chapter"
      case Proceedings => "Conference" case Paper => "Conference" case Eprint => "Preprint"
      case Misc => "Miscellaneous" case Thesis => "Thesis" case Report => "Report")
  }

  /** `__get_doc_type` on a text: `fields.get(solr_type, '')`. */
  function DocType(solrType: string, f: Format): string {
    if solrType in SolrKinds() then KindName(SolrKinds()[solrType], f) else ""
  }

  /** The translation is empty exactly for ADS and for types outside the
      table. */
  lemma DocTypeEmpty(solrType: string, f: Format)
    ensures DocType(solrType, f) == "" <==> f == ADS || solrType !in SolrKinds()
  {
  }

  /** `__get_doc_type` on whatever `doctype` holds: a list cannot be used as
      a key, a number simply is not one. */
  function DocTypeOf(v: Value, f: Format): (r: Result<string>)
    ensures r.Failure? <==> v.Strs?
  {
    match v
    case Str(s) => Success(DocType(s, f))
    case Strs(_) => Failure(TypeError)
    case Num(_) => Success("")
  }

  /** One entry of a format's ordered tag table: the Solr field and the
      tag it is written under. */
  datatype Tag = Tag(key: string, tag: string)

  /** `__get_tags`. In the ADS table the key `''` is given twice; the
      ordered dictionary keeps its first position and its last tag. */
  function Tags(f: Format): seq<Tag> {
    match f
    case ADS =>
      [Tag("bibcode", "%R"), Tag("title", "%T"), Tag("author", "%A"), Tag("aff", "%F"),
       Tag("pub", "%J"), Tag("volume", "%V"), Tag("date", "%D"), Tag("page", "%P"),
       Tag("keyword", "%K"), Tag("", "%S"), Tag("copyright", "%C"), Tag("links", "%I"),
       Tag("url", "%U"), Tag("comment", "%X"), Tag("abstract", "%B"), Tag("doi", "%Y DOI:")]
    case EndNote =>
      [Tag("doctype", "%0"), Tag("title", "%T"), Tag("author", "%A"), Tag("aff", "%+"),
       Tag("pub", "%B"), Tag("volume", "%V"), Tag("year", "%D"), Tag("date", "%8"),
       Tag("keyword", "%K"), Tag("url", "%U"), Tag("comment", "%Z"), Tag("abstract", "%X"),
       Tag("doi", "%3")]
    case ProCite => RisTags()
    case Refman => RisTags()
    case RefWorks =>
      [Tag("doctype", "RT"), Tag("title", "T1"), Tag("author", "A1"), Tag("aff", "AD"),
       Tag("pub", "JF"), Tag("volume", "VO"), Tag("year", "YR"), Tag("date", "FD"),
       Tag("page", "SP"), Tag("keyword", "K1"), Tag("url", "LK"), Tag("comment", "NO"),
       Tag("abstract", "AB"), Tag("doi", "DO DOI:")]
    case MEDLARS =>
      [Tag("doctype", "PT  -"), Tag("title", "TI  -"), Tag("author", "AU  -"), Tag("pub", "TA  -"),
       Tag("pub_raw", "SO  -"), Tag("volume", "VI  -"), Tag("date", "DP  -"), Tag("url", "4099-"),
       Tag("abstract", "AB  -")]
  }

  /** The table ProCite and Refman share. */
  function RisTags(): seq<Tag> {
    [Tag("doctype", "TY  -"), Tag("title", "T1  -"), Tag("author", "A1  -"), Tag("pub", "JO  -"),
     Tag("volume", "VL  -"), Tag("date", "Y1  -"), Tag("page", "SP  -"), Tag("keyword", "KW  -"),
     Tag("url", "UR  -"), Tag("abstract", "N2  -"), Tag("doi", "DO  -"), Tag("endRecord", "ER  -")]
  }

  /** `__add_in` on a text: a line `tag value` when there is a value. */
  function AddInText(tag: string, value: string): (r: string)
    ensures value == "" <==> r == ""
    ensures value != "" ==> r == tag + " " + value + "\n"
  {
    if |value| > 0 then tag + " " + value + "\n" else ""
  }

  /** `__add_in` on any value: a list is skipped, and a number passes the
      type test but cannot be added to the tag text. */
  function AddIn(tag: string, v: Value): (r: Result<string>)
    ensures r.Failure? <==> v.Num?
    ensures v.Str? ==> r == Success(AddInText(tag, v.s))
    ensures v.Strs? ==> r == Success("")
  {
    match v
    case Str(s) => Success(AddInText(tag, s))
    case Strs(_) => Success("")
    case Num(_) => Failure(TypeError)
  }

  /** The date layout each format asks `strftime` for. */
  function DateLayout(f: Format): Layout {
    match f
    case ADS => MonthSlashYear
    case EndNote => LongDate
    case ProCite => SlashedDay
    case Refman => SlashedDay
    case RefWorks => SlashedDay
    case MEDLARS => MedlineDate
  }

  /** `__format_date` on whatever `date` holds: only a text can be parsed. */
  function DateOf(v: Value, f: Format): (r: Result<string>)
    ensures v.Str? ==> r == FieldedDate(v.s, DateLayout(f))
    ensures !v.Str? ==> r == Failure(TypeError)
  {
    if v.Str? then FieldedDate(v.s, DateLayout(f)) else Failure(TypeError)
  }

  /** ProCite, Refman and RefWorks write the date as year/month/day with the
      day's leading zero dropped. */
  lemma SlashedDate(s: string, f: Format)
    requires f == ProCite || f == Refman || f == RefWorks
    requires Parse(s).Success? && Parse(s).value.year >= 1900
    ensures DateOf(Str(s), f) == Success(s[0..4] + "/" + s[5..7] + "/" + NatToString(Parse(s).value.day))
  {
    SlashedDayText(s);
  }

  /** A document without a date cannot be exported: parsing `''` fails. */
  lemma MissingDate(f: Format)
    ensures DateOf(Str(""), f) == Failure(ValueError)
  {
  }

  // ------------------------------------------------------------ the lists

  /** `tag item` for each item. */
  function Prefixed(tag: string, items: seq<string>): (r: seq<string>)
    ensures |r| == |items|
  {
    seq(|items|, i requires 0 <= i < |items| => tag + " " + items[i])
  }

  /** The one-line layout: `tag ` and the items, each followed by the
      separator, the last separator cut, wrapped, then a newline. */
  function OneLine(tag: string, items: seq<string>, sep: string, wrap: string -> string): string {
    wrap(DropSeparator(tag + " " + Terminated(items, sep), sep)) + "\n"
  }

  /** The line-per-item layout: `tag item` lines, each followed by a
      newline, the last newline cut and put back. */
  function TaggedLines(tag: string, items: seq<string>): string {
    DropSeparator(Terminated(Prefixed(tag, items), "\n"), "\n") + "\n"
  }

  lemma JoinNonEmpty(xs: seq<string>, sep: string)
    requires xs != [] && xs[0] != ""
    ensures Join(xs, sep) != ""
  {
  }

  /** With items, the one-line layout is the items joined behind the tag. */
  lemma OneLineJoined(tag: string, items: seq<string>, sep: string, wrap: string -> string)
    requires items != []
    ensures OneLine(tag, items, sep, wrap) == wrap(tag + " " + Join(items, sep)) + "\n"
  {
    AppendEachResult(tag + " ", items, sep);
  }

  /** With items, there is one `tag item` line per item, in order. */
  lemma TaggedLinesJoined(tag: string, items: seq<string>)
    requires items != []
    ensures TaggedLines(tag, items) == Join(Prefixed(tag, items), "\n") + "\n"
  {
    JoinNonEmpty(Prefixed(tag, items), "\n");
    AppendEachResult("", Prefixed(tag, items), "\n");
    assert "" + Terminated(Prefixed(tag, items), "\n") == Terminated(Prefixed(tag, items), "\n");
    assert "" + Join(Prefixed(tag, items), "\n") == Join(Prefixed(tag, items), "\n");
  }

  /** `__add_author_list`: nothing without authors; ADS puts them on one
      wrapped line separated by `;`, the other formats one line each. */
  function AuthorLines(doc: Doc, f: Format, tag: string, wrap: string -> string): (r: Result<string>)
    ensures "author" !in doc ==> r == Success("")
  {
    if "author" !in doc then Success("")
    else
      var names :- Items(doc["author"]);
      Success(if f == ADS then OneLine(tag, names, ";", wrap) else TaggedLines(tag, names))
  }

  /** The two-letter counter of the `i`-th affiliation: AA, AB, ..., ZZ. */
  function Counter(i: nat): (r: string)
    requires i < 676
    ensures |r| == 2 && 'A' <= r[0] <= 'Z' && 'A' <= r[1] <= 'Z'
  {
    [('A' as int + i / 26) as char, ('A' as int + i % 26) as char]
  }

  const Counters: seq<string> := seq(676, i requires 0 <= i < 676 => Counter(i))

  /** The counters run in alphabetical order, so no two affiliations share
      one. */
  lemma CounterOrder(i: nat, j: nat)
    requires i < j < 676
    ensures Counter(i)[0] < Counter(j)[0] || (Counter(i)[0] == Counter(j)[0] && Counter(i)[1] < Counter(j)[1])
  {
    if i / 26 == j / 26 {
      assert i % 26 < j % 26;
    } else {
      assert i / 26 < j / 26;
    }
  }

  /** `__get_affiliation_list`: every affiliation behind its counter,
      separated by `, `, after the tag when there is one; ADS wraps it.
      Past the 676th counter, IndexError. */
  function AffLines(doc: Doc, f: Format, tag: string, wrap: string -> string): (r: Result<string>)
    ensures "aff" !in doc ==> r == Success("")
  {
    if "aff" !in doc then Success("")
    else
      var affs :- Items(doc["aff"]);
      if |affs| > |Counters| then Failure(IndexError)
      else
        var start := if |tag| > 0 then tag + " " else "";
        var list := DropSeparator(start + Terminated(CustomFields.Labelled(affs, Counters), ", "), ", ");
        Success(if f == ADS then wrap(list) + "\n" else list + "\n")
  }

  /** The affiliation list is the labelled affiliations joined by `, `. */
  lemma AffLinesJoined(doc: Doc, f: Format, tag: string, wrap: string -> string)
    requires "aff" in doc && Items(doc["aff"]).Success?
    requires var affs := Items(doc["aff"]).value; 0 < |affs| <= 676
    ensures var affs := Items(doc["aff"]).value;
            var list := (if |tag| > 0 then tag + " " else "") + Join(CustomFields.Labelled(affs, Counters), ", ");
            AffLines(doc, f, tag, wrap) == Success(if f == ADS then wrap(list) + "\n" else list + "\n")
  {
    var affs := Items(doc["aff"]).value;
    var start := if |tag| > 0 then tag + " " else "";
    var ls := CustomFields.Labelled(affs, Counters);
    assert ls[0] != "";
    JoinNonEmpty(ls, ", ");
    AppendEachResult(start, ls, ", ");
  }

  /** The separator each format puts between keywords on one line. */
  function KeywordSeparator(f: Format): string {
    match f
    case ADS => ", "
    case EndNote => "; "
    case ProCite => "/ "
    case _ => "\n"
  }

  /** `__add_keywords`: ADS, EndNote and ProCite put them on one wrapped
      line, Refman and RefWorks one line each, MEDLARS nothing. */
  function KeywordLines(doc: Doc, f: Format, tag: string, wrap: string -> string): (r: Result<string>)
    ensures "keyword" !in doc || f == MEDLARS ==> r == Success("")
  {
    if "keyword" !in doc then Success("")
    else if f == ADS || f == EndNote || f == ProCite then
      var kws :- Items(doc["keyword"]);
      Success(OneLine(tag, kws, KeywordSeparator(f), wrap))
    else if f == Refman || f == RefWorks then
      var kws :- Items(doc["keyword"]);
      Success(TaggedLines(tag, kws))
    else Success("")
  }

  // ------------------------------------------------------------ the links

  /** One line of the links block. */
  function LinkLine(tag: string, code: string, name: string): string {
    tag + " " + code + ": " + name + ";\n"
  }

  /** `len(v)`; a number has none. */
  function Len(v: Value): (r: Result<nat>)
    ensures r.Failure? <==> v.Num?
  {
    match v
    case Str(s) => Success(|s|)
    case Strs(xs) => Success(|xs|)
    case Num(_) => Failure(TypeError)
  }

  /** `v > 0` as Python 2 compares: a number by value, and anything that is
      not a number is greater than every number. */
  function Positive(v: Value): bool {
    if v.Num? then v.n > 0 else true
  }

  /** `link_dict`: the `links_data` types that give a line, each with its
      code and its name. */
  function LinkDict(): map<string, (string, string)> {
    map["data" := ("DATA", "On-line Data"),
        "electr" := ("EJOURNAL", "Electronic On-line Article (HTML)"),
        "gif" := ("GIF", "Scanned Article (GIF)"),
        "article" := ("ARTICLE", "Full Printable Article (PDF/Postscript)"),
        "preprint" := ("PREPRINT", "arXiv e-print"),
        "arXiv" := ("", ""),
        "simbad" := ("SIMBAD", "SIMBAD Objects"),
        "ned" := ("NED", "NED Objects"),
        "openurl" := ("OPENURL", "Library Link Server")]
  }

  /** The line a link of a known type gives. */
  function LinkOf(tag: string, t: string): string
    requires t in LinkDict()
  {
    LinkLine(tag, LinkDict()[t].0, LinkDict()[t].1)
  }

  /** `__add_links_data_doc_links`: a line for each entry of a known type, in
      order; `linkType` reads an entry's `type` and fails where the entry
      cannot be read. */
  function LinksData(entries: seq<string>, tag: string, linkType: string -> Result<string>): (r: Result<string>)
    decreases |entries|, 1
  {
    if entries == [] then Success("") else LinksThenLast(entries, tag, linkType)
  }

  /** The lines of the entries before the last, then the last entry's. */
  function LinksThenLast(entries: seq<string>, tag: string, linkType: string -> Result<string>): (r: Result<string>)
    requires entries != []
    decreases |entries|, 0
  {
    var acc :- LinksData(entries[..|entries| - 1], tag, linkType);
    var t :- linkType(entries[|entries| - 1]);
    Success(if t in LinkDict() then acc + LinkOf(tag, t) else acc)
  }

  /** Entries of unknown types give no line. */
  lemma {:induction false} LinksDataUnknown(entries: seq<string>, tag: string, linkType: string -> Result<string>)
    requires forall k :: 0 <= k < |entries| ==> linkType(entries[k]).Success? && linkType(entries[k]).value !in LinkDict()
    ensures LinksData(entries, tag, linkType) == Success("")
    decreases |entries|
  {
    if entries != [] {
      LinksDataUnknown(entries[..|entries| - 1], tag, linkType);
    }
  }

  /** An entry that cannot be read stops the whole block. */
  lemma {:induction false} LinksDataFails(entries: seq<string>, k: nat, tag: string, linkType: string -> Result<string>)
    requires k < |entries| && linkType(entries[k]).Failure?
    ensures LinksData(entries, tag, linkType).Failure?
    decreases |entries|
  {
    if k < |entries| - 1 {
      assert entries[..|entries| - 1][k] == entries[k];
      LinksDataFails(entries[..|entries| - 1], k, tag, linkType);
    }
  }

  /** The `links_data` lines, when the document has the field. */
  function LinksDataOf(doc: Doc, tag: string, linkType: string -> Result<string>): Result<string> {
    if "links_data" !in doc then Success("")
    else
      var es :- Items(doc["links_data"]);
      LinksData(es, tag, linkType)
  }

  /** `__add_doc_links`: ABSTRACT, CITATIONS, REFERENCES, Co-Reads and REFCIT
      lines when the document has them, then the `links_data` lines. */
  function DocLinks(doc: Doc, tag: string, linkType: string -> Result<string>): (r: Result<string>)
  {
    var abstractLen :- Len(Get(doc, "abstract"));
    var a := if abstractLen > 0 then LinkLine(tag, "ABSTRACT", "Abstract") else "";
    var c := if Positive(Get(doc, "citation_count")) then LinkLine(tag, "CITATIONS", "Citations to the Article") else "";
    var referenceLen :- Len(Get(doc, "reference"));
    var ref := if referenceLen > 0 then LinkLine(tag, "REFERENCES", "References in the Article") else "";
    var co := if Positive(Get(doc, "read_count")) then LinkLine(tag, "Co-Reads", "Co-Reads") else "";
    var rc := if Positive(Get(doc, "citation_count")) then LinkLine(tag, "REFCIT", "Refereed Citations to the Article") else "";
    var data :- LinksDataOf(doc, tag, linkType);
    Success(a + c + ref + co + rc + data)
  }

  /** A document with nothing to link gives no lines. */
  lemma NoLinks(doc: Doc, tag: string, linkType: string -> Result<string>)
    requires Get(doc, "abstract") == Str("") && Get(doc, "reference") == Str("")
    requires Get(doc, "citation_count") == Num(0) && Get(doc, "read_count") == Num(0)
    requires "links_data" !in doc
    ensures DocLinks(doc, tag, linkType) == Success("")
  {
  }

  /** Missing counts read as `''`, which Python 2 ranks above every number:
      a document without them still gets the CITATIONS, Co-Reads and REFCIT
      lines. */
  lemma MissingCountsLinked(doc: Doc, tag: string, linkType: string -> Result<string>)
    requires Get(doc, "abstract") == Str("") && Get(doc, "reference") == Str("")
    requires "citation_count" !in doc && "read_count" !in doc && "links_data" !in doc
    ensures DocLinks(doc, tag, linkType) ==
            Success(LinkLine(tag, "CITATIONS", "Citations to the Article") + LinkLine(tag, "Co-Reads", "Co-Reads") +
                    LinkLine(tag, "REFCIT", "Refereed Citations to the Article"))
  {
    var c := LinkLine(tag, "CITATIONS", "Citations to the Article");
    var co := LinkLine(tag, "Co-Reads", "Co-Reads");
    var rc := LinkLine(tag, "REFCIT", "Refereed Citations to the Article");
    assert LinksDataOf(doc, tag, linkType) == Success("");
    assert DocLinks(doc, tag, linkType) == Success("" + c + "" + co + rc + "");
    assert "" + c + "" + co + rc + "" == c + co + rc;
  }

  /** The order of the block: the fixed lines, then the data lines. */
  lemma LinksOrder(doc: Doc, tag: string, linkType: string -> Result<string>)
    requires Len(Get(doc, "abstract")) == Success(1) && Len(Get(doc, "reference")) == Success(1)
    requires Get(doc, "citation_count") == Num(1) && Get(doc, "read_count") == Num(1)
    requires "links_data" in doc && Items(doc["links_data"]).Success?
    requires LinksData(Items(doc["links_data"]).value, tag, linkType).Success?
    ensures DocLinks(doc, tag, linkType) ==
            Success(LinkLine(tag, "ABSTRACT", "Abstract") + LinkLine(tag, "CITATIONS", "Citations to the Article") +
                    LinkLine(tag, "REFERENCES", "References in the Article") + LinkLine(tag, "Co-Reads", "Co-Reads") +
                    LinkLine(tag, "REFCIT", "Refereed Citations to the Article") +
                    LinksData(Items(doc["links_data"]).value, tag, linkType).value)
  {
    assert LinksDataOf(doc, tag, linkType) == LinksData(Items(doc["links_data"]).value, tag, linkType);
  }

  // ------------------------------------------------------ a whole record

  /** What the fielded formatter takes from outside: `textwrap.fill` at
      width 72, the BBB base path, the `REGEX_PUB_RAW` substitutions and the
      reading of a `links_data` entry's type. */
  datatype FieldedEnv = FieldedEnv(wrap: string -> string, bbbPath: string,
                                   cleanPubRaw: string -> string, linkType: string -> Result<string>)

  /** `__add_clean_pub_raw`: tags are cleaned only when the text has both
      `<` and `>`. */
  function PubRaw(doc: Doc, clean: string -> string): (r: Result<string>)
    ensures r.Failure? <==> Get(doc, "pub_raw").Num?
    ensures JoinValue(Get(doc, "pub_raw")).Success? &&
            !(Contains(JoinValue(Get(doc, "pub_raw")).value, "<") && Contains(JoinValue(Get(doc, "pub_raw")).value, ">")) ==>
              r == JoinValue(Get(doc, "pub_raw"))
  {
    var s :- JoinValue(Get(doc, "pub_raw"));
    Success(if Contains(s, "<") && Contains(s, ">") then clean(s) else s)
  }

  /** How `__get_doc` writes the keys it knows; any other key is written as
      its plain value. */
  datatype Handler = JoinedText | AuthorList | DocTypeText | DateText | AbstractText | AffList
                   | KeywordList | CommentText | UrlText | EndRecordText | PubRawText | LinkList | PlainValue

  /** The keys `__get_doc` tests for, each with the branch that writes it. */
  function Handlers(): map<string, Handler> {
    map["title" := JoinedText, "page" := JoinedText, "doi" := JoinedText, "author" := AuthorList,
        "doctype" := DocTypeText, "date" := DateText, "abstract" := AbstractText, "aff" := AffList,
        "keyword" := KeywordList, "comment" := CommentText, "url" := UrlText,
        "endRecord" := EndRecordText, "pub_raw" := PubRawText, "links" := LinkList]
  }

  function HandlerOf(key: string): Handler {
    if key in Handlers() then Handlers()[key] else PlainValue
  }

  lemma KnownHandlers()
    ensures HandlerOf("endRecord") == EndRecordText && HandlerOf("url") == UrlText
  {
    assert "endRecord" in Handlers() && "url" in Handlers();
  }

  /** The text of one tag of the table for one document. */
  function TagText(doc: Doc, t: Tag, f: Format, env: FieldedEnv): Result<string> {
    var key := t.key;
    match HandlerOf(key)
    case JoinedText =>
      var s :- JoinValue(Get(doc, key));
      Success(AddInText(t.tag, s))
    case AuthorList => AuthorLines(doc, f, t.tag, env.wrap)
    case DocTypeText =>
      var s :- DocTypeOf(Get(doc, key), f);
      Success(AddInText(t.tag, s))
    case DateText =>
      var s :- DateOf(Get(doc, key), f);
      Success(AddInText(t.tag, s))
    case AbstractText =>
      (match Get(doc, key)
       case Str(s) => Success(AddInText(t.tag, env.wrap(s)))
       case _ => Failure(TypeError))
    case AffList => AffLines(doc, f, t.tag, env.wrap)
    case KeywordList => KeywordLines(doc, f, t.tag, env.wrap)
    case CommentText =>
      var s :- JoinValue(Get(doc, key));
      Success(AddInText(t.tag, env.wrap(s)))
    case UrlText =>
      (match Get(doc, "bibcode")
       case Str(b) => Success(AddInText(t.tag, env.bbbPath + "/" + b))
       case _ => Failure(TypeError))
    case EndRecordText => Success(AddInText(t.tag, " "))
    case PubRawText =>
      var s :- PubRaw(doc, env.cleanPubRaw);
      Success(AddInText(t.tag, s))
    case LinkList => DocLinks(doc, t.tag, env.linkType)
    case PlainValue => AddIn(t.tag, Get(doc, key))
  }

  /** The end-of-record tag always gives its line. */
  lemma EndRecordLine(doc: Doc, tag: string, f: Format, env: FieldedEnv)
    ensures TagText(doc, Tag("endRecord", tag), f, env) == Success(tag + "  \n")
  {
    assert TagText(doc, Tag("endRecord", tag), f, env) == Success(AddInText(tag, " ")) by {
      KnownHandlers();
    }
    assert AddInText(tag, " ") == tag + "  \n" by {
      AppendAssoc(tag, " ", " ");
      AppendAssoc(tag, " " + " ", "\n");
      assert " " + " " + "\n" == "  \n";
    }
  }

  /** A tag whose key the document does not have and that is written as a
      plain value gives nothing, so ADS's `%S` line never appears. */
  lemma AbsentKeyNoLine(doc: Doc, t: Tag, f: Format, env: FieldedEnv)
    requires t.key !in doc && t.key !in Handlers()
    ensures TagText(doc, t, f, env) == Success("")
  {
  }

  /** The URL line is always there: the BBB path and the bibcode. */
  lemma UrlLine(doc: Doc, tag: string, f: Format, env: FieldedEnv, b: string)
    requires Get(doc, "bibcode") == Str(b)
    ensures TagText(doc, Tag("url", tag), f, env) == Success(tag + " " + env.bbbPath + "/" + b + "\n")
  {
    assert HandlerOf("url") == UrlText;
    assert tag + " " + (env.bbbPath + "/" + b) + "\n" == tag + " " + env.bbbPath + "/" + b + "\n";
  }

  /** The tags of the table filled in, in order; the first error stops it. */
  function DocFields(doc: Doc, tags: seq<Tag>, f: Format, env: FieldedEnv): Result<string>
    decreases |tags|, 1
  {
    if tags == [] then Success("") else FieldsThenLast(doc, tags, f, env)
  }

  /** The fields before the last tag, then the last tag's text. */
  function FieldsThenLast(doc: Doc, tags: seq<Tag>, f: Format, env: FieldedEnv): Result<string>
    requires tags != []
    decreases |tags|, 0
  {
    var acc :- DocFields(doc, tags[..|tags| - 1], f, env);
    var x :- TagText(doc, tags[|tags| - 1], f, env);
    Success(acc + x)
  }

  /** The record is the texts of its tags, in the table's order. */
  lemma {:induction false} DocFieldsInOrder(doc: Doc, tags: seq<Tag>, f: Format, env: FieldedEnv, texts: seq<string>)
    requires |texts| == |tags|
    requires forall k :: 0 <= k < |tags| ==> TagText(doc, tags[k], f, env) == Success(texts[k])
    ensures DocFields(doc, tags, f, env) == Success(Concat(texts))
    decreases |tags|
  {
    if tags != [] {
      var n := |tags| - 1;
      DocFieldsInOrder(doc, tags[..n], f, env, texts[..n]);
      ConcatSnoc(texts[..n], texts[n]);
      TakeSnoc(texts);
    }
  }

  lemma {:induction false} ConcatSnoc(xs: seq<string>, x: string)
    ensures Concat(xs + [x]) == Concat(xs) + x
    decreases |xs|
  {
    if xs == [] {
      assert [x][1..] == [];
    } else {
      ConcatSnoc(xs[1..], x);
      assert (xs + [x])[1..] == xs[1..] + [x];
    }
  }

  /** `__get_doc`: document `index`'s record, ended by a blank line. */
  function RenderDoc(docs: seq<Doc>, index: nat, tags: seq<Tag>, f: Format, env: FieldedEnv): (r: Result<string>)
    ensures index >= |docs| ==> r == Failure(IndexError)
    ensures r.Success? ==> |r.value| >= 2 && r.value[|r.value| - 2..] == "\n\n"
  {
    if index >= |docs| then Failure(IndexError)
    else
      var body :- DocFields(docs[index], tags, f, env);
      Success(body + "\n\n")
  }

  /** Rendering document `k` with the format's tags. */
  function Renderer(docs: seq<Doc>, tags: seq<Tag>, f: Format, env: FieldedEnv): nat -> Result<string> {
    (k: nat) => RenderDoc(docs, k, tags, f, env)
  }

  /** The first `n` records, in order. */
  function Records(docs: seq<Doc>, n: nat, tags: seq<Tag>, f: Format, env: FieldedEnv): (r: Result<seq<string>>)
    ensures r.Success? ==> |r.value| == n && n <= |docs|
    ensures n > |docs| ==> r.Failure?
  {
    var render := Renderer(docs, tags, f, env);
    if n > |docs| then
      RecordLoop.FailsFrom(render, |docs|, n);
      RecordLoop.Rendered(render, n)
    else RecordLoop.Rendered(render, n)
  }

  /** Record `k` is document `k` rendered on its own. */
  lemma RecordsRendered(docs: seq<Doc>, n: nat, tags: seq<Tag>, f: Format, env: FieldedEnv, k: nat)
    requires Records(docs, n, tags, f, env).Success? && k < n
    ensures RenderDoc(docs, k, tags, f, env) == Success(Records(docs, n, tags, f, env).value[k])
  {
    RecordLoop.RenderedAt(Renderer(docs, tags, f, env), n, k);
  }

  function Retrieved(n: nat): string {
    "\n\nRetrieved " + NatToString(n) + " abstracts, starting with number 1.\n\n\n"
  }

  /** `__get_fielded`: with status 0, the retrieved line and then every
      record; otherwise nothing. */
  function Fielded(status: int, resp: Response, f: Format, env: FieldedEnv): (r: Result<string>)
    ensures status != 0 ==> r == Success("")
  {
    if status != 0 then Success("")
    else
      var n := NumDocs(status, resp);
      var rs :- Records(resp.docs, n, Tags(f), f, env);
      Success(Retrieved(n) + Concat(rs))
  }

  /** The layout of an export: the retrieved line, then each record in
      order, each ending in a blank line. */
  lemma FieldedLayout(resp: Response, f: Format, env: FieldedEnv)
    requires Records(resp.docs, resp.numFound, Tags(f), f, env).Success?
    ensures var rs := Records(resp.docs, resp.numFound, Tags(f), f, env).value;
            Fielded(0, resp, f, env) == Success(Retrieved(resp.numFound) + Concat(rs))
  {
    assert NumDocs(0, resp) == resp.numFound;
  }

  lemma FieldsSnoc(doc: Doc, tags: seq<Tag>, k: nat, f: Format, env: FieldedEnv, acc: string)
    requires k < |tags| && DocFields(doc, tags[..k], f, env) == Success(acc)
    ensures DocFields(doc, tags[..k + 1], f, env) ==
            (var x :- TagText(doc, tags[k], f, env); Success(acc + x))
  {
    assert tags[..k + 1][..k] == tags[..k];
  }

  lemma {:induction false} FieldsPrefixFails(doc: Doc, tags: seq<Tag>, k: nat, f: Format, env: FieldedEnv)
    requires k <= |tags| && DocFields(doc, tags[..k], f, env).Failure?
    ensures DocFields(doc, tags, f, env) == DocFields(doc, tags[..k], f, env)
    decreases |tags|
  {
    if k < |tags| {
      var init := tags[..|tags| - 1];
      assert init[..k] == tags[..k];
      FieldsPrefixFails(doc, init, k, f, env);
    } else {
      TakeAll(tags);
    }
  }

  lemma LinksDataStep(entries: seq<string>, k: nat, tag: string, linkType: string -> Result<string>, acc: string, t: string)
    requires k < |entries| && LinksData(entries[..k], tag, linkType) == Success(acc)
    requires linkType(entries[k]) == Success(t)
    ensures LinksData(entries[..k + 1], tag, linkType) == Success(if t in LinkDict() then acc + LinkOf(tag, t) else acc)
  {
    assert entries[..k + 1][..k] == entries[..k];
  }

  lemma LinksDataStepFails(entries: seq<string>, k: nat, tag: string, linkType: string -> Result<string>, acc: string)
    requires k < |entries| && LinksData(entries[..k], tag, linkType) == Success(acc)
    requires linkType(entries[k]).Failure?
    ensures LinksData(entries[..k + 1], tag, linkType) == Failure(linkType(entries[k]).error)
  {
    assert entries[..k + 1][..k] == entries[..k];
  }

  lemma {:induction false} LinksDataPrefixFails(entries: seq<string>, k: nat, tag: string, linkType: string -> Result<string>)
    requires k <= |entries| && LinksData(entries[..k], tag, linkType).Failure?
    ensures LinksData(entries, tag, linkType) == LinksData(entries[..k], tag, linkType)
    decreases |entries|
  {
    if k < |entries| {
      var init := entries[..|entries| - 1];
      assert init[..k] == entries[..k];
      LinksDataPrefixFails(init, k, tag, linkType);
    } else {
      TakeAll(entries);
    }
  }

  lemma LabelledSnoc(affs: seq<string>, i: nat)
    requires i < |affs| && i < |Counters|
    ensures var ls := CustomFields.Labelled(affs[..i + 1], Counters);
            ls == CustomFields.Labelled(affs[..i], Counters) + [Counters[i] + "(" + affs[i] + ")"] &&
            Terminated(ls, ", ") == Terminated(CustomFields.Labelled(affs[..i], Counters), ", ") + (Counters[i] + "(" + affs[i] + ")") + ", "
  {
    var ls := CustomFields.Labelled(affs[..i + 1], Counters);
    assert ls[..i] == CustomFields.Labelled(affs[..i], Counters);
  }

  // ------------------------------------------------------------ the class

  /** A fielded formatter over one Solr answer. */
  class FieldedFormatter {
    var status: int
    var response: Response

    /** `__init__`: the answer is kept and its header status, when it has
        one, replaces the initial -1. */
    constructor (resp: Response)
      ensures status == NewStatus(-1, resp) && response == resp
    {
      status := NewStatus(-1, resp);
      response := resp;
    }

    /** The loop of `__add_author_list`. */
    static method AddAuthorList(doc: Doc, f: Format, tag: string, wrap: string -> string) returns (r: Result<string>)
      ensures r == AuthorLines(doc, f, tag, wrap)
    {
      if "author" !in doc {
        return Success("");
      }
      var names := Items(doc["author"]);
      if names.Failure? {
        return Failure(names.error);
      }
      if f == ADS {
        var line := AppendEach(tag + " ", names.value, ";");
        return Success(wrap(line) + "\n");
      }
      var lines := AppendEach("", Prefixed(tag, names.value), "\n");
      assert "" + Terminated(Prefixed(tag, names.value), "\n") == Terminated(Prefixed(tag, names.value), "\n");
      return Success(lines + "\n");
    }

    /** The loop of `__get_affiliation_list`: each affiliation behind its
        counter; the counter runs out after ZZ. */
    static method LabelAffiliations(start: string, affs: seq<string>) returns (r: Result<string>)
      ensures r.Success? <==> |affs| <= |Counters|
      ensures r.Success? ==> r.value == start + Terminated(CustomFields.Labelled(affs, Counters), ", ")
      ensures r.Failure? ==> r.error == IndexError
    {
      var list := start;
      var i := 0;
      while i < |affs|
        invariant 0 <= i <= |affs| && i <= |Counters|
        invariant list == start + Terminated(CustomFields.Labelled(affs[..i], Counters), ", ")
      {
        if i >= |Counters| {
          return Failure(IndexError);
        }
        var entry := Counters[i] + "(" + affs[i] + ")";
        LabelledSnoc(affs, i);
        ghost var prev := Terminated(CustomFields.Labelled(affs[..i], Counters), ", ");
        assert list + entry + ", " == start + (prev + entry + ", ") by {
          AppendAssoc(start, prev, entry);
          AppendAssoc(start, prev + entry, ", ");
        }
        list := list + entry + ", ";
        i := i + 1;
      }
      TakeAll(affs);
      return Success(list);
    }

    /** `__get_affiliation_list`. */
    static method GetAffiliationList(doc: Doc, f: Format, tag: string, wrap: string -> string) returns (r: Result<string>)
      ensures r == AffLines(doc, f, tag, wrap)
    {
      if "aff" !in doc {
        return Success("");
      }
      var items := Items(doc["aff"]);
      if items.Failure? {
        return Failure(items.error);
      }
      var start := if |tag| > 0 then tag + " " else "";
      var labelled := LabelAffiliations(start, items.value);
      if labelled.Failure? {
        assert |items.value| > |Counters|;
        return Failure(labelled.error);
      }
      var list := labelled.value;
      if |list| > 2 {
        list := list[..|list| - 2];
      }
      assert list == DropSeparator(start + Terminated(CustomFields.Labelled(items.value, Counters), ", "), ", ");
      return Success(if f == ADS then wrap(list) + "\n" else list + "\n");
    }

    /** The loops of `__add_keywords`. */
    static method AddKeywords(doc: Doc, f: Format, tag: string, wrap: string -> string) returns (r: Result<string>)
      ensures r == KeywordLines(doc, f, tag, wrap)
    {
      if "keyword" !in doc {
        return Success("");
      }
      if f == ADS || f == EndNote || f == ProCite {
        var kws := Items(doc["keyword"]);
        if kws.Failure? {
          return Failure(kws.error);
        }
        var line := AppendEach(tag + " ", kws.value, KeywordSeparator(f));
        return Success(wrap(line) + "\n");
      }
      if f == Refman || f == RefWorks {
        var kws := Items(doc["keyword"]);
        if kws.Failure? {
          return Failure(kws.error);
        }
        var lines := AppendEach("", Prefixed(tag, kws.value), "\n");
        assert "" + Terminated(Prefixed(tag, kws.value), "\n") == Terminated(Prefixed(tag, kws.value), "\n");
        return Success(lines + "\n");
      }
      return Success("");
    }

    /** The loop of `__add_links_data_doc_links`. */
    static method AddLinksData(entries: seq<string>, tag: string, linkType: string -> Result<string>) returns (r: Result<string>)
      ensures r == LinksData(entries, tag, linkType)
    {
      var list := "";
      var i := 0;
      while i < |entries|
        invariant 0 <= i <= |entries|
        invariant LinksData(entries[..i], tag, linkType) == Success(list)
      {
        var t := linkType(entries[i]);
        if t.Failure? {
          LinksDataStepFails(entries, i, tag, linkType, list);
          LinksDataPrefixFails(entries, i + 1, tag, linkType);
          return Failure(t.error);
        }
        LinksDataStep(entries, i, tag, linkType, list, t.value);
        if t.value in LinkDict() {
          list := list + LinkOf(tag, t.value);
        }
        i := i + 1;
      }
      TakeAll(entries);
      return Success(list);
    }

    /** `__add_doc_links`. */
    static method AddDocLinks(doc: Doc, tag: string, linkType: string -> Result<string>) returns (r: Result<string>)
      ensures r == DocLinks(doc, tag, linkType)
    {
      var list := "";
      var abstractLen := Len(Get(doc, "abstract"));
      if abstractLen.Failure? {
        return Failure(abstractLen.error);
      }
      if abstractLen.value > 0 {
        list := list + LinkLine(tag, "ABSTRACT", "Abstract");
      }
      ghost var a := if abstractLen.value > 0 then LinkLine(tag, "ABSTRACT", "Abstract") else "";
      ghost var c := if Positive(Get(doc, "citation_count")) then LinkLine(tag, "CITATIONS", "Citations to the Article") else "";
      assert list == a;
      if Positive(Get(doc, "citation_count")) {
        list := list + LinkLine(tag, "CITATIONS", "Citations to the Article");
      }
      assert list == a + c;
      var referenceLen := Len(Get(doc, "reference"));
      if referenceLen.Failure? {
        return Failure(referenceLen.error);
      }
      ghost var ref := if referenceLen.value > 0 then LinkLine(tag, "REFERENCES", "References in the Article") else "";
      if referenceLen.value > 0 {
        list := list + LinkLine(tag, "REFERENCES", "References in the Article");
      }
      assert list == a + c + ref;
      ghost var co := if Positive(Get(doc, "read_count")) then LinkLine(tag, "Co-Reads", "Co-Reads") else "";
      if Positive(Get(doc, "read_count")) {
        list := list + LinkLine(tag, "Co-Reads", "Co-Reads");
      }
      assert list == a + c + ref + co;
      ghost var rc := if Positive(Get(doc, "citation_count")) then LinkLine(tag, "REFCIT", "Refereed Citations to the Article") else "";
      if Positive(Get(doc, "citation_count")) {
        list := list + LinkLine(tag, "REFCIT", "Refereed Citations to the Article");
      }
      assert list == a + c + ref + co + rc;
      var data := "";
      if "links_data" in doc {
        var es := Items(doc["links_data"]);
        if es.Failure? {
          return Failure(es.error);
        }
        var lines := AddLinksData(es.value, tag, linkType);
        if lines.Failure? {
          return Failure(lines.error);
        }
        data := lines.value;
      }
      assert LinksDataOf(doc, tag, linkType) == Success(data);
      assert DocLinks(doc, tag, linkType) == Success(a + c + ref + co + rc + data);
      return Success(list + data);
    }

    /** `__get_doc`: every tag of the table in order, then a blank line. */
    method GetDoc(index: nat, tags: seq<Tag>, f: Format, env: FieldedEnv) returns (r: Result<string>)
      ensures r == RenderDoc(response.docs, index, tags, f, env)
    {
      if index >= |response.docs| {
        return Failure(IndexError);
      }
      var doc := response.docs[index];
      var result := "";
      var i := 0;
      while i < |tags|
        invariant 0 <= i <= |tags|
        invariant DocFields(doc, tags[..i], f, env) == Success(result)
      {
        FieldsSnoc(doc, tags, i, f, env, result);
        var x := TagText(doc, tags[i], f, env);
        if x.Failure? {
          FieldsPrefixFails(doc, tags, i + 1, f, env);
          return Failure(x.error);
        }
        result := result + x.value;
        i := i + 1;
      }
      TakeAll(tags);
      return Success(result + "\n\n");
    }

    /** `__get_fielded`: with status 0, the retrieved line and each record;
        otherwise nothing. */
    method GetFielded(f: Format, env: FieldedEnv) returns (r: Result<string>)
      ensures r == Fielded(status, response, f, env)
    {
      if status != 0 {
        return Success("");
      }
      var n := NumDocs(status, response);
      r := GetRecords(n, Tags(f), f, env);
      assert Records(response.docs, n, Tags(f), f, env) == RecordLoop.Rendered(Renderer(response.docs, Tags(f), f, env), n);
    }

    /** The loop of `__get_fielded`: the retrieved line, then records
        `0 .. n - 1` rendered with `tags`. */
    method GetRecords(n: nat, tags: seq<Tag>, f: Format, env: FieldedEnv) returns (r: Result<string>)
      ensures r == (var rs :- RecordLoop.Rendered(Renderer(response.docs, tags, f, env), n); Success(Retrieved(n) + Concat(rs)))
    {
      ghost var render := Renderer(response.docs, tags, f, env);
      var results := Retrieved(n);
      ghost var records: seq<string> := [];
      var index := 0;
      while index < n
        invariant 0 <= index <= n
        invariant RecordLoop.Rendered(render, index) == Success(records)
        invariant results == Retrieved(n) + Concat(records)
      {
        var d := GetDoc(index, tags, f, env);
        assert d == render(index);
        if d.Failure? {
          RecordLoop.StepFails(render, index, records);
          RecordLoop.PrefixFails(render, index + 1, n);
          return Failure(d.error);
        }
        RecordLoop.Snoc(render, index, records, d.value);
        ConcatSnoc(records, d.value);
        AppendAssoc(Retrieved(n), Concat(records), d.value);
        results := results + d.value;
        records := records + [d.value];
        index := index + 1;
      }
      return Success(results);
    }
  }
}
