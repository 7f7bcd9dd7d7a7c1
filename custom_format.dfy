/** The custom-format template engine: compiling a template (directives,
    enumeration, field specifiers), asking Solr for the fields it needs,
    and rendering every document through it. */
module CustomFormat {
  import opened Results
  import opened Text
  import opened SolrDoc
  import opened CustomScan
  import opened CustomFields
  import opened Accumulate
  import RecordLoop

  /** The settings compilation updates: the template text as it is
      rewritten, the output encoding, the line length, header, footer and
      whether records are numbered. */
  datatype Config = Config(template: string, encoding: Encoding, lineLength: nat,
                           header: string, footer: string, enumeration: bool)

  /** What `__init__` sets before parsing. */
  function Initial(template: string): Config {
    Config(template, Unicode, 80, "", "", false)
  }

  /** `__set_export_format`: anything but `html` and `latex` is unicode. */
  function EncodingNamed(name: string): (e: Encoding)
    ensures e == Html <==> name == "html"
    ensures e == Latex <==> name == "latex"
    ensures e == Unicode <==> name != "html" && name != "latex"
  {
    if name == "unicode" then Unicode
    else if name == "html" then Html
    else if name == "latex" then Latex
    else Unicode
  }

  function MatchTexts(ms: seq<Match>): (r: seq<string>)
    ensures |r| == |ms|
  {
    seq(|ms|, i requires 0 <= i < |ms| => ms[i].text)
  }

  /** The directive text after `%Z`, stripped and split on `:`. */
  function DirectiveParts(m: string): seq<string> {
    Split(Strip(PySlice(m, 2, |m|), IsSpace), ":")
  }

  /** The setting a `name:value` directive names, updated; a line length
      that is not a number raises ValueError. */
  function SetDirective(c: Config, parts: seq<string>, unescape: string -> string): (r: Result<Config>)
    ensures r.Success? ==> r.value.template == c.template
    ensures r.Failure? <==> |parts| == 2 && parts[0] == "Linelength" && ParseInt(parts[1]).None?
    ensures r.Failure? ==> r.error == ValueError
    ensures |parts| != 2 ==> r == Success(c)
  {
    if |parts| != 2 then Success(c)
    else if parts[0] == "Encoding" then Success(c.(encoding := EncodingNamed(parts[1])))
    else if parts[0] == "Linelength" then
      (match ParseInt(parts[1])
       case None => Failure(ValueError)
       case Some(n) => Success(c.(lineLength := n)))
    else if parts[0] == "Header" then Success(c.(header := unescape(Replace(parts[1], "\"", ""))))
    else if parts[0] == "Footer" then Success(c.(footer := unescape(Replace(parts[1], "\"", ""))))
    else Success(c)
  }

  /** One matched directive of `__parse_command`: it is cut out of the
      template (up to `len(m)` occurrences of it), and, when its text splits
      into exactly a name and a value, the setting it names is updated. */
  function ApplyCommand(c: Config, m: string, unescape: string -> string): (r: Result<Config>)
    requires m != ""
    ensures r.Success? ==> r.value.template == ReplaceN(c.template, m, "", |m|)
    ensures r.Failure? ==> r.error == ValueError && DirectiveParts(m)[0] == "Linelength"
    ensures |DirectiveParts(m)| != 2 ==> r == Success(c.(template := ReplaceN(c.template, m, "", |m|)))
  {
    SetDirective(c.(template := ReplaceN(c.template, m, "", |m|)), DirectiveParts(m), unescape)
  }

  /** The matched directives applied in order; the first error stops it. */
  function ApplyCommands(c: Config, ms: seq<string>, unescape: string -> string): (r: Result<Config>)
    requires forall k :: 0 <= k < |ms| ==> ms[k] != ""
    ensures r.Failure? ==> r.error == ValueError
    decreases |ms|
  {
    if ms == [] then Success(c)
    else
      var c1 :- ApplyCommands(c, ms[..|ms| - 1], unescape);
      ApplyCommand(c1, ms[|ms| - 1], unescape)
  }

  lemma MatchTextsNonEmpty(p: Pattern, s: string)
    ensures forall k :: 0 <= k < |MatchTexts(FindAll(p, s, 0))| ==> MatchTexts(FindAll(p, s, 0))[k] != ""
  {
    FindAllMatches(p, s, 0);
  }

  /** One pattern's pass: all its matches in the template as it stands. */
  function CommandPass(c: Config, p: Pattern, unescape: string -> string): (r: Result<Config>)
    ensures r.Failure? ==> r.error == ValueError
  {
    MatchTextsNonEmpty(p, c.template);
    ApplyCommands(c, MatchTexts(FindAll(p, c.template, 0)), unescape)
  }

  const CommandPatterns: seq<Pattern> := [EncodingOrLinelength, HeaderOrFooter]

  /** `__parse_command`: the passes of the directive patterns, in order. */
  function CommandPasses(c: Config, ps: seq<Pattern>, unescape: string -> string): (r: Result<Config>)
    ensures r.Failure? ==> r.error == ValueError
    decreases |ps|
  {
    if ps == [] then Success(c)
    else
      var c1 :- CommandPasses(c, ps[..|ps| - 1], unescape);
      CommandPass(c1, ps[|ps| - 1], unescape)
  }

  /** `__parse_enumeration`'s rewrite for each `%z` found: the template is
      inserted at every character boundary of the match text. */
  function Enumerate(c: Config, ms: seq<string>): (r: Config)
    ensures ms != [] ==> r.enumeration
    ensures ms == [] ==> r == c
    ensures r.(template := c.template, enumeration := c.enumeration) == c
    decreases |ms|
  {
    if ms == [] then c
    else
      var c1 := Enumerate(c, ms[..|ms| - 1]);
      c1.(template := InsertAround(ms[|ms| - 1], c1.template), enumeration := true)
  }

  function Enumerated(c: Config): Config {
    Enumerate(c, MatchTexts(FindAll(Enumeration, c.template, 0)))
  }

  /** The `(start, token, field)` entry of a specifier match. */
  function SpecOf(m: Match): Field {
    Field(m.start, m.text, SolrField(Last(m.text)))
  }

  /** `parsed_spec`: every field specifier of the template, left to right,
      with its offset, its exact text and the field its last letter asks
      for. */
  function Specs(template: string): seq<Field> {
    SpecList(FindAll(FieldSpecifier, template, 0))
  }

  /** Each entry of `parsed_spec` is a specifier found at its start, with
      the field its last letter asks for; entries are apart and in order. */
  lemma SpecsFields(template: string)
    ensures var r := Specs(template);
            forall k :: 0 <= k < |r| ==>
              r[k].start + |r[k].token| <= |template| &&
              template[r[k].start..r[k].start + |r[k].token|] == r[k].token &&
              IsSpecifier(r[k].token) && r[k].name == SolrField(Last(r[k].token))
    ensures var r := Specs(template);
            forall a, b :: 0 <= a < b < |r| ==> r[a].start + |r[a].token| <= r[b].start
  {
    var ms := FindAll(FieldSpecifier, template, 0);
    FindAllMatches(FieldSpecifier, template, 0);
    SpecListFields(template, ms, Specs(template));
    SpecListOrdered(template, ms, Specs(template));
  }

  /** The entries of a list of matches, in order. */
  function SpecList(ms: seq<Match>): seq<Field> {
    seq(|ms|, i requires 0 <= i < |ms| => SpecOf(ms[i]))
  }

  /** The entries of the specifier matches of `s` are specifiers found in
      `s`, each with the field its last letter asks for. */
  lemma SpecListFields(s: string, ms: seq<Match>, r: seq<Field>)
    requires MatchesOf(FieldSpecifier, s, ms, 0) && r == SpecList(ms)
    ensures forall k :: 0 <= k < |r| ==>
              r[k].start + |r[k].token| <= |s| &&
              s[r[k].start..r[k].start + |r[k].token|] == r[k].token &&
              IsSpecifier(r[k].token) && r[k].name == SolrField(Last(r[k].token))
  {
    forall k | 0 <= k < |r|
      ensures r[k].start + |r[k].token| <= |s| && s[r[k].start..r[k].start + |r[k].token|] == r[k].token
      ensures IsSpecifier(r[k].token) && r[k].name == SolrField(Last(r[k].token))
    {
      SpecEntry(s, ms, k, r[k]);
    }
  }

  lemma SpecListSnoc(ms: seq<Match>, k: nat)
    requires k < |ms|
    ensures SpecList(ms[..k + 1]) == SpecList(ms[..k]) + [SpecOf(ms[k])]
  {
  }

  /** The entries keep the matches' order and do not overlap. */
  lemma SpecListOrdered(s: string, ms: seq<Match>, r: seq<Field>)
    requires MatchesOf(FieldSpecifier, s, ms, 0) && r == SpecList(ms)
    ensures forall a, b :: 0 <= a < b < |r| ==> r[a].start + |r[a].token| <= r[b].start
  {
    forall a, b | 0 <= a < b < |r|
      ensures r[a].start + |r[a].token| <= r[b].start
    {
      assert r[a] == SpecOf(ms[a]) && r[b] == SpecOf(ms[b]);
    }
  }

  lemma SpecEntry(s: string, ms: seq<Match>, k: nat, f: Field)
    requires MatchesOf(FieldSpecifier, s, ms, 0) && k < |ms| && f == SpecList(ms)[k]
    ensures f.start + |f.token| <= |s| && s[f.start..f.start + |f.token|] == f.token
    ensures IsSpecifier(f.token) && f.name == SolrField(Last(f.token))
  {
    var m := ms[k];
    assert f == SpecOf(m);
    assert f.token == m.text && f.start == m.start;
    assert Lengths(FieldSpecifier, s)(m.start) == MatchLength(FieldSpecifier, s, m.start);
    SpecifierMatch(s, m);
  }

  lemma SpecifierMatch(s: string, m: Match)
    requires m.start + |m.text| <= |s| && m.text == s[m.start..m.start + |m.text|]
    requires MatchLength(FieldSpecifier, s, m.start) == |m.text| > 0
    ensures IsSpecifier(m.text)
  {
    assert SpecifierLength(s, m.start) == |m.text|;
    SpecifierFound(s, m.start);
  }

  /** `__parse` from the given settings. */
  function CompileFrom(c: Config, unescape: string -> string): (r: Result<(Config, seq<Field>)>)
    ensures r.Failure? ==> r.error == ValueError
    ensures r.Success? ==> r.value.1 == Specs(r.value.0.template)
  {
    var c1 :- CommandPasses(c, CommandPatterns, unescape);
    var c2 := Enumerated(c1);
    Success((c2, Specs(c2.template)))
  }

  /** Creating a formatter for a template. */
  function Compile(template: string, unescape: string -> string): Result<(Config, seq<Field>)> {
    CompileFrom(Initial(template), unescape)
  }

  // ------------------------------------------------------ compile lemmas

  /** A directive pass over a template without `%` changes nothing. */
  lemma PassNoPercent(c: Config, p: Pattern, unescape: string -> string)
    requires '%' !in c.template
    ensures CommandPass(c, p, unescape) == Success(c)
  {
    assert c.template[0..] == c.template;
    NoPercentNoMatch(p, c.template, 0);
  }

  /** A template without `%` compiles to the defaults and asks for no
      field. */
  lemma CompileNoPercent(template: string, unescape: string -> string)
    requires '%' !in template
    ensures Compile(template, unescape) == Success((Initial(template), []))
  {
    var c := Initial(template);
    PassNoPercent(c, EncodingOrLinelength, unescape);
    PassNoPercent(c, HeaderOrFooter, unescape);
    assert CommandPatterns[..1] == [EncodingOrLinelength] && CommandPatterns[..1][..0] == [];
    assert CommandPasses(c, CommandPatterns[..1], unescape) == Success(c);
    assert CommandPasses(c, CommandPatterns, unescape) == Success(c);
    assert template[0..] == template;
    NoPercentNoMatch(Enumeration, template, 0);
    NoPercentNoMatch(FieldSpecifier, template, 0);
    assert MatchTexts([]) == [];
    assert Enumerated(c) == c;
    assert |Specs(template)| == 0;
  }

  lemma StripUnpadded(s: string)
    requires s != "" && !IsSpace(s[0]) && !IsSpace(s[|s| - 1])
    ensures Strip(s, IsSpace) == s
  {
  }

  /** A directive `%Z<name>:<value>` whose name and value hold no `:` and no
      surrounding space splits into exactly its name and value. */
  lemma DirectiveNameValue(name: string, value: string)
    requires name != "" && value != "" && ':' !in name && ':' !in value
    requires !IsSpace(name[0]) && !IsSpace(value[|value| - 1])
    ensures DirectiveParts("%Z" + name + ":" + value) == [name, value]
  {
    var m := "%Z" + name + ":" + value;
    var body := name + ":" + value;
    assert PySlice(m, 2, |m|) == body;
    assert body[0] == name[0] && body[|body| - 1] == value[|value| - 1];
    StripUnpadded(body);
    assert DirectiveParts(m) == Split(body, ":");
    Lacks(name, ':');
    Lacks(value, ':');
    SplitCons(name, ":", value);
    SplitFirst(value, ":");
    assert Split(value, ":") == [value];
  }

  /** A directive splitting into a name and a value sets what the name
      says. */
  lemma NamedDirective(c: Config, m: string, name: string, v: string, unescape: string -> string)
    requires m != "" && DirectiveParts(m) == [name, v]
    ensures var c1 := c.(template := ReplaceN(c.template, m, "", |m|));
            ApplyCommand(c, m, unescape) ==
              if name == "Encoding" then Success(c1.(encoding := EncodingNamed(v)))
              else if name == "Linelength" then
                (if ParseInt(v).Some? then Success(c1.(lineLength := ParseInt(v).value)) else Failure(ValueError))
              else if name == "Header" then Success(c1.(header := unescape(Replace(v, "\"", ""))))
              else if name == "Footer" then Success(c1.(footer := unescape(Replace(v, "\"", ""))))
              else Success(c1)
  {
  }

  /** `%ZEncoding:<v>` selects the encoding `v` names, unicode for anything
      but html and latex. */
  lemma EncodingDirective(c: Config, m: string, v: string, unescape: string -> string)
    requires v != "" && ':' !in v && !IsSpace(v[|v| - 1]) && m == "%Z" + "Encoding" + ":" + v
    ensures ApplyCommand(c, m, unescape) ==
            Success(c.(template := ReplaceN(c.template, m, "", |m|), encoding := EncodingNamed(v)))
  {
    DirectiveNameValue("Encoding", v);
    NamedDirective(c, m, "Encoding", v, unescape);
  }

  /** `%ZLinelength:<digits>` sets the line length to their value; any other
      value raises ValueError. */
  lemma LinelengthDirective(c: Config, m: string, v: string, unescape: string -> string)
    requires v != "" && ':' !in v && !IsSpace(v[|v| - 1]) && m == "%Z" + "Linelength" + ":" + v
    ensures AllDigits(v) ==>
              ApplyCommand(c, m, unescape) ==
              Success(c.(template := ReplaceN(c.template, m, "", |m|), lineLength := DigitsValue(v)))
    ensures !AllDigits(v) ==> ApplyCommand(c, m, unescape) == Failure(ValueError)
  {
    DirectiveNameValue("Linelength", v);
    NamedDirective(c, m, "Linelength", v, unescape);
  }

  /** A header whose text holds a `:` splits into more than two parts and
      is ignored: the directive is only cut from the template. */
  lemma HeaderWithColonIgnored(c: Config, a: string, b: string, unescape: string -> string)
    requires ':' !in a
    ensures ApplyCommand(c, "%ZHeader:\"" + a + ":" + b + "\"", unescape) ==
            Success(c.(template := ReplaceN(c.template, "%ZHeader:\"" + a + ":" + b + "\"", "",
                                            |"%ZHeader:\"" + a + ":" + b + "\""|)))
  {
    var m := "%ZHeader:\"" + a + ":" + b + "\"";
    var body := "Header" + ":" + ("\"" + a + ":" + (b + "\""));
    assert PySlice(m, 2, |m|) == body;
    StripUnpadded(body);
    Lacks("Header", ':');
    SplitCons("Header", ":", "\"" + a + ":" + (b + "\""));
    Lacks("\"" + a, ':');
    assert "\"" + a + ":" + (b + "\"") == ("\"" + a) + ":" + (b + "\"");
    SplitCons("\"" + a, ":", b + "\"");
    assert |DirectiveParts(m)| >= 3;
  }

  /** Enumeration: any `%z` turns numbering on; the template is not cut but
      inserted around the match, so one `%z` triples it. */
  lemma EnumerationTriples(c: Config)
    requires |FindAll(Enumeration, c.template, 0)| == 1
    ensures Enumerated(c).enumeration
    ensures Enumerated(c).template == c.template + "%" + c.template + "z" + c.template
  {
    var ms := MatchTexts(FindAll(Enumeration, c.template, 0));
    EnumerationMatch(c.template, 0);
    assert ms[0] == "%z";
    assert ms[..0] == [];
    assert InsertAround("%z", c.template) == c.template + "%" + InsertAround("z", c.template);
    assert InsertAround("z", c.template) == c.template + "z" + InsertAround("", c.template);
  }

  /** Without `%z` the enumeration pass changes nothing. */
  lemma NoEnumeration(c: Config)
    requires !Contains(c.template, "%z")
    ensures Enumerated(c) == c
  {
    if FindAll(Enumeration, c.template, 0) != [] {
      EnumerationMatch(c.template, 0);
    }
  }

  /** Match `k` of the enumeration pattern is a `%z` of the template. */
  lemma EnumerationMatch(s: string, k: nat)
    requires k < |FindAll(Enumeration, s, 0)|
    ensures var m := FindAll(Enumeration, s, 0)[k];
            m.text == "%z" && OccursAt(s, "%z", m.start)
  {
    var m := FindAll(Enumeration, s, 0)[k];
    FindAllMatches(Enumeration, s, 0);
    assert Lengths(Enumeration, s)(m.start) == |m.text| > 0;
    assert MatchLength(Enumeration, s, m.start) == |m.text|;
  }

  // ----------------------------------------------------- get_solr_fields

  /** The list `get_solr_fields` accumulates: each field name followed by a
      comma, unless the text so far already contains the name. */
  function Requested(specs: seq<Field>): string
    decreases |specs|
  {
    if specs == [] then ""
    else
      var acc := Requested(specs[..|specs| - 1]);
      var name := specs[|specs| - 1].name;
      if Contains(acc, name) then acc else acc + name + ","
  }

  /** The names that were appended, in order. */
  function Kept(specs: seq<Field>): seq<string>
    decreases |specs|
  {
    if specs == [] then []
    else
      var acc := Requested(specs[..|specs| - 1]);
      var name := specs[|specs| - 1].name;
      if Contains(acc, name) then Kept(specs[..|specs| - 1]) else Kept(specs[..|specs| - 1]) + [name]
  }

  function WithBibcode(acc: string): string {
    if Contains(acc, "bibcode") then acc else acc + "bibcode,"
  }

  /** `get_solr_fields`: the accumulated list, `bibcode` added when it is not
      there yet, and the last character (the final comma) cut. */
  function SolrFields(specs: seq<Field>): string {
    PySlice(WithBibcode(Requested(specs)), 0, -1)
  }

  /** The names actually sent to Solr. */
  function FetchList(specs: seq<Field>): seq<string> {
    if Contains(Requested(specs), "bibcode") then Kept(specs) else Kept(specs) + ["bibcode"]
  }

  lemma ContainsExtend(a: string, b: string, t: string)
    requires Contains(a, t)
    ensures Contains(a + b, t)
  {
    var p := Find(a, t);
    assert (a + b)[..|a|] == a;
    OccursInPrefix(a + b, t, p, |a|);
    ContainsAt(a + b, t, p);
  }

  lemma ContainsEmpty(s: string)
    ensures Contains(s, "")
  {
    assert OccursAt(s, "", 0);
    ContainsAt(s, "", 0);
  }

  lemma {:induction false} RequestedTerminated(specs: seq<Field>)
    ensures Requested(specs) == Terminated(Kept(specs), ",")
    decreases |specs|
  {
    if specs != [] {
      var init := specs[..|specs| - 1];
      RequestedTerminated(init);
      var ks := Kept(init) + [specs[|specs| - 1].name];
      assert ks[..|ks| - 1] == Kept(init);
    }
  }

  /** Every name the template asks for occurs in the accumulated list. */
  lemma {:induction false} RequestedHas(specs: seq<Field>, k: nat)
    requires k < |specs|
    ensures Contains(Requested(specs), specs[k].name)
    decreases |specs|
  {
    var init := specs[..|specs| - 1];
    var acc := Requested(init);
    var name := specs[|specs| - 1].name;
    if k == |specs| - 1 {
      if !Contains(acc, name) {
        assert (acc + name + ",")[|acc|..|acc| + |name|] == name;
        ContainsAt(acc + name + ",", name, |acc|);
      }
    } else {
      RequestedHas(init, k);
      if !Contains(acc, name) {
        ContainsExtend(acc, name + ",", specs[k].name);
        assert acc + (name + ",") == acc + name + ",";
      }
    }
  }

  lemma {:induction false} TerminatedHas(items: seq<string>, sep: string, k: nat)
    requires k < |items|
    ensures Contains(Terminated(items, sep), items[k])
    decreases |items|
  {
    var init := items[..|items| - 1];
    var x := items[|items| - 1];
    if k == |items| - 1 {
      var t := Terminated(init, sep);
      assert (t + x + sep)[|t|..|t| + |x|] == x;
      ContainsAt(t + x + sep, x, |t|);
    } else {
      TerminatedHas(init, sep, k);
      ContainsExtend(Terminated(init, sep), x + sep, items[k]);
      assert Terminated(init, sep) + (x + sep) == Terminated(items, sep);
    }
  }

  /** No name is sent twice, none is empty, and (when no field name holds a
      comma) none holds a comma. */
  lemma {:induction false} KeptClean(specs: seq<Field>)
    requires forall j :: 0 <= j < |specs| ==> ',' !in specs[j].name
    ensures forall i, j :: 0 <= i < j < |Kept(specs)| ==> Kept(specs)[i] != Kept(specs)[j]
    ensures forall i :: 0 <= i < |Kept(specs)| ==> Kept(specs)[i] != "" && ',' !in Kept(specs)[i]
    decreases |specs|
  {
    if specs != [] {
      var init := specs[..|specs| - 1];
      KeptClean(init);
      var acc := Requested(init);
      var name := specs[|specs| - 1].name;
      if !Contains(acc, name) {
        ContainsEmpty(acc);
        RequestedTerminated(init);
        forall i | 0 <= i < |Kept(init)| ensures Kept(init)[i] != name {
          TerminatedHas(Kept(init), ",", i);
        }
      }
    }
  }

  lemma {:induction false} JoinHas(xs: seq<string>, sep: string, k: nat)
    requires k < |xs|
    ensures Contains(Join(xs, sep), xs[k])
    decreases |xs|
  {
    var j := Join(xs, sep);
    if |xs| == 1 {
      assert j[0..|xs[0]|] == xs[0];
      ContainsAt(j, xs[0], 0);
    } else if k == 0 {
      assert j[0..|xs[0]|] == xs[0];
      ContainsAt(j, xs[0], 0);
    } else {
      JoinHas(xs[1..], sep, k - 1);
      var rest := Join(xs[1..], sep);
      var p := Find(rest, xs[k]);
      var off := |xs[0] + sep|;
      assert j[off..] == rest;
      assert OccursAt(j[off..], xs[k], p);
      OccursInSuffix(j, xs[k], off, p);
      ContainsAt(j, xs[k], off + p);
    }
  }

  lemma JoinLast(xs: seq<string>, sep: string)
    requires |xs| >= 1 && xs[|xs| - 1] != ""
    ensures |Join(xs, sep)| >= 1 && Join(xs, sep)[|Join(xs, sep)| - 1] == xs[|xs| - 1][|xs[|xs| - 1]| - 1]
  {
    var l := xs[|xs| - 1];
    if |xs| > 1 {
      var init := xs[..|xs| - 1];
      JoinSnoc(init, l, sep);
      assert init + [l] == xs;
      var a := Join(init, sep) + sep;
      assert Join(xs, sep) == a + l;
      assert (a + l)[|a + l| - 1] == l[|l| - 1];
    }
  }

  lemma OccursLastChar(s: string, t: string, i: nat)
    requires OccursAt(s, t, i) && t != ""
    ensures s[i + |t| - 1] == t[|t| - 1]
  {
    assert s[i..i + |t|][|t| - 1] == t[|t| - 1];
  }

  /** A name that occurs in a list ending with a comma occurs in the list
      without it, provided the name has no comma. */
  lemma DropComma(j: string, x: string)
    requires Contains(j + ",", x) && ',' !in x
    ensures Contains(j, x)
  {
    var t := j + ",";
    var p := Find(t, x);
    if x != "" {
      OccursLastChar(t, x, p);
      assert x[|x| - 1] in x;
      assert p + |x| <= |j|;
      assert j[p..p + |x|] == t[p..p + |x|];
      ContainsAt(j, x, p);
    } else {
      ContainsEmpty(j);
    }
  }

  /** The list before its last character is cut is the fetch list, each
      name followed by a comma; the fetch list is not empty, has no
      repeated name, and (when no field name holds a comma) no name in it
      is empty or holds a comma. */
  lemma FetchListTerminated(specs: seq<Field>)
    requires forall j :: 0 <= j < |specs| ==> ',' !in specs[j].name
    ensures WithBibcode(Requested(specs)) == Terminated(FetchList(specs), ",")
    ensures FetchList(specs) != []
    ensures forall i, j :: 0 <= i < j < |FetchList(specs)| ==> FetchList(specs)[i] != FetchList(specs)[j]
    ensures forall i :: 0 <= i < |FetchList(specs)| ==> FetchList(specs)[i] != "" && ',' !in FetchList(specs)[i]
  {
    RequestedTerminated(specs);
    KeptClean(specs);
    if !Contains(Requested(specs), "bibcode") {
      AppendBibcode(Kept(specs));
    } else if Kept(specs) == [] {
      assert false;
    }
  }

  /** Appending `bibcode` to a clean list that lacks it keeps it clean. */
  lemma AppendBibcode(ks: seq<string>)
    requires !Contains(Terminated(ks, ","), "bibcode")
    requires forall i, j :: 0 <= i < j < |ks| ==> ks[i] != ks[j]
    requires forall i :: 0 <= i < |ks| ==> ks[i] != "" && ',' !in ks[i]
    ensures Terminated(ks, ",") + "bibcode," == Terminated(ks + ["bibcode"], ",")
    ensures forall i, j :: 0 <= i < j < |ks + ["bibcode"]| ==> (ks + ["bibcode"])[i] != (ks + ["bibcode"])[j]
    ensures forall i :: 0 <= i < |ks + ["bibcode"]| ==> (ks + ["bibcode"])[i] != "" && ',' !in (ks + ["bibcode"])[i]
  {
    var ks' := ks + ["bibcode"];
    assert Terminated(ks', ",") == Terminated(ks, ",") + "bibcode" + "," by {
      assert ks'[..|ks'| - 1] == ks;
    }
    assert "bibcode" + "," == "bibcode,";
    AppendAssoc(Terminated(ks, ","), "bibcode", ",");
    forall i, j | 0 <= i < j < |ks'| ensures ks'[i] != ks'[j] {
      if j == |ks| {
        TerminatedHas(ks, ",", i);
      }
    }
    forall i | 0 <= i < |ks'| ensures ks'[i] != "" && ',' !in ks'[i] {
      if i == |ks| {
        assert ks'[i] == "bibcode";
      }
    }
  }

  /** `get_solr_fields` is the fetch list joined by commas. */
  lemma SolrFieldsJoin(specs: seq<Field>)
    requires forall j :: 0 <= j < |specs| ==> ',' !in specs[j].name
    ensures SolrFields(specs) == Join(FetchList(specs), ",")
  {
    FetchListTerminated(specs);
    TerminatedIsJoin(FetchList(specs), ",");
    var j := Join(FetchList(specs), ",");
    assert PySlice(j + ",", 0, -1) == j;
  }

  /** `get_solr_fields`: the names sent are the fetch list joined by commas,
      so there is no trailing comma; `bibcode` is always among them; no name
      is sent twice; and every field the template asks for occurs in the
      text (possibly only inside a longer name). */
  lemma SolrFieldsShape(specs: seq<Field>)
    requires forall j :: 0 <= j < |specs| ==> ',' !in specs[j].name
    ensures SolrFields(specs) == Join(FetchList(specs), ",")
    ensures Contains(SolrFields(specs), "bibcode")
    ensures |SolrFields(specs)| >= 1 && SolrFields(specs)[|SolrFields(specs)| - 1] != ','
    ensures forall i, j :: 0 <= i < j < |FetchList(specs)| ==> FetchList(specs)[i] != FetchList(specs)[j]
    ensures forall k :: 0 <= k < |specs| ==> Contains(SolrFields(specs), specs[k].name)
  {
    FetchListTerminated(specs);
    SolrFieldsJoin(specs);
    var all := FetchList(specs);
    var j := Join(all, ",");
    BibcodeFetched(specs);
    JoinLast(all, ",");
    forall k | 0 <= k < |specs| ensures Contains(j, specs[k].name) {
      NameFetched(specs, k);
    }
  }

  lemma BibcodeFetched(specs: seq<Field>)
    requires forall j :: 0 <= j < |specs| ==> ',' !in specs[j].name
    ensures Contains(Join(FetchList(specs), ","), "bibcode")
  {
    var acc := Requested(specs);
    var all := FetchList(specs);
    if Contains(acc, "bibcode") {
      FetchListTerminated(specs);
      TerminatedIsJoin(all, ",");
      DropComma(Join(all, ","), "bibcode");
    } else {
      JoinHas(all, ",", |all| - 1);
    }
  }

  lemma NameFetched(specs: seq<Field>, k: nat)
    requires forall j :: 0 <= j < |specs| ==> ',' !in specs[j].name
    requires k < |specs|
    ensures Contains(Join(FetchList(specs), ","), specs[k].name)
  {
    var acc := Requested(specs);
    var all := FetchList(specs);
    FetchListTerminated(specs);
    TerminatedIsJoin(all, ",");
    var j := Join(all, ",");
    RequestedHas(specs, k);
    if !Contains(acc, "bibcode") {
      ContainsExtend(acc, "bibcode,", specs[k].name);
    }
    DropComma(j, specs[k].name);
  }

  /** The substring test skips a field whose name occurs inside one already
      requested, so `pub` after `pub_raw` is not requested. */
  lemma SolrFieldsSkipsContained(specs: seq<Field>, f: Field)
    requires Contains(Requested(specs), f.name)
    ensures SolrFields(specs + [f]) == SolrFields(specs)
    ensures FetchList(specs + [f]) == FetchList(specs)
  {
    assert (specs + [f])[..|specs|] == specs;
  }

  // -------------------------------------------------- set_json_from_solr

  /** The style file a specifier's authors are rendered with; a lower-case
      letter is doubled. */
  function CslFileName(letter: char): string {
    if IsUpper(letter) then "ads-author-" + [letter] else "ads-author-" + [letter, letter]
  }

  function FoldCase(s: string): (r: string)
    ensures |r| == |s|
  {
    seq(|s|, i requires 0 <= i < |s| => if IsUpper(s[i]) then (s[i] as int + 32) as char else s[i])
  }

  /** The doubling keeps the style files of two different letters apart
      even on a file system that ignores case. */
  lemma CslFileNamesDistinct(a: char, b: char)
    requires (IsUpper(a) || IsLower(a)) && (IsUpper(b) || IsLower(b)) && a != b
    ensures FoldCase(CslFileName(a)) != FoldCase(CslFileName(b))
  {
    if IsUpper(a) == IsUpper(b) {
      assert FoldCase(CslFileName(a))[11] != FoldCase(CslFileName(b))[11];
    }
  }

  /** `__get_num_authors` for one document: the length of its author list,
      0 without one; a number has no length. */
  function AuthorCount(doc: Doc): (r: Result<nat>)
    ensures "author" !in doc ==> r == Success(0)
    ensures "author" in doc && doc["author"].Strs? ==> r == Success(|doc["author"].xs|)
    ensures r.Failure? <==> "author" in doc && doc["author"].Num?
  {
    if "author" !in doc then Success(0)
    else match doc["author"]
      case Str(s) => Success(|s|)
      case Strs(xs) => Success(|xs|)
      case Num(_) => Failure(TypeError)
  }

  /** `__get_num_authors`: one count per document, in order. */
  function AuthorCounts(docs: seq<Doc>): (r: Result<seq<nat>>)
    ensures r.Success? ==> |r.value| == |docs| && forall k :: 0 <= k < |docs| ==> AuthorCount(docs[k]) == Success(r.value[k])
    ensures r.Failure? <==> exists k :: 0 <= k < |docs| && AuthorCount(docs[k]).Failure?
    ensures r.Failure? ==> r.error == TypeError
    decreases |docs|
  {
    if docs == [] then Success([])
    else
      var init :- AuthorCounts(docs[..|docs| - 1]);
      var n :- AuthorCount(docs[|docs| - 1]);
      Success(init + [n])
  }

  /** `from_cls` after `set_json_from_solr`: every author specifier's token
      maps to the authors styled with its letter's style file. */
  function Styled(m: map<string, seq<string>>, specs: seq<Field>, style: string -> seq<string>): map<string, seq<string>>
    decreases |specs|
  {
    if specs == [] then m
    else
      var m1 := Styled(m, specs[..|specs| - 1], style);
      var f := specs[|specs| - 1];
      if f.name == "author" then m1[f.token := style(CslFileName(Last(f.token)))] else m1
  }

  /** `author_count` after `set_json_from_solr`. */
  function Counted(m: map<string, seq<nat>>, specs: seq<Field>, nums: seq<nat>): map<string, seq<nat>>
    decreases |specs|
  {
    if specs == [] then m
    else
      var m1 := Counted(m, specs[..|specs| - 1], nums);
      var f := specs[|specs| - 1];
      if f.name == "author" then m1[f.token := nums] else m1
  }

  predicate HasAuthor(specs: seq<Field>) {
    exists k :: 0 <= k < |specs| && specs[k].name == "author"
  }

  /** Every author specifier can be looked up afterwards, styled with its
      own letter's file and counted; other keys keep their values. */
  lemma {:induction false} StyledCovers(m: map<string, seq<string>>, n: map<string, seq<nat>>, specs: seq<Field>,
                                        style: string -> seq<string>, nums: seq<nat>)
    ensures forall k :: 0 <= k < |specs| && specs[k].name == "author" ==>
              specs[k].token in Styled(m, specs, style) &&
              Styled(m, specs, style)[specs[k].token] == style(CslFileName(Last(specs[k].token))) &&
              specs[k].token in Counted(n, specs, nums) && Counted(n, specs, nums)[specs[k].token] == nums
    ensures forall key :: key in m && (forall k :: 0 <= k < |specs| && specs[k].name == "author" ==> specs[k].token != key) ==>
              key in Styled(m, specs, style) && Styled(m, specs, style)[key] == m[key]
    decreases |specs|
  {
    if specs != [] {
      var init := specs[..|specs| - 1];
      StyledCovers(m, n, init, style, nums);
      forall key | key in m && (forall k :: 0 <= k < |specs| && specs[k].name == "author" ==> specs[k].token != key)
        ensures forall k :: 0 <= k < |init| && init[k].name == "author" ==> init[k].token != key
      {
        forall k | 0 <= k < |init| && init[k].name == "author" ensures init[k].token != key {
          assert specs[k] == init[k];
        }
      }
      forall k | 0 <= k < |specs| - 1 && specs[k].name == "author"
        ensures specs[k].token in Styled(m, specs, style)
      {
        assert specs[k] == init[k];
      }
    }
  }

  // ------------------------------------------------------ __get_doc / get

  /** The fields of the template filled in, left to right; the first error
      stops it. */
  function ApplyAll(result: string, specs: seq<Field>, doc: Doc, index: nat, enc: Encoding,
                    styled: map<string, seq<string>>, counts: map<string, seq<nat>>, env: Env): Result<string>
    decreases |specs|
  {
    if specs == [] then Success(result)
    else
      var r :- ApplyAll(result, specs[..|specs| - 1], doc, index, enc, styled, counts, env);
      ApplyField(r, specs[|specs| - 1], doc, index, enc, styled, counts, env)
  }

  /** `__get_doc`: document `index` rendered through the template; a
      document past the end raises IndexError. */
  function RenderDoc(c: Config, specs: seq<Field>, docs: seq<Doc>, index: nat,
                     styled: map<string, seq<string>>, counts: map<string, seq<nat>>, env: Env): (r: Result<string>)
    ensures index >= |docs| ==> r == Failure(IndexError)
    ensures r.Success? ==> |r.value| >= 1 && r.value[|r.value| - 1] == '\n'
  {
    if index >= |docs| then Failure(IndexError)
    else
      var body :- ApplyAll(c.template, specs, docs[index], index, c.encoding, styled, counts, env);
      Success(LineWrapped(body, index, c.lineLength, c.enumeration, env))
  }

  /** Rendering document `k` with the configuration and the parsed fields. */
  function Renderer(c: Config, specs: seq<Field>, docs: seq<Doc>,
                    styled: map<string, seq<string>>, counts: map<string, seq<nat>>, env: Env): nat -> Result<string> {
    (k: nat) => RenderDoc(c, specs, docs, k, styled, counts, env)
  }

  /** The first `n` records, in order. */
  function Records(c: Config, specs: seq<Field>, docs: seq<Doc>, n: nat,
                   styled: map<string, seq<string>>, counts: map<string, seq<nat>>, env: Env): (r: Result<seq<string>>)
    ensures r.Success? ==> |r.value| == n && n <= |docs|
    ensures n > |docs| ==> r.Failure?
  {
    var render := Renderer(c, specs, docs, styled, counts, env);
    if n > |docs| then
      RecordLoop.FailsFrom(render, |docs|, n);
      RecordLoop.Rendered(render, n)
    else RecordLoop.Rendered(render, n)
  }

  /** Record `k` is document `k` rendered on its own. */
  lemma RecordsRendered(c: Config, specs: seq<Field>, docs: seq<Doc>, n: nat,
                        styled: map<string, seq<string>>, counts: map<string, seq<nat>>, env: Env, k: nat)
    requires Records(c, specs, docs, n, styled, counts, env).Success? && k < n
    ensures RenderDoc(c, specs, docs, k, styled, counts, env) ==
            Success(Records(c, specs, docs, n, styled, counts, env).value[k])
  {
    RecordLoop.RenderedAt(Renderer(c, specs, docs, styled, counts, env), n, k);
  }

  /** The answer of `get`: a message and the export text. */
  datatype Export = Export(msg: string, text: string)

  function Retrieved(n: nat): string {
    "Retrieved " + NatToString(n) + " abstracts, starting with number 1."
  }

  function HeaderLines(header: string): seq<string> {
    if |header| > 0 then [header + "\n"] else []
  }

  /** `get`: with status 0, the header line, every record and then a newline
      and the footer; otherwise nothing. */
  function Output(c: Config, specs: seq<Field>, status: int, resp: Response,
                  styled: map<string, seq<string>>, counts: map<string, seq<nat>>, env: Env): (r: Result<Export>)
    ensures status != 0 ==> r == Success(Export(Retrieved(0), ""))
  {
    if status != 0 then Success(Export(Retrieved(0), ""))
    else
      var n := NumDocs(status, resp);
      var rs :- Records(c, specs, resp.docs, n, styled, counts, env);
      Success(Export(Retrieved(n), Concat(HeaderLines(c.header) + rs + ["\n" + c.footer])))
  }

  lemma {:induction false} ConcatAppend(a: seq<string>, b: seq<string>)
    ensures Concat(a + b) == Concat(a) + Concat(b)
    decreases |a|
  {
    if a != [] {
      ConcatAppend(a[1..], b);
      assert (a + b)[1..] == a[1..] + b;
    } else {
      assert a + b == b;
    }
  }

  /** A record is rendered for each of the `numFound` documents, in order,
      between the optional header line and the footer. */
  lemma OutputLayout(c: Config, specs: seq<Field>, resp: Response,
                     styled: map<string, seq<string>>, counts: map<string, seq<nat>>, env: Env)
    requires Records(c, specs, resp.docs, resp.numFound, styled, counts, env).Success?
    ensures var rs := Records(c, specs, resp.docs, resp.numFound, styled, counts, env).value;
            Output(c, specs, 0, resp, styled, counts, env) ==
              Success(Export(Retrieved(resp.numFound),
                             (if c.header != "" then c.header + "\n" else "") + Concat(rs) + "\n" + c.footer))
  {
    var rs := Records(c, specs, resp.docs, resp.numFound, styled, counts, env).value;
    var hs := HeaderLines(c.header);
    assert NumDocs(0, resp) == resp.numFound;
    assert Output(c, specs, 0, resp, styled, counts, env) ==
           Success(Export(Retrieved(resp.numFound), Concat(hs + rs + ["\n" + c.footer])));
    ConcatAppend(hs + rs, ["\n" + c.footer]);
    ConcatAppend(hs, rs);
    assert Concat(["\n" + c.footer]) == "\n" + c.footer + Concat([]);
    var h := if c.header != "" then c.header + "\n" else "";
    if c.header != "" {
      assert Concat(hs) == c.header + "\n" + Concat([]);
    }
    assert Concat(hs) == h;
    assert Concat(hs + rs + ["\n" + c.footer]) == h + Concat(rs) + "\n" + c.footer;
  }

  /** Solr reporting more documents than it returned is an IndexError. */
  lemma OutputTooFew(c: Config, specs: seq<Field>, resp: Response,
                     styled: map<string, seq<string>>, counts: map<string, seq<nat>>, env: Env)
    requires resp.numFound > |resp.docs|
    ensures Output(c, specs, 0, resp, styled, counts, env).Failure?
  {
  }

  /** Fields the formatter has no branch for (such as the object-name
      letter `O`, whose field name is empty) are left in the text. */
  lemma {:induction false} ApplyAllUnknown(result: string, specs: seq<Field>, doc: Doc, index: nat, enc: Encoding,
                                           styled: map<string, seq<string>>, counts: map<string, seq<nat>>, env: Env)
    requires forall k :: 0 <= k < |specs| ==> specs[k].name !in KnownFields
    ensures ApplyAll(result, specs, doc, index, enc, styled, counts, env) == Success(result)
    decreases |specs|
  {
    if specs != [] {
      ApplyAllUnknown(result, specs[..|specs| - 1], doc, index, enc, styled, counts, env);
    }
  }

  // ------------------------------------------------ errors stop the folds

  lemma {:induction false} ApplyCommandsPrefixFails(c: Config, ms: seq<string>, k: nat, unescape: string -> string)
    requires k <= |ms| && forall j :: 0 <= j < |ms| ==> ms[j] != ""
    requires ApplyCommands(c, ms[..k], unescape).Failure?
    ensures ApplyCommands(c, ms, unescape).Failure?
    decreases |ms|
  {
    if k < |ms| {
      var init := ms[..|ms| - 1];
      assert init[..k] == ms[..k];
      ApplyCommandsPrefixFails(c, init, k, unescape);
    } else {
      TakeAll(ms);
    }
  }

  lemma ApplyCommandsSnoc(c: Config, ms: seq<string>, j: nat, d: Config, unescape: string -> string)
    requires j < |ms| && forall k :: 0 <= k < |ms| ==> ms[k] != ""
    requires ApplyCommands(c, ms[..j], unescape) == Success(d)
    ensures ApplyCommands(c, ms[..j + 1], unescape) == ApplyCommand(d, ms[j], unescape)
  {
    assert ms[..j + 1][..j] == ms[..j];
  }

  lemma CommandPassesStep(c0: Config, ps: seq<Pattern>, i: nat, c: Config, unescape: string -> string)
    requires i < |ps| && CommandPasses(c0, ps[..i], unescape) == Success(c)
    ensures CommandPasses(c0, ps[..i + 1], unescape) == CommandPass(c, ps[i], unescape)
  {
    assert ps[..i + 1][..i] == ps[..i];
  }

  lemma {:induction false} CommandPassesPrefixFails(c: Config, ps: seq<Pattern>, k: nat, unescape: string -> string)
    requires k <= |ps| && CommandPasses(c, ps[..k], unescape).Failure?
    ensures CommandPasses(c, ps, unescape).Failure?
    decreases |ps|
  {
    if k < |ps| {
      var init := ps[..|ps| - 1];
      assert init[..k] == ps[..k];
      CommandPassesPrefixFails(c, init, k, unescape);
    } else {
      TakeAll(ps);
    }
  }

  lemma OutputOf(c: Config, specs: seq<Field>, resp: Response, styled: map<string, seq<string>>,
                 counts: map<string, seq<nat>>, env: Env, recs: seq<string>)
    requires Records(c, specs, resp.docs, resp.numFound, styled, counts, env) == Success(recs)
    ensures Output(c, specs, 0, resp, styled, counts, env) ==
            Success(Export(Retrieved(resp.numFound), Concat(HeaderLines(c.header) + recs + ["\n" + c.footer])))
  {
    assert NumDocs(0, resp) == resp.numFound;
  }

  lemma {:induction false} ApplyAllPrefixFails(result: string, specs: seq<Field>, k: nat, doc: Doc, index: nat, enc: Encoding,
                                               styled: map<string, seq<string>>, counts: map<string, seq<nat>>, env: Env)
    requires k <= |specs| && ApplyAll(result, specs[..k], doc, index, enc, styled, counts, env).Failure?
    ensures ApplyAll(result, specs, doc, index, enc, styled, counts, env) == ApplyAll(result, specs[..k], doc, index, enc, styled, counts, env)
    decreases |specs|
  {
    if k < |specs| {
      var init := specs[..|specs| - 1];
      assert init[..k] == specs[..k];
      ApplyAllPrefixFails(result, init, k, doc, index, enc, styled, counts, env);
    } else {
      TakeAll(specs);
    }
  }

  lemma ApplyAllSnoc(result: string, specs: seq<Field>, k: nat, doc: Doc, index: nat, enc: Encoding,
                     styled: map<string, seq<string>>, counts: map<string, seq<nat>>, env: Env, acc: string)
    requires k < |specs| && ApplyAll(result, specs[..k], doc, index, enc, styled, counts, env) == Success(acc)
    ensures ApplyAll(result, specs[..k + 1], doc, index, enc, styled, counts, env) ==
            ApplyField(acc, specs[k], doc, index, enc, styled, counts, env)
  {
    assert specs[..k + 1][..k] == specs[..k];
  }

  /** The index of the first author specifier. */
  function FirstAuthor(specs: seq<Field>): (k: nat)
    requires HasAuthor(specs)
    ensures k < |specs| && specs[k].name == "author"
    ensures forall j :: 0 <= j < k ==> specs[j].name != "author"
  {
    if specs[0].name == "author" then 0
    else
      assert HasAuthor(specs[1..]) by {
        var k :| 0 <= k < |specs| && specs[k].name == "author";
        assert specs[1..][k - 1] == specs[k];
      }
      1 + FirstAuthor(specs[1..])
  }

  /** One more specifier of `set_json_from_solr`'s loop. */
  lemma StyleStep(m: map<string, seq<string>>, n: map<string, seq<nat>>, specs: seq<Field>, i: nat,
                  style: string -> seq<string>, nums: seq<nat>)
    requires i < |specs|
    ensures HasAuthor(specs[..i + 1]) <==> HasAuthor(specs[..i]) || specs[i].name == "author"
    ensures Styled(m, specs[..i + 1], style) ==
            (if specs[i].name == "author" then Styled(m, specs[..i], style)[specs[i].token := style(CslFileName(Last(specs[i].token)))]
             else Styled(m, specs[..i], style))
    ensures Counted(n, specs[..i + 1], nums) ==
            (if specs[i].name == "author" then Counted(n, specs[..i], nums)[specs[i].token := nums]
             else Counted(n, specs[..i], nums))
  {
    assert specs[..i + 1][..i] == specs[..i];
    assert specs[..i + 1][i] == specs[i];
    if HasAuthor(specs[..i]) {
      var k :| 0 <= k < i && specs[..i][k].name == "author";
      assert specs[..i + 1][k] == specs[..i][k];
    }
    if specs[i].name == "author" {
      assert specs[..i + 1][i].name == "author";
    }
  }

  /** Without author specifiers nothing is styled or counted. */
  lemma {:induction false} NoAuthorUnstyled(m: map<string, seq<string>>, n: map<string, seq<nat>>, specs: seq<Field>,
                                            style: string -> seq<string>, nums: seq<nat>)
    requires !HasAuthor(specs)
    ensures Styled(m, specs, style) == m && Counted(n, specs, nums) == n
    decreases |specs|
  {
    if specs != [] {
      var init := specs[..|specs| - 1];
      NoAuthorUnstyled(m, n, init, style, nums);
      assert specs[|specs| - 1].name != "author";
    }
  }

  lemma FirstAuthorAt(specs: seq<Field>, i: nat)
    requires i < |specs| && specs[i].name == "author" && !HasAuthor(specs[..i])
    ensures HasAuthor(specs) && FirstAuthor(specs) == i
  {
    forall j | 0 <= j < i ensures specs[j].name != "author" {
      assert specs[..i][j] == specs[j];
    }
  }

  /** The author counts, when they can be taken. */
  function CountsOf(docs: seq<Doc>): seq<nat> {
    var r := AuthorCounts(docs);
    if r.Success? then r.value else []
  }

  // ------------------------------------------------------------ the class

  /** A custom-format formatter: the template and settings `__parse` leaves
      behind, the specifiers found, the Solr answer and the styled authors. */
  class CustomFormatter {
    var template: string
    var encoding: Encoding
    var lineLength: nat
    var header: string
    var footer: string
    var enumeration: bool
    var parsedSpec: seq<Field>
    var styled: map<string, seq<string>>
    var counts: map<string, seq<nat>>
    var status: int
    var response: Response

    function Settings(): Config
      reads this
    {
      Config(template, encoding, lineLength, header, footer, enumeration)
    }

    /** `__init__` before it parses: the default settings. */
    constructor (t: string)
      ensures Settings() == Initial(t)
      ensures parsedSpec == [] && styled == map[] && counts == map[]
      ensures status == -1 && response == Response(None, 0, [])
    {
      template := t;
      encoding := Unicode;
      lineLength := 80;
      header := "";
      footer := "";
      enumeration := false;
      parsedSpec := [];
      styled := map[];
      counts := map[];
      status := -1;
      response := Response(None, 0, []);
    }

    /** The setting a `name:value` directive names, updated in place. */
    method SetSetting(parts: seq<string>, unescape: string -> string) returns (r: Result<()>)
      modifies this`template, this`encoding, this`lineLength, this`header, this`footer, this`enumeration
      ensures r.Success? <==> SetDirective(old(Settings()), parts, unescape).Success?
      ensures r.Success? ==> Settings() == SetDirective(old(Settings()), parts, unescape).value
      ensures r.Failure? ==> r.error == ValueError
    {
      if |parts| == 2 {
        if parts[0] == "Encoding" {
          encoding := EncodingNamed(parts[1]);
        } else if parts[0] == "Linelength" {
          var n := ParseInt(parts[1]);
          if n.None? {
            return Failure(ValueError);
          }
          lineLength := n.value;
        } else if parts[0] == "Header" {
          header := unescape(Replace(parts[1], "\"", ""));
        } else if parts[0] == "Footer" {
          footer := unescape(Replace(parts[1], "\"", ""));
        }
      }
      return Success(());
    }

    /** One match of `__parse_command`: cut from the template, then applied
        when it is a `name:value` pair. */
    method ApplyDirective(m: string, unescape: string -> string) returns (r: Result<()>)
      requires m != ""
      modifies this`template, this`encoding, this`lineLength, this`header, this`footer, this`enumeration
      ensures r.Success? <==> ApplyCommand(old(Settings()), m, unescape).Success?
      ensures r.Success? ==> Settings() == ApplyCommand(old(Settings()), m, unescape).value
      ensures r.Failure? ==> r.error == ValueError
    {
      ghost var c0 := Settings();
      template := ReplaceN(template, m, "", |m|);
      var parts := DirectiveParts(m);
      assert ApplyCommand(c0, m, unescape) == SetDirective(Settings(), parts, unescape);
      r := SetSetting(parts, unescape);
    }

    /** All matches of one pattern, in order; the first error stops it. */
    method ApplyDirectives(ms: seq<string>, unescape: string -> string) returns (r: Result<()>)
      requires forall k :: 0 <= k < |ms| ==> ms[k] != ""
      modifies this`template, this`encoding, this`lineLength, this`header, this`footer, this`enumeration
      ensures r.Success? <==> ApplyCommands(old(Settings()), ms, unescape).Success?
      ensures r.Success? ==> Settings() == ApplyCommands(old(Settings()), ms, unescape).value
      ensures r.Failure? ==> r.error == ValueError
    {
      ghost var c0 := Settings();
      var j := 0;
      while j < |ms|
        invariant 0 <= j <= |ms|
        invariant ApplyCommands(c0, ms[..j], unescape) == Success(Settings())
      {
        r := ApplyNext(c0, ms, j, unescape);
        if r.Failure? {
          return;
        }
        j := j + 1;
      }
      TakeAll(ms);
      return Success(());
    }

    /** One turn of `ApplyDirectives`' loop. */
    method ApplyNext(ghost c0: Config, ms: seq<string>, j: nat, unescape: string -> string) returns (r: Result<()>)
      requires j < |ms| && forall k :: 0 <= k < |ms| ==> ms[k] != ""
      requires ApplyCommands(c0, ms[..j], unescape) == Success(Settings())
      modifies this`template, this`encoding, this`lineLength, this`header, this`footer, this`enumeration
      ensures r.Success? ==> ApplyCommands(c0, ms[..j + 1], unescape) == Success(Settings())
      ensures r.Failure? ==> r.error == ValueError && ApplyCommands(c0, ms, unescape).Failure?
    {
      ghost var before := Settings();
      r := ApplyDirective(ms[j], unescape);
      ApplyCommandsSnoc(c0, ms, j, before, unescape);
      if r.Failure? {
        ApplyCommandsPrefixFails(c0, ms, j + 1, unescape);
      }
    }

    /** `__parse_command`: each directive pattern in turn, over the template
        as the earlier passes left it. */
    method ParseCommand(unescape: string -> string) returns (r: Result<()>)
      modifies this`template, this`encoding, this`lineLength, this`header, this`footer, this`enumeration
      ensures r.Success? <==> CommandPasses(old(Settings()), CommandPatterns, unescape).Success?
      ensures r.Success? ==> Settings() == CommandPasses(old(Settings()), CommandPatterns, unescape).value
      ensures r.Failure? ==> r.error == ValueError
    {
      ghost var c0 := Settings();
      var i := 0;
      while i < |CommandPatterns|
        invariant 0 <= i <= |CommandPatterns|
        invariant CommandPasses(c0, CommandPatterns[..i], unescape) == Success(Settings())
      {
        CommandPassesStep(c0, CommandPatterns, i, Settings(), unescape);
        var ms := MatchTexts(FindAll(CommandPatterns[i], template, 0));
        MatchTextsNonEmpty(CommandPatterns[i], template);
        r := ApplyDirectives(ms, unescape);
        if r.Failure? {
          CommandPassesPrefixFails(c0, CommandPatterns, i + 1, unescape);
          return;
        }
        i := i + 1;
      }
      TakeAll(CommandPatterns);
      return Success(());
    }
  
    /** `__parse_enumeration`: every `%z` found turns numbering on and has
        the template inserted around each of its characters. */
    method ParseEnumeration()
      modifies this`template, this`encoding, this`lineLength, this`header, this`footer, this`enumeration
      ensures Settings() == Enumerated(old(Settings()))
    {
      ghost var c0 := Settings();
      var ms := MatchTexts(FindAll(Enumeration, template, 0));
      var j := 0;
      while j < |ms|
        invariant 0 <= j <= |ms|
        invariant Settings() == Enumerate(c0, ms[..j])
      {
        assert ms[..j + 1][..j] == ms[..j];
        template := InsertAround(ms[j], template);
        enumeration := true;
        j := j + 1;
      }
      TakeAll(ms);
    }

    /** The loop at the end of `__parse`: one entry per field specifier of
        the template, left to right. */
    method RecordSpecs()
      modifies this`parsedSpec
      ensures parsedSpec == Specs(template)
    {
      var ms := FindAll(FieldSpecifier, template, 0);
      var specs := [];
      var k := 0;
      while k < |ms|
        invariant 0 <= k <= |ms|
        invariant specs == SpecList(ms[..k])
      {
        SpecListSnoc(ms, k);
        specs := specs + [SpecOf(ms[k])];
        k := k + 1;
      }
      TakeAll(ms);
      parsedSpec := specs;
    }

    /** `__parse`: directives, then enumeration, then the specifiers of the
        resulting template. */
    method Parse(unescape: string -> string) returns (r: Result<()>)
      modifies this`template, this`encoding, this`lineLength, this`header, this`footer, this`enumeration, this`parsedSpec
      ensures r.Success? <==> CompileFrom(old(Settings()), unescape).Success?
      ensures r.Success? ==> (Settings(), parsedSpec) == CompileFrom(old(Settings()), unescape).value
      ensures r.Failure? ==> r.error == ValueError && parsedSpec == []
    {
      ghost var c0 := Settings();
      parsedSpec := [];
      r := ParseCommand(unescape);
      if r.Failure? {
        return;
      }
      ghost var c1 := Settings();
      ParseEnumeration();
      RecordSpecs();
      assert CompileFrom(c0, unescape) == Success((Enumerated(c1), Specs(Enumerated(c1).template)));
    }

    /** Creating a formatter: `__init__`'s defaults, then `__parse`; a
        line-length directive that is not a number raises ValueError. */
    static method Create(t: string, unescape: string -> string) returns (r: Result<CustomFormatter>)
      ensures r.Success? <==> Compile(t, unescape).Success?
      ensures r.Success? ==> fresh(r.value) && r.value.status == -1 &&
                             (r.value.Settings(), r.value.parsedSpec) == Compile(t, unescape).value
      ensures r.Failure? ==> r.error == ValueError
    {
      var f := new CustomFormatter(t);
      var p := f.Parse(unescape);
      if p.Failure? {
        return Failure(p.error);
      }
      return Success(f);
    }
  
    /** `get_solr_fields`: each field name the template asks for, once,
        with `bibcode` added and the last comma cut. */
    method GetSolrFields() returns (fields: string)
      ensures fields == SolrFields(parsedSpec)
    {
      var acc := "";
      var i := 0;
      while i < |parsedSpec|
        invariant 0 <= i <= |parsedSpec|
        invariant acc == Requested(parsedSpec[..i])
      {
        assert parsedSpec[..i + 1][..i] == parsedSpec[..i];
        if !Contains(acc, parsedSpec[i].name) {
          acc := acc + parsedSpec[i].name + ",";
        }
        i := i + 1;
      }
      TakeAll(parsedSpec);
      if !Contains(acc, "bibcode") {
        acc := acc + "bibcode,";
      }
      fields := PySlice(acc, 0, -1);
    }

    /** `__get_num_authors`: the number of authors of each document; an
        author value that is a number raises TypeError. */
    method CountAuthors() returns (r: Result<seq<nat>>)
      ensures r == AuthorCounts(response.docs)
    {
      var docs := response.docs;
      var nums: seq<nat> := [];
      var i := 0;
      while i < |docs|
        invariant 0 <= i <= |docs|
        invariant AuthorCounts(docs[..i]) == Success(nums)
      {
        assert docs[..i + 1][..i] == docs[..i];
        var doc := docs[i];
        if "author" in doc {
          match doc["author"]
          case Num(_) =>
            assert AuthorCount(docs[i]).Failure?;
            return Failure(TypeError);
          case Str(s) =>
            nums := nums + [|s|];
          case Strs(xs) =>
            nums := nums + [|xs|];
        } else {
          nums := nums + [0];
        }
        i := i + 1;
      }
      TakeAll(docs);
      return Success(nums);
    }
  
    /** `set_json_from_solr`: the answer is kept, its header status (when it
        has one) replaces the status, and each author specifier gets its
        styled authors and the author counts. The first author specifier
        is styled before a TypeError from counting stops the loop. */
    method SetJsonFromSolr(resp: Response, style: string -> seq<string>) returns (r: Result<()>)
      modifies this`response, this`status, this`styled, this`counts
      ensures response == resp && status == NewStatus(old(status), resp)
      ensures r.Success? <==> !HasAuthor(parsedSpec) || AuthorCounts(resp.docs).Success?
      ensures r.Success? ==> styled == Styled(old(styled), parsedSpec, style) &&
                             counts == Counted(old(counts), parsedSpec, CountsOf(resp.docs))
      ensures r.Failure? ==> r.error == TypeError &&
                             styled == Styled(old(styled), parsedSpec[..FirstAuthor(parsedSpec) + 1], style) &&
                             counts == old(counts)
    {
      response := resp;
      status := NewStatus(status, resp);
      var i := 0;
      while i < |parsedSpec|
        invariant 0 <= i <= |parsedSpec|
        invariant styled == Styled(old(styled), parsedSpec[..i], style)
        invariant counts == Counted(old(counts), parsedSpec[..i], CountsOf(resp.docs))
        invariant !HasAuthor(parsedSpec[..i]) || AuthorCounts(resp.docs).Success?
        modifies this`styled, this`counts
      {
        var f := parsedSpec[i];
        StyleStep(old(styled), old(counts), parsedSpec, i, style, CountsOf(resp.docs));
        if f.name == "author" {
          styled := styled[f.token := style(CslFileName(Last(f.token)))];
          var n := CountAuthors();
          if n.Failure? {
            FirstAuthorAt(parsedSpec, i);
            NoAuthorUnstyled(old(styled), old(counts), parsedSpec[..i], style, CountsOf(resp.docs));
            return Failure(TypeError);
          }
          counts := counts[f.token := n.value];
        }
        i := i + 1;
      }
      TakeAll(parsedSpec);
      return Success(());
    }
  
    /** `__get_doc`: document `index` through every specifier of the
        template, then line-wrapped; past the end, IndexError. */
    method GetDoc(index: nat, env: Env) returns (r: Result<string>)
      ensures r == RenderDoc(Settings(), parsedSpec, response.docs, index, styled, counts, env)
    {
      if index >= |response.docs| {
        return Failure(IndexError);
      }
      var doc := response.docs[index];
      var result := template;
      var i := 0;
      while i < |parsedSpec|
        invariant 0 <= i <= |parsedSpec|
        invariant ApplyAll(template, parsedSpec[..i], doc, index, encoding, styled, counts, env) == Success(result)
      {
        ApplyAllSnoc(template, parsedSpec, i, doc, index, encoding, styled, counts, env, result);
        var next := ApplyField(result, parsedSpec[i], doc, index, encoding, styled, counts, env);
        if next.Failure? {
          ApplyAllPrefixFails(template, parsedSpec, i + 1, doc, index, encoding, styled, counts, env);
          return Failure(next.error);
        }
        result := next.value;
        i := i + 1;
      }
      TakeAll(parsedSpec);
      return Success(LineWrapped(result, index, lineLength, enumeration, env));
    }

    /** The loop of `get`: the first `n` documents rendered in order; the
        first error stops it. */
    method GetRecords(n: nat, env: Env) returns (r: Result<seq<string>>)
      ensures r == Records(Settings(), parsedSpec, response.docs, n, styled, counts, env)
    {
      ghost var render := Renderer(Settings(), parsedSpec, response.docs, styled, counts, env);
      var records: seq<string> := [];
      var index := 0;
      while index < n
        invariant 0 <= index <= n
        invariant RecordLoop.Rendered(render, index) == Success(records)
      {
        var d := GetDoc(index, env);
        assert d == render(index);
        if d.Failure? {
          RecordLoop.StepFails(render, index, records);
          RecordLoop.PrefixFails(render, index + 1, n);
          return Failure(d.error);
        }
        RecordLoop.Snoc(render, index, records, d.value);
        records := records + [d.value];
        index := index + 1;
      }
      return Success(records);
    }

    /** `get`: with status 0, the header line, one record per document
        Solr found and the footer, joined; otherwise an empty export. */
    method Get(env: Env) returns (r: Result<Export>)
      ensures r == Output(Settings(), parsedSpec, status, response, styled, counts, env)
    {
      if status != 0 {
        return Success(Export(Retrieved(0), ""));
      }
      var n := NumDocs(status, response);
      var results := HeaderLines(header);
      var records := GetRecords(n, env);
      if records.Failure? {
        return Failure(records.error);
      }
      OutputOf(Settings(), parsedSpec, response, styled, counts, env, records.value);
      results := results + records.value + ["\n" + footer];
      return Success(Export(Retrieved(n), Concat(results)));
    }
  }
}
