# ADS export service formatters, modelled in Dafny

This project models the record formatters of the ADS export service. They
turn the JSON answer of a Solr search into export text:

- **Custom format** (`CustomFormat`, with `CustomScan`, `CustomAuthors`,
  `CustomFields` and `Cleanup`). This is a small template language.
  - A template is compiled: `%Z` directives set the encoding, the line
    length, a header and a footer; `%z` turns numbering on; and each field
    specifier `%[width][.precision]<letter>` names a Solr field.
  - Every document is then rendered through the template. A value replaces
    its specifier. An empty value deletes the specifier with the punctuation
    around it. Author lists are shortened per letter. The record is wrapped,
    numbered and encoded for Unicode, HTML or LaTeX.
  - The formatter object is a class. Its parse steps update the settings in
    place. Its loops are methods proved equal to specification functions.
- **Fielded formats** (`FieldedFormat`): the ADS, EndNote, ProCite, Refman,
  RefWorks and MEDLARS tagged exports.
  - Each has an ordered tag table, its own document-type names and date
    layout, and its own author, affiliation, keyword and link blocks.
  - The five document-type dictionaries are stored as one map from each
    Solr type to a kind of document (`SolrKinds`) and one name per kind and
    format (`KindName`). The pairs they give are the same as the source's.
  - Each writes a "Retrieved N abstracts" banner.
  - The six `get_*_fielded` entry points are `GetFielded` with a `Format`.
- **CSL post-processing** (`Csl`): the rewrites around citeproc.
  - Before formatting: journal names become mnras abbreviations or AASTeX
    macros.
  - After formatting: citeproc's citation and bibliography strings are
    split into author, year and rest. The per-style `et al.` rewrites
    (icarus, soph) are applied. The text is escaped for LaTeX and filled
    into the style's `\bibitem` template.

Shared modules:

- `Results`: Python exceptions as `Failure(ValueError | IndexError |
  TypeError | KeyError)`.
- `Text`: `str` operations with Python's semantics, such as `replace`
  with an empty pattern, `split`, `strip`, slicing and `int()`.
- `Accumulate`: the append-then-drop-the-last-separator loop both
  formatters use.
- `SolrDoc`: documents, whose values are a text, a list or a number.
- `SolrDate`: `strptime` of `YYYY-MM-DDTHH:MM:SSZ` and the `strftime`
  layouts.

The helpers the formatters call, such as `textwrap.fill`, the LaTeX and
HTML encoders and the journal abbreviation service, are not part of this
model. Each is passed in as a function parameter, and so is the
configuration each formatter reads.

Where the code and its documentation disagree, the model follows the code:

- `%z` is not removed from the template. `match.replace('', template)`
  puts the template around each character of `%z`, so the template comes
  back three times (`CustomFormat.EnumerationTriples`).
- A header or footer directive without a closing quote is not an error.
  It does not match and stays in the template text.
- A Linelength directive whose value is not an integer raises ValueError.
  A header or footer holding a `:` splits into three parts and is
  ignored.
- Missing link counts compare as `'' > 0` in Python 2, which is true. So a
  fielded ADS record without `citation_count` still gets its citation
  lines (`FieldedFormat.MissingCountsLinked`).

## Model

| member | source | states |
|---|---|---|
| SolrDoc.JoinValue | exportsrv/formatter/customFormat.py:545 | `''.join(v)` fails (TypeError) exactly on a number; a text or a list of texts joins |
| SolrDoc.StrOf | exportsrv/formatter/customFormat.py:560 | a value used as text succeeds exactly for a text or an empty list |
| SolrDoc.Items | exportsrv/formatter/customFormat.py:445 | iterating a value visits as many items as the text has characters or the list has entries |
| SolrDoc.NumDocs | exportsrv/formatter/fieldedFormat.py:59-63 | no documents are counted unless the status is 0 |
| SolrDate.Parse | exportsrv/formatter/fieldedFormat.py:120 | a parsed date comes from the fixed ISO shape and is a real calendar date; anything else is ValueError |
| SolrDate.ParseIso | exportsrv/formatter/fieldedFormat.py:120 | every valid date is read back from its own ISO text |
| SolrDate.FieldedDate | exportsrv/formatter/fieldedFormat.py:118-124 | a fielded date exists exactly when the text parses and the year is at least 1900 (Python 2 `strftime`); otherwise ValueError |
| SolrDate.CustomDate | exportsrv/formatter/customFormat.py:242-252 | letters other than `D` and `Y` raise KeyError; `D`/`Y` succeed exactly when the date parses |
| SolrDate.CustomDateSlices | exportsrv/formatter/customFormat.py:250-252 | `%D` is the input's month and year text `MM/YYYY`, `%Y` its year text |
| SolrDate.MonthYearSlices | exportsrv/formatter/customFormat.py:251 | `%m/%Y` of a parsed date is the month and year taken from the input |
| SolrDate.Unmarked | exportsrv/formatter/fieldedFormat.py:124 | the two marker replacements leave a text without `X` unchanged |
| SolrDate.DropMarker | exportsrv/formatter/fieldedFormat.py:124 | `X%d` with the marker dropped is the day without its leading zero |
| SolrDate.SlashedDayText | exportsrv/formatter/fieldedFormat.py:121-124 | ProCite/Refman/RefWorks dates are `YYYY/MM/` then the day as a plain number |
| SolrDate.MonthSlashYearText | exportsrv/formatter/fieldedFormat.py:121-124 | ADS dates are `MM/YYYY` taken from the input |
| SolrDate.LongDateText | exportsrv/formatter/fieldedFormat.py:121-124 | EndNote dates are `Month DD, YYYY` with the English month name |
| SolrDate.MedlineDateText | exportsrv/formatter/fieldedFormat.py:121-124 | MEDLARS dates are `YYYY Mon DD` |
| Accumulate.AppendEach | exportsrv/formatter/customFormat.py:443-450 | the append loop yields the start, each item and separator, minus one trailing separator when the text is longer than it |
| Accumulate.AppendEachResult | exportsrv/formatter/customFormat.py:447-449 | with items the loop's text is the items joined by the separator after the start; without items the start is cut by the separator's length |
| CustomScan.EncodingOrLinelengthLength | exportsrv/formatter/customFormat.py:33 | a match of the encoding/line-length directive starts with `%ZEncoding:` or `%ZLinelength:` |
| CustomScan.HeaderOrFooterLength | exportsrv/formatter/customFormat.py:34 | a match of the header/footer directive starts with `%ZHeader:"` or `%ZFooter:"` and spans a quoted non-empty text |
| CustomScan.SpecifierFound | exportsrv/formatter/customFormat.py:36-45 | every match is a field specifier: `%`, width, precision, letter from the alphabet |
| CustomScan.SpecifierShape | exportsrv/formatter/customFormat.py:36-45 | `%`, the longest width and precision and a type letter form a specifier |
| CustomScan.FindAllMatches | exportsrv/formatter/customFormat.py:238 | `findall`/`finditer` give genuine matches, in increasing order and not overlapping |
| CustomScan.NoPercentNoMatch | exportsrv/formatter/customFormat.py:212 | a text without `%` has no directive or specifier |
| CustomScan.FindAllFinds | exportsrv/formatter/customFormat.py:238 | the leftmost match position is never skipped |
| CustomScan.SolrField | exportsrv/formatter/customFormat.py:126-172 | exactly the author letters map to `author`; exactly the letters with no non-empty entry in the table map to no field |
| CustomAuthors.AuthorSearch | exportsrv/formatter/customFormat.py:30 | a found match is the text between a `%` and the word character that ends it |
| CustomAuthors.ShorteningOf | exportsrv/formatter/customFormat.py:426-433 | a specifier with no `%<limit><letter>` match keeps the list whole |
| CustomAuthors.SearchTwoNumbers | exportsrv/formatter/customFormat.py:426-428 | `%m.nX` captures `m.n` and the letter |
| CustomAuthors.SearchOneNumber | exportsrv/formatter/customFormat.py:426-428 | `%mX` captures `m` and the letter |
| CustomAuthors.ShorteningTwoNumbers | exportsrv/formatter/customFormat.py:427-430 | `%m.nX` shortens by letter X with limits m and n |
| CustomAuthors.ShorteningOneNumber | exportsrv/formatter/customFormat.py:431-432 | `%mX` is read as `%m.1X` |
| CustomAuthors.ShorteningNone | exportsrv/formatter/customFormat.py:426-433 | `%X` keeps the whole list |
| CustomAuthors.StarPrecisionKeeps | exportsrv/formatter/customFormat.py:426-433 | a specifier such as `%5.*l` (a digit, a dot, then `*`) keeps the list whole, because backtracking matches the digit as the letter with an empty limit |
| CustomAuthors.ShortenAuthors | exportsrv/formatter/customFormat.py:335-410 | no more authors than either limit, or an unknown letter, keeps the list; only H with m ≠ 1 can fail (each letter's result is stated by the lemmas below) |
| CustomAuthors.HAuthors | exportsrv/formatter/customFormat.py:384-392 | H fails exactly when m ≠ 1 and there is no `and` word or too few words |
| CustomAuthors.IndexOf | exportsrv/formatter/customFormat.py:391 | the position found holds the word and no earlier one does |
| CustomAuthors.RemoveFirst | exportsrv/formatter/customFormat.py:391 | `remove` drops exactly one copy of the word, the first, and keeps the rest in order |
| CustomAuthors.AuthorList | exportsrv/formatter/customFormat.py:413-433 | a token never styled is a TypeError (`None[index]`); a result needs the token styled and counted at that index |
| CustomAuthors.NAuthorsFirst | exportsrv/formatter/customFormat.py:326-328 | with n = 1 the first k pieces are kept, joined by the separator |
| CustomAuthors.NAuthorsMany | exportsrv/formatter/customFormat.py:326-332 | with n ≥ 2 the first (n−1)·k pieces, the before-last word and the n-th author's pieces |
| CustomAuthors.ShortenEtAl | exportsrv/formatter/customFormat.py:369-383 | the et-al letters A, G, M, m, l, a take the first n authors with the separator, pieces per author and before-last word of their row of the table, then `, et al.` |
| CustomAuthors.ShortenEtAlFirst | exportsrv/formatter/customFormat.py:369-383 | with n = 1 the et-al letters keep the first author's pieces and append `, et al.` |
| CustomAuthors.ShortenEtAlMany | exportsrv/formatter/customFormat.py:326-332 | with n ≥ 2 the et-al letters give the first n−1 authors, the before-last word, the n-th author and `, et al.` |
| CustomAuthors.ShortenFirstWord | exportsrv/formatter/customFormat.py:400-405 | h gives the first space-separated word and ` \emph{et al.}`, n the first word and `+` |
| CustomAuthors.ShortenColleagues | exportsrv/formatter/customFormat.py:393-396 | I, L, N, g give the first author and `, and <count−1> colleagues` |
| CustomAuthors.ShortenHOne | exportsrv/formatter/customFormat.py:388-389 | H with m = 1 keeps the first word |
| CustomAuthors.ShortenHNeedsAnd | exportsrv/formatter/customFormat.py:390-391 | H with m ≠ 1 on a list without `and` raises ValueError |
| CustomAuthors.ShortenHWords | exportsrv/formatter/customFormat.py:384-392 | H with m ≥ 2 gives the first m−1 words of the list without its first `and`, then `and`, then the (m+1)-th of those words: the m-th is always left out |
| CustomAuthors.ShortenHSkipsOne | exportsrv/formatter/customFormat.py:390-392 | example: the words a, b, "and", c joined by spaces, with m = 2 and n = 1, give `a and c`, skipping b |
| CustomAuthors.ShortenH | exportsrv/formatter/customFormat.py:384-392 | H shortens the space-split words |
| CustomAuthors.HSkipsOne | exportsrv/formatter/customFormat.py:390-392 | example: on the words a, b, "and", c with m = 2 the result is `a and c` |
| CustomAuthors.RemoveAndExample | exportsrv/formatter/customFormat.py:391 | example: `remove('and')` on a, b, "and", c leaves a, b, c |
| CustomAuthors.AuthorListKeeps | exportsrv/formatter/customFormat.py:426-433 | a specifier without a limit shows the styled list unchanged |
| Cleanup.DeleteToken | exportsrv/formatter/customFormat.py:528-531 | deleting a specifier never lengthens the record |
| Cleanup.DecorationOptional | exportsrv/formatter/customFormat.py:529-530 | each decoration around the token may match nothing |
| Cleanup.TokenMatchesItself | exportsrv/formatter/customFormat.py:531 | a token without `*` read as a pattern matches its own text |
| Cleanup.TokenMinLen | exportsrv/formatter/customFormat.py:531 | a token without `*` matches at least its own length |
| Cleanup.CleanupMatchesToken | exportsrv/formatter/customFormat.py:529-531 | the bare token is a match of the cleanup pattern |
| Cleanup.DeleteTokenShortens | exportsrv/formatter/customFormat.py:528-531 | a record holding a specifier without `*` always gets shorter when an empty value deletes it |
| Cleanup.SubNoMatch | exportsrv/formatter/customFormat.py:531 | `re.sub` leaves a text with no match unchanged |
| Cleanup.StarTokenLeavesPrefix | exportsrv/formatter/customFormat.py:531 | for any letter X, a record `%*X` whose field is empty leaves `%*`, because `*` is read as a repetition |
| Cleanup.PrecedeEndsAt | exportsrv/formatter/customFormat.py:529 | before a character outside the decoration the leading pattern matches nothing |
| Cleanup.SucceedAtEnd | exportsrv/formatter/customFormat.py:530 | at the end of the text the trailing pattern matches nothing |
| CustomFields.CitationText | exportsrv/formatter/customFormat.py:564 | a number becomes its decimal text |
| CustomFields.FormatUrl | exportsrv/formatter/customFormat.py:255-268 | letters other than U/u raise KeyError; an empty bibcode gives no URL |
| CustomFields.Labelled | exportsrv/formatter/customFormat.py:304-308 | one labelled entry per affiliation |
| CustomFields.AffiliationList | exportsrv/formatter/customFormat.py:297-313 | a document without `aff` gives an empty value |
| CustomFields.AffiliationsJoined | exportsrv/formatter/customFormat.py:304-311 | the affiliations are `<label>(<aff>)` joined by `; ` |
| CustomFields.GetAffiliationList | exportsrv/formatter/customFormat.py:303-313 | the loop yields the affiliation list |
| CustomFields.KeywordList | exportsrv/formatter/customFormat.py:436-451 | a document without `keyword` gives an empty value |
| CustomFields.KeywordsJoined | exportsrv/formatter/customFormat.py:443-450 | keywords are joined by `, ` |
| CustomFields.KeywordsBlank | exportsrv/formatter/customFormat.py:442-451 | when the keywords join to nothing, no keyword gives the empty text and a single empty keyword leaves the separator `, ` itself |
| CustomFields.GetKeywords | exportsrv/formatter/customFormat.py:442-451 | the loop yields the keyword list |
| CustomFields.Publication | exportsrv/formatter/customFormat.py:469-494 | letters other than J, j, Q, q give nothing |
| CustomFields.Encode | exportsrv/formatter/customFormat.py:497-515 | Unicode, and `pub` in LaTeX, pass the text through unchanged |
| CustomFields.DateInput | exportsrv/formatter/customFormat.py:250 | `strptime` accepts only a text; a list or a number is TypeError |
| CustomFields.FieldValue | exportsrv/formatter/customFormat.py:540-564 | an unknown field gives no value, and only an unknown field does |
| CustomFields.ApplyField | exportsrv/formatter/customFormat.py:542-564 | an unknown field leaves the record unchanged |
| CustomFields.AddInSubstitutes | exportsrv/formatter/customFormat.py:526-527 | a value replaces every occurrence of the specifier with its encoding |
| CustomFields.AddInAbsent | exportsrv/formatter/customFormat.py:526-527 | a record without the specifier is unchanged by a value |
| CustomFields.AddInEmptyDeletes | exportsrv/formatter/customFormat.py:528-531 | an empty value shortens a record that holds the specifier |
| CustomFields.LineWrapped | exportsrv/formatter/customFormat.py:271-294 | every rendered record ends with a newline |
| CustomFields.LineWrappedNewlines | exportsrv/formatter/customFormat.py:279-287 | unwrapped, the record keeps its real newlines and gains one |
| CustomFields.LineWrappedPlain | exportsrv/formatter/customFormat.py:279-294 | unwrapped, a record is kept, or labelled when numbering, and ended by a newline |
| CustomFields.LabelPadded | exportsrv/formatter/customFormat.py:281-285 | numbers below 10 are right-justified in two columns |
| CustomFormat.EncodingNamed | exportsrv/formatter/customFormat.py:175-189 | `html` and `latex` select those encodings; any other name selects Unicode |
| CustomFormat.SetDirective | exportsrv/formatter/customFormat.py:217-226 | it fails exactly on a Linelength that is not an integer (ValueError); a directive not of two parts changes nothing |
| CustomFormat.ApplyCommand | exportsrv/formatter/customFormat.py:214-226 | a matched directive is cut (up to its length in occurrences) from the template, then applied |
| CustomFormat.ApplyCommands | exportsrv/formatter/customFormat.py:213-226 | the only error of a pass is ValueError |
| CustomFormat.CommandPass | exportsrv/formatter/customFormat.py:211-226 | one pattern's matches applied in order; errors are ValueError |
| CustomFormat.CommandPasses | exportsrv/formatter/customFormat.py:205-226 | the two directive patterns in order; errors are ValueError |
| CustomFormat.Enumerate | exportsrv/formatter/customFormat.py:198-202 | any `%z` turns numbering on; without one nothing changes; only template and flag change |
| CustomFormat.EnumerationTriples | exportsrv/formatter/customFormat.py:198-202 | with `%z` the template becomes itself, `%`, itself, `z`, itself |
| CustomFormat.NoEnumeration | exportsrv/formatter/customFormat.py:198-199 | without `%z` the settings are unchanged |
| CustomFormat.SpecsFields | exportsrv/formatter/customFormat.py:238-239 | each entry is a specifier at its start with its Solr field, in order and not overlapping |
| CustomFormat.CompileFrom | exportsrv/formatter/customFormat.py:229-239 | compiling gives the specifiers of the final template, or ValueError |
| CustomFormat.PassNoPercent | exportsrv/formatter/customFormat.py:211-215 | a directive pass over a text without `%` changes nothing |
| CustomFormat.CompileNoPercent | exportsrv/formatter/customFormat.py:57-64 | a template without `%` compiles to the defaults with no specifiers |
| CustomFormat.DirectiveNameValue | exportsrv/formatter/customFormat.py:217 | `%Z<name>:<value>` splits into the name and the value |
| CustomFormat.NamedDirective | exportsrv/formatter/customFormat.py:217-226 | a name-value directive sets the setting the name selects |
| CustomFormat.EncodingDirective | exportsrv/formatter/customFormat.py:219-220 | `%ZEncoding:v` selects the encoding v names |
| CustomFormat.LinelengthDirective | exportsrv/formatter/customFormat.py:221-222 | digits set the line length to their value; anything else is ValueError |
| CustomFormat.HeaderWithColonIgnored | exportsrv/formatter/customFormat.py:217-218 | a header holding `:` is cut from the template but sets nothing |
| CustomFormat.RequestedHas | exportsrv/formatter/customFormat.py:73-76 | every name a specifier asks for occurs in the accumulated list |
| CustomFormat.KeptClean | exportsrv/formatter/customFormat.py:74-76 | no name is appended twice, none is empty, none holds a comma |
| CustomFormat.FetchListTerminated | exportsrv/formatter/customFormat.py:73-81 | the list before the last comma is cut is the fetch list, distinct and non-empty |
| CustomFormat.SolrFieldsJoin | exportsrv/formatter/customFormat.py:83 | the field list is the fetch list joined by commas |
| CustomFormat.SolrFieldsShape | exportsrv/formatter/customFormat.py:67-83 | the field list holds `bibcode` and every requested name, no duplicates, no trailing comma |
| CustomFormat.BibcodeFetched | exportsrv/formatter/customFormat.py:80-81 | `bibcode` is always requested |
| CustomFormat.NameFetched | exportsrv/formatter/customFormat.py:74-83 | each specifier's field is requested |
| CustomFormat.SolrFieldsSkipsContained | exportsrv/formatter/customFormat.py:75 | a name occurring inside the list so far is skipped (substring test) |
| CustomFormat.CslFileNamesDistinct | exportsrv/formatter/customFormat.py:117-120 | distinct letters give style files that differ even case-insensitively |
| CustomFormat.AuthorCount | exportsrv/formatter/customFormat.py:93-96 | no author field counts 0, a list counts its length, a number is a TypeError |
| CustomFormat.AuthorCounts | exportsrv/formatter/customFormat.py:86-97 | one count per document in order; it fails (TypeError) exactly when some document's count fails |
| CustomFormat.StyledCovers | exportsrv/formatter/customFormat.py:112-123 | every author specifier's token is styled and counted; other keys are unchanged |
| CustomFormat.RenderDoc | exportsrv/formatter/customFormat.py:534-565 | an index past the documents is IndexError; a record ends with a newline |
| CustomFormat.ApplyAllUnknown | exportsrv/formatter/customFormat.py:542-564 | fields without a branch leave the record unchanged |
| CustomFormat.Records | exportsrv/formatter/customFormat.py:579-580 | a success holds n records, never more than the documents; asking for more records than documents fails |
| CustomFormat.RecordsRendered | exportsrv/formatter/customFormat.py:579-580 | for every k below n, record k of a successful run is document k rendered on its own |
| CustomFormat.Output | exportsrv/formatter/customFormat.py:568-585 | a status other than 0 gives no text and "Retrieved 0 abstracts" |
| CustomFormat.OutputLayout | exportsrv/formatter/customFormat.py:573-585 | the export is the header line, the numFound records in order, a newline and the footer |
| CustomFormat.OutputTooFew | exportsrv/formatter/customFormat.py:578-580 | numFound above the returned documents is an error |
| CustomFormat.CustomFormatter.constructor | exportsrv/formatter/customFormat.py:57-63 | the defaults: Unicode, width 80, no header or footer, no numbering, status −1 |
| CustomFormat.CustomFormatter.SetSetting | exportsrv/formatter/customFormat.py:218-226 | the settings become the directive's update, or ValueError; nothing else changes |
| CustomFormat.CustomFormatter.ApplyDirective | exportsrv/formatter/customFormat.py:214-226 | one directive cut and applied in place |
| CustomFormat.CustomFormatter.ApplyNext | exportsrv/formatter/customFormat.py:214-226 | one more directive extends the applied prefix of the pass, or fails with ValueError, and then the whole pass fails |
| CustomFormat.CustomFormatter.ApplyDirectives | exportsrv/formatter/customFormat.py:213-226 | all matches of one pattern applied in place; the first error stops |
| CustomFormat.CustomFormatter.ParseCommand | exportsrv/formatter/customFormat.py:205-226 | the settings become both passes' result, or ValueError |
| CustomFormat.CustomFormatter.ParseEnumeration | exportsrv/formatter/customFormat.py:192-202 | the settings become the enumeration rewrite of the old ones |
| CustomFormat.CustomFormatter.RecordSpecs | exportsrv/formatter/customFormat.py:238-239 | the parsed specifiers are those of the template; settings unchanged |
| CustomFormat.CustomFormatter.Parse | exportsrv/formatter/customFormat.py:229-239 | settings and specifiers are the compilation's; a ValueError leaves no specifiers |
| CustomFormat.CustomFormatter.Create | exportsrv/formatter/customFormat.py:52-64 | a formatter exists exactly when the template compiles, holding its settings and specifiers |
| CustomFormat.CustomFormatter.GetSolrFields | exportsrv/formatter/customFormat.py:67-83 | the loop yields the field list |
| CustomFormat.CustomFormatter.CountAuthors | exportsrv/formatter/customFormat.py:86-97 | the loop yields the per-document author counts |
| CustomFormat.CustomFormatter.SetJsonFromSolr | exportsrv/formatter/customFormat.py:100-123 | keeps the answer and its status; styles and counts every author specifier; TypeError only when there are author specifiers and a count fails |
| CustomFormat.CustomFormatter.GetDoc | exportsrv/formatter/customFormat.py:534-565 | the loop yields the rendered record |
| CustomFormat.CustomFormatter.GetRecords | exportsrv/formatter/customFormat.py:579-580 | the loop yields the first n records |
| CustomFormat.CustomFormatter.Get | exportsrv/formatter/customFormat.py:568-585 | the message and export text |
| FieldedFormat.KindName | exportsrv/formatter/fieldedFormat.py:66-114 | ADS's type table is empty; every other format gives each kind of document a non-empty name |
| FieldedFormat.DocTypeEmpty | exportsrv/formatter/fieldedFormat.py:66-115 | the type is empty exactly for ADS or an unknown Solr type |
| FieldedFormat.DocTypeOf | exportsrv/formatter/fieldedFormat.py:396-397 | a list as document type is a TypeError (unhashable key) |
| FieldedFormat.AddInText | exportsrv/formatter/fieldedFormat.py:374-385 | a line `tag value` exactly when the value is not empty |
| FieldedFormat.AddIn | exportsrv/formatter/fieldedFormat.py:374-385 | a number is a TypeError (`str + int`), a list gives no line, a text its line |
| FieldedFormat.DateOf | exportsrv/formatter/fieldedFormat.py:398-399 | a text is formatted in the format's layout; other values are TypeError |
| FieldedFormat.SlashedDate | exportsrv/formatter/fieldedFormat.py:118-124 | ProCite/Refman/RefWorks dates are `YYYY/MM/D` |
| FieldedFormat.MissingDate | exportsrv/formatter/fieldedFormat.py:120 | a document without a date is a ValueError |
| FieldedFormat.OneLineJoined | exportsrv/formatter/fieldedFormat.py:185-193 | the one-line layout wraps the tag and the items joined by the separator |
| FieldedFormat.TaggedLinesJoined | exportsrv/formatter/fieldedFormat.py:198-205 | one `tag item` line per item, in order |
| FieldedFormat.AuthorLines | exportsrv/formatter/fieldedFormat.py:173-207 | no author field gives no lines |
| FieldedFormat.Counter | exportsrv/formatter/fieldedFormat.py:222 | each counter is two capital letters |
| FieldedFormat.CounterOrder | exportsrv/formatter/fieldedFormat.py:222 | counters run in alphabetical order, so they are distinct |
| FieldedFormat.AffLines | exportsrv/formatter/fieldedFormat.py:210-239 | a document without `aff` gives no affiliation line |
| FieldedFormat.AffLinesJoined | exportsrv/formatter/fieldedFormat.py:225-239 | the affiliations are `<counter>(<aff>)` joined by `, ` behind the tag |
| FieldedFormat.KeywordLines | exportsrv/formatter/fieldedFormat.py:324-356 | no keyword field, or MEDLARS, gives nothing |
| FieldedFormat.Len | exportsrv/formatter/fieldedFormat.py:307 | `len` of a number is a TypeError |
| FieldedFormat.LinksDataUnknown | exportsrv/formatter/fieldedFormat.py:266-276 | entries of unknown types give no line |
| FieldedFormat.LinksDataFails | exportsrv/formatter/fieldedFormat.py:266-267 | an unreadable entry fails the whole block |
| FieldedFormat.NoLinks | exportsrv/formatter/fieldedFormat.py:298-321 | a document with zero counts and nothing to link gives no lines |
| FieldedFormat.MissingCountsLinked | exportsrv/formatter/fieldedFormat.py:302-317 | missing counts compare as `'' > 0`, so CITATIONS, Co-Reads and REFCIT lines appear |
| FieldedFormat.LinksOrder | exportsrv/formatter/fieldedFormat.py:298-321 | the block is the fixed lines in table order, then the data lines |
| FieldedFormat.PubRaw | exportsrv/formatter/fieldedFormat.py:359-371 | a number fails; the text is cleaned only when it holds both `<` and `>` |
| FieldedFormat.EndRecordLine | exportsrv/formatter/fieldedFormat.py:410-411 | the end-of-record tag always gives `tag  ` and a newline |
| FieldedFormat.AbsentKeyNoLine | exportsrv/formatter/fieldedFormat.py:416-417 | a plain tag whose key the document lacks gives no line |
| FieldedFormat.UrlLine | exportsrv/formatter/fieldedFormat.py:408-409 | the URL line is always there: the path, `/` and the bibcode |
| FieldedFormat.DocFieldsInOrder | exportsrv/formatter/fieldedFormat.py:391-417 | the record is its tags' texts in table order |
| FieldedFormat.RenderDoc | exportsrv/formatter/fieldedFormat.py:388-419 | an index past the documents is IndexError; a record ends with a blank line |
| FieldedFormat.Records | exportsrv/formatter/fieldedFormat.py:434-435 | a success holds n records, never more than the documents; asking for more records than documents fails |
| FieldedFormat.RecordsRendered | exportsrv/formatter/fieldedFormat.py:434-435 | for every k below n, record k of a successful run is document k rendered on its own |
| FieldedFormat.Fielded | exportsrv/formatter/fieldedFormat.py:422-436 | a status other than 0 gives nothing |
| FieldedFormat.FieldedLayout | exportsrv/formatter/fieldedFormat.py:429-436 | the export is the retrieved banner then each record in order |
| FieldedFormat.FieldedFormatter.constructor | exportsrv/formatter/fieldedFormat.py:45-52 | status −1 unless the answer's header gives one |
| FieldedFormat.FieldedFormatter.AddAuthorList | exportsrv/formatter/fieldedFormat.py:173-207 | the loops yield the author block |
| FieldedFormat.FieldedFormatter.LabelAffiliations | exportsrv/formatter/fieldedFormat.py:230-234 | succeeds exactly up to 676 affiliations, each labelled and followed by `, `; else IndexError |
| FieldedFormat.FieldedFormatter.GetAffiliationList | exportsrv/formatter/fieldedFormat.py:210-239 | the loop yields the affiliation block |
| FieldedFormat.FieldedFormatter.AddKeywords | exportsrv/formatter/fieldedFormat.py:324-356 | the loops yield the keyword block |
| FieldedFormat.FieldedFormatter.AddLinksData | exportsrv/formatter/fieldedFormat.py:242-276 | the loop yields the data-link lines |
| FieldedFormat.FieldedFormatter.AddDocLinks | exportsrv/formatter/fieldedFormat.py:279-321 | the loop yields the link block |
| FieldedFormat.FieldedFormatter.GetDoc | exportsrv/formatter/fieldedFormat.py:388-419 | the loop yields the record |
| FieldedFormat.FieldedFormatter.GetRecords | exportsrv/formatter/fieldedFormat.py:433-435 | the banner followed by the first n records rendered in order, or the first failing record's error |
| FieldedFormat.FieldedFormatter.GetFielded | exportsrv/formatter/fieldedFormat.py:422-436 | the loop yields the export |
| Csl.Titled | exportsrv/formatter/csl.py:72-86 | the adjusted list has one record per input record |
| Csl.MacroTitles | exportsrv/formatter/csl.py:82-86 | AASTeX styles: a journal whose name without `The ` has a macro takes it, others keep their name; other keys unchanged |
| Csl.MnrasTitles | exportsrv/formatter/csl.py:75-81 | mnras: no abbreviation keeps the name; an abbreviation is used without surrounding dots |
| Csl.OtherStylesKeepTitles | exportsrv/formatter/csl.py:72-86 | other styles leave the records as they are |
| Csl.CslFormatter.constructor | exportsrv/formatter/csl.py:33-40 | the records are kept with their journal names adjusted for the style |
| Csl.CslFormatter.UpdateContainerTitle | exportsrv/formatter/csl.py:72-86 | the loop rewrites each record's journal name in place |
| Csl.IcarusAuthor | exportsrv/formatter/csl.py:95-98 | the only error of the record search is KeyError |
| Csl.UpdateAuthorEtal | exportsrv/formatter/csl.py:89-102 | only icarus can fail (KeyError); styles other than icarus and soph keep the author |
| Csl.IcarusNoMatch | exportsrv/formatter/csl.py:94-102 | icarus with no record whose locator is the bibcode keeps the author |
| Csl.IcarusFirstMatch | exportsrv/formatter/csl.py:94-98 | the first matching record's author count gives `, and <n−1> colleagues` for every ` et al.\` |
| Csl.IcarusMissingLocator | exportsrv/formatter/csl.py:96-97 | a record without `locator` before any match raises KeyError |
| Csl.SophEtal | exportsrv/formatter/csl.py:99-101 | soph: every `et al.` becomes `and, ...` |
| Csl.AddEmph | exportsrv/formatter/csl.py:105-112 | any style but soph, or any format but LaTeX, keeps the citation author |
| Csl.SophEmph | exportsrv/formatter/csl.py:109-111 | soph in LaTeX: every `et al.` becomes `\emph{et al.}` |
| Csl.CitaSplitFrom | exportsrv/formatter/csl.py:26 | the greedy author part is the longest one after which `\(?\d{4}` matches |
| Csl.TokenizeCita | exportsrv/formatter/csl.py:115-120 | the only error is IndexError, raised when the inner text has no year |
| Csl.CitaYearFollowsAuthor | exportsrv/formatter/csl.py:26 | the optional `(` is never consumed; the year is four digits right after the author text |
| Csl.CitaOf | exportsrv/formatter/csl.py:115-120 | `(<author> <year>)` gives the stripped author and the year, first and last characters dropped |
| Csl.TokenizeBiblio | exportsrv/formatter/csl.py:123-127 | the author is a digit-free prefix of the entry's first line; the only error is IndexError |
| Csl.BiblioOf | exportsrv/formatter/csl.py:123-127 | a digit-free author followed by a digit-led rest splits there, the rest right-stripped |
| Csl.BiblioWithoutDigit | exportsrv/formatter/csl.py:125-126 | an entry without digits is IndexError |
| Csl.SplitEntry | exportsrv/formatter/csl.py:132-140 | only tokenizing fails (IndexError), never for apsj |
| Csl.Adjust | exportsrv/formatter/csl.py:142-151 | only icarus can fail (KeyError); year and bibcode pass unchanged |
| Csl.Fill | exportsrv/formatter/csl.py:153-162 | a style without a template raises KeyError; the seven styles succeed |
| Csl.FormatOutput | exportsrv/formatter/csl.py:130-162 | the only errors are IndexError and KeyError |
| Csl.ApsjOutput | exportsrv/formatter/csl.py:132-137 | apsj prints the citation, then the entry with every occurrence of the citation removed |
| Csl.LatexAmpersand | exportsrv/formatter/csl.py:148-149 | in LaTeX the citation author is the Unicode one with every ` &` written ` \&` |
| Csl.SharedTemplate | exportsrv/formatter/csl.py:155-160 | icarus, aastex, aspc and aasj share one template |
| Csl.SophOmitsSpace | exportsrv/formatter/csl.py:156-157 | soph's template is icarus's without the space after the bibcode |
| Csl.MnrasCitaauthoryear | exportsrv/formatter/csl.py:154-155 | mnras writes `\protect\citaauthoryear{author}{year}` where icarus writes `author(year)` |
| Csl.AastexEntry | exportsrv/formatter/csl.py:130-162 | a one-line aastex citation and entry format as `\bibitem[author(year)]{bibcode} ` and the entry |

## Left out

- Foreign helpers are function parameters: `textwrap.fill`, `cgi.escape`, `encode_laTex`, `encode_laTex_author`, `html_to_laTex`, `decode('string_escape')`, `get_pub_abbreviation`, the base class's `generate_counter_id` and document-type lookup, and the `REGEX_PUB_RAW` substitutions (a dictionary whose iteration order Python 2 does not fix).
- `exportsrv/formatter/format.py` (the base class) is not part of this model. The custom formatter's `get_num_docs` is taken to be the fielded formatter's (fieldedFormat.py:59-63).
- `exportsrv/formatter/strftime.py` is not part of this model. The custom `%D` and `%Y` are written as the `%m/%Y` and `%Y` texts they give for years from 1900.
- Flask configuration (`EXPORT_SERVICE_FROM_BBB_URL`, `EXPORT_SERVICE_BBB_PATH`, the AASTeX macro table) is passed in as values. The macro list is a map, so the rule that a later duplicate pair wins is not modelled.
- citeproc and `CSLJson`. This covers author styling in `set_json_from_solr` (a `style` parameter), the bibliography building and citation registration in `CSL.__init__` (csl.py:42-69), and `CSL.get` (csl.py:165-185). The citation and bibliography strings `__format_output` receives are its inputs.
- `ast.literal_eval` of `links_data` entries is a parameter giving each entry's type or a failure.
- The `count` and `linksType` bookkeeping in fieldedFormat.py:264-273 has no effect on the output and is not modelled.
- Class-level lists and dictionaries shared across instances (customFormat.py:47-50, csl.py:29-30) are per-instance state.
- Python 2's `str`/`unicode` distinction: texts are sequences of characters, with no encoding or decoding.
- `strptime` is modelled for the fixed `YYYY-MM-DDTHH:MM:SSZ` shape with ASCII digits. Month names are the English locale's.
- Csl.CslItem: a record without `container-title` or `author` would raise KeyError. Records here always have both; only a missing `locator` is modelled.
- CustomAuthors.ShortenEtAlMany: stated for lists holding at least n authors' pieces. On a shorter list Python's slices come back short, and that case is not described.
- A value of the wrong type in a field read as text is reported as TypeError whatever Python raises. For example, `textwrap.fill` of a list raises AttributeError in Python.
- CustomFields.CitationText: a list in `citation_count` is reported as TypeError, where Python's `str()` prints the list. Solr gives this field as a number, and the printed form of a list is not modelled.
- The foreign helpers have no properties assumed in general. Only where a lemma needs one does it say so in its `requires`. `Csl.ApsjOutput` assumes `html_to_laTex("") == ""`. `Csl.AastexEntry` assumes `html_to_laTex` changes nothing. `CustomFields.AffiliationsJoined` assumes `generate_counter_id` gives at least one label per affiliation.
- CustomFormat.CustomFormatter.Parse: on ValueError the contract says only that no specifiers are recorded. It does not say which settings the directives before the failing one already changed.
