/** Solr's answer as both formatters read it: the response header's status,
    the number of documents found, and the documents, each a map from field
    name to a text, a list of texts or a number. */
module SolrDoc {
  import opened Results
  import opened Text

  /** The shapes a Solr document field takes. */
  datatype Value = Str(s: string) | Strs(xs: seq<string>) | Num(n: int)

  type Doc = map<string, Value>

  /** `responseHeader.status` when the header is there and has one, the
      `numFound` count (0 without a `response`), and the documents. */
  datatype Response = Response(headerStatus: Option<int>, numFound: nat, docs: seq<Doc>)

  /** `a_doc.get(key, '')`. */
  function Get(doc: Doc, key: string): Value {
    if key in doc then doc[key] else Str("")
  }

  /** `''.join(v)`: a text joins its own characters back, a list its items;
      a number is not iterable. */
  function JoinValue(v: Value): (r: Result<string>)
    ensures r.Failure? <==> v.Num?
  {
    match v
    case Str(s) => Success(s)
    case Strs(xs) => Success(Concat(xs))
    case Num(_) => Failure(TypeError)
  }

  /** A value used where text is expected: a text, or an empty list (which
      only reaches the `len(value) > 0` test); a non-empty list or a number
      makes the substitution fail. */
  function StrOf(v: Value): (r: Result<string>)
    ensures r.Success? <==> v.Str? || v == Strs([])
  {
    match v
    case Str(s) => Success(s)
    case Strs(xs) => if xs == [] then Success("") else Failure(TypeError)
    case Num(_) => Failure(TypeError)
  }

  /** What `for x in v` visits: the characters of a text, the items of a
      list. */
  function Items(v: Value): (r: Result<seq<string>>)
    ensures r.Success? ==> |r.value| == (if v.Str? then |v.s| else if v.Strs? then |v.xs| else 0)
  {
    match v
    case Str(s) => Success(seq(|s|, i requires 0 <= i < |s| => [s[i]]))
    case Strs(xs) => Success(xs)
    case Num(_) => Failure(TypeError)
  }

  /** The status after reading a response: the header's, if it has one. */
  function NewStatus(status: int, r: Response): int {
    if r.headerStatus.Some? then r.headerStatus.value else status
  }

  /** `get_num_docs`: `numFound` when the status is 0, otherwise none. */
  function NumDocs(status: int, r: Response): (n: nat)
    ensures status != 0 ==> n == 0
  {
    if status == 0 then r.numFound else 0
  }
}
