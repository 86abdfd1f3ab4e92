/**
 * The retrieval node of the chat graph (`retrieve(query_func)` and the
 * `retrieve_node(state)` it returns): it reads the question from the graph
 * state, asks the query function for documents and joins their texts into the
 * context the answer is grounded in.
 */
module ChatBot {
  import opened Outcomes
  import opened Text
  import opened PyValues

  /** What goes between two documents' texts in the context. */
  const Separator := "\n\n---\n\n"

  /**
   * One item the query function returns: a document (it has `page_content`),
   * or any other object, given by what `str()` makes of it.
   */
  datatype Retrieved =
    | Document(pageContent: string, metadata: Dict<string>)
    | Other(shown: string)

  /** `str(d)` of a document is the document class's own rendering, which this model takes as given. */
  type DocumentStr = (string, Dict<string>) -> string

  /** The query function: the vector-store lookup, given the question. */
  type Query = Json -> seq<Retrieved>

  /** Reading `page_content` of an object that has none raises; `index` is its place in the result. */
  datatype NodeError = NoPageContent(index: nat)

  /** `state.get("question", "")`, with a `None` state read as an empty one. */
  function Question(state: Option<Dict<Json>>): Json {
    Get(state.GetOr([]), "question").GetOr(JString(""))
  }

  /** `str(d)`. */
  function Str(docStr: DocumentStr, d: Retrieved): string {
    match d
    case Document(content, metadata) => docStr(content, metadata)
    case Other(shown) => shown
  }

  /** `[d.page_content for d in docs]`: fails at the first object without `page_content`. */
  function PageContents(docs: seq<Retrieved>): (r: Result<seq<string>, NodeError>)
    ensures r.Ok? <==> forall i :: 0 <= i < |docs| ==> docs[i].Document?
    ensures r.Ok? ==> |r.value| == |docs| && forall i :: 0 <= i < |docs| ==> r.value[i] == docs[i].pageContent
    ensures r.Err? ==> var i := r.error.index;
      i < |docs| && docs[i].Other? && forall j :: 0 <= j < i ==> docs[j].Document?
  {
    if docs == [] then Ok([])
    else if docs[0].Other? then Err(NoPageContent(0))
    else
      match PageContents(docs[1..])
      case Ok(rest) => Ok([docs[0].pageContent] + rest)
      case Err(NoPageContent(i)) => Err(NoPageContent(i + 1))
  }

  /** The texts of the documents: `page_content` when the first one has it, `str(d)` otherwise. */
  function Texts(docStr: DocumentStr, docs: seq<Retrieved>): (r: Result<seq<string>, NodeError>)
    requires docs != []
    ensures r.Ok? ==> |r.value| == |docs|
    ensures docs[0].Other? ==> r.Ok? && forall i :: 0 <= i < |docs| ==> r.value[i] == Str(docStr, docs[i])
    ensures r.Err? ==> docs[0].Document? && 0 < r.error.index < |docs| && docs[r.error.index].Other?
  {
    if docs[0].Document? then PageContents(docs)
    else Ok(seq(|docs|, i requires 0 <= i < |docs| => Str(docStr, docs[i])))
  }

  /** The node's answer: a dict whose only key is `context`. */
  function Context(text: string): map<string, string> {
    map["context" := text]
  }

  /** `retrieve(query)(state)`. */
  function RetrieveNode(query: Query, docStr: DocumentStr, state: Option<Dict<Json>>): (r: Result<map<string, string>, NodeError>)
    ensures r.Ok? ==> r.value.Keys == {"context"}
    ensures !Truthy(Question(state)) ==> r == Ok(Context(""))
    ensures Truthy(Question(state)) && query(Question(state)) == [] ==> r == Ok(Context(""))
    ensures r.Err? ==> var docs := query(Question(state));
      var i := r.error.index;
      && Truthy(Question(state)) && docs != [] && docs[0].Document?
      && i < |docs| && docs[i].Other? && forall j :: 0 <= j < i ==> docs[j].Document?
  {
    var question := Question(state);
    if !Truthy(question) then Ok(Context(""))
    else
      var docs := query(question);
      if docs == [] then Ok(Context(""))
      else
        match Texts(docStr, docs)
        case Err(e) => Err(e)
        case Ok(texts) => Ok(Context(Join(texts, Separator)))
  }

  /** A `None` state is read as an empty one. */
  lemma NoneStateIsEmpty(query: Query, docStr: DocumentStr)
    ensures RetrieveNode(query, docStr, None) == RetrieveNode(query, docStr, Some([]))
    ensures RetrieveNode(query, docStr, None) == Ok(Context(""))
  {
    assert Question(None) == JString("");
  }

  /** Without a question the query function is not consulted: any two give the same answer. */
  lemma NoQuestionIgnoresQuery(q1: Query, q2: Query, docStr: DocumentStr, state: Option<Dict<Json>>)
    requires !Truthy(Question(state))
    ensures RetrieveNode(q1, docStr, state) == RetrieveNode(q2, docStr, state)
  {
  }

  /**
   * Whether `page_content` is read is decided by the first document alone: when it
   * has one, the node succeeds exactly when every document has one.
   */
  lemma FirstDocumentDecides(query: Query, docStr: DocumentStr, state: Option<Dict<Json>>)
    requires Truthy(Question(state)) && query(Question(state)) != []
    ensures var docs := query(Question(state));
      docs[0].Other? ==> RetrieveNode(query, docStr, state).Ok?
    ensures var docs := query(Question(state));
      docs[0].Document? ==> (RetrieveNode(query, docStr, state).Ok? <==> forall i :: 0 <= i < |docs| ==> docs[i].Document?)
  {
  }

  /**
   * The context of a successful lookup holds the documents' texts in result
   * order, each followed by the separator but the last, and nothing else.
   */
  lemma ContextInResultOrder(query: Query, docStr: DocumentStr, state: Option<Dict<Json>>)
    requires Truthy(Question(state)) && query(Question(state)) != []
    requires RetrieveNode(query, docStr, state).Ok?
    ensures var docs := query(Question(state));
      var texts := Texts(docStr, docs).value;
      && |texts| == |docs|
      && (forall i :: 0 <= i < |docs| ==> texts[i] == if docs[0].Document? then docs[i].pageContent else Str(docStr, docs[i]))
      && Interleaves(RetrieveNode(query, docStr, state).value["context"], texts, Separator)
  {
    JoinInterleaves(Texts(docStr, query(Question(state))).value, Separator);
  }
}
