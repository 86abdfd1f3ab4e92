/**
 * The wiki generator's pipeline (`generate_wiki_from_repo`) and its cache: the
 * owner and repository taken from the URL, the cache file name, the short cut on
 * a cache hit, the per-page loop that fills the page map, and the record that is
 * cached and indexed for the chatbot.
 *
 * Cloning, the file tree, the README, the XML parsers, the vector index's
 * retriever and the language models are parameters (`Services`); the cache files
 * and the index directories are the state the pipeline changes.
 */
module WikiGenerator {
  import opened Outcomes
  import opened Text
  import opened PyValues
  import opened Documents
  import opened RagChatbot
  import opened RagUtils
  import opened Prompts
  import opened WikiStructure
  import opened WikiMarkup

  /** The model every cache key and index directory is named after (`model_id`). */
  const ModelId := "Qwen/Qwen3-14B"

  /** The directory the cache files live in. */
  const CacheDir := ".wiki_cache"

  // ---------------------------------------------------------------------------
  // Names derived from the repository and the model
  // ---------------------------------------------------------------------------

  /** `model_id.replace("/", "_")`: the model's name with no path separator left. */
  function SafeModel(modelId: string): (r: string)
    ensures |r| == |modelId| && '/' !in r
    ensures forall i :: 0 <= i < |modelId| ==> r[i] == (if modelId[i] == '/' then '_' else modelId[i])
  {
    ReplaceChar(modelId, '/', '_')
  }

  /** The cache file's own name. */
  function CacheName(repo: string, modelId: string): string {
    repo + "__" + SafeModel(modelId) + ".json"
  }

  /** `get_cache_path(repo, model_id)`: `os.path.join` keeps a name that is already absolute. */
  function CachePath(repo: string, modelId: string): (r: string)
    ensures EndsWith(r, CacheName(repo, modelId))
    ensures repo == [] || repo[0] != '/' ==> |CacheDir| + 1 <= |r| && r[..|CacheDir| + 1] == CacheDir + "/"
    ensures repo != [] && repo[0] == '/' ==> r == CacheName(repo, modelId)
  {
    var name := CacheName(repo, modelId);
    if name != [] && name[0] == '/' then name else CacheDir + "/" + name
  }

  /**
   * For a repository name without a separator (as every name taken from a URL is)
   * the path is `.wiki_cache/<repo>__<model>.json`, and the model part holds no `/`.
   */
  lemma CachePathShape(repo: string, modelId: string)
    requires '/' !in repo
    ensures CachePath(repo, modelId) == ".wiki_cache/" + repo + "__" + SafeModel(modelId) + ".json"
    ensures '/' !in SafeModel(modelId)
  {
    if repo == [] {
      assert CacheName(repo, modelId)[0] == '_';
    } else {
      assert CacheName(repo, modelId)[0] == repo[0];
    }
  }

  /** Two repositories never share a cache file for the same model. */
  lemma CachePathInjective(repo1: string, repo2: string, modelId: string)
    requires '/' !in repo1 && '/' !in repo2
    requires CachePath(repo1, modelId) == CachePath(repo2, modelId)
    ensures repo1 == repo2
  {
    CachePathShape(repo1, modelId);
    CachePathShape(repo2, modelId);
    var p1 := ".wiki_cache/" + repo1 + "__" + SafeModel(modelId) + ".json";
    var p2 := ".wiki_cache/" + repo2 + "__" + SafeModel(modelId) + ".json";
    assert |repo1| == |repo2|;
    assert p1[12..12 + |repo1|] == repo1;
    assert p2[12..12 + |repo2|] == repo2;
  }

  /** The directory of the code index (`./repo_index_<repo>__<model>`). */
  function IndexDir(repo: string): (r: string)
    ensures |r| >= 13 && r[..13] == "./repo_index_" && OccursAt(r, repo, 13)
    ensures '/' !in repo ==> '/' !in r[2..]
  {
    var r := "./repo_index_" + repo + "__" + SafeModel(ModelId);
    assert r[2..] == "repo_index_" + repo + "__" + SafeModel(ModelId);
    r
  }

  /** The directory of the chatbot's index over the wiki record. */
  function ChatbotIndexDir(repo: string): (r: string)
    ensures |r| >= 13 && r[..13] == "./repo_index_" && OccursAt(r, repo, 13) && EndsWith(r, "_chatbot")
    ensures '/' !in repo ==> '/' !in r[2..]
  {
    var d := IndexDir(repo);
    var r := d + "_chatbot";
    assert r[2..] == d[2..] + "_chatbot";
    assert r[..|d|] == d;
    r
  }

  /** The code index and the chatbot index never share a directory. */
  lemma IndexDirsDistinct(repo1: string, repo2: string)
    ensures IndexDir(repo1) != ChatbotIndexDir(repo2)
  {
    var a := IndexDir(repo1);
    var b := ChatbotIndexDir(repo2);
    assert ModelId[13] == 'B';
    assert a[|a| - 1] == SafeModel(ModelId)[13] == 'B';
    assert b[|b| - 1] == 't';
  }

  // ---------------------------------------------------------------------------
  // The repository URL
  // ---------------------------------------------------------------------------

  /**
   * `repo_url.rstrip("/").split("/")[-2:]` unpacked into `owner, repo`; None
   * where the unpacking raises because the split gave a single piece.
   */
  function OwnerRepo(url: string): (r: Option<(string, string)>)
    ensures r.None? <==> '/' !in RStripChar(url, '/')
    ensures r.Some? ==> '/' !in r.value.0 && '/' !in r.value.1
  {
    var parts := Split(RStripChar(url, '/'), '/');
    SplitSingle(RStripChar(url, '/'), '/');
    if |parts| < 2 then None else Some((parts[|parts| - 2], parts[|parts| - 1]))
  }

  /**
   * The owner and the repository are the last two components of the URL, in that
   * order: together they end it, and the owner starts the URL or follows a `/`.
   */
  lemma OwnerRepoEnds(url: string)
    requires OwnerRepo(url).Some?
    ensures var (owner, repo) := OwnerRepo(url).value;
      EndsWith(RStripChar(url, '/'), owner + "/" + repo)
    ensures var (owner, repo) := OwnerRepo(url).value;
      EndsWithPieces(RStripChar(url, '/'), owner, repo, '/')
  {
    var s := RStripChar(url, '/');
    var p := Split(s, '/');
    assert OwnerRepo(url).value == (p[|p| - 2], p[|p| - 1]);
    SplitLastTwo(s, '/');
    assert p[|p| - 2] + "/" + p[|p| - 1] == p[|p| - 2] + ['/'] + p[|p| - 1];
  }





  // ---------------------------------------------------------------------------
  // The cache
  // ---------------------------------------------------------------------------

  /** `load_from_cache(repo, model_id)` on the cache files `files`: `{}` when the file is missing. */
  function Cached(files: map<string, Dict<Json>>, repo: string, modelId: string): Dict<Json> {
    if CachePath(repo, modelId) in files then files[CachePath(repo, modelId)] else []
  }

  /** What was saved is what is loaded back. */
  lemma SaveThenLoad(files: map<string, Dict<Json>>, repo: string, modelId: string, data: Dict<Json>)
    ensures Cached(files[CachePath(repo, modelId) := data], repo, modelId) == data
  {
  }

  /** Saving one repository's record leaves every other repository's cache as it was. */
  lemma SaveKeepsOthers(files: map<string, Dict<Json>>, repo: string, other: string, modelId: string, data: Dict<Json>)
    requires '/' !in repo && '/' !in other && repo != other
    ensures Cached(files[CachePath(repo, modelId) := data], other, modelId) == Cached(files, other, modelId)
  {
    if CachePath(repo, modelId) == CachePath(other, modelId) {
      CachePathInjective(repo, other, modelId);
    }
  }

  /** The cache directory: one JSON file per path. */
  class WikiCache {
    var files: map<string, Dict<Json>>

    constructor(files: map<string, Dict<Json>>)
      ensures this.files == files
    {
      this.files := files;
    }

    /** `load_from_cache(repo, model_id)`. */
    method LoadFromCache(repo: string, modelId: string) returns (data: Dict<Json>)
      ensures data == Cached(files, repo, modelId)
      ensures CachePath(repo, modelId) !in files ==> data == []
    {
      var path := CachePath(repo, modelId);
      if path in files {
        data := files[path];
      } else {
        data := [];
      }
    }

    /** `save_to_cache(repo, model_id, data)`: the file is written whole, replacing any earlier one. */
    method SaveToCache(repo: string, modelId: string, data: Dict<Json>)
      modifies this
      ensures files == old(files)[CachePath(repo, modelId) := data]
    {
      files := files[CachePath(repo, modelId) := data];
    }
  }

  // ---------------------------------------------------------------------------
  // The page loop
  // ---------------------------------------------------------------------------

  /** A `<page>` element as the loop reads it: its `<title>` text, if any, and its file paths. */
  datatype PageEntry = PageEntry(title: Option<string>, filePaths: seq<string>)

  /** `(title or "").strip() or "Untitled"`. */
  function PageTitle(title: Option<string>): (t: string)
    ensures t != "" && IsTrimmed(t)
    ensures title.None? || Strip(title.value) == "" ==> t == "Untitled"
    ensures title.Some? && Strip(title.value) != "" ==> t == Strip(title.value)
  {
    var stripped := Strip(title.GetOr(""));
    if stripped == "" then "Untitled" else stripped
  }

  /** The query for the code index: `"Wiki Page: <title>. Relevant files: <paths joined by ', '>"`. */
  function PageQuery(title: string, filePaths: seq<string>): (q: string)
    ensures |q| == 29 + |title| + |Join(filePaths, ", ")|
    ensures q[..11] == "Wiki Page: "
    ensures OccursAt(q, title, 11)
    ensures EndsWith(q, ". Relevant files: " + Join(filePaths, ", "))
  {
    var q := "Wiki Page: " + title + ". Relevant files: " + Join(filePaths, ", ");
    assert q[11..11 + |title|] == title;
    EndsWithPrepend("Wiki Page: " + title, ". Relevant files: " + Join(filePaths, ", "), ". Relevant files: " + Join(filePaths, ", "));
    q
  }

  /** The texts of the retrieved chunks, in the order the retriever gave them. */
  function Contents(docs: seq<Doc>): (texts: seq<string>)
    ensures |texts| == |docs|
    ensures forall i :: 0 <= i < |docs| ==> texts[i] == docs[i].content
  {
    seq(|docs|, i requires 0 <= i < |docs| => docs[i].content)
  }

  /** `"\n\n".join(d.page_content for d in chunks)`. */
  function PageContext(docs: seq<Doc>): string {
    Join(Contents(docs), "\n\n")
  }

  /** The context holds every chunk's text, in order, with a blank line between each two. */
  lemma PageContextParts(docs: seq<Doc>)
    ensures docs == [] ==> PageContext(docs) == ""
    ensures docs != [] ==> Interleaves(PageContext(docs), Contents(docs), "\n\n")
  {
    if docs != [] {
      JoinInterleaves(Contents(docs), "\n\n");
    }
  }

  /**
   * The page model (`call_llm`, which samples): its answer may differ from call to
   * call, so it is given the call's number along with the prompt.
   */
  type PageModel = (nat, string) -> string

  /**
   * What the loop works with: the code index, its retriever, the page model, and
   * the name of the requested language as `build_page_content_prompt` looks it up
   * (`LangText(language)`, the same for every page).
   */
  datatype PageEnv = PageEnv(db: VectorStore, retriever: Retriever, pageModel: PageModel, langText: string)

  /** The prompt the loop sends for `page`. */
  function PagePromptFor(env: PageEnv, page: PageEntry): string {
    var title := PageTitle(page.title);
    var chunks := QueryVectorStore(env.retriever, env.db, PageQuery(title, page.filePaths), 5);
    PagePrompt(title, page.filePaths, env.langText, PageContext(chunks))
  }

  /** The page model's answer for `page`, asked as call number `n`. */
  function PageMarkdown(env: PageEnv, n: nat, page: PageEntry): string {
    env.pageModel(n, PagePromptFor(env, page))
  }

  /**
   * The page map after the loop has run over `pages`, where the page at index `i`
   * is answered by `answer(i + 1, pages[i])`: each answer stored under its page's title.
   */
  function FillPages(pages: seq<PageEntry>, answer: (nat, PageEntry) -> string): Dict<string>
    decreases |pages|
  {
    if pages == [] then []
    else
      var last := pages[|pages| - 1];
      Put(FillPages(pages[..|pages| - 1], answer), PageTitle(last.title), answer(|pages|, last))
  }

  /** The page model's answers, as the page map is filled with them. */
  function Answers(env: PageEnv): (nat, PageEntry) -> string {
    (n: nat, page: PageEntry) => PageMarkdown(env, n, page)
  }

  /** `pages_md` once the loop has run: every page answered by the page model. */
  function PagesMd(env: PageEnv, pages: seq<PageEntry>): Dict<string> {
    FillPages(pages, Answers(env))
  }

  /** The loop over the `<page>` elements: one query and one model call per page, in order. */
  method PageLoop(env: PageEnv, pages: seq<PageEntry>) returns (pagesMd: Dict<string>, count: nat)
    ensures count == |pages|
    ensures pagesMd == PagesMd(env, pages)
  {
    var answer := Answers(env);
    pagesMd := [];
    count := 0;
    for i := 0 to |pages|
      invariant count == i
      invariant pagesMd == FillPages(pages[..i], answer)
    {
      count := count + 1;
      var title, md := PageContent(env, pages[i], count);
      FillPagesSnoc(pages, answer, i);
      pagesMd := Put(pagesMd, title, md);
    }
    assert pages[..|pages|] == pages;
  }

  /** The body of the loop for one page, as call number `count`: its title and its markdown. */
  method PageContent(env: PageEnv, page: PageEntry, count: nat) returns (title: string, md: string)
    ensures title == PageTitle(page.title)
    ensures md == PageMarkdown(env, count, page)
  {
    title := PageTitle(page.title);
    var q := PageQuery(title, page.filePaths);
    var chunks := QueryVectorStore(env.retriever, env.db, q, 5);
    var context := PageContext(chunks);
    var contentPrompt := PagePrompt(title, page.filePaths, env.langText, context);
    md := env.pageModel(count, contentPrompt);
  }

  lemma FillPagesSnoc(pages: seq<PageEntry>, answer: (nat, PageEntry) -> string, i: nat)
    requires i < |pages|
    ensures FillPages(pages[..i + 1], answer) == Put(FillPages(pages[..i], answer), PageTitle(pages[i].title), answer(i + 1, pages[i]))
  {
    assert pages[..i + 1][..i] == pages[..i];
  }

  /** The page map never holds a title twice, and has at most one entry per page. */
  lemma {:induction false} FillPagesUnique(pages: seq<PageEntry>, answer: (nat, PageEntry) -> string)
    ensures UniqueKeys(FillPages(pages, answer))
    ensures |FillPages(pages, answer)| <= |pages|
    decreases |pages|
  {
    if pages != [] {
      var init := pages[..|pages| - 1];
      var last := pages[|pages| - 1];
      FillPagesUnique(init, answer);
      PutUnique(FillPages(init, answer), PageTitle(last.title), answer(|pages|, last));
    }
  }

  /** Every page's title is a key of the page map. */
  lemma {:induction false} FillPagesHasTitle(pages: seq<PageEntry>, answer: (nat, PageEntry) -> string, i: nat)
    requires i < |pages|
    ensures PageTitle(pages[i].title) in Keys(FillPages(pages, answer))
    decreases |pages|
  {
    var init := pages[..|pages| - 1];
    if i < |pages| - 1 {
      FillPagesHasTitle(init, answer, i);
      assert init[i] == pages[i];
    }
  }

  /** Every key of the page map is the title of some page. */
  lemma {:induction false} FillPagesOnlyTitles(pages: seq<PageEntry>, answer: (nat, PageEntry) -> string, t: string)
    requires t in Keys(FillPages(pages, answer))
    ensures exists i :: 0 <= i < |pages| && PageTitle(pages[i].title) == t
    decreases |pages|
  {
    var init := pages[..|pages| - 1];
    if t != PageTitle(pages[|pages| - 1].title) {
      FillPagesOnlyTitles(init, answer, t);
      var i :| 0 <= i < |init| && PageTitle(init[i].title) == t;
      assert pages[i] == init[i];
    }
  }

  /**
   * A title holds the answer for the last page carrying it: a later page with the
   * same title overwrites an earlier one.
   */
  lemma {:induction false} FillPagesLastWins(pages: seq<PageEntry>, answer: (nat, PageEntry) -> string, i: nat)
    requires i < |pages|
    requires forall j :: i < j < |pages| ==> PageTitle(pages[j].title) != PageTitle(pages[i].title)
    ensures Get(FillPages(pages, answer), PageTitle(pages[i].title)) == Some(answer(i + 1, pages[i]))
    decreases |pages|
  {
    var init := pages[..|pages| - 1];
    var last := pages[|pages| - 1];
    PutGet(FillPages(init, answer), PageTitle(last.title), answer(|pages|, last), PageTitle(pages[i].title));
    if i < |pages| - 1 {
      assert init[i] == pages[i];
      FillPagesLastWins(init, answer, i);
    }
  }

  /** A blank title counts as missing. */
  lemma BlankTitle()
    ensures PageTitle(Some(" ")) == "Untitled"
  {
    assert IsSpace(' ');
  }

  /** Two pages without a usable title share the one entry `Untitled`, which keeps the second page's answer. */
  lemma UntitledPagesCollide(first: seq<string>, second: seq<string>, answer: (nat, PageEntry) -> string)
    ensures var pages := [PageEntry(None, first), PageEntry(Some(" "), second)];
      FillPages(pages, answer) == [("Untitled", answer(2, pages[1]))]
  {
    var pages := [PageEntry(None, first), PageEntry(Some(" "), second)];
    BlankTitle();
    assert pages[..1] == [pages[0]] && pages[..1][..0] == [];
    assert FillPages(pages[..1], answer) == [("Untitled", answer(1, pages[0]))];
  }

  // ---------------------------------------------------------------------------
  // The record and the whole pipeline
  // ---------------------------------------------------------------------------

  /** The page map as JSON: each markdown text as a string. */
  function PagesJson(pagesMd: Dict<string>): (d: Dict<Json>)
    ensures |d| == |pagesMd|
    ensures forall i :: 0 <= i < |pagesMd| ==> d[i] == (pagesMd[i].0, JString(pagesMd[i].1))
  {
    seq(|pagesMd|, i requires 0 <= i < |pagesMd| => (pagesMd[i].0, JString(pagesMd[i].1)))
  }

  /** The record the pipeline returns and caches. */
  function WikiRecord(fileTree: string, readme: string, xml: string, pagesMd: Dict<string>): Dict<Json> {
    [("file_tree", JString(fileTree)), ("readme", JString(readme)), ("xml", JString(xml)), ("pages", JObject(PagesJson(pagesMd)))]
  }

  /** A fresh record is never empty, so the next call for the same repository is a cache hit. */
  lemma RecordIsHit(files: map<string, Dict<Json>>, repo: string, fileTree: string, readme: string, xml: string, pagesMd: Dict<string>)
    ensures Truthy(JObject(Cached(files[CachePath(repo, ModelId) := WikiRecord(fileTree, readme, xml, pagesMd)], repo, ModelId)))
  {
  }

  /** The record's text fields as `create_documents_from_json` reads them. */
  lemma RecordTextFields(fileTree: string, readme: string, xml: string, pagesMd: Dict<string>)
    ensures var record := WikiRecord(fileTree, readme, xml, pagesMd);
      && TextField(record, "file_tree") == Some(fileTree)
      && TextField(record, "xml") == Some(xml)
      && TextField(record, "readme") == Some(readme)
  {
    var record := WikiRecord(fileTree, readme, xml, pagesMd);
    var last := record[1..][1..];
    assert last == [("xml", JString(xml)), ("pages", JObject(PagesJson(pagesMd)))];
    assert Get<Json>(last, "xml") == Some(JString(xml));
    assert Get<Json>(record[1..], "xml") == Get<Json>(last, "xml");
  }

  /** The record's page map as `create_documents_from_json` reads it. */
  lemma RecordPages(fileTree: string, readme: string, xml: string, pagesMd: Dict<string>)
    ensures Pages(WikiRecord(fileTree, readme, xml, pagesMd)) == PagesJson(pagesMd)
  {
    var record := WikiRecord(fileTree, readme, xml, pagesMd);
    var last := record[1..][1..];
    assert last == [("xml", JString(xml)), ("pages", JObject(PagesJson(pagesMd)))];
    assert Get<Json>(last[1..], "pages") == Some(JObject(PagesJson(pagesMd)));
    assert Get<Json>(last, "pages") == Get<Json>(last[1..], "pages");
    assert Get<Json>(record[1..], "pages") == Get<Json>(last, "pages");
  }

  /** The record's top-level documents: the file tree, the XML and the README, in that order. */
  lemma RecordTopLevel(fileTree: string, readme: string, xml: string, pagesMd: Dict<string>)
    ensures TopLevelDocs(WikiRecord(fileTree, readme, xml, pagesMd), TopLevelKeys)
      == [Doc(fileTree, "file_tree"), Doc(xml, "xml"), Doc(readme, "readme")]
  {
    RecordTextFields(fileTree, readme, xml, pagesMd);
    TopLevelOfFields(WikiRecord(fileTree, readme, xml, pagesMd), fileTree, xml, readme);
  }

  /** A dict holding the three text fields gives their three documents, in key order. */
  lemma TopLevelOfFields(data: Dict<Json>, fileTree: string, xml: string, readme: string)
    requires TextField(data, "file_tree") == Some(fileTree)
    requires TextField(data, "xml") == Some(xml)
    requires TextField(data, "readme") == Some(readme)
    ensures TopLevelDocs(data, TopLevelKeys) == [Doc(fileTree, "file_tree"), Doc(xml, "xml"), Doc(readme, "readme")]
  {
    var keys := TopLevelKeys;
    assert keys[0] == "file_tree" && keys[1] == "xml" && keys[2] == "readme";
    ThreeTextFields(data, keys);
  }

  /** Three keys that each hold a string give one document each, in key order. */
  lemma ThreeTextFields(data: Dict<Json>, keys: seq<string>)
    requires |keys| == 3 && forall i :: 0 <= i < 3 ==> TextField(data, keys[i]).Some?
    ensures TopLevelDocs(data, keys) == seq(3, i requires 0 <= i < 3 => Doc(TextField(data, keys[i]).value, keys[i]))
  {
    var d := seq(3, i requires 0 <= i < 3 => Doc(TextField(data, keys[i]).value, keys[i]));
    assert TopLevelDocs(data, keys[..1]) == d[..1] by {
      assert keys[..1][..0] == [];
      assert keys[..1][0] == keys[0];
    }
    assert TopLevelDocs(data, keys[..2]) == d[..2] by {
      assert keys[..2][..1] == keys[..1];
      assert keys[..2][1] == keys[1];
      assert d[..2] == d[..1] + [d[1]];
    }
    assert keys[..2] == keys[..|keys| - 1];
    assert d == d[..2] + [d[2]];
  }




  /**
   * Indexing the record for the chatbot gives the file tree, the XML and the
   * README, in that order, then one document per page, named `pages/<title>`.
   */
  lemma RecordDocuments(fileTree: string, readme: string, xml: string, pagesMd: Dict<string>)
    ensures var docs := Flatten(WikiRecord(fileTree, readme, xml, pagesMd));
      && |docs| == 3 + |pagesMd|
      && docs[..3] == [Doc(fileTree, "file_tree"), Doc(xml, "xml"), Doc(readme, "readme")]
      && forall i :: 0 <= i < |pagesMd| ==> docs[3 + i] == Doc(pagesMd[i].1, PagePrefix + pagesMd[i].0)
  {
    RecordPages(fileTree, readme, xml, pagesMd);
    RecordTopLevel(fileTree, readme, xml, pagesMd);
    PageDocsAll(PagesJson(pagesMd), pagesMd);
  }

  lemma {:induction false} PageDocsAll(pages: Dict<Json>, pagesMd: Dict<string>)
    requires pages == PagesJson(pagesMd)
    ensures PageDocs(pages) == seq(|pagesMd|, i requires 0 <= i < |pagesMd| => Doc(pagesMd[i].1, PagePrefix + pagesMd[i].0))
    decreases |pages|
  {
    if pages != [] {
      var n := |pages|;
      assert pages[..n - 1] == PagesJson(pagesMd[..n - 1]);
      PageDocsAll(pages[..n - 1], pagesMd[..n - 1]);
    }
  }

  /** What cloning the repository yields: where it lives, its file tree, its README and its files. */
  datatype Checkout = Checkout(dir: string, fileTree: string, readme: string, walk: seq<WalkEntry>, load: Loader)

  /**
   * The outside world of the pipeline. `clone` is None where `git clone` fails;
   * `parse` is `ET.fromstring` followed by `findall(".//page")`, None where it
   * raises; `recover` is the recovering parser re-serialised, None where it
   * yields nothing.
   */
  datatype Services = Services(
    clone: string -> Option<Checkout>,
    structureModel: Model,
    parse: string -> Option<seq<PageEntry>>,
    recover: string -> Option<string>,
    splitter: Splitter,
    retriever: Retriever,
    pageModel: PageModel)

  /** Why the pipeline raises. */
  datatype GenerateError =
    | UnpackError          // the URL has no `/` left after stripping trailing ones
    | CloneFailed
    | Xml(error: XmlError) // `extract_xml` found no block
    | ParseFailed          // neither parser produced a tree

  /** The structure XML after repair, and its pages: the strict parse, else the recovered text parsed again. */
  function ParsedStructure(services: Services, xml: string): Result<(string, seq<PageEntry>), GenerateError> {
    match services.parse(xml)
    case Some(pages) => Ok((xml, pages))
    case None =>
      match services.recover(xml)
      case None => Err(ParseFailed)
      case Some(xml') =>
        match services.parse(xml')
        case Some(pages) => Ok((xml', pages))
        case None => Err(ParseFailed)
  }

  /**
   * The structure of the wiki for a checkout, in the language named `langText`:
   * the structure prompt, the structure loop's answer, the block extracted from it,
   * repaired, and parsed.
   */
  function StructureOf(services: Services, checkout: Checkout, owner: string, repo: string, langText: string, comprehensive: bool)
    : Result<(string, seq<PageEntry>), GenerateError>
  {
    var prompt := StructurePrompt(checkout.fileTree, checkout.readme, owner, repo, langText, comprehensive);
    var raw := Strip(Output(Calls(services.structureModel, 4096, prompt, "", Budget(5))));
    match ExtractXml(raw)
    case Err(e) => Err(Xml(e))
    case Ok(xml) => ParsedStructure(services, Cleaned(xml))
  }

  /** The steps from the structure prompt to the parsed pages, with the parser fallback of the source. */
  method StructureXml(services: Services, checkout: Checkout, owner: string, repo: string, langText: string, comprehensive: bool)
    returns (r: Result<(string, seq<PageEntry>), GenerateError>)
    ensures r == StructureOf(services, checkout, owner, repo, langText, comprehensive)
  {
    var structurePrompt := StructurePrompt(checkout.fileTree, checkout.readme, owner, repo, langText, comprehensive);
    var raw := CallLlmStructure(services.structureModel, structurePrompt);
    var extracted := ExtractXml(raw);
    if extracted.Err? {
      return Err(Xml(extracted.error));
    }
    r := ParseStructure(services, extracted.value);
  }

  /** Repairing the extracted block and parsing it, strictly first and through the recovering parser after. */
  method ParseStructure(services: Services, extracted: string) returns (r: Result<(string, seq<PageEntry>), GenerateError>)
    ensures r == ParsedStructure(services, Cleaned(extracted))
  {
    var xmlText := CleanMalformedXml(extracted);
    var tree := services.parse(xmlText);
    if tree.None? {
      var recovered := services.recover(xmlText);
      if recovered.None? {
        return Err(ParseFailed);
      }
      xmlText := recovered.value;
      tree := services.parse(xmlText);
      if tree.None? {
        return Err(ParseFailed);
      }
    }
    r := Ok((xmlText, tree.value));
  }

  /** What a run without a cache hit produces: the record, and the store directories once the code index exists. */
  datatype Fresh = Fresh(record: Dict<Json>, codeIndexes: map<string, seq<Doc>>)

  /** A run without a cache hit, from the store directories `indexes`. */
  function FreshWiki(services: Services, repoUrl: string, owner: string, repo: string, langText: string, comprehensive: bool,
                     indexes: map<string, seq<Doc>>): Result<Fresh, GenerateError>
  {
    match services.clone(repoUrl)
    case None => Err(CloneFailed)
    case Some(checkout) =>
      match StructureOf(services, checkout, owner, repo, langText, comprehensive)
      case Err(e) => Err(e)
      case Ok((xml, pages)) => Ok(FreshRecord(services, checkout, repo, langText, xml, pages, indexes))
  }

  /** Indexing the checkout's code, writing every page against that index, and assembling the record. */
  function FreshRecord(services: Services, checkout: Checkout, repo: string, langText: string, xml: string, pages: seq<PageEntry>,
                       indexes: map<string, seq<Doc>>): Fresh
  {
    var codeDocs := services.splitter(WalkDocs(checkout.dir, checkout.walk, checkout.load, IsSupported, |checkout.walk|));
    var codeIndexes := AfterCreate(indexes, codeDocs, IndexDir(repo));
    var db := VectorStore(IndexDir(repo), codeIndexes[IndexDir(repo)]);
    var pagesMd := PagesMd(PageEnv(db, services.retriever, services.pageModel, langText), pages);
    Fresh(WikiRecord(checkout.fileTree, checkout.readme, xml, pagesMd), codeIndexes)
  }

  /**
   * The outcome and the new state of a run without a cache hit: on failure nothing
   * changed; on success the chatbot index was built over the record, the record was
   * cached, and the record is returned with the chatbot index.
   */
  predicate FreshDone(outcome: Result<Fresh, GenerateError>, repo: string, splitter: Splitter,
                      files0: map<string, Dict<Json>>, indexes0: map<string, seq<Doc>>,
                      files: map<string, Dict<Json>>, indexes: map<string, seq<Doc>>,
                      r: Result<(Dict<Json>, VectorStore), GenerateError>)
  {
    match outcome
    case Err(e) => r == Err(e) && files == files0 && indexes == indexes0
    case Ok(f) =>
      var chat := ChatbotIndexDir(repo);
      && indexes == AfterCreate(f.codeIndexes, splitter(Flatten(f.record)), chat)
      && files == files0[CachePath(repo, ModelId) := f.record]
      && r == Ok((f.record, VectorStore(chat, indexes[chat])))
  }

  /** The code index, the page loop and the record of a run without a cache hit. */
  method BuildRecord(services: Services, checkout: Checkout, repo: string, langText: string, xmlText: string, pages: seq<PageEntry>,
                     stores: StoreDirs)
    returns (result: Dict<Json>)
    modifies stores
    ensures Fresh(result, stores.indexes) == FreshRecord(services, checkout, repo, langText, xmlText, pages, old(stores.indexes))
  {
    var docs := CreateDocuments(checkout.dir, checkout.walk, checkout.load, services.splitter);
    var db := stores.CreateVectorStore(docs, IndexDir(repo));
    var pagesMd, count := PageLoop(PageEnv(db, services.retriever, services.pageModel, langText), pages);
    result := WikiRecord(checkout.fileTree, checkout.readme, xmlText, pagesMd);
  }

  /** The path of `generate_wiki_from_repo` taken when the cache has nothing for the repository. */
  method GenerateFresh(repoUrl: string, owner: string, repo: string, langText: string, comprehensive: bool,
                       cache: WikiCache, stores: StoreDirs, services: Services)
    returns (r: Result<(Dict<Json>, VectorStore), GenerateError>)
    modifies cache, stores
    ensures FreshDone(FreshWiki(services, repoUrl, owner, repo, langText, comprehensive, old(stores.indexes)),
                      repo, services.splitter, old(cache.files), old(stores.indexes), cache.files, stores.indexes, r)
  {
    var cloned := services.clone(repoUrl);
    if cloned.None? {
      return Err(CloneFailed);
    }
    var checkout := cloned.value;
    var structure := StructureXml(services, checkout, owner, repo, langText, comprehensive);
    if structure.Err? {
      return Err(structure.error);
    }
    var (xmlText, pages) := structure.value;
    var result := BuildRecord(services, checkout, repo, langText, xmlText, pages, stores);
    var doc := CreateDocumentsFromJson(result, services.splitter);
    var db := stores.CreateVectorStore(doc, ChatbotIndexDir(repo));
    cache.SaveToCache(repo, ModelId, result);
    r := Ok((result, db));
  }

  /**
   * The outcome and the new state of a run for `owner/repo`: a cached record is
   * returned as it is, with the chatbot index built over it; otherwise the wiki is
   * generated afresh.
   */
  predicate Served(services: Services, repoUrl: string, owner: string, repo: string, langText: string, comprehensive: bool,
                   files0: map<string, Dict<Json>>, indexes0: map<string, seq<Doc>>,
                   files: map<string, Dict<Json>>, indexes: map<string, seq<Doc>>,
                   r: Result<(Dict<Json>, VectorStore), GenerateError>)
  {
    var cached := Cached(files0, repo, ModelId);
    if Truthy(JObject(cached)) then
      var chat := ChatbotIndexDir(repo);
      && files == files0
      && indexes == AfterCreate(indexes0, services.splitter(Flatten(cached)), chat)
      && r == Ok((cached, VectorStore(chat, indexes[chat])))
    else
      FreshDone(FreshWiki(services, repoUrl, owner, repo, langText, comprehensive, indexes0),
                repo, services.splitter, files0, indexes0, files, indexes, r)
  }

  /** `generate_wiki_from_repo` once the URL has been split into `owner` and `repo`. */
  method Serve(repoUrl: string, owner: string, repo: string, langText: string, comprehensive: bool,
               cache: WikiCache, stores: StoreDirs, services: Services)
    returns (r: Result<(Dict<Json>, VectorStore), GenerateError>)
    modifies cache, stores
    ensures Served(services, repoUrl, owner, repo, langText, comprehensive,
                   old(cache.files), old(stores.indexes), cache.files, stores.indexes, r)
  {
    var cached := cache.LoadFromCache(repo, ModelId);
    if Truthy(JObject(cached)) {
      var doc := CreateDocumentsFromJson(cached, services.splitter);
      var db := stores.CreateVectorStore(doc, ChatbotIndexDir(repo));
      return Ok((cached, db));
    }
    r := GenerateFresh(repoUrl, owner, repo, langText, comprehensive, cache, stores, services);
  }

  /**
   * The outcome and the new state of `generate_wiki_from_repo`: a URL without an
   * owner part raises before anything happens.
   */
  predicate Generated(services: Services, repoUrl: string, langText: string, comprehensive: bool,
                      files0: map<string, Dict<Json>>, indexes0: map<string, seq<Doc>>,
                      files: map<string, Dict<Json>>, indexes: map<string, seq<Doc>>,
                      r: Result<(Dict<Json>, VectorStore), GenerateError>)
  {
    match OwnerRepo(repoUrl)
    case None => r == Err(UnpackError) && files == files0 && indexes == indexes0
    case Some((owner, repo)) => Served(services, repoUrl, owner, repo, langText, comprehensive, files0, indexes0, files, indexes, r)
  }

  /**
   * `generate_wiki_from_repo(repo_url, language, model_name, comprehensive)`. The
   * cache key and the index directories use `ModelId`; `model_name` is not read.
   */
  method GenerateWikiFromRepo(repoUrl: string, cache: WikiCache, stores: StoreDirs, services: Services,
                              language: string := "en", modelName: string := "Qwen/Qwen-14B", comprehensive: bool := true)
    returns (r: Result<(Dict<Json>, VectorStore), GenerateError>)
    modifies cache, stores
    ensures Generated(services, repoUrl, LangText(language), comprehensive,
                      old(cache.files), old(stores.indexes), cache.files, stores.indexes, r)
  {
    var parts := OwnerRepo(repoUrl);
    if parts.None? {
      return Err(UnpackError);
    }
    var (owner, repo) := parts.value;
    r := Serve(repoUrl, owner, repo, LangText(language), comprehensive, cache, stores, services);
  }
}
