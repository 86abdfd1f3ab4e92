/**
 * Turning a cached wiki record into documents for retrieval
 * (`create_documents_from_json`): one document per top-level text field, then
 * one per page, before the text splitter cuts them into chunks.
 */
module RagChatbot {
  import opened Outcomes
  import opened PyValues
  import opened Documents

  /** The top-level fields that become documents, in the order they are looked at. */
  const TopLevelKeys: seq<string> := ["file_tree", "xml", "readme"]

  /** What a page document's source starts with. */
  const PagePrefix := "pages/"

  /** The string stored under `key`, if there is one. */
  function TextField(data: Dict<Json>, key: string): Option<string> {
    match Get<Json>(data, key)
    case Some(JString(s)) => Some(s)
    case _ => None
  }

  /** The documents of the top-level fields `keys`: one for each whose value is a string, in order. */
  function TopLevelDocs(data: Dict<Json>, keys: seq<string>): (docs: seq<Doc>)
    ensures |docs| <= |keys|
    decreases |keys|
  {
    if keys == [] then []
    else
      var k := keys[|keys| - 1];
      TopLevelDocs(data, keys[..|keys| - 1]) + (if TextField(data, k).Some? then [Doc(TextField(data, k).value, k)] else [])
  }

  /** The documents of the pages: one for each page whose text is a string, in dict order. */
  function PageDocs(pages: Dict<Json>): (docs: seq<Doc>)
    ensures |docs| <= |pages|
    decreases |pages|
  {
    if pages == [] then []
    else
      var (key, text) := pages[|pages| - 1];
      PageDocs(pages[..|pages| - 1]) + (if text.JString? then [Doc(text.s, PagePrefix + key)] else [])
  }

  /** The pages, when `pages` is present and holds a dict. */
  function Pages(data: Dict<Json>): Dict<Json> {
    match Get<Json>(data, "pages")
    case Some(JObject(pages)) => pages
    case _ => []
  }

  /** The documents handed to the splitter. */
  function Flatten(data: Dict<Json>): seq<Doc> {
    TopLevelDocs(data, TopLevelKeys) + PageDocs(Pages(data))
  }

  /** `create_documents_from_json(data)`. */
  method CreateDocumentsFromJson(data: Dict<Json>, splitter: Splitter) returns (chunks: seq<Doc>)
    ensures chunks == splitter(Flatten(data))
  {
    var docs := TopLevelDocuments(data);
    var pagesValue := Get(data, "pages");
    if pagesValue.Some? && pagesValue.value.JObject? {
      var pageDocs := PageDocuments(pagesValue.value.fields);
      docs := docs + pageDocs;
    } else {
      assert docs + PageDocs([]) == docs;
    }
    chunks := splitter(docs);
  }

  /** The first loop: a document for each of `file_tree`, `xml` and `readme` that holds a string. */
  method TopLevelDocuments(data: Dict<Json>) returns (docs: seq<Doc>)
    ensures docs == TopLevelDocs(data, TopLevelKeys)
  {
    docs := [];
    for i := 0 to |TopLevelKeys|
      invariant docs == TopLevelDocs(data, TopLevelKeys[..i])
    {
      var key := TopLevelKeys[i];
      TopLevelDocsSnoc(data, TopLevelKeys, i);
      var field := TextField(data, key);
      if field.Some? {
        docs := docs + [Doc(field.value, key)];
      }
    }
    assert TopLevelKeys[..|TopLevelKeys|] == TopLevelKeys;
  }

  /** The second loop: a document for each page whose text is a string. */
  method PageDocuments(pages: Dict<Json>) returns (docs: seq<Doc>)
    ensures docs == PageDocs(pages)
  {
    docs := [];
    for i := 0 to |pages|
      invariant docs == PageDocs(pages[..i])
    {
      var (pageKey, pageText) := pages[i];
      PageDocsSnoc(pages, i);
      if pageText.JString? {
        docs := docs + [Doc(pageText.s, PagePrefix + pageKey)];
      }
    }
    assert pages[..|pages|] == pages;
  }

  lemma TopLevelDocsSnoc(data: Dict<Json>, keys: seq<string>, i: nat)
    requires i < |keys|
    ensures TopLevelDocs(data, keys[..i + 1]) == TopLevelDocs(data, keys[..i])
      + (if TextField(data, keys[i]).Some? then [Doc(TextField(data, keys[i]).value, keys[i])] else [])
  {
    assert keys[..i + 1][..i] == keys[..i];
  }

  lemma PageDocsSnoc(pages: Dict<Json>, i: nat)
    requires i < |pages|
    ensures PageDocs(pages[..i + 1]) == PageDocs(pages[..i])
      + (if pages[i].1.JString? then [Doc(pages[i].1.s, PagePrefix + pages[i].0)] else [])
  {
    assert pages[..i + 1][..i] == pages[..i];
  }

  predicate IsPageSource(source: string) {
    |source| >= |PagePrefix| && source[..|PagePrefix|] == PagePrefix
  }

  /**
   * Top-level documents: a field yields a document exactly when its value is a
   * string, with the field's name as its source; none of them looks like a page.
   */
  lemma {:induction false} TopLevelDocsSpec(data: Dict<Json>, keys: seq<string>)
    ensures forall d :: d in TopLevelDocs(data, keys) <==> d.source in keys && TextField(data, d.source) == Some(d.content)
    decreases |keys|
  {
    if keys != [] {
      var init := keys[..|keys| - 1];
      var k := keys[|keys| - 1];
      TopLevelDocsSpec(data, init);
      assert keys == init + [k];
    }
  }

  /** `x` comes before `y` in `keys`. */
  predicate Before(keys: seq<string>, x: string, y: string) {
    exists a, b :: 0 <= a < b < |keys| && keys[a] == x && keys[b] == y
  }

  /** The documents' sources appear in `keys` in the same order. */
  predicate InKeyOrder(docs: seq<Doc>, keys: seq<string>) {
    forall i, j :: 0 <= i < j < |docs| ==> Before(keys, docs[i].source, docs[j].source)
  }

  /** Top-level documents keep the order of `keys`. */
  lemma {:induction false} TopLevelDocsOrder(data: Dict<Json>, keys: seq<string>)
    ensures InKeyOrder(TopLevelDocs(data, keys), keys)
    decreases |keys|
  {
    var docs := TopLevelDocs(data, keys);
    if keys != [] {
      var init := keys[..|keys| - 1];
      var k := keys[|keys| - 1];
      var before := TopLevelDocs(data, init);
      TopLevelDocsOrder(data, init);
      TopLevelDocsSpec(data, init);
      forall i, j | 0 <= i < j < |docs|
        ensures Before(keys, docs[i].source, docs[j].source)
      {
        assert docs[i] == before[i] && before[i] in before;
        if j < |before| {
          assert docs[j] == before[j];
          assert Before(init, before[i].source, before[j].source);
          var a, b :| 0 <= a < b < |init| && init[a] == before[i].source && init[b] == before[j].source;
          assert keys[a] == init[a] && keys[b] == init[b];
        } else {
          assert docs[j].source == k;
          var a :| 0 <= a < |init| && init[a] == before[i].source;
          assert keys[a] == init[a];
          assert keys[a] == docs[i].source && keys[|keys| - 1] == docs[j].source;
        }
      }
    }
  }

  /**
   * Page documents: one per page whose text is a string, with source
   * `pages/<key>`, in the order of the pages.
   */
  lemma {:induction false} PageDocsSpec(pages: Dict<Json>)
    ensures forall d :: d in PageDocs(pages) ==> IsPageSource(d.source)
    ensures forall d :: d in PageDocs(pages) <==> exists i :: 0 <= i < |pages| && pages[i].1 == JString(d.content) && d.source == PagePrefix + pages[i].0
    decreases |pages|
  {
    if pages != [] {
      var init := pages[..|pages| - 1];
      var (key, text) := pages[|pages| - 1];
      PageDocsSpec(init);
      assert (PagePrefix + key)[..|PagePrefix|] == PagePrefix;
      forall d
        ensures d in PageDocs(pages) <==> exists i :: 0 <= i < |pages| && pages[i].1 == JString(d.content) && d.source == PagePrefix + pages[i].0
      {
        if d in PageDocs(pages) {
          if d in PageDocs(init) {
            var i :| 0 <= i < |init| && init[i].1 == JString(d.content) && d.source == PagePrefix + init[i].0;
            assert pages[i] == init[i];
          } else {
            assert pages[|pages| - 1].1 == JString(d.content) && d.source == PagePrefix + pages[|pages| - 1].0;
          }
        }
        if exists i :: 0 <= i < |pages| && pages[i].1 == JString(d.content) && d.source == PagePrefix + pages[i].0 {
          var i :| 0 <= i < |pages| && pages[i].1 == JString(d.content) && d.source == PagePrefix + pages[i].0;
          if i < |init| {
            assert init[i] == pages[i];
          }
        }
      }
    }
  }

  /** Every top-level document's source is one of `keys`. */
  lemma {:induction false} TopLevelSources(data: Dict<Json>, keys: seq<string>)
    ensures forall i :: 0 <= i < |TopLevelDocs(data, keys)| ==> TopLevelDocs(data, keys)[i].source in keys
    decreases |keys|
  {
    if keys != [] {
      var init := keys[..|keys| - 1];
      TopLevelSources(data, init);
      assert forall x :: x in init ==> x in keys;
    }
  }

  /** Every page document's source starts with `pages/`. */
  lemma {:induction false} PageSources(pages: Dict<Json>)
    ensures forall i :: 0 <= i < |PageDocs(pages)| ==> IsPageSource(PageDocs(pages)[i].source)
    decreases |pages|
  {
    if pages != [] {
      PageSources(pages[..|pages| - 1]);
      var key := pages[|pages| - 1].0;
      assert (PagePrefix + key)[..|PagePrefix|] == PagePrefix;
    }
  }

  /**
   * The documents before splitting: first the top-level ones (at most three, none
   * from a page), then the pages' (at most one per page, all from a page).
   */
  lemma FlattenShape(data: Dict<Json>)
    ensures var docs := Flatten(data);
      var n := |TopLevelDocs(data, TopLevelKeys)|;
      && n <= 3 && |docs| <= 3 + |Pages(data)|
      && (forall i :: 0 <= i < n ==> docs[i].source in TopLevelKeys && !IsPageSource(docs[i].source))
      && (forall i :: n <= i < |docs| ==> IsPageSource(docs[i].source))
  {
    var top := TopLevelDocs(data, TopLevelKeys);
    var pageDocs := PageDocs(Pages(data));
    var docs := Flatten(data);
    assert forall k :: k in TopLevelKeys ==> !IsPageSource(k) by {
      assert "file_tree"[..6][0] == 'f' && "readme"[..6][0] == 'r';
    }
    TopLevelSources(data, TopLevelKeys);
    PageSources(Pages(data));
    assert forall i :: 0 <= i < |top| ==> docs[i] == top[i];
    assert forall i :: |top| <= i < |docs| ==> docs[i] == pageDocs[i - |top|];
  }
}
