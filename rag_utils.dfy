/**
 * Indexing a repository for retrieval (`create_documents`,
 * `create_vector_store`, `query_vector_store`): which files are read, how their
 * documents are cited, and when a vector store is built rather than reopened.
 */
module RagUtils {
  import opened Outcomes
  import opened Text
  import opened Documents

  /** The file endings that are indexed, in lower case. */
  const SupportedExts: seq<string> := [".py", ".js", ".ts", ".java", ".cpp", ".c", ".go", ".rb", ".php", ".md", ".json", ".yaml", ".yml"]

  /** `file.lower().endswith(SUPPORTED_EXTS)`. */
  predicate IsSupported(name: string) {
    exists e :: e in SupportedExts && EndsWith(Lower(name), e)
  }

  /** One directory the walk visits: its path relative to the repository, and its file names. */
  datatype WalkEntry = WalkEntry(dir: string, files: seq<string>)

  /** `os.path.join`, for the relative paths the walk produces ("" is the repository itself). */
  function PathJoin(a: string, b: string): string {
    if a == "" then b else a + "/" + b
  }

  /** The file loader: the texts of a file's documents, or None when loading raises. */
  type Loader = string -> Option<seq<string>>

  /**
   * The documents one file contributes: none when `accept` refuses its name or
   * its load fails; otherwise every loaded document, cited by its path relative
   * to the repository. `create_documents` accepts by `IsSupported`.
   */
  function FileDocs(repoDir: string, dir: string, file: string, load: Loader, accept: string -> bool): seq<Doc> {
    if !accept(file) then []
    else
      match load(PathJoin(repoDir, PathJoin(dir, file)))
      case None => []
      case Some(texts) => seq(|texts|, i requires 0 <= i < |texts| => Doc(texts[i], PathJoin(dir, file)))
  }

  /** The documents of the first `n` files of one directory. */
  function DirDocs(repoDir: string, e: WalkEntry, load: Loader, accept: string -> bool, n: nat): seq<Doc>
    requires n <= |e.files|
  {
    if n == 0 then [] else DirDocs(repoDir, e, load, accept, n - 1) + FileDocs(repoDir, e.dir, e.files[n - 1], load, accept)
  }

  /** The documents of the first `n` directories of the walk. */
  function WalkDocs(repoDir: string, walk: seq<WalkEntry>, load: Loader, accept: string -> bool, n: nat): seq<Doc>
    requires n <= |walk|
  {
    if n == 0 then [] else WalkDocs(repoDir, walk, load, accept, n - 1) + DirDocs(repoDir, walk[n - 1], load, accept, |walk[n - 1].files|)
  }

  /** `create_documents(repo_dir)`, with the walk of `repo_dir` given as `walk`. */
  method CreateDocuments(repoDir: string, walk: seq<WalkEntry>, load: Loader, splitter: Splitter) returns (chunks: seq<Doc>)
    ensures chunks == splitter(WalkDocs(repoDir, walk, load, IsSupported, |walk|))
  {
    var docs: seq<Doc> := [];
    for j := 0 to |walk|
      invariant docs == WalkDocs(repoDir, walk, load, IsSupported, j)
    {
      var found := DirectoryDocuments(repoDir, walk[j], load, IsSupported);
      docs := docs + found;
    }
    chunks := splitter(docs);
  }

  /** The loop over the files of one directory, keeping those whose name `accept`s. */
  method DirectoryDocuments(repoDir: string, e: WalkEntry, load: Loader, accept: string -> bool) returns (docs: seq<Doc>)
    ensures docs == DirDocs(repoDir, e, load, accept, |e.files|)
  {
    docs := [];
    for f := 0 to |e.files|
      invariant docs == DirDocs(repoDir, e, load, accept, f)
    {
      var file := e.files[f];
      if accept(file) {
        var fpath := PathJoin(repoDir, PathJoin(e.dir, file));
        match load(fpath)
        case None =>
        case Some(fileDocs) =>
          var loaded := FileTexts(fileDocs, PathJoin(e.dir, file));
          docs := docs + loaded;
      }
    }
  }

  /** The innermost loop: one document per loaded text, cited by `source`. */
  method FileTexts(texts: seq<string>, source: string) returns (docs: seq<Doc>)
    ensures docs == seq(|texts|, i requires 0 <= i < |texts| => Doc(texts[i], source))
  {
    docs := [];
    for k := 0 to |texts|
      invariant docs == seq(k, i requires 0 <= i < k => Doc(texts[i], source))
    {
      docs := docs + [Doc(texts[k], source)];
    }
  }

  /** `d` came from file `f` of directory `j` of the walk. */
  predicate FromFile(repoDir: string, walk: seq<WalkEntry>, load: Loader, accept: string -> bool, d: Doc, j: nat, f: nat) {
    && j < |walk| && f < |walk[j].files|
    && var path := PathJoin(repoDir, PathJoin(walk[j].dir, walk[j].files[f]));
    && accept(walk[j].files[f])
    && load(path).Some?
    && d.content in load(path).value
    && d.source == PathJoin(walk[j].dir, walk[j].files[f])
  }

  lemma FileDocsSound(repoDir: string, walk: seq<WalkEntry>, load: Loader, accept: string -> bool, j: nat, f: nat, d: Doc)
    requires j < |walk| && f < |walk[j].files|
    requires d in FileDocs(repoDir, walk[j].dir, walk[j].files[f], load, accept)
    ensures FromFile(repoDir, walk, load, accept, d, j, f)
  {
    var texts := load(PathJoin(repoDir, PathJoin(walk[j].dir, walk[j].files[f]))).value;
    var i :| 0 <= i < |texts| && FileDocs(repoDir, walk[j].dir, walk[j].files[f], load, accept)[i] == d;
    assert texts[i] == d.content;
  }

  lemma {:induction false} DirDocsSound(repoDir: string, walk: seq<WalkEntry>, load: Loader, accept: string -> bool, j: nat, n: nat, d: Doc)
    requires j < |walk| && n <= |walk[j].files|
    requires d in DirDocs(repoDir, walk[j], load, accept, n)
    ensures exists f: nat :: f < n && FromFile(repoDir, walk, load, accept, d, j, f)
    decreases n
  {
    var e := walk[j];
    if d in DirDocs(repoDir, e, load, accept, n - 1) {
      DirDocsSound(repoDir, walk, load, accept, j, n - 1, d);
      var f: nat :| f < n - 1 && FromFile(repoDir, walk, load, accept, d, j, f);
    } else {
      FileDocsSound(repoDir, walk, load, accept, j, n - 1, d);
    }
  }

  /**
   * Every document comes from a file of the walk whose name is accepted and whose
   * load succeeded; it holds one of that file's texts and cites the file's path
   * relative to the repository.
   */
  lemma {:induction false} WalkDocsSound(repoDir: string, walk: seq<WalkEntry>, load: Loader, accept: string -> bool, n: nat, d: Doc)
    requires n <= |walk|
    requires d in WalkDocs(repoDir, walk, load, accept, n)
    ensures exists j: nat, f: nat :: j < n && FromFile(repoDir, walk, load, accept, d, j, f)
    decreases n
  {
    var before := WalkDocs(repoDir, walk, load, accept, n - 1);
    if d in before {
      WalkDocsSound(repoDir, walk, load, accept, n - 1, d);
      var j: nat, f: nat :| j < n - 1 && FromFile(repoDir, walk, load, accept, d, j, f);
    } else {
      assert d in DirDocs(repoDir, walk[n - 1], load, accept, |walk[n - 1].files|);
      DirDocsSound(repoDir, walk, load, accept, n - 1, |walk[n - 1].files|, d);
      var f: nat :| f < |walk[n - 1].files| && FromFile(repoDir, walk, load, accept, d, n - 1, f);
    }
  }

  lemma {:induction false} DirDocsComplete(repoDir: string, e: WalkEntry, load: Loader, accept: string -> bool, n: nat, f: nat)
    requires f < n <= |e.files|
    ensures forall d :: d in FileDocs(repoDir, e.dir, e.files[f], load, accept) ==> d in DirDocs(repoDir, e, load, accept, n)
    decreases n
  {
    if f < n - 1 {
      DirDocsComplete(repoDir, e, load, accept, n - 1, f);
    }
  }

  /**
   * Nothing readable is missed: every text of every accepted file that loads
   * becomes a document citing that file.
   */
  lemma {:induction false} WalkDocsComplete(repoDir: string, walk: seq<WalkEntry>, load: Loader, accept: string -> bool, n: nat, j: nat, f: nat)
    requires j < n <= |walk| && f < |walk[j].files|
    requires accept(walk[j].files[f])
    requires load(PathJoin(repoDir, PathJoin(walk[j].dir, walk[j].files[f]))).Some?
    ensures var texts := load(PathJoin(repoDir, PathJoin(walk[j].dir, walk[j].files[f]))).value;
      forall t :: t in texts ==> Doc(t, PathJoin(walk[j].dir, walk[j].files[f])) in WalkDocs(repoDir, walk, load, accept, n)
    decreases n
  {
    var e := walk[j];
    var texts := load(PathJoin(repoDir, PathJoin(e.dir, e.files[f]))).value;
    var docs := FileDocs(repoDir, e.dir, e.files[f], load, accept);
    forall t | t in texts
      ensures Doc(t, PathJoin(e.dir, e.files[f])) in docs
    {
      var i :| 0 <= i < |texts| && texts[i] == t;
      assert docs[i] == Doc(t, PathJoin(e.dir, e.files[f]));
    }
    var before := WalkDocs(repoDir, walk, load, accept, n - 1);
    var last := DirDocs(repoDir, walk[n - 1], load, accept, |walk[n - 1].files|);
    assert WalkDocs(repoDir, walk, load, accept, n) == before + last;
    if j < n - 1 {
      WalkDocsComplete(repoDir, walk, load, accept, n - 1, j, f);
    } else {
      DirDocsComplete(repoDir, e, load, accept, |e.files|, f);
    }
  }

  /** A name is supported whatever the case of its letters. */
  lemma SupportedIgnoresCase(name: string)
    ensures IsSupported(name) <==> IsSupported(Lower(name))
  {
    LowerIdempotent(name);
  }

  /** A name ending in a supported extension, written in lower case, is read whatever comes before it. */
  lemma SupportedByEnding(stem: string, e: string)
    requires e in SupportedExts
    ensures IsSupported(stem + e)
  {
    LowerFixes(e);
    LowerAppend(stem, e);
    assert EndsWith(Lower(stem) + e, e);
  }

  /** Every supported ending starts with a dot. */
  lemma ExtsAreDotted()
    ensures forall e :: e in SupportedExts ==> |e| > 1 && e[0] == '.'
  {
  }

  /** A name without a dot once lowered (a `Makefile`, a `LICENSE`) is never read. */
  lemma UndottedNotSupported(name: string)
    requires '.' !in Lower(name)
    ensures !IsSupported(name)
  {
    ExtsAreDotted();
  }

  // ---------------------------------------------------------------------------
  // Vector stores
  // ---------------------------------------------------------------------------

  /** An open vector store: the directory it lives in and the documents embedded there. */
  datatype VectorStore = VectorStore(path: string, docs: seq<Doc>)

  /** The store directories after `create_vector_store(docs, path)`: built only when `path` held none. */
  function AfterCreate(indexes: map<string, seq<Doc>>, docs: seq<Doc>, path: string): (r: map<string, seq<Doc>>)
    ensures path in r
    ensures path in indexes ==> r == indexes
    ensures path !in indexes ==> r[path] == docs
    ensures forall q :: q != path ==> (q in r <==> q in indexes) && (q in r ==> r[q] == indexes[q])
  {
    if path in indexes then indexes else indexes[path := docs]
  }

  /** Calling it again on the same directory never embeds anything new, whatever the documents. */
  lemma CreateTwice(indexes: map<string, seq<Doc>>, docs1: seq<Doc>, docs2: seq<Doc>, path: string)
    ensures AfterCreate(AfterCreate(indexes, docs1, path), docs2, path) == AfterCreate(indexes, docs1, path)
    ensures AfterCreate(AfterCreate(indexes, docs1, path), docs2, path)[path] == (if path in indexes then indexes[path] else docs1)
  {
  }

  /** The persisted store directories: a directory that is absent here is empty. */
  class StoreDirs {
    var indexes: map<string, seq<Doc>>

    constructor(indexes: map<string, seq<Doc>>)
      ensures this.indexes == indexes
    {
      this.indexes := indexes;
    }

    /** `create_vector_store(docs, store_path)`. */
    method CreateVectorStore(docs: seq<Doc>, storePath: string) returns (db: VectorStore)
      modifies this
      ensures indexes == AfterCreate(old(indexes), docs, storePath)
      ensures db == VectorStore(storePath, indexes[storePath])
    {
      if storePath !in indexes {
        indexes := indexes[storePath := docs];
      }
      db := VectorStore(storePath, indexes[storePath]);
    }
  }

  /** The retriever: the documents of a store most similar to a query, asked for `k` of them. */
  type Retriever = (seq<Doc>, string, int) -> seq<Doc>

  /** `query_vector_store(db, query, k)`: the retriever is asked for exactly `k` results. */
  function QueryVectorStore(retriever: Retriever, db: VectorStore, query: string, k: int := 5): seq<Doc> {
    retriever(db.docs, query, k)
  }
}
