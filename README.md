# AI_Buzz_2025 wiki generator, modelled in Dafny

The repository turns a GitHub repository into a wiki. It clones the repository and
asks a language model for an XML outline of the wiki, then asks the model for one
Markdown page per `<page>` element of that outline. The result is cached and
indexed so a chatbot can answer questions about it. This project models the
deterministic logic around the model calls, and proves what that logic promises:

- **`call_llm_structure`** (`WikiStructure`) asks the structure model for chunks,
  within a budget, until the output holds `</wiki_structure>`. Every later prompt
  carries the last 500 characters of the output so far.
- **`extract_xml` and `clean_malformed_xml`** (`WikiMarkup`) find the
  `<wiki_structure>` block and repair known misspelt tag names. The regular
  expression is modelled as a scanner that decides each position the way the
  backtracking engine does, plus a leftmost search over it.
- **`generate_wiki_from_repo` and the cache** (`WikiGenerator`):
  - the owner and repository taken from the URL;
  - the cache file name, the cache as a map from paths to JSON records, and the
    short cut on a cache hit;
  - the page loop, which fills an insertion-ordered dict keyed by title;
  - the record that is returned and indexed for the chatbot.

  The method `GenerateWikiFromRepo` states the whole outcome. That covers the
  state of the cache and the store directories, on every path:
  - the URL cannot be split;
  - a cache hit;
  - a clone failure;
  - an extraction failure;
  - a parse failure;
  - success.
- **`split_markdown_into_segments`** and its Mermaid-block pattern (`MarkdownSegments`)
  cut a page into text and diagram segments. The pieces tile the page exactly.
- **`retrieve` / `retrieve_node`** (`ChatBot`) is the chat graph's retrieval node.
- **`create_documents_from_json`** (`RagChatbot`) turns a record into documents
  before they are split.
- **`create_documents`, `create_vector_store` and `query_vector_store`** (`RagUtils`):
  the extension filter, skipping unreadable files, how documents are cited, and the
  build-only-when-empty rule.
- **The front end's string helpers** (`App`): the nested-list renderer of the file
  tree, `clean_llm_output`, and the README preview.
- **The prompt builders** (`Prompts`): the language table with its English
  fallback, the choice between the two XML formats, where the inputs land, and the
  file-link list. Both builders carry the same ten-entry language table, so it is
  declared once here.

Supporting modules:

- `Text` gives Python's `str` operations as used here: `strip`, `find`, `in`,
  `replace`, `split`, `join`, `splitlines`, `lower`, and case folding under
  `re.IGNORECASE`.
- `PyValues` gives JSON values and insertion-ordered dicts.
- `Outcomes` gives Option and Result.
- `Documents` gives retrieval documents.

A Python dict is modelled as `PyValues.Dict`, a list of key and value pairs in
insertion order. A dict built by `json.load` or by the page loop never repeats a key
(`FillPagesUnique`), and `Put` keeps keys unique (`PutUnique`). The lemmas about
`Flatten`, `CreateDocumentsFromJson` and `PageDocs` do not assume unique keys, so
they also cover lists that repeat a key: they hold for every dict the program can
build, and for more.

The things the pipeline cannot see into are parameters: the language models, the
git checkout, the XML parsers, the text splitter and the retriever.

Where the repository's design description and its code differ, the model follows the code:

- The closing fence of a Mermaid block must repeat the opening fence exactly, at the
  same indentation. A longer closing fence does not close the block.
- Tag correction is not idempotent. `WikiMarkup.CleanedNotIdempotent` shows an input
  that one pass leaves with a misspelt tag and a second pass renames.
- The line break just before an opening fence belongs to the block. Text before a
  block keeps every earlier line break: for `"intro\n\n```mermaid…"` the text
  segment is `"intro\n"` (`MarkdownSegments.IntroKeepsLineBreak`).
- The fallback search in `extract_xml` can never succeed
  (`WikiMarkup.FallbackNeverSucceeds`). It is kept as written.
- The cache key and the index directories use the module constant `model_id`. The
  `model_name` argument is never read.
- A tree line's indent is half of all the whitespace `strip()` removes, which
  includes the whitespace at its end.

## Model

| member | source | states |
|---|---|---|
| WikiStructure.ContinuationPrompt | src/wiki_generator.py:77-78 | a continuation prompt is the fixed header followed by last 500 characters of the output (all of it when shorter), with each line break turned into a space and every other character kept |
| WikiStructure.OutputConcat | src/wiki_generator.py:70 | the accumulated output of two runs of calls is the concatenation of their outputs, so no chunk is dropped or reordered |
| WikiStructure.Calls | src/wiki_generator.py:62-78 | the calls the loop makes, each a prompt and the chunk it got back; it stops after the first call whose output so far holds `</wiki_structure>` or when the budget is spent, and `CallsWithinBudget`, `CallsStopAtMarker`, `CallsPrompts` and `CallsChunks` state this of it |
| WikiStructure.CallLlmStructure | src/wiki_generator.py:54-80 | the loop returns the stripped, in-order concatenation of every chunk of the calls the model is asked for, starting from an empty output and a budget of max(max_chunks, 0) |
| WikiStructure.CallsWithinBudget | src/wiki_generator.py:62 | the model is called at most max_chunks times, and at least once when the budget is positive |
| WikiStructure.CallsStopAtMarker | src/wiki_generator.py:73-74 | no output before the last call holds `</wiki_structure>`, so the loop stops right after the first call whose output holds it |
| WikiStructure.CallsEarlyStopHasMarker | src/wiki_generator.py:62-74 | a run that ends before the budget is spent has the marker in its output |
| WikiStructure.CallsPrompts | src/wiki_generator.py:59-78 | the first call sends the caller's prompt, and every later call sends the continuation prompt built from all the output received before it |
| WikiStructure.CallsChunks | src/wiki_generator.py:63-69 | every chunk is the model's greedy answer to that call's prompt with the chunk-size token budget |
| WikiMarkup.SkipSpaces | src/wiki_generator.py:95 | a greedy `\s*` consumes exactly the run of whitespace and stops at the first non-whitespace character |
| WikiMarkup.TagStart | src/wiki_generator.py:95 | the opening tag of a match at p stands at or after p, and case is ignored |
| WikiMarkup.BlockEnd | src/wiki_generator.py:95 | a match ends after its closing tag, and never past the text |
| WikiMarkup.MatchAt | src/wiki_generator.py:94-97 | a match at p ends after p and within the text; there is none exactly when no opening tag stands at or after p or no closing tag follows it, in any case; otherwise the match ends after the first closing tag that follows the opening tag, with its optional fence |
| WikiMarkup.Search | src/wiki_generator.py:102 | the search returns the leftmost position where the pattern matches, and nothing when no position matches |
| WikiMarkup.NoMatchPastEnd | src/wiki_generator.py:95 | no match starts at or beyond the end of the text |
| WikiMarkup.FallbackMatchAt | src/wiki_generator.py:104 | a match of the fence-free pattern at p ends after p and within the text |
| WikiMarkup.FallbackSearch | src/wiki_generator.py:104 | the fallback search finds the leftmost position where the fence-free pattern matches, no earlier position matching, and finds nothing only when no position matches |
| WikiMarkup.TagExcludesFence | src/wiki_generator.py:95 | where the opening tag stands, the optional fence is not taken, so the match starts at the tag |
| WikiMarkup.SearchFindsBlock | src/wiki_generator.py:102-103 | the pattern matches somewhere exactly when an opening tag is followed by a closing tag, either in any case |
| WikiMarkup.FallbackNeverSucceeds | src/wiki_generator.py:103-106 | when the first pattern fails the fallback fails too, so the error carries the first 600 characters |
| WikiMarkup.ExtractFallback | src/wiki_generator.py:104-107 | the fallback returns a trimmed text no longer than the input when a block exists, and otherwise the error with the first 600 characters |
| WikiMarkup.ExtractXml | src/wiki_generator.py:99-108 | an empty answer raises the empty-response error; otherwise extraction succeeds exactly when an opening tag is followed by a closing tag, returns trimmed text no longer than the input, and fails with the 600-character snippet |
| WikiMarkup.ExtractXmlBlock | src/wiki_generator.py:94-108 | a successful extraction is the stripped text of the leftmost match: no earlier position matches, the match runs from its start to the end of the first closing tag after the opening tag, in any case, and on past an optional closing fence |
| WikiMarkup.ExtractXmlIsSearch | src/wiki_generator.py:102-108 | a successful extraction is the stripped span of the search's match |
| WikiMarkup.MatchAtParts | src/wiki_generator.py:95 | a match has an opening tag, the first closing tag after it, and ends where the block ends after that tag |
| WikiMarkup.TagSurvivesStrip | src/wiki_generator.py:108 | a tag that begins with `<` and ends with `>` still occurs, with case folded, after `strip()` |
| WikiMarkup.TagSurvivesSlice | src/wiki_generator.py:108 | a tag inside the matched span survives slicing out the match and stripping it |
| WikiMarkup.ExtractedBlockHasTags | src/wiki_generator.py:108 | a successful extraction holds both the opening and the closing tag, ignoring case |
| WikiMarkup.CleanMalformedXml | src/wiki_generator.py:110-124 | the loop applies each of the eight corrections in dict order, opening tags before closing tags, then collapses the two escaped entities |
| WikiMarkup.Cleaned | src/wiki_generator.py:110-124 | what cleaning returns: the eight renamings in dict order, then the entity collapse; `RenamedFreeOfTags`, `CleanedNotLonger`, `CleanedKeepsWellFormed` and `CleanedNotIdempotent` state what it does |
| WikiMarkup.RenameTagsNotLonger | src/wiki_generator.py:121-123 | renaming with corrections no longer than their names never lengthens the text |
| WikiMarkup.CleanedNotLonger | src/wiki_generator.py:110-124 | cleaning never makes the document longer |
| WikiMarkup.RenameTagsKeepsFree | src/wiki_generator.py:121-123 | a text with none of the misspelt tags comes back unchanged from the renaming |
| WikiMarkup.RenameTagsAppend | src/wiki_generator.py:121-123 | applying a list of corrections is applying its first part, then its second |
| WikiMarkup.TagAroundSplice | src/wiki_generator.py:123 | a tag other than the inserted one, found in a text with a tag spliced in, lies wholly before or wholly after the splice |
| WikiMarkup.ReplaceTagOccurs | src/wiki_generator.py:123 | replacing one tag by another never creates a third tag: any tag other than the replacement found afterwards is not the replaced tag and was already there |
| WikiMarkup.TagForms | src/wiki_generator.py:122-123 | the opening and closing forms of a tag name are tags |
| WikiMarkup.TagFormsDistinct | src/wiki_generator.py:122-123 | two different tag names give four different tags |
| WikiMarkup.RenameTagKeeps | src/wiki_generator.py:122-123 | renaming one tag name never creates a tag other than its own two forms, and removes both forms of the wrong name |
| WikiMarkup.RenameTagsFrees | src/wiki_generator.py:121-123 | with corrections whose names are distinct tag names and never a wrong name, none of the wrong tags is left after the renaming |
| WikiMarkup.TagCorrectionsProper | src/wiki_generator.py:111-120 | the eight corrections meet that condition |
| WikiMarkup.RenamedFreeOfTags | src/wiki_generator.py:121-123 | after the renaming loop no misspelt opening or closing tag is left, whatever the text |
| WikiMarkup.CleanedKeepsWellFormed | src/wiki_generator.py:110-124 | a document with no misspelt tag and no escaped entity is returned unchanged |
| WikiMarkup.CleanedRenamesPageRef | src/wiki_generator.py:112 | `<page-ref>` becomes `<page_ref>` |
| WikiMarkup.EntityCollapse | src/wiki_generator.py:124 | the escaped `&amp;amp;lt;` collapses to `<` |
| WikiMarkup.CleanedCompletesTagLate | src/wiki_generator.py:124 | collapsing the entity after the renaming can complete a misspelt tag that then stays |
| WikiMarkup.CleanedNotIdempotent | src/wiki_generator.py:121-124 | cleaning twice differs from cleaning once on `&amp;amp;lt;page-ref>` |
| WikiGenerator.SafeModel | src/wiki_generator.py:45 | the safe model name has the same length, every `/` is replaced by `_`, every other character is kept, and no `/` is left |
| WikiGenerator.CachePath | src/wiki_generator.py:133-136 | the path ends with `<repo>__<safe model>.json`; it lies under `.wiki_cache/` unless the name starts with `/`, in which case `os.path.join` returns the name alone |
| WikiGenerator.IndexDir | src/wiki_generator.py:188 | the code index directory starts with `./repo_index_` followed by the repository name, and holds no `/` after `./` when the name holds none |
| WikiGenerator.ChatbotIndexDir | src/wiki_generator.py:162 | the chatbot index directory has the same prefix and repository name, ends with `_chatbot`, and holds no `/` after `./` when the name holds none (the same path is built again at line 211) |
| WikiGenerator.CachePathShape | src/wiki_generator.py:133-136 | for a repository name without `/`, the cache path is `.wiki_cache/<repo>__<safe model>.json` |
| WikiGenerator.CachePathInjective | src/wiki_generator.py:133-136 | two repositories never share a cache file for the same model |
| WikiGenerator.IndexDirsDistinct | src/wiki_generator.py:188 | the code index and the chatbot index never share a directory |
| WikiGenerator.OwnerRepo | src/wiki_generator.py:159 | unpacking fails exactly when the URL, stripped of trailing `/`, has no `/`; otherwise owner and repo hold no `/` |
| WikiGenerator.OwnerRepoEnds | src/wiki_generator.py:159 | owner and repo are the last two components of the URL with trailing slashes removed, in that order: `owner/repo` ends it, and the owner either starts it or follows a `/` |
| WikiGenerator.SaveThenLoad | src/wiki_generator.py:138-148 | what is saved for a repository is what is loaded back |
| WikiGenerator.SaveKeepsOthers | src/wiki_generator.py:145-148 | saving one repository's record leaves every other repository's cache unchanged |
| WikiGenerator.WikiCache.constructor | src/wiki_generator.py:138-148 | the cache directory starts with the given files |
| WikiGenerator.WikiCache.LoadFromCache | src/wiki_generator.py:138-143 | the loaded record is the file at the cache path, and `{}` when there is none |
| WikiGenerator.WikiCache.SaveToCache | src/wiki_generator.py:145-148 | the file at the cache path is replaced whole by the record, and no other file changes |
| WikiGenerator.PageTitle | src/wiki_generator.py:193 | the title is never empty and is trimmed; a missing or blank title gives `Untitled`; any other title is stripped |
| WikiGenerator.BlankTitle | src/wiki_generator.py:193 | a title of whitespace counts as missing |
| WikiGenerator.PageQuery | src/wiki_generator.py:195 | the query starts with `Wiki Page: `, holds the title right after it, and ends with `. Relevant files: ` and the paths joined by `, ` |
| WikiGenerator.Contents | src/wiki_generator.py:197 | the texts of the retrieved chunks, one per chunk, in retrieval order |
| WikiGenerator.PageContextParts | src/wiki_generator.py:197 | the context is empty for no chunks; otherwise it interleaves every chunk's text with blank lines, in order |
| WikiGenerator.PageLoop | src/wiki_generator.py:190-202 | the loop makes one model call per page, with consecutive call numbers, and leaves the page map as the titles and answers stored in page order |
| WikiGenerator.FillPages | src/wiki_generator.py:190-202 | the page dict after the loop, each answer stored under its page title; `FillPagesHasTitle`, `FillPagesOnlyTitles`, `FillPagesLastWins` and `FillPagesUnique` state that its keys are exactly the titles, once each, and that a later page with the same title overwrites an earlier one |
| WikiGenerator.PagesMd | src/wiki_generator.py:190-202 | `pages_md` once every page has been answered by the page model; `PageLoop` is proved to compute it |
| WikiGenerator.PageContent | src/wiki_generator.py:193-200 | one turn of the loop yields the page's title and the model's answer to its prompt |
| WikiGenerator.FillPagesSnoc | src/wiki_generator.py:202 | each page stores its answer under its title in the dict built so far |
| WikiGenerator.FillPagesUnique | src/wiki_generator.py:202 | the page map never holds a title twice, and has at most one entry per page |
| WikiGenerator.FillPagesHasTitle | src/wiki_generator.py:192-202 | every page's title is a key of the page map |
| WikiGenerator.FillPagesOnlyTitles | src/wiki_generator.py:192-202 | every key of the page map is some page's title |
| WikiGenerator.FillPagesLastWins | src/wiki_generator.py:202 | a title holds the answer of the last page carrying it, so a later duplicate overwrites an earlier one |
| WikiGenerator.UntitledPagesCollide | src/wiki_generator.py:193-202 | two pages without a usable title share one `Untitled` entry, which holds the second page's answer |
| WikiGenerator.PagesJson | src/wiki_generator.py:208 | the page map as JSON keeps every title in order, with its markdown as a string |
| WikiGenerator.RecordIsHit | src/wiki_generator.py:160-161 | a fresh record is never empty, so the next call for the same repository is a cache hit |
| WikiGenerator.RecordTextFields | src/wiki_generator.py:204-209 | the record's `file_tree`, `xml` and `readme` fields hold the file tree, the repaired XML and the README |
| WikiGenerator.RecordPages | src/wiki_generator.py:204-209 | the record's `pages` field is the page map |
| WikiGenerator.RecordTopLevel | src/wiki_generator.py:204-210 | the record's top-level documents are the file tree, the XML and the README, in that order |
| WikiGenerator.RecordDocuments | src/wiki_generator.py:204-210 | indexing the record gives its three text fields, then one document per page named `pages/<title>`, in page order |
| WikiGenerator.PageDocsAll | src/wiki_generator.py:208-210 | every page of the page map becomes a document, in order, because every value is a string |
| WikiGenerator.StructureXml | src/wiki_generator.py:174-185 | the structure step sends the structure prompt to the loop, then extracts, repairs and parses the block; each failure is passed on |
| WikiGenerator.ParseStructure | src/wiki_generator.py:178-185 | the repaired block is parsed strictly, then through the recovering parser and re-serialised, and parsed strictly once more |
| WikiGenerator.BuildRecord | src/wiki_generator.py:187-209 | the code index is built or reopened, the page loop runs against it, and the record is assembled |
| WikiGenerator.GenerateFresh | src/wiki_generator.py:169-215 | without a cache hit, a failure changes nothing; success builds the chatbot index over the record, caches the record and returns it with that index |
| WikiGenerator.Serve | src/wiki_generator.py:160-215 | a non-empty cached record is returned as it is with the chatbot index over it, and no cache file changes; otherwise the wiki is generated afresh |
| WikiGenerator.GenerateWikiFromRepo | src/wiki_generator.py:153-215 | a URL without an owner part raises before anything changes; otherwise the run is served for the owner and repository, with the language looked up in the table |
| MarkdownSegments.SkipBlanks | src/utils.py:9 | a greedy `[ \t]*` stops at the first character that is not a blank |
| MarkdownSegments.SkipBlanksSpan | src/utils.py:9 | everything the run passes over is a space or a tab |
| MarkdownSegments.RunOf | src/utils.py:10 | a greedy run of one character stops at the first other character |
| MarkdownSegments.RunOfSpan | src/utils.py:10 | everything the run passes over is that character |
| MarkdownSegments.NextNewline | src/utils.py:11 | a found line break is a `\n` at or after the start |
| MarkdownSegments.NextNewlineFirst | src/utils.py:11 | the line break found is the first one, and none exists when none is found |
| MarkdownSegments.OpeningAt | src/utils.py:9-11 | the opening line gives a fence of at least three characters and a body start just after a line break |
| MarkdownSegments.OpeningShape | src/utils.py:9-11 | the opening line starts with an indentation of blanks and a fence of three or more backticks or tildes, then blanks, the word `mermaid` in any case ending at a word boundary, and no line break before the body's line break |
| MarkdownSegments.OpeningKeyword | src/utils.py:11 | after the fence come blanks, `mermaid` in any case, a non-word character or the end, and the rest of the line up to the body |
| MarkdownSegments.RepeatsOccurs | src/utils.py:13 | comparing one character at a time is comparing the indentation and fence text with what stands at the closing line |
| MarkdownSegments.ClosingAt | src/utils.py:13 | a closing line is a line break, the opening indentation and fence repeated exactly, then blanks up to `\n`, `\r\n` or the end |
| MarkdownSegments.ClosingAtBlanks | src/utils.py:13 | everything between the repeated fence and the end of the match is a space or a tab |
| MarkdownSegments.FindClosing | src/utils.py:12-13 | the lazy body ends at a line break that a closing line follows |
| MarkdownSegments.FindClosingFirst | src/utils.py:12 | the body is the shortest one: no earlier line break is followed by a closing line |
| MarkdownSegments.ClosingFacts | src/utils.py:13 | where the body stops, the opening indentation and fence follow a line break, then only blanks, and the match ends where `\n`, `\r\n` or the end of the text follows |
| MarkdownSegments.BlockFrom | src/utils.py:9-13 | a match read from an opening line starts where it was tried, with its positions in order inside the text |
| MarkdownSegments.MatchAt | src/utils.py:8-13 | a match at p starts at p, with its positions in order inside the text |
| MarkdownSegments.MatchAtShape | src/utils.py:8-13 | every match is a Mermaid block: the opening line with its indentation, fence and `mermaid` word, the body, and a closing line repeating the indentation and fence followed only by blanks up to a line end |
| MarkdownSegments.MatchAtOpen | src/utils.py:8 | a match starts at the start of the text or at a line break, and is read from the line after it |
| MarkdownSegments.BlockFromShape | src/utils.py:9-13 | a match read from an opening line is a Mermaid block |
| MarkdownSegments.ClosingShape | src/utils.py:13 | a block closed where the scanner found its closing line is a Mermaid block |
| MarkdownSegments.NoMatchBetweenAt | src/utils.py:23 | no match between two positions means no match starts at any position in that range |
| MarkdownSegments.Search | src/utils.py:23 | the search returns the leftmost match at or after a position, and none only when no match starts there |
| MarkdownSegments.FindIter | src/utils.py:23 | `finditer` yields matches in order without overlap, each one the pattern's match at its start |
| MarkdownSegments.FindIterCons | src/utils.py:23 | a non-empty `finditer` is the first match, then `finditer` from where it ends |
| MarkdownSegments.FindIterFirst | src/utils.py:23 | `finditer` misses no match before its first block, and none at all when it finds none |
| MarkdownSegments.FindIterGap | src/utils.py:23 | `finditer` misses no match between two consecutive blocks |
| MarkdownSegments.FindIterGaps | src/utils.py:23 | for every pair of consecutive blocks `finditer` yields, no match starts between them |
| MarkdownSegments.FindIterLast | src/utils.py:23 | `finditer` misses no match after its last block |
| MarkdownSegments.FindIterShapes | src/utils.py:23 | every block `finditer` yields is a Mermaid block |
| MarkdownSegments.Tiles | src/utils.py:24-32 | after the loop over some blocks, last_end is the end of the last block, or 0 before any |
| MarkdownSegments.TilesCover | src/utils.py:24-32 | the pieces the loop has accounted for are valid and cover the page from 0 to last_end |
| MarkdownSegments.TilesSnoc | src/utils.py:26-32 | one more block adds a gap when it does not start at last_end, then the block |
| MarkdownSegments.TilesFenced | src/utils.py:26-32 | the pieces hold only the blocks they were cut around, and never two gaps in a row |
| MarkdownSegments.PiecesCover | src/utils.py:23-35 | the pieces tile the page from its first character to its last, each one non-empty |
| MarkdownSegments.LayoutTiles | src/utils.py:23-35 | the pieces of a page tile it, each one valid |
| MarkdownSegments.ContiguousSpans | src/utils.py:23-35 | contiguous pieces spell out exactly the text they span |
| MarkdownSegments.LayoutReconstructs | src/utils.py:23-35 | the text segments, with each diagram put back as its whole block, concatenate to the page, so nothing is lost or repeated |
| MarkdownSegments.SegmentOf | src/utils.py:26-30 | a gap becomes a non-empty text segment holding exactly its text; a block becomes a Mermaid segment, no longer than its body, that neither begins nor ends with `\n` |
| MarkdownSegments.SegmentsOf | src/utils.py:23-35 | there is one segment per piece, in order |
| MarkdownSegments.SegmentsOfAppend | src/utils.py:27-30 | appending a piece appends its segment |
| MarkdownSegments.SplitMarkdownIntoSegments | src/utils.py:19-37 | the function returns the segments around the blocks `finditer` yields |
| MarkdownSegments.Split | src/utils.py:19-37 | what `split_markdown_into_segments` returns; `SplitPieces`, `SplitEmpty`, `SplitWithoutBlocks` and `IntroKeepsLineBreak` state its segments |
| MarkdownSegments.SegmentsAround | src/utils.py:23-35 | the loop emits the text before each block that does not start at last_end, then its diagram, then the text after the last block |
| MarkdownSegments.SegmentsStep | src/utils.py:26-32 | one turn of the loop extends the tiles and the segments by the gap, if there is one, and the block |
| MarkdownSegments.SegmentsAtPieces | src/utils.py:23-35 | piece by piece, each gap is a non-empty text segment of its exact text; each block is a Mermaid block whose segment is its body stripped of line breaks; no two text segments are adjacent |
| MarkdownSegments.SegmentsAtLayout | src/utils.py:23-35 | piece by piece, each gap is a non-empty text segment of its exact text and each block's segment is its body stripped of line breaks; no two text segments are adjacent |
| MarkdownSegments.FencedPiecesAreBlocks | src/utils.py:26-30 | every block piece is one of the blocks the pieces were cut around |
| MarkdownSegments.SplitPieces | src/utils.py:19-37 | the result, piece by piece over the page's layout, with no two text segments in a row |
| MarkdownSegments.SplitEmpty | src/utils.py:21 | an empty page has no segments |
| MarkdownSegments.SplitWithoutBlocks | src/utils.py:34-35 | a non-empty page without a Mermaid block is exactly one text segment, the page itself |
| MarkdownSegments.NoBlocksFound | src/utils.py:23 | `finditer` yields nothing on a page where no match starts |
| MarkdownSegments.IntroKeepsLineBreak | src/utils.py:8-35 | for the page `"intro" + 2 line breaks + a Mermaid block`, the first segment is the text `"intro\n"`: the line break just before the fence belongs to the block |
| MarkdownSegments.SearchFirst | src/utils.py:23 | `finditer` starts from the first position at which the pattern matches |
| MarkdownSegments.HasAtFolded | src/utils.py:11 | `mermaid` is matched ignoring case wherever the case-folded characters spell it |
| ChatBot.PageContents | src/chat_bot.py:21 | reading `page_content` succeeds exactly when every item is a document, and then gives their texts in order; otherwise it fails at the first item without one |
| ChatBot.Question | src/chat_bot.py:12-14 | the question is read from the state, a `None` state counting as empty and a missing key as `""`; `NoneStateIsEmpty` and `NoQuestionIgnoresQuery` state what follows from it |
| ChatBot.Texts | src/chat_bot.py:20-23 | one text per document; when the first result has no `page_content` every text is `str(d)` and nothing fails; a failure means the first result is a document and names a later result that is not |
| ChatBot.RetrieveNode | src/chat_bot.py:11-25 | the answer's only key is `context`; no question, or no documents, gives an empty context; a failure happens only when the first result is a document and a later one is not |
| ChatBot.NoneStateIsEmpty | src/chat_bot.py:12-13 | a `None` state behaves as an empty one and gives an empty context |
| ChatBot.NoQuestionIgnoresQuery | src/chat_bot.py:14-16 | without a question the query function is not consulted, so any two query functions give the same answer |
| ChatBot.FirstDocumentDecides | src/chat_bot.py:20-23 | the first result alone decides whether `page_content` is read: if it is not a document the node succeeds, and if it is, the node succeeds exactly when all results are documents |
| ChatBot.ContextInResultOrder | src/chat_bot.py:20-25 | the context interleaves the results' texts, in result order, with the `---` separator |
| RagChatbot.TopLevelDocs | src/rag_chatbot.py:15-17 | there are never more top-level documents than keys |
| RagChatbot.PageDocs | src/rag_chatbot.py:20-23 | there are never more page documents than pages |
| RagChatbot.CreateDocumentsFromJson | src/rag_chatbot.py:9-31 | the result is the splitter applied to the top-level documents followed by the page documents |
| RagChatbot.Flatten | src/rag_chatbot.py:15-23 | the documents handed to the splitter: the top-level ones, then one per page; `FlattenShape`, `TopLevelDocsSpec` and `PageDocsSpec` state which they are |
| RagChatbot.TopLevelDocuments | src/rag_chatbot.py:15-17 | the first loop yields the top-level documents of `file_tree`, `xml` and `readme` |
| RagChatbot.PageDocuments | src/rag_chatbot.py:20-23 | the second loop yields the page documents |
| RagChatbot.TopLevelDocsSnoc | src/rag_chatbot.py:15-17 | one more key adds its document exactly when its value is a string |
| RagChatbot.PageDocsSnoc | src/rag_chatbot.py:21-23 | one more page adds its document exactly when its text is a string |
| RagChatbot.TopLevelDocsSpec | src/rag_chatbot.py:15-17 | a document is among the top-level ones exactly when its source is one of the keys and its content is that key's string value |
| RagChatbot.TopLevelDocsOrder | src/rag_chatbot.py:15 | top-level documents keep the order of the keys |
| RagChatbot.PageDocsSpec | src/rag_chatbot.py:20-23 | a document is among the page documents exactly when some page's value is the string it holds and its source is `pages/` followed by that page's key |
| RagChatbot.TopLevelSources | src/rag_chatbot.py:17 | every top-level document's source is one of the keys |
| RagChatbot.PageSources | src/rag_chatbot.py:23 | every page document's source starts with `pages/` |
| RagChatbot.FlattenShape | src/rag_chatbot.py:13-23 | before splitting there are at most three top-level documents, none of them from a page, then at most one per page, all from pages |
| RagUtils.CreateDocuments | src/rag_utils.py:20-43 | the result is the splitter applied to the documents of every supported file of the walk, directory by directory and file by file |
| RagUtils.WalkDocs | src/rag_utils.py:23-36 | the documents of the walk so far, directory by directory; `WalkDocsSound` and `WalkDocsComplete` state that they are exactly the texts of the accepted files that load |
| RagUtils.DirectoryDocuments | src/rag_utils.py:24-36 | the loop over one directory's files gathers the documents of each accepted file, skipping those whose load fails |
| RagUtils.FileTexts | src/rag_utils.py:30-33 | each loaded text becomes one document citing the file, in order |
| RagUtils.FileDocsSound | src/rag_utils.py:25-33 | a document of one file comes from that file: its name is accepted, its load succeeded, and the document holds one of its texts and cites its path |
| RagUtils.DirDocsSound | src/rag_utils.py:24-36 | every document of a directory comes from one of its files |
| RagUtils.WalkDocsSound | src/rag_utils.py:23-36 | every document comes from an accepted file that loads, holds one of its texts, and cites its path relative to the repository |
| RagUtils.DirDocsComplete | src/rag_utils.py:24-36 | every document of a file is among its directory's documents |
| RagUtils.WalkDocsComplete | src/rag_utils.py:23-36 | every text of every accepted file that loads becomes a document citing that file |
| RagUtils.SupportedIgnoresCase | src/rag_utils.py:25 | a name is supported whatever the case of its letters |
| RagUtils.IsSupported | src/rag_utils.py:17-25 | a file is indexed when its lower-cased name ends with one of the thirteen extensions; `SupportedIgnoresCase`, `SupportedByEnding` and `UndottedNotSupported` state what that accepts |
| RagUtils.SupportedByEnding | src/rag_utils.py:25 | a name ending in a supported extension is read, whatever comes before it |
| RagUtils.ExtsAreDotted | src/rag_utils.py:17 | every supported ending starts with a dot and has more after it |
| RagUtils.UndottedNotSupported | src/rag_utils.py:25 | a name without a dot, once lowered, is never read |
| RagUtils.AfterCreate | src/rag_utils.py:46-53 | the directory always exists afterwards; an existing index is kept and the documents are ignored; a new one holds the documents; no other directory changes |
| RagUtils.CreateTwice | src/rag_utils.py:51-53 | a second call on the same directory embeds nothing new, whatever the documents |
| RagUtils.StoreDirs.constructor | src/rag_utils.py:49 | the store directories start as given |
| RagUtils.StoreDirs.CreateVectorStore | src/rag_utils.py:46-53 | the store directories change as the build-or-open rule says, and the store returned is the one now in the directory |
| RagUtils.QueryVectorStore | src/rag_utils.py:56-59 | the retriever is asked for exactly `k` results (5 by default) for the query over the store's documents; what it returns is a parameter, so no property is stated |
| App.HtmlCopies | src/app.py:44-45 | n copies of a tag spell out as Python's `html * max(n, 0)` |
| App.WalkOpens | src/app.py:44 | n `<ul>` tags raise the depth by n |
| App.WalkCloses | src/app.py:45 | n `</ul>` tags lower the depth by n, and the lowest depth reached is recorded |
| App.WalkMoves | src/app.py:44-45 | the lists opened or closed between two lines take the depth from one indent to the other |
| App.WalkLine | src/app.py:42-47 | one line moves the depth to its own indent plus one and adds its item at that depth |
| App.WalkItems | src/app.py:41-47 | after the loop the depth is the last indent plus one, it never went below zero, and the items are the lines' stripped texts at their depths |
| App.PlacedIndex | src/app.py:42-43 | line k's item is the stripped line, at depth `(len(line) - len(stripped)) // 2 + 1` |
| App.PlacedAt | src/app.py:42-43 | every line's item is its stripped text, at its indent plus one |
| App.TreeWalk | src/app.py:38-48 | the tree HTML is balanced: every list opened is closed, no list closes before it opens, and there is one item per line, in order |
| App.RenderTreeDiagram | src/app.py:36-49 | the loop builds the page for the tree text, line by line |
| App.TreePage | src/app.py:36-49 | the HTML page for a tree text; `TreeWalk` states that its lists are balanced with one item per line, and `RenderTreeDiagram` is proved to build it |
| App.Indent | src/app.py:43 | a line's indent is half the whitespace `strip()` removes; `IndentBounds` states its bounds |
| App.IndentBounds | src/app.py:43 | an indent is at most half the line's length, and zero for a line with no whitespace around it |
| App.LineHtml | src/app.py:44-46 | one line's HTML is the lists it opens or closes, then its `<li>` item |
| App.HtmlMoves | src/app.py:44-45 | the opening and closing tags between two lines spell out as the two string products |
| App.CloseFrom | src/app.py:148 | the lazy `.*?` stops at the first closing fence at or after the position, and none exists when it finds none |
| App.FenceAt | src/app.py:148 | a fence match starts at a line start with three backticks and ends at the first three backticks at a line end after them; none means no such start, or no closing |
| App.Unfenced | src/app.py:148 | removing fenced blocks never lengthens the text |
| App.UnfencedPlain | src/app.py:148 | text without three backticks comes through unchanged |
| App.UnfencedDropsBlock | src/app.py:148 | a fenced block at a line start is removed whole, with everything between its fences |
| App.Cut | src/app.py:155 | a cut keeps the prefix of the text before the first occurrence of the phrase, ignoring case: the phrase starts where the kept text ends, and not earlier |
| App.CutChanges | src/app.py:155 | a phrase changes the text exactly when the text holds it, ignoring case |
| App.CutRemoves | src/app.py:155 | after the cut the phrase no longer occurs, in any case |
| App.CutStripKeepsAbsence | src/app.py:155 | cutting and stripping never bring back a text that was absent |
| App.CutEach | src/app.py:149-155 | the loop cuts at each phrase in turn and strips after each cut |
| App.DropSignOffsFree | src/app.py:149-155 | none of the phrases survives the cuts, in any case |
| App.CleanLlmOutput | src/app.py:147-156 | the function removes fenced blocks, strips, then cuts and strips at each sign-off phrase |
| App.CleanedOutput | src/app.py:147-156 | what `clean_llm_output` returns; `CleanedOutputClean` states that it is trimmed and free of every sign-off phrase |
| App.CleanedOutputClean | src/app.py:147-156 | the cleaned output is trimmed and holds none of the four sign-off phrases, in any case |
| App.ReadmePreview | src/app.py:73 | a README of at most 4000 characters is shown whole; a longer one shows its first 4000 characters followed by `\n…` |
| Prompts.LangText | src/prompts.py:5-17 | a code in the table gives its language; any other code gives `English` |
| Prompts.KnownLanguage | src/prompts.py:7 | `ja` gives Japanese |
| Prompts.UnlistedInitial | src/prompts.py:17 | codes are matched exactly with no case folding, so `de` or `JA` give English |
| Prompts.StructurePrompt | src/prompts.py:109 | the structure prompt is trimmed |
| Prompts.SectionsOnlyWhenComprehensive | src/prompts.py:41-108 | the section list, the `<sections>` element and the parent section of each page are there exactly when the comprehensive format is asked for |
| Prompts.FormatEndsWithTail | src/prompts.py:107 | both formats end with `</wiki_structure>` |
| Prompts.StructurePromptText | src/prompts.py:19-109 | stripping removes only the line breaks around the template: the prompt is the shared lines, a blank line, and the chosen format |
| Prompts.StructurePromptEnd | src/prompts.py:107-109 | the structure prompt ends with `</wiki_structure>` |
| Prompts.BuildStructurePrompt | src/prompts.py:1-109 | the prompt is trimmed and ends with `</wiki_structure>`; with the defaults `"en"` and `True`, and for a language not in the table, it is the prompt in English |
| Prompts.Links | src/prompts.py:132 | one link line `- [p](REPO_URL/p)` per path, in input order |
| Prompts.LinkLineSingle | src/prompts.py:132 | a link line has no line break when its path has none |
| Prompts.FileLinksLines | src/prompts.py:132 | when no path has a line break, the link list splits back into one link line per path, in order; no paths give an empty list |
| Prompts.FileLinks | src/prompts.py:132 | the link lines joined by line breaks; `FileLinksLines` states that, for paths without line breaks, splitting it at line breaks gives back one `- [path](REPO_URL/path)` line per path, and that no paths give the empty string |
| Prompts.PagePrompt | src/prompts.py:219 | the page prompt is trimmed |
| Prompts.PagePromptText | src/prompts.py:134-219 | stripping removes only the line breaks around the template: the page prompt is its lines with a line break between each two |
| Prompts.PagePromptInputs | src/prompts.py:146-161 | the file links and the retrieved context each stand on lines of their own, the links first, and the heading line carries the title |
| Prompts.BuildPageContentPrompt | src/prompts.py:112-219 | the prompt is trimmed and is the page lines joined by line breaks; with the defaults `"en"` and `""`, and for a language not in the table, it is the prompt in English |
| PyValues.Keys | src/rag_chatbot.py:21 | a dict's keys, one per item, in insertion order |
| PyValues.Get | src/chat_bot.py:14 | a lookup finds nothing exactly when the key is absent, and otherwise a value stored under the key |
| PyValues.Put | src/wiki_generator.py:202 | storing under an existing key keeps the keys as they were; a new key goes to the end |
| PyValues.PutGet | src/wiki_generator.py:202 | after storing, the key holds the new value and every other key what it held before |
| PyValues.PutUnique | src/wiki_generator.py:202 | storing keeps the keys distinct |
| Text.Strip | src/wiki_generator.py:80 | the result is trimmed and no longer than the input, and trimmed text is kept as it is |
| Text.StripSlice | src/wiki_generator.py:80 | `strip()` removes whitespace from the two ends and nothing else |
| Text.FindFrom | src/app.py:155 | the search returns the leftmost occurrence at or after a position, and none only when there is none |
| Text.ReplaceChar | src/wiki_generator.py:77 | one character is replaced everywhere, the length is kept, and every other character is kept |
| Text.ReplaceAll | src/wiki_generator.py:124 | replacing with a text no longer than the pattern never lengthens the string |
| Text.ReplaceAbsent | src/wiki_generator.py:124 | replacing a text that does not occur changes nothing |
| Text.ReplaceSplit | src/wiki_generator.py:123 | `replace` keeps what comes before the first occurrence, puts the replacement there, and goes on after the occurrence |
| Text.Last | src/wiki_generator.py:77 | `s[-n:]` is the last n characters, or all of s when it is shorter, and s ends with it |
| Text.Take | src/app.py:73 | `s[:n]` is a prefix of s with n characters, or all of s when it is shorter |
| Text.Repeat | src/app.py:44 | `s * n` has max(n, 0) copies' worth of characters |
| Text.RStripChar | src/wiki_generator.py:159 | `rstrip('/')` keeps a prefix that does not end with `/` and removes only `/` |
| Text.StripChar | src/utils.py:29 | `strip('\n')` neither begins nor ends with `\n` and never lengthens the text |
| Text.Split | src/wiki_generator.py:159 | `split` gives at least one piece, and no piece contains the separator |
| Text.SplitSingle | src/wiki_generator.py:159 | `split` gives one piece exactly when the separator does not occur |
| Text.JoinSplit | src/wiki_generator.py:159 | joining the pieces of a split with the separator gives the text back |
| Text.JoinSepBeforeLastTwo | src/wiki_generator.py:159 | joining three parts or more puts a separator just before the last two parts, so `[-2:]` takes whole components |
| Text.SplitLastTwo | src/wiki_generator.py:159 | the last two pieces of a split, with the separator between them, end the text, and the first of them starts the text or follows a separator (`EndsWithPieces`) |
| Text.SplitJoin | src/prompts.py:132 | splitting a join whose parts lack the separator gives the parts back |
| Text.JoinInterleaves | src/chat_bot.py:24 | `sep.join(parts)` holds each part at its offset, with the separator after each one but the last |
| Text.SplitLines | src/app.py:38 | `splitlines()` gives lines without line breaks, and none exactly for an empty text |
| Text.Lower | src/rag_utils.py:25 | `lower()` leaves no ASCII capital |
| Text.LowerIdempotent | src/rag_utils.py:25 | lowering twice is lowering once |
| Text.FoldCase | src/wiki_generator.py:96 | case folding for `re.IGNORECASE` keeps the length and folds each character on its own |

## Left out

- Cloning, `os.walk`, the temporary directory, reading the README, and the cache's
  JSON files, `makedirs` and `abspath` are not modelled as I/O. The checkout is a
  parameter (`Checkout`: directory, walk, loader, file tree, README). The cache is a
  map from paths to records. `get_file_tree`, `read_readme` and `clone_repo` are
  not part of this model.
- The language models (`_llm`, `call_llm`, `ImagineChat`) are oracle functions. The
  structure model's greedy decoding is a function of the prompt and the token budget.
  The page model samples, so it is also given the call's number.
- `ET.fromstring`, `findall` and the recovering `lxml` parser are oracles that give
  a page list or fail. `safe_parse_xml` is not modelled beyond that.
- The text splitter, Chroma, the embeddings and the similarity retriever are
  parameters. The chunking and the ranking use floating point.
- QueryVectorStore: it only passes `k` on to the retriever, so it has no contract of
  its own.
- The Streamlit front end, `components.html`, Mermaid rendering, the chat history,
  `build_graph` and `src/diagram_agent.py` are left out.
- `fix_escaped_html_tags` is imported by the front end but defined nowhere, so there
  is nothing to model.
- `print` calls in the pipeline are left out.
- Prompt prose is kept as constants without values. Nothing proved depends on its
  wording. The lines that carry an input, the XML tags around them and each
  template's first and last line are kept as text.
- Text.Lower: Unicode case mappings are covered only for ASCII letters, the Kelvin
  sign and the dotted capital I. Any other character is taken as its own lower case.
- Text.FoldCase: `re.IGNORECASE` folding is modelled for ASCII letters and the four
  non-ASCII characters that fold to ASCII letters. Other characters match only
  themselves.
- MarkdownSegments.OpeningAt: `\b` after `mermaid` is decided with ASCII word
  characters, so a non-ASCII letter right after `mermaid` is taken as a word
  boundary.
- WikiGenerator.PageQuery: a `<file_path>` element without text (`fp.text` is
  `None`) is not modelled. File paths are strings, so the `join` that would raise on
  it is not represented.
- WikiGenerator.WikiCache.LoadFromCache: a cache file whose JSON is not an object is
  not modelled. Records are dicts.
- The `page_content` of a document read by `str(d)` is the document class's own
  rendering, a parameter of the retrieval node.
