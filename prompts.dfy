/**
 * The prompt builders (`build_structure_prompt`, `build_page_content_prompt`):
 * the language table with its fallback, the choice between the two XML
 * formats, where each input lands, and the list of file links.
 *
 * The instruction prose of the templates is left opaque: each stretch of it is
 * a constant declared without a value, documented with the text it stands for,
 * so nothing proved here depends on its wording. The lines that carry an input,
 * the XML tags around the inputs and the first and last lines are kept as text.
 */
module Prompts {
  import opened Text
  import opened PyValues

  /** The languages the wiki can be written in, by code; both builders use this one table. */
  const LanguageMap: Dict<string> := [
    ("en", "English"),
    ("ja", "Japanese (\U{65E5}\U{672C}\U{8A9E})"),
    ("zh", "Mandarin Chinese (\U{4E2D}\U{6587})"),
    ("zh-tw", "Traditional Chinese (\U{7E41}\U{9AD4}\U{4E2D}\U{6587})"),
    ("es", "Spanish (Espa\U{F1}ol)"),
    ("kr", "Korean (\U{D55C}\U{AD6D}\U{C5B4})"),
    ("vi", "Vietnamese (Ti\U{1EBF}ng Vi\U{1EC7}t)"),
    ("pt-br", "Brazilian Portuguese (Portugu\U{EA}s Brasileiro)"),
    ("fr", "Fran\U{E7}ais (French)"),
    ("ru", "\U{420}\U{443}\U{441}\U{441}\U{43A}\U{438}\U{439} (Russian)")
  ]

  /** `language_map.get(language, "English")`. */
  function LangText(language: string): (r: string)
    ensures language !in Keys(LanguageMap) ==> r == "English"
    ensures language in Keys(LanguageMap) ==> (language, r) in LanguageMap
  {
    Get(LanguageMap, language).GetOr("English")
  }

  // ---------------------------------------------------------------------------
  // The structure prompt
  // ---------------------------------------------------------------------------

  /** How the first line opens. */
  const AnalyzeIntro := "Analyze this GitHub repository "
  /** Stands for " and create a wiki structure for it." */
  const AnalyzeOutro: string
  /** Stands for "1. The complete file tree of the project:" */
  const FileTreeHeading: string
  /** Stands for "2. The README file of the project:" */
  const ReadmeHeading: string
  /** Stands for the request to determine the most logical wiki structure. */
  const WikiRequest: string
  /** Stands for "IMPORTANT: The wiki content will be generated in " */
  const StructureLanguageNotice: string
  /** Stands for the four lines asking for pages that benefit from diagrams. */
  const DiagramAdvice: seq<string>

  /** The lines every structure prompt opens with: repository, file tree, README and language. */
  function StructureBaseLines(fileTree: string, readme: string, owner: string, repo: string, langText: string): seq<string> {
    [
      AnalyzeIntro + owner + "/" + repo + AnalyzeOutro,
      "",
      FileTreeHeading,
      "<file_tree>",
      fileTree,
      "</file_tree>",
      "",
      ReadmeHeading,
      "<readme>",
      readme,
      "</readme>",
      "",
      WikiRequest,
      "",
      StructureLanguageNotice + langText + " language.",
      ""
    ] + DiagramAdvice
  }

  /** The blocks the requested XML format is assembled from. */
  datatype FormatBlock =
    | SectionList       // the list of nine main sections the wiki should have
    | FormatIntro       // "Return your analysis in the following XML format:"
    | WikiOpen          // the `<wiki_structure>` line
    | WikiSummary       // the `<title>` and `<description>` lines
    | SectionsElement   // the `<sections>` element with one example section
    | PagesElement(withParent: bool)  // the `<pages>` element; its page names a parent section when `withParent`
    | WikiClose         // the `</wiki_structure>` line

  /** Stands for lines 43-53 of the comprehensive template. */
  const SectionListLines: seq<string>
  /** Stands for the format introduction and the blank line after it. */
  const FormatIntroLines: seq<string>
  /** Stands for the `<title>` and `<description>` lines. */
  const WikiSummaryLines: seq<string>
  /** Stands for the `<sections>` element. */
  const SectionsLines: seq<string>
  /** Stands for the `<pages>` element up to the related pages of its example page. */
  const PagesHeadLines: seq<string>
  /** Stands for `<parent_section>section-1</parent_section>`. */
  const ParentSectionLine: string
  /** Stands for the closing `</page>` and `</pages>` lines. */
  const PagesTailLines: seq<string>

  /** The root element's closing tag, the last line of every structure prompt. */
  const WikiTail := "</wiki_structure>"

  function BlockLines(b: FormatBlock): seq<string> {
    match b
    case SectionList => SectionListLines
    case FormatIntro => FormatIntroLines
    case WikiOpen => ["<wiki_structure>"]
    case WikiSummary => WikiSummaryLines
    case SectionsElement => SectionsLines
    case PagesElement(withParent) => PagesHeadLines + (if withParent then [ParentSectionLine] else []) + PagesTailLines
    case WikiClose => [WikiTail]
  }

  /** The blocks of the format `build_structure_prompt` appends. */
  function FormatBlocks(comprehensive: bool): seq<FormatBlock> {
    if comprehensive then [SectionList, FormatIntro, WikiOpen, WikiSummary, SectionsElement, PagesElement(true), WikiClose]
    else [FormatIntro, WikiOpen, WikiSummary, PagesElement(false), WikiClose]
  }

  /** The lines of `blocks`, in order. */
  function AllLines(blocks: seq<FormatBlock>): seq<string> {
    if blocks == [] then [] else AllLines(blocks[..|blocks| - 1]) + BlockLines(blocks[|blocks| - 1])
  }

  function FormatLines(comprehensive: bool): seq<string> {
    AllLines(FormatBlocks(comprehensive))
  }

  /** The structure prompt for the language named `langText`: shared lines, then the format, stripped. */
  function StructurePrompt(fileTree: string, readme: string, owner: string, repo: string, langText: string, comprehensive: bool): (r: string)
    ensures IsTrimmed(r)
  {
    var basePrompt := "\n" + Join(StructureBaseLines(fileTree, readme, owner, repo, langText), "\n") + "\n";
    Strip(basePrompt + "\n" + Join(FormatLines(comprehensive), "\n") + "\n")
  }

  /** `build_structure_prompt(file_tree, readme, owner, repo, language, comprehensive)`. */
  function BuildStructurePrompt(fileTree: string, readme: string, owner: string, repo: string, language: string := "en", comprehensive: bool := true): (r: string)
    ensures IsTrimmed(r) && EndsWith(r, WikiTail)
    ensures language !in Keys(LanguageMap) ==> r == StructurePrompt(fileTree, readme, owner, repo, "English", comprehensive)
  {
    StructurePromptEnd(fileTree, readme, owner, repo, LangText(language), comprehensive);
    StructurePrompt(fileTree, readme, owner, repo, LangText(language), comprehensive)
  }

  // ---------------------------------------------------------------------------
  // The page prompt
  // ---------------------------------------------------------------------------

  /** `f"- [{path}](REPO_URL/{path})"`. */
  function LinkLine(path: string): string {
    "- [" + path + "](REPO_URL/" + path + ")"
  }

  /** One link line per path, in order. */
  function Links(paths: seq<string>): (lines: seq<string>)
    ensures |lines| == |paths|
    ensures forall i :: 0 <= i < |paths| ==> lines[i] == LinkLine(paths[i])
  {
    seq(|paths|, i requires 0 <= i < |paths| => LinkLine(paths[i]))
  }

  /** `file_links`: the link lines joined by line breaks. */
  function FileLinks(paths: seq<string>): string {
    Join(Links(paths), "\n")
  }

  /** The first line of the page prompt (written in pieces so its first character is in view of the proofs). */
  const PageOpening := "You are an expert technical writer" + " and software architect."
  /** Stands for the task, the three inputs and the demand for an opening `<details>` block. */
  const PageBriefing: seq<string>
  /** Stands for "<summary>Relevant source files</summary>" and the sentence introducing the list. */
  const SourcesSummary: seq<string>
  /** Stands for the comment asking for more files when fewer than 5 were given. */
  const MoreFilesHint: string
  /** Stands for "<summary>Retrieved additional context</summary>". */
  const ContextSummary: string

  /** The two `<details>` blocks the page must start with: the file links, then the retrieved context. */
  function DetailsLines(fileLinks: string, context: string): seq<string> {
    ["<details>"] + SourcesSummary + [
      fileLinks,
      MoreFilesHint,
      "</details>",
      " ",
      "<details>",
      ContextSummary,
      " ",
      context,
      "</details>",
      " "
    ]
  }

  /** Stands for "Immediately after the <details> block, ... H1 Markdown heading: # ". */
  const HeadingIntro: string
  /** Stands for the line that grounds the page in the files and the context. */
  const BasisLine: string
  /** Stand for the first instruction's words before and after the quoted title. */
  const IntroBefore: string
  const IntroAfter: string
  /** Stand for the second instruction's words before and after the quoted title. */
  const SectionsBefore: string
  const SectionsAfter: string

  /** The instructions that name the page: its heading, its introduction and its sections. */
  function TitleLines(pageTitle: string): seq<string> {
    [
      HeadingIntro + pageTitle + ".",
      " ",
      BasisLine,
      " ",
      IntroBefore + "\"" + pageTitle + "\"" + IntroAfter,
      " ",
      SectionsBefore + "\"" + pageTitle + "\"" + SectionsAfter
    ]
  }

  /** Stands for the bullets of the second instruction and instructions 3 to 8. */
  const PageGuidelines: seq<string>
  /** Stand for the ninth instruction's words before and after the quoted title. */
  const SummaryBefore: string
  const SummaryAfter: string
  /** Stands for "IMPORTANT: Generate the content in " */
  const PageLanguageNotice: string
  /** Stands for "Remember:" and the first two reminders. */
  const Reminders: seq<string>
  /** The last line of the page prompt (written in pieces so its last character is in view of the proofs). */
  const PageClosing := "- Structure the document logically" + " for easy understanding" + " by other developers."

  /** The closing instructions: the summary, the language, and the reminders. */
  function ClosingLines(pageTitle: string, langText: string): seq<string> {
    [
      SummaryBefore + "\"" + pageTitle + "\"" + SummaryAfter,
      " ",
      PageLanguageNotice + langText + " language.",
      " "
    ] + Reminders + [PageClosing]
  }

  /** The lines of the page prompt, for the language named `langText`. */
  function PageLines(pageTitle: string, filePaths: seq<string>, langText: string, context: string): seq<string> {
    [PageOpening] + PageBriefing + DetailsLines(FileLinks(filePaths), context) + TitleLines(pageTitle)
    + PageGuidelines + ClosingLines(pageTitle, langText)
  }

  /** The page prompt for the language named `langText`: the template's lines, stripped. */
  function PagePrompt(pageTitle: string, filePaths: seq<string>, langText: string, context: string): (r: string)
    ensures IsTrimmed(r)
  {
    Strip("\n" + Join(PageLines(pageTitle, filePaths, langText, context), "\n") + "\n")
  }

  /** `build_page_content_prompt(page_title, file_paths, language, context)`. */
  function BuildPageContentPrompt(pageTitle: string, filePaths: seq<string>, language: string := "en", context: string := ""): (r: string)
    ensures IsTrimmed(r)
    ensures r == Join(PageLines(pageTitle, filePaths, LangText(language), context), "\n")
    ensures language !in Keys(LanguageMap) ==> r == PagePrompt(pageTitle, filePaths, "English", context)
  {
    PagePromptText(pageTitle, filePaths, LangText(language), context);
    PagePrompt(pageTitle, filePaths, LangText(language), context)
  }

  // ---------------------------------------------------------------------------
  // Properties
  // ---------------------------------------------------------------------------

  /** A code in the table gives its language. */
  lemma KnownLanguage()
    ensures LangText("ja") == "Japanese (\U{65E5}\U{672C}\U{8A9E})"
  {
  }

  /**
   * Codes are matched exactly, with no case folding: a code whose first letter
   * begins none of the table's codes (`de`, or `JA` in upper case) gives English.
   */
  lemma UnlistedInitial(language: string)
    requires language != [] && language[0] !in "ejzkvpfr"
    ensures LangText(language) == "English"
  {
    assert forall i :: 0 <= i < |LanguageMap| ==> LanguageMap[i].0[0] != language[0];
  }

  /**
   * The comprehensive format, and only it, carries the list of main sections, the
   * `<sections>` element, and a parent section on each page.
   */
  lemma SectionsOnlyWhenComprehensive(comprehensive: bool)
    ensures SectionList in FormatBlocks(comprehensive) <==> comprehensive
    ensures SectionsElement in FormatBlocks(comprehensive) <==> comprehensive
    ensures PagesElement(comprehensive) in FormatBlocks(comprehensive)
    ensures PagesElement(!comprehensive) !in FormatBlocks(comprehensive)
  {
    var bs := FormatBlocks(comprehensive);
    if comprehensive {
      assert bs[0] == SectionList && bs[4] == SectionsElement && bs[5] == PagesElement(true);
    } else {
      assert bs[3] == PagesElement(false);
    }
  }

  /** Both formats end with the root element's closing tag. */
  lemma FormatEndsWithTail(comprehensive: bool)
    ensures var lines := FormatLines(comprehensive);
      lines != [] && lines[|lines| - 1] == WikiTail
  {
    var bs := FormatBlocks(comprehensive);
    assert bs[|bs| - 1] == WikiClose;
  }

  /** Lines joined by line breaks and framed by one more at each end strip back to the joined lines. */
  lemma StripJoinedLines(lines: seq<string>)
    requires lines != [] && lines[0] != [] && lines[|lines| - 1] != []
    requires !IsSpace(lines[0][0]) && !IsSpace(lines[|lines| - 1][|lines[|lines| - 1]| - 1])
    ensures Strip("\n" + Join(lines, "\n") + "\n") == Join(lines, "\n")
  {
    JoinStart(lines, "\n");
    JoinFinish(lines, "\n");
    StripFramed("\n", Join(lines, "\n"), "\n");
  }

  /** Two blocks of lines, each followed by a line break, with one more between them, framed as above. */
  lemma StripTwoBlocks(head: seq<string>, tail: seq<string>)
    requires head != [] && head[0] != [] && !IsSpace(head[0][0])
    requires tail != [] && tail[|tail| - 1] != [] && !IsSpace(tail[|tail| - 1][|tail[|tail| - 1]| - 1])
    ensures Strip("\n" + Join(head, "\n") + "\n" + "\n" + Join(tail, "\n") + "\n")
      == Join(head, "\n") + "\n\n" + Join(tail, "\n")
  {
    JoinStart(head, "\n");
    JoinFinish(tail, "\n");
    var m := Join(head, "\n") + "\n\n" + Join(tail, "\n");
    assert m[0] == head[0][0];
    assert m[|m| - 1] == tail[|tail| - 1][|tail[|tail| - 1]| - 1];
    assert "\n" + Join(head, "\n") + "\n" + "\n" + Join(tail, "\n") + "\n" == "\n" + m + "\n";
    StripFramed("\n", m, "\n");
  }

  /** The character the structure prompt starts with. */
  lemma AnalyzeIntroStart()
    ensures AnalyzeIntro[0] == 'A'
  {
  }

  /** The character the structure prompt ends with. */
  lemma WikiTailEnd()
    ensures WikiTail[|WikiTail| - 1] == '>'
  {
  }

  /** The character the page prompt starts with. */
  lemma PageOpeningStart()
    ensures PageOpening[0] == 'Y'
  {
  }

  /** The character the page prompt ends with. */
  lemma PageClosingEnd()
    ensures PageClosing[|PageClosing| - 1] == '.'
  {
  }

  /**
   * Stripping removes only the line breaks around the template: the structure
   * prompt is the shared lines, a blank line, and the chosen format.
   */
  lemma StructurePromptText(fileTree: string, readme: string, owner: string, repo: string, langText: string, comprehensive: bool)
    ensures var base := StructureBaseLines(fileTree, readme, owner, repo, langText);
      StructurePrompt(fileTree, readme, owner, repo, langText, comprehensive)
        == Join(base, "\n") + "\n\n" + Join(FormatLines(comprehensive), "\n")
  {
    var base := StructureBaseLines(fileTree, readme, owner, repo, langText);
    var format := FormatLines(comprehensive);
    FormatEndsWithTail(comprehensive);
    AnalyzeIntroStart();
    WikiTailEnd();
    assert base[0][0] == 'A';
    StripTwoBlocks(base, format);
  }

  /** The structure prompt ends with the root element's closing tag. */
  lemma StructurePromptEnd(fileTree: string, readme: string, owner: string, repo: string, langText: string, comprehensive: bool)
    ensures EndsWith(StructurePrompt(fileTree, readme, owner, repo, langText, comprehensive), WikiTail)
  {
    var base := StructureBaseLines(fileTree, readme, owner, repo, langText);
    var format := FormatLines(comprehensive);
    StructurePromptText(fileTree, readme, owner, repo, langText, comprehensive);
    FormatEndsWithTail(comprehensive);
    JoinEndsWithLast(format, "\n");
    EndsWithPrepend(Join(base, "\n") + "\n\n", Join(format, "\n"), WikiTail);
  }

  /**
   * Stripping removes only the line breaks around the template: the page prompt
   * is exactly its lines with a line break between each two.
   */
  lemma PagePromptText(pageTitle: string, filePaths: seq<string>, langText: string, context: string)
    ensures PagePrompt(pageTitle, filePaths, langText, context) == Join(PageLines(pageTitle, filePaths, langText, context), "\n")
    ensures Interleaves(PagePrompt(pageTitle, filePaths, langText, context), PageLines(pageTitle, filePaths, langText, context), "\n")
  {
    var lines := PageLines(pageTitle, filePaths, langText, context);
    PageOpeningStart();
    PageClosingEnd();
    assert lines[0] == PageOpening && lines[|lines| - 1] == PageClosing;
    StripJoinedLines(lines);
    JoinInterleaves(lines, "\n");
  }

  /** The file links and the retrieved context each stand on lines of their own, the links first. */
  lemma PagePromptInputs(pageTitle: string, filePaths: seq<string>, langText: string, context: string)
    ensures var lines := PageLines(pageTitle, filePaths, langText, context);
      var k := 1 + |PageBriefing| + 1 + |SourcesSummary|;
      && lines[k] == FileLinks(filePaths)
      && lines[k + 7] == context
      && lines[k + 10] == HeadingIntro + pageTitle + "."
  {
  }

  /** A link line holds no line break when its path holds none. */
  lemma LinkLineSingle(path: string)
    requires '\n' !in path
    ensures '\n' !in LinkLine(path)
  {
  }

  /**
   * The link list splits back into one link line per path, in order, when no
   * path holds a line break; no paths give an empty list.
   */
  lemma FileLinksLines(paths: seq<string>)
    requires forall i :: 0 <= i < |paths| ==> '\n' !in paths[i]
    ensures paths != [] ==> Split(FileLinks(paths), '\n') == Links(paths)
    ensures paths == [] ==> FileLinks(paths) == ""
  {
    if paths != [] {
      forall k | 0 <= k < |paths|
        ensures '\n' !in Links(paths)[k]
      {
        LinkLineSingle(paths[k]);
      }
      SplitJoin(Links(paths), '\n');
    }
  }
}
