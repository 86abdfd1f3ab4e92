/** The retrieval documents the RAG helpers pass around, and the text splitter. */
module Documents {
  /** A document: its text and the `source` recorded in its metadata. */
  datatype Doc = Doc(content: string, source: string)

  /**
   * The text splitter (chunk size 512, overlap 50, separators blank line, line
   * break, space); its chunking is not modelled.
   */
  type Splitter = seq<Doc> -> seq<Doc>
}
