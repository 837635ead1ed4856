/**
 * The values that flow between the ingestion and query sides: a document (or
 * chunk) is its text and a metadata dictionary; a loader either returns
 * documents or raises, which is modelled as an error result.
 */
module Documents {

  /** A document's metadata dictionary; values are modelled as strings. */
  type Metadata = map<string, string>

  /** A loaded document or a chunk of one: `page_content` and `metadata`. */
  datatype Document = Document(pageContent: string, metadata: Metadata)

  /** The outcome of a call that may raise: its value, or the exception's message. */
  datatype Result<T> = Ok(value: T) | Err(error: string)
}
