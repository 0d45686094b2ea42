/**
  The parts of a Grobid TEI document that the extractor reads, as plain values
  rather than XML. Each field is what the corresponding ElementTree query of
  app.py returns.
 */
module Tei {

  import opened Wrappers

  /**
    The text of an element that may be missing: `None` when the query finds no
    element, `Some(None)` when the element exists but its `.text` is None,
    `Some(Some(t))` otherwise. Also used for an attribute of an element that
    may be missing (`Some(None)`: the element is there, the attribute is not).
   */
  type Node = Option<Option<string>>

  /** `tei:persName` with its `tei:forename` and `tei:surname` children. */
  datatype PersName = PersName(forename: Node, surname: Node)

  /** One `tei:author` under `tei:sourceDesc`; it may lack a `tei:persName`. */
  datatype Author = Author(persName: Option<PersName>)

  /**
    The `tei:abstract` element: the `itertext` concatenation of each `tei:p`
    descendant, in document order, and the `itertext` concatenation of the
    whole element.
   */
  datatype Abstract = Abstract(paragraphs: seq<string>, allText: string)

  datatype Doc = Doc(
    title: Node,                    // first `tei:titleStmt/tei:title`
    date: Node,                     // `when` attribute of the first `tei:publicationStmt/tei:date`
    authors: seq<Author>,           // every `tei:sourceDesc//tei:author`
    abstractNode: Option<Abstract>, // first `tei:abstract`
    bibTitles: seq<Option<string>>  // `.text` of every `tei:listBibl//tei:title`
  )
}
