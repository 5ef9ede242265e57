/** The converted markup as the post-processing sees it: its elements in document order.
    An element's text is the sequence of text strings inside it, descendants included. */
module Markup {
  import opened Wrappers

  /** One element of the converted markup: tag name, text fragments, and `src` attribute
      (None when the element has no `src`). */
  datatype Element = Element(tag: string, fragments: seq<string>, src: Option<string>)

  /** The markup tree in document order. */
  type Tree = seq<Element>

  const H1: string := "h1"
  const Paragraph: string := "p"
  const Img: string := "img"
}
