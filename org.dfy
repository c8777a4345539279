/** The document tree of an org file, as `src/lib.rs` declares it. */
module Org {
  import opened Wrappers

  /** Rust's `u32`. */
  newtype u32 = x: int | 0 <= x < 0x1_0000_0000

  /** The (still empty) kinds of content a section will hold. */
  datatype GreaterElement =
    | Block
    | Drawer
    | DynamicBlock
    | Footnote
    | Inlinetask
    | PlainList
    | PropertyDrawer
    | Table

  /** The content under a headline, or before the first headline. */
  datatype Section = Section(contents: seq<GreaterElement>)

  /** One headline: `STARS KEYWORD PRIORITY TITLE TAGS`, with its own
      section and the deeper headlines below it. */
  datatype Headline = Headline(
    level: u32,
    keyword: Option<string>,
    priority: Option<char>,
    title: string,
    tags: seq<string>,
    section: Option<Section>,
    headlines: seq<Headline>)

  /** A parsed org file: the section before the first headline, then the
      headlines. */
  datatype Document = Document(
    firstSection: Option<Section>,
    headlines: seq<Headline>)
}
