/**
 * What the HTML library hands the parsers. Parsing the document and matching CSS selectors is done by
 * selectolax/Lexbor, which is not part of this model: a `Document` records, for each selector the parsers
 * ask for, what it returned, in document order.
 */
module Dom {
  import opened Wrappers

  /** Python's `attributes.get(name, default)`. */
  function Get(attrs: map<string, string>, name: string, default: string): string
  {
    if name in attrs then attrs[name] else default
  }

  /** An element: its attributes, its `text(strip=True)` and its markup as `html` serialises it. */
  datatype Element = Element(attrs: map<string, string>, text: string, html: string)
  {
    /** Python's `attributes.get(name, default)`. */
    function Attr(name: string, default: string): string {
      Get(attrs, name, default)
    }

    /** Python's `attributes.get(name)`. */
    function AttrOpt(name: string): Option<string> {
      if name in attrs then Some(attrs[name]) else None
    }
  }

  /** A `span.thumb`: its first `a` and its first `a > img`. */
  datatype Thumb = Thumb(anchor: Option<Element>, img: Option<Element>)

  /** An `li` of `#tag-sidebar`: its attributes, its first `a[href*="tags="]` and its first `span.tag-count`. */
  datatype TagItem = TagItem(attrs: map<string, string>, tagLink: Option<Element>, countSpan: Option<Element>)

  /** An `li` of `#stats`: its stripped text, its first `span` and its first `a`. */
  datatype StatsItem = StatsItem(text: string, span: Option<Element>, anchor: Option<Element>)

  /** The `.col1` of a comment: its stripped text, its first `a` and its first `a[id^="sc"]`. */
  datatype CommentHeader = CommentHeader(text: string, userLink: Option<Element>, scoreLink: Option<Element>)

  /** A `div[id^="c"]` of `#comment-list`: its attributes, its `.col1` and its `.col2`. */
  datatype CommentDiv = CommentDiv(attrs: map<string, string>, col1: Option<CommentHeader>, col2: Option<Element>)

  /** A `td`: its stripped text and its first `a`. */
  datatype Cell = Cell(text: string, anchor: Option<Element>)

  /** A parsed page: the raw text and every selector result the parsers use. */
  datatype Document = Document(
    html: string,                         // the page text, searched by regular expressions directly
    thumbs: seq<Thumb>,                   // span.thumb
    tagSidebar: Option<seq<TagItem>>,     // #tag-sidebar, then its li
    mainImage: Option<Element>,           // img#image
    originalLink: Option<Element>,        // a[href*="images"]
    stats: Option<seq<StatsItem>>,        // #stats, then its li
    commentList: Option<seq<CommentDiv>>, // #comment-list, then its div[id^="c"]
    heading: Option<Element>,             // #content > h2
    favoritesLink: Option<Element>,       // a[href*="page=favorites"]
    tableRows: seq<seq<Cell>>,            // table tr, then each row's td
    imageLists: seq<seq<Thumb>>)          // .image-list, then each list's span.thumb
}
