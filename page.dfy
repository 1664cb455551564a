/** The page content model of the teletext viewer: the Go structs that mirror
    the C library's html_text, html_link, html_item, html_row and html_parser. */
module Page {

  /** A run of plain text (HTMLText). */
  datatype HtmlText = HtmlText(text: string)

  /** A hyperlink (HTMLLink): the target is kept but only innerText is shown. */
  datatype HtmlLink = HtmlLink(url: string, innerText: string)

  /** One item of a row (HTMLItem). The Go struct pairs an integer tag with an
      untyped payload; here the payload is fixed by the case. Other stands for
      an item whose tag is neither the text tag nor the link tag: the converter
      has no default branch, so such an item, if the library produced one, would
      keep its tag and an empty payload. */
  datatype Item =
    | Text(t: HtmlText)
    | Link(l: HtmlLink)
    | Other(itemType: int)

  /** An ordered line of items (HTMLRow). */
  datatype HtmlRow = HtmlRow(items: seq<Item>)

  /** The whole page (HTMLParser). The two navigation arrays are filled in by the
      converter and never rendered. */
  datatype HtmlParser = HtmlParser(
    title: HtmlText,
    topNavigation: seq<Item>,
    bottomNavigation: seq<HtmlLink>,
    subPages: HtmlRow,
    middle: seq<HtmlRow>,
    loadError: bool)

  /** The payload of a text item; the item is exactly that payload tagged as text. */
  function ItemAsText(item: Item): (r: HtmlText)
    requires item.Text?
    ensures Text(r) == item
  {
    item.t
  }

  /** The payload of a link item; the item is exactly that payload tagged as a link. */
  function ItemAsLink(item: Item): (r: HtmlLink)
    requires item.Link?
    ensures Link(r) == item
  {
    item.l
  }

  /** What an item shows on screen: a text's text, a link's inner text, and
      nothing for an item of an unrecognised kind. */
  function DisplayText(item: Item): string
  {
    match item
    case Text(_) => ItemAsText(item).text
    case Link(_) => ItemAsLink(item).innerText
    case Other(_) => ""
  }
}
