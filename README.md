# Teletext page renderer (yle-tekstitv-go, print.go)

This project models the page content model and terminal renderer of the
yle-tekstitv-go viewer. The viewer shows one teletext page. Its content arrives
already parsed into a title, navigation arrays, a sub-page index row and body
rows of text and link items. The project has three Dafny modules, one per file:

- `Page` (page.dfy): the Go structs `HTMLText`, `HTMLLink`, `HTMLItem`, `HTMLRow`
  and `HTMLParser` as datatypes, and the projections `ItemAsText` and `ItemAsLink`.
  `HTMLItem` becomes a closed sum with three cases: `Text` (holding an
  `HtmlText`), `Link` (holding an `HtmlLink`), and `Other`. `Other` is an item
  whose tag is neither text nor link. The converter has no default branch for
  such tags, so an item with such a tag, if the library produced one, would be
  kept with an empty payload.
- `Render` (render.dfy): pure specification functions for what is written to
  standard output, plus the lemmas.
  - `RenderItems` applies the adjacency rule along a row and threads the last
    rendered kind.
  - `RenderRows` renders the body rows. The last kind carries over from one row
    to the next.
  - `Plain` builds the sub-page line.
  - `PrintTitle` renders the title. `MiddleText` is the full output of
    `printMiddle`. `Output` is what `main` prints after the load gate.
  - `LastKind` and `Joins` are separate reference definitions. `LastKind` gives
    the kind of the previously rendered item. `Joins` counts the links that follow
    a link. The lemmas connect them to the renderer.
- `Printer` (printer.dfy): `printMiddle` as a method. It has the source's nested
  loops, a mutable `lastType` and the second loop over the sub-page row, and is
  proved equal to `MiddleText`. `ShowPage` is the load-error branch of `main`.

Standard output is modelled as a returned string, built by appending in the
order the source prints. `lastType` is a Go `int`, but it only ever holds the
text tag or the link tag, so it is modelled as `Kind = TextKind | LinkKind`.

Two behaviours of the code that the model keeps:

- `cHTMLItem` has no default branch for an unknown tag, only a TODO
  (print.go:92-100). Such an item is kept with no error, both renderers skip it,
  and the model's `Other` does the same.
- The `lastType` flag is set once, before the first body row, and is never reset.
  A body row whose first item is a link therefore starts with `-` when the
  previous row ended with a link. The model keeps this behaviour.

## Model

| member | source | states |
|---|---|---|
| Page.ItemAsText | print.go:77-80 | reading a text item's payload loses nothing: the item is the text item with that text |
| Page.ItemAsLink | print.go:82-85 | reading a link item's payload loses nothing: the item is the link item with that url and inner text |
| Render.PrintTitle | print.go:147-149 | the title output is a newline, two spaces, the title text verbatim and a newline; its length is the title's length plus four |
| Render.Output | print.go:206-211 | the fixed failure line is printed if and only if the page has its load-error flag set; a rendered page can never equal it |
| Render.RenderItemsAppend | print.go:155-170 | rendering a row in two parts, where the second part starts from the kind the first part ended with, gives the same text and final kind as rendering it whole |
| Render.RenderItemsSnoc | print.go:156-169 | one more item appends exactly that item's output, rendered from the kind reached so far |
| Render.RenderItemsLast | print.go:157-169 | after a row, lastType is the kind of the last text or link item, or the incoming kind if the row has neither |
| Render.TextAppended | print.go:158-161 | a text item appends its text verbatim and sets the last kind to text |
| Render.LinkAppended | print.go:162-167 | a link item appends "-" then its inner text exactly when the previously rendered item was a link, and only its inner text otherwise; the last kind becomes link |
| Render.OtherIgnored | print.go:157-169 | an item with an unrecognised tag, at any position in a row, changes neither the output nor the last kind |
| Render.TextOnlyRow | print.go:158-161 | a row of text items renders as the concatenation of their texts with no "-", and leaves the last kind text (unchanged for an empty row) |
| Render.NoJoinsPlain | print.go:155-170 | if no link directly follows a link, the row renders as the plain concatenation of its display texts |
| Render.Separators | print.go:155-170 | for every character, the rendered row has exactly as many occurrences as its display texts, plus one "-" for each link that directly follows a link |
| Render.SubPageOtherIgnored | print.go:175-185 | an item with an unrecognised tag adds nothing to the sub-page line |
| Render.PlainIffNoJoins | print.go:174-187 | the sub-page line (with no separators) equals the body rendering of the same items if and only if no link directly follows a link |
| Render.RenderRowsAppend | print.go:153-172 | rendering body rows in two groups, where the second group starts from the kind the first ended with, is the same as rendering them all |
| Render.RenderRowsSnoc | print.go:153-172 | one more body row appends two spaces, its items rendered from the kind reached so far, and a newline |
| Render.RowsCarryKind | print.go:152-172 | lastType is never reset per row: after the rows, it is the kind of the last text or link item in any row, or the initial kind |
| Render.RowLine | print.go:152-172 | body row i is written in its place as two spaces, then its items rendered from the kind of the last text or link item in earlier rows, then a newline |
| Render.RowsOneLineEach | print.go:153-172 | if no item's display text contains a newline, the body has exactly one newline per middle row |
| Render.PageLines | print.go:147-211 | if a loaded page's title and items contain no newline, its output has exactly (middle rows + 4) newlines: the blank line and title line, one per body row, the sub-page line and the closing blank line |
| Render.WeatherRow | print.go:155-170 | [Text "Weather: ", Link "Sunny", Link "Rainy"] renders as "Weather: Sunny-Rainy" |
| Render.CarriedAcrossRows | print.go:151-188 | body rows [[Link "A"], [Link "B"]] with sub-page row [Link "1", Link "2"] render as "  A\n  -B\n  12\n\n" |
| Printer.PrintMiddle | print.go:151-188 | the nested loops, with the mutable lastType carried across rows and the sub-page loop after them, write exactly MiddleText |
| Printer.ShowPage | print.go:206-211 | a page with the load-error flag gets only the failure line; any other page gets the title and then the body, each once |

## Left out

- The cgo conversion functions (`cHTMLText`, `cHTMLLink`, `cHTMLItem`, `cHTMLRow`,
  `cHTMLParser`) and the C helper `row_index_helper` are left out. They read C
  structs from a foreign library whose source is not part of this model. The
  model starts from a page value that is already built.
- The foreign calls `init_html_parser`, `link_from_ints`, `load_page`,
  `parse_html` and `free_html_parser` are left out. They cover network fetching,
  HTML parsing and freeing memory inside the C library. Their only effect that
  this model sees is the `loadError` flag.
- Command-line handling is left out: reading the page number from the arguments,
  the default page 100, and the ignored parse error.
- The top and bottom navigation arrays are kept as plain sequences in the page
  datatype. Nothing renders them. Their fixed sizes come from constants in the
  C header, which is not part of this model, so their lengths are not constrained.
- Page.ItemAsText and Page.ItemAsLink: the Go type assertion panics when the tag
  and payload do not match. The datatype makes such a mismatch impossible, so the
  projections instead require an item of the matching case.
- `fmt.Printf` as an output sink is not modelled. Output is one accumulated
  string, and write errors are not modelled.
