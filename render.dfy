/** The terminal renderer as pure functions: what printTitle, printMiddle and the
    load gate of main write to standard output, with the standard output stream
    taken to be one accumulated string. */
module Render {
  import opened Page

  // ---------------------------------------------------------------------------
  // Counting characters in rendered text
  // ---------------------------------------------------------------------------

  /** Number of occurrences of c in s. */
  function Count(s: string, c: char): nat
  {
    if s == [] then 0 else (if s[0] == c then 1 else 0) + Count(s[1..], c)
  }

  lemma {:induction false} CountAppend(a: string, b: string, c: char)
    ensures Count(a + b, c) == Count(a, c) + Count(b, c)
  {
    if a == [] {
      assert a + b == b;
    } else {
      assert (a + b)[0] == a[0];
      assert (a + b)[1..] == a[1..] + b;
      CountAppend(a[1..], b, c);
    }
  }

  lemma {:induction false} CountAbsent(s: string, c: char)
    requires c !in s
    ensures Count(s, c) == 0
  {
    if s != [] {
      assert forall x :: x in s[1..] ==> x in s;
      CountAbsent(s[1..], c);
    }
  }

  /** Count of c in a one-character prefix followed by s. */
  lemma CountCons(x: char, s: string, c: char)
    ensures Count([x] + s, c) == (if x == c then 1 else 0) + Count(s, c)
  {
    assert ([x] + s)[0] == x;
    assert ([x] + s)[1..] == s;
  }

  // ---------------------------------------------------------------------------
  // The body rows: adjacency rule with a carried last kind
  // ---------------------------------------------------------------------------

  /** The values lastType takes in printMiddle: only the text tag and the link tag
      are ever assigned to it. */
  datatype Kind = TextKind | LinkKind

  /** Text written so far, together with the value of lastType afterwards. */
  datatype Rendered = Rendered(out: string, last: Kind)

  /** One item of a body row. A link is preceded by "-" when the last item
      rendered was a link; an item of an unrecognised kind writes nothing and
      leaves the last kind as it was. */
  function RenderItem(item: Item, last: Kind): Rendered
  {
    match item
    case Text(t) => Rendered(t.text, TextKind)
    case Link(l) => Rendered(if last == LinkKind then "-" + l.innerText else l.innerText, LinkKind)
    case Other(_) => Rendered("", last)
  }

  /** The items of a body row, left to right, threading the last kind. */
  function RenderItems(items: seq<Item>, last: Kind): Rendered
  {
    if items == [] then Rendered("", last)
    else
      var first := RenderItem(items[0], last);
      var rest := RenderItems(items[1..], first.last);
      Rendered(first.out + rest.out, rest.last)
  }

  /** The display texts of the items, concatenated with nothing between them. */
  function Plain(items: seq<Item>): string
  {
    if items == [] then "" else DisplayText(items[0]) + Plain(items[1..])
  }

  /** Reference definition of "the kind of the previously rendered item": the
      kind of the last text or link item in items, or last when there is none. */
  function LastKind(items: seq<Item>, last: Kind): Kind
  {
    if items == [] then last
    else
      match items[|items| - 1]
      case Text(_) => TextKind
      case Link(_) => LinkKind
      case Other(_) => LastKind(items[..|items| - 1], last)
  }

  /** Reference count of the links that directly follow another link (with only
      items of unrecognised kinds between them), starting from kind last. */
  function Joins(items: seq<Item>, last: Kind): nat
  {
    if items == [] then 0
    else
      var init := items[..|items| - 1];
      Joins(init, last) + (if items[|items| - 1].Link? && LastKind(init, last) == LinkKind then 1 else 0)
  }

  /** The body rows: each is an indent, its items, and a newline; the last kind
      flows from one row into the next. */
  function RenderRows(rows: seq<HtmlRow>, last: Kind): Rendered
  {
    if rows == [] then Rendered("", last)
    else
      var line := RenderItems(rows[0].items, last);
      var rest := RenderRows(rows[1..], line.last);
      Rendered("  " + line.out + "\n" + rest.out, rest.last)
  }

  /** All items of the rows, in row order. */
  function Flatten(rows: seq<HtmlRow>): seq<Item>
  {
    if rows == [] then [] else rows[0].items + Flatten(rows[1..])
  }

  // ---------------------------------------------------------------------------
  // Page-level output
  // ---------------------------------------------------------------------------

  /** The line main prints when the page could not be loaded. */
  const FailedLoad: string := "Failed load the page\n"

  /** printTitle: a blank line, the title indented by two spaces, a newline. */
  function PrintTitle(parser: HtmlParser): (r: string)
    ensures |r| == |parser.title.text| + 4
    ensures r[..3] == "\n  " && r[3..|r| - 1] == parser.title.text && r[|r| - 1] == '\n'
  {
    "\n  " + parser.title.text + "\n"
  }

  /** printMiddle: the body rows starting from the text kind, then the sub-page
      row on one indented line with its items simply concatenated, then a blank line. */
  function MiddleText(parser: HtmlParser): string
  {
    RenderRows(parser.middle, TextKind).out + "  " + Plain(parser.subPages.items) + "\n\n"
  }

  /** Everything main writes for a page once it has been converted. The failure
      line is written exactly when the page failed to load: a rendered page
      starts with a newline and so can never be mistaken for it. */
  function Output(parser: HtmlParser): (r: string)
    ensures r == FailedLoad <==> parser.loadError
  {
    if parser.loadError then FailedLoad
    else
      var r := PrintTitle(parser) + MiddleText(parser);
      assert r[0] == '\n' != FailedLoad[0];
      r
  }

  // ---------------------------------------------------------------------------
  // Composition of the renderers
  // ---------------------------------------------------------------------------

  /** Rendering a row in two pieces, the second starting from the kind the first
      ended with, is rendering it whole. */
  lemma {:induction false} RenderItemsAppend(a: seq<Item>, b: seq<Item>, k: Kind)
    ensures RenderItems(a + b, k)
         == Rendered(RenderItems(a, k).out + RenderItems(b, RenderItems(a, k).last).out,
                     RenderItems(b, RenderItems(a, k).last).last)
  {
    if a == [] {
      assert a + b == b;
    } else {
      assert (a + b)[0] == a[0];
      assert (a + b)[1..] == a[1..] + b;
      RenderItemsAppend(a[1..], b, RenderItem(a[0], k).last);
    }
  }

  /** Rendering one more item appends that item's output, from the kind reached so far. */
  lemma RenderItemsSnoc(items: seq<Item>, x: Item, k: Kind)
    ensures RenderItems(items + [x], k)
         == Rendered(RenderItems(items, k).out + RenderItem(x, RenderItems(items, k).last).out,
                     RenderItem(x, RenderItems(items, k).last).last)
  {
    RenderItemsAppend(items, [x], k);
    assert [x][1..] == [];
  }

  lemma {:induction false} PlainAppend(a: seq<Item>, b: seq<Item>)
    ensures Plain(a + b) == Plain(a) + Plain(b)
  {
    if a == [] {
      assert a + b == b;
    } else {
      assert (a + b)[0] == a[0];
      assert (a + b)[1..] == a[1..] + b;
      PlainAppend(a[1..], b);
    }
  }

  lemma PlainSnoc(items: seq<Item>, x: Item)
    ensures Plain(items + [x]) == Plain(items) + DisplayText(x)
  {
    PlainAppend(items, [x]);
    assert [x][1..] == [];
  }

  lemma {:induction false} LastKindAppend(a: seq<Item>, b: seq<Item>, k: Kind)
    ensures LastKind(a + b, k) == LastKind(b, LastKind(a, k))
  {
    if b == [] {
      assert a + b == a;
    } else {
      var n := |b| - 1;
      assert (a + b)[|a + b| - 1] == b[n];
      assert (a + b)[..|a + b| - 1] == a + b[..n];
      LastKindAppend(a, b[..n], k);
    }
  }

  // ---------------------------------------------------------------------------
  // The adjacency rule
  // ---------------------------------------------------------------------------

  /** The last kind after rendering is the kind of the last text or link item,
      or the incoming kind when the items hold neither. */
  lemma {:induction false} RenderItemsLast(items: seq<Item>, k: Kind)
    ensures RenderItems(items, k).last == LastKind(items, k)
  {
    if items != [] {
      var init := items[..|items| - 1];
      assert items == init + [items[|items| - 1]];
      RenderItemsSnoc(init, items[|items| - 1], k);
      RenderItemsLast(init, k);
    }
  }

  /** A text item writes its text verbatim and makes the last kind text. */
  lemma TextAppended(items: seq<Item>, t: string, k: Kind)
    ensures RenderItems(items + [Text(HtmlText(t))], k) == Rendered(RenderItems(items, k).out + t, TextKind)
  {
    RenderItemsSnoc(items, Text(HtmlText(t)), k);
  }

  /** A link item writes "-" before its inner text exactly when the previously
      rendered item was a link (or, at the very start, when the incoming kind is
      link), and makes the last kind link. */
  lemma LinkAppended(items: seq<Item>, url: string, inner: string, k: Kind)
    ensures RenderItems(items + [Link(HtmlLink(url, inner))], k)
         == Rendered(RenderItems(items, k).out + (if LastKind(items, k) == LinkKind then "-" else "") + inner,
                     LinkKind)
  {
    RenderItemsSnoc(items, Link(HtmlLink(url, inner)), k);
    RenderItemsLast(items, k);
  }

  /** An item of an unrecognised kind, wherever it stands, changes neither the
      output nor the last kind. */
  lemma OtherIgnored(a: seq<Item>, n: int, b: seq<Item>, k: Kind)
    ensures RenderItems(a + [Other(n)] + b, k) == RenderItems(a + b, k)
  {
    RenderItemsAppend(a + [Other(n)], b, k);
    RenderItemsSnoc(a, Other(n), k);
    RenderItemsAppend(a, b, k);
    assert RenderItems(a, k).out + "" == RenderItems(a, k).out;
  }

  /** A row made only of text items renders as the plain concatenation of the
      texts, and leaves the last kind text (unchanged when the row is empty). */
  lemma {:induction false} TextOnlyRow(items: seq<Item>, k: Kind)
    requires forall i :: 0 <= i < |items| ==> items[i].Text?
    ensures RenderItems(items, k) == Rendered(Plain(items), if items == [] then k else TextKind)
  {
    if items != [] {
      TextOnlyRow(items[1..], TextKind);
    }
  }

  /** Without a link directly following a link, a row renders as the plain
      concatenation of its display texts: "-" is inserted nowhere else. */
  lemma {:induction false} NoJoinsPlain(items: seq<Item>, k: Kind)
    requires Joins(items, k) == 0
    ensures RenderItems(items, k).out == Plain(items)
  {
    if items != [] {
      var init, x := items[..|items| - 1], items[|items| - 1];
      assert items == init + [x];
      NoJoinsPlain(init, k);
      RenderItemsSnoc(init, x, k);
      RenderItemsLast(init, k);
      PlainSnoc(init, x);
    }
  }

  /** The rendered row holds exactly the characters of its display texts plus one
      "-" for every link that directly follows a link. */
  lemma {:induction false} Separators(items: seq<Item>, k: Kind, c: char)
    ensures Count(RenderItems(items, k).out, c)
         == Count(Plain(items), c) + (if c == '-' then Joins(items, k) else 0)
  {
    if items != [] {
      var init, x := items[..|items| - 1], items[|items| - 1];
      assert items == init + [x];
      Separators(init, k, c);
      RenderItemsSnoc(init, x, k);
      RenderItemsLast(init, k);
      PlainSnoc(init, x);
      var p := RenderItems(init, k);
      CountAppend(p.out, RenderItem(x, p.last).out, c);
      CountAppend(Plain(init), DisplayText(x), c);
      if x.Link? && p.last == LinkKind {
        CountCons('-', x.l.innerText, c);
        assert "-" + x.l.innerText == ['-'] + x.l.innerText;
      }
    }
  }

  /** The sub-page line ignores items of unrecognised kinds as well. */
  lemma SubPageOtherIgnored(a: seq<Item>, n: int, b: seq<Item>)
    ensures Plain(a + [Other(n)] + b) == Plain(a + b)
  {
    PlainAppend(a + [Other(n)], b);
    PlainSnoc(a, Other(n));
    PlainAppend(a, b);
    assert Plain(a) + "" == Plain(a);
  }

  /** The sub-page line (display texts with no separators) and the body rendering
      of the same items agree exactly when no link directly follows a link. */
  lemma PlainIffNoJoins(items: seq<Item>, k: Kind)
    ensures RenderItems(items, k).out == Plain(items) <==> Joins(items, k) == 0
  {
    Separators(items, k, '-');
    if Joins(items, k) == 0 {
      NoJoinsPlain(items, k);
    }
  }

  // ---------------------------------------------------------------------------
  // The body: rows in order, last kind carried across them
  // ---------------------------------------------------------------------------

  /** Rendering rows in two groups, the second starting from the kind the first
      ended with, is rendering them all. */
  lemma {:induction false} RenderRowsAppend(a: seq<HtmlRow>, b: seq<HtmlRow>, k: Kind)
    ensures RenderRows(a + b, k)
         == Rendered(RenderRows(a, k).out + RenderRows(b, RenderRows(a, k).last).out,
                     RenderRows(b, RenderRows(a, k).last).last)
  {
    if a == [] {
      assert a + b == b;
    } else {
      assert (a + b)[0] == a[0];
      assert (a + b)[1..] == a[1..] + b;
      RenderRowsAppend(a[1..], b, RenderItems(a[0].items, k).last);
    }
  }

  /** One more row adds its indent, its items rendered from the kind reached so
      far, and a newline. */
  lemma RenderRowsSnoc(rows: seq<HtmlRow>, row: HtmlRow, k: Kind)
    ensures RenderRows(rows + [row], k)
         == Rendered(RenderRows(rows, k).out + "  " + RenderItems(row.items, RenderRows(rows, k).last).out + "\n",
                     RenderItems(row.items, RenderRows(rows, k).last).last)
  {
    RenderRowsAppend(rows, [row], k);
    assert [row][1..] == [];
  }

  /** The kind is never reset per row: after the rows it is the kind of the last
      text or link item in any of them, or the initial kind if there is none. */
  lemma {:induction false} RowsCarryKind(rows: seq<HtmlRow>, k: Kind)
    ensures RenderRows(rows, k).last == LastKind(Flatten(rows), k)
  {
    if rows != [] {
      var line := RenderItems(rows[0].items, k);
      RowsCarryKind(rows[1..], line.last);
      RenderItemsLast(rows[0].items, k);
      LastKindAppend(rows[0].items, Flatten(rows[1..]), k);
    }
  }

  /** Row i of the body is written, in its place, as an indent, its items
      rendered from the kind of the last text or link item of the rows before it,
      and a newline. */
  lemma RowLine(rows: seq<HtmlRow>, k: Kind, i: nat)
    requires i < |rows|
    ensures var before := RenderRows(rows[..i], k);
            var line := RenderItems(rows[i].items, LastKind(Flatten(rows[..i]), k));
            RenderRows(rows, k).out
            == before.out + "  " + line.out + "\n" + RenderRows(rows[i + 1..], line.last).out
  {
    assert rows == rows[..i] + rows[i..];
    RenderRowsAppend(rows[..i], rows[i..], k);
    RowsCarryKind(rows[..i], k);
    assert rows[i..][0] == rows[i];
    assert rows[i..][1..] == rows[i + 1..];
  }

  // ---------------------------------------------------------------------------
  // Line layout
  // ---------------------------------------------------------------------------

  /** No item of the row shows a newline. */
  predicate NoNewlineIn(items: seq<Item>)
  {
    forall i :: 0 <= i < |items| ==> '\n' !in DisplayText(items[i])
  }

  lemma {:induction false} PlainNoNewline(items: seq<Item>)
    requires NoNewlineIn(items)
    ensures Count(Plain(items), '\n') == 0
  {
    if items != [] {
      assert '\n' !in DisplayText(items[0]);
      CountAbsent(DisplayText(items[0]), '\n');
      PlainNoNewline(items[1..]);
      CountAppend(DisplayText(items[0]), Plain(items[1..]), '\n');
    }
  }

  /** When no item shows a newline, the body rows occupy exactly one line each. */
  lemma {:induction false} RowsOneLineEach(rows: seq<HtmlRow>, k: Kind)
    requires forall i :: 0 <= i < |rows| ==> NoNewlineIn(rows[i].items)
    ensures Count(RenderRows(rows, k).out, '\n') == |rows|
  {
    if rows != [] {
      var line := RenderItems(rows[0].items, k);
      RowsOneLineEach(rows[1..], line.last);
      Separators(rows[0].items, k, '\n');
      PlainNoNewline(rows[0].items);
      CountAbsent("  ", '\n');
      CountCons('\n', [], '\n');
      assert "\n" == ['\n'] + [];
      CountAppend("  ", line.out, '\n');
      CountAppend("  " + line.out, "\n", '\n');
      CountAppend("  " + line.out + "\n", RenderRows(rows[1..], line.last).out, '\n');
    }
  }

  /** When neither the title nor any rendered item shows a newline, a loaded page
      is the title framed by a blank line, one line per body row, the sub-page
      line, and a closing blank line. */
  lemma PageLines(parser: HtmlParser)
    requires !parser.loadError
    requires '\n' !in parser.title.text
    requires forall i :: 0 <= i < |parser.middle| ==> NoNewlineIn(parser.middle[i].items)
    requires NoNewlineIn(parser.subPages.items)
    ensures Count(Output(parser), '\n') == |parser.middle| + 4
  {
    var title := parser.title.text;
    var rows := RenderRows(parser.middle, TextKind).out;
    var sub := Plain(parser.subPages.items);
    RowsOneLineEach(parser.middle, TextKind);
    PlainNoNewline(parser.subPages.items);
    CountAbsent(title, '\n');
    CountAbsent("  ", '\n');
    assert "\n  " == ['\n'] + "  ";
    CountCons('\n', "  ", '\n');
    assert "\n" == ['\n'] + [];
    CountCons('\n', [], '\n');
    assert "\n\n" == ['\n'] + "\n";
    CountCons('\n', "\n", '\n');
    CountAppend("\n  ", title, '\n');
    CountAppend("\n  " + title, "\n", '\n');
    CountAppend(rows, "  ", '\n');
    CountAppend(rows + "  ", sub, '\n');
    CountAppend(rows + "  " + sub, "\n\n", '\n');
    CountAppend(PrintTitle(parser), MiddleText(parser), '\n');
  }

  // ---------------------------------------------------------------------------
  // Worked cases
  // ---------------------------------------------------------------------------

  /** Two links after a text: one "-" between the links, none after the text. */
  lemma WeatherRow(u1: string, u2: string)
    ensures RenderItems([Text(HtmlText("Weather: ")), Link(HtmlLink(u1, "Sunny")), Link(HtmlLink(u2, "Rainy"))], TextKind).out
         == "Weather: Sunny-Rainy"
  {
    var t, l1, l2 := Text(HtmlText("Weather: ")), Link(HtmlLink(u1, "Sunny")), Link(HtmlLink(u2, "Rainy"));
    TextAppended([], "Weather: ", TextKind);
    assert [] + [t] == [t];
    LinkAppended([t], u1, "Sunny", TextKind);
    LinkAppended([t, l1], u2, "Rainy", TextKind);
    assert [t] + [l1] == [t, l1];
    assert [t, l1] + [l2] == [t, l1, l2];
  }

  /** The kind carried from one row into the next: a row holding only a link,
      after a row that ended with a link, starts with "-". The sub-page row
      puts no "-" between its links. */
  lemma CarriedAcrossRows(p: HtmlParser, u1: string, u2: string)
    requires p.middle == [HtmlRow([Link(HtmlLink(u1, "A"))]), HtmlRow([Link(HtmlLink(u2, "B"))])]
    requires p.subPages == HtmlRow([Link(HtmlLink(u1, "1")), Link(HtmlLink(u2, "2"))])
    ensures MiddleText(p) == "  A\n  -B\n  12\n\n"
  {
    var r1, r2 := HtmlRow([Link(HtmlLink(u1, "A"))]), HtmlRow([Link(HtmlLink(u2, "B"))]);
    var s1, s2 := Link(HtmlLink(u1, "1")), Link(HtmlLink(u2, "2"));
    assert [] + [r1] == [r1] && [r1] + [r2] == p.middle;
    assert [] + [Link(HtmlLink(u1, "A"))] == r1.items && [] + [Link(HtmlLink(u2, "B"))] == r2.items;
    assert [] + [s1] == [s1] && [s1] + [s2] == p.subPages.items;
    LinkAppended([], u1, "A", TextKind);
    LinkAppended([], u2, "B", LinkKind);
    RenderRowsSnoc([], r1, TextKind);
    RenderRowsSnoc([r1], r2, TextKind);
    PlainSnoc([], s1);
    PlainSnoc([s1], s2);
  }
}
