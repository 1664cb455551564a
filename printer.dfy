/** The printing code of the viewer as it runs: printMiddle's nested loops with a
    mutable lastType, and the load-error branch of main. Each call returns the
    text it would write to standard output. */
module Printer {
  import opened Page
  import opened Render

  /** printMiddle: writes every body row as an indent, its items and a newline,
      inserting "-" between a link and the link rendered before it (lastType is
      set once and carried from row to row), then the sub-page row with no
      separators, then a blank line. */
  method PrintMiddle(parser: HtmlParser) returns (out: string)
    ensures out == MiddleText(parser)
  {
    var lastType := TextKind;
    out := "";
    var i := 0;
    while i < |parser.middle|
      invariant i <= |parser.middle|
      invariant out == RenderRows(parser.middle[..i], TextKind).out
      invariant lastType == RenderRows(parser.middle[..i], TextKind).last
    {
      ghost var done := RenderRows(parser.middle[..i], TextKind);
      ghost var line := RenderItems(parser.middle[i].items, done.last);
      assert RenderRows(parser.middle[..i + 1], TextKind) == Rendered(done.out + "  " + line.out + "\n", line.last) by {
        RenderRowsSnoc(parser.middle[..i], parser.middle[i], TextKind);
        TakeSnoc(parser.middle, i);
      }
      out := out + "  ";
      ghost var lineStart, entry := out, lastType;
      var items := parser.middle[i].items;
      var j := 0;
      while j < |items|
        invariant j <= |items|
        invariant out == lineStart + RenderItems(items[..j], entry).out
        invariant lastType == RenderItems(items[..j], entry).last
      {
        var item := items[j];
        ghost var before := RenderItems(items[..j], entry);
        ghost var step := RenderItem(item, lastType);
        assert RenderItems(items[..j + 1], entry) == Rendered(before.out + step.out, step.last) by {
          RenderItemsSnoc(items[..j], item, entry);
          TakeSnoc(items, j);
        }
        ghost var prev := out;
        match item {
          case Text(_) =>
            out := out + ItemAsText(item).text;
            lastType := TextKind;
          case Link(_) =>
            if lastType == LinkKind {
              out := out + "-";
            }
            out := out + ItemAsLink(item).innerText;
            assert out == prev + step.out;
            lastType := LinkKind;
          case Other(_) =>
        }
        assert out == prev + step.out && lastType == step.last;
        Assoc(lineStart, before.out, step.out);
        j := j + 1;
      }
      assert items[..j] == items;
      out := out + "\n";
      i := i + 1;
    }
    assert parser.middle[..i] == parser.middle;

    out := out + "  ";
    ghost var subStart := out;
    var subItems := parser.subPages.items;
    var k := 0;
    while k < |subItems|
      invariant k <= |subItems|
      invariant out == subStart + Plain(subItems[..k])
    {
      var item := subItems[k];
      assert Plain(subItems[..k + 1]) == Plain(subItems[..k]) + DisplayText(item) by {
        PlainSnoc(subItems[..k], item);
        TakeSnoc(subItems, k);
      }
      ghost var prev := out;
      match item {
        case Text(_) =>
          out := out + ItemAsText(item).text;
        case Link(_) =>
          out := out + ItemAsLink(item).innerText;
        case Other(_) =>
      }
      assert out == prev + DisplayText(item);
      Assoc(subStart, Plain(subItems[..k]), DisplayText(item));
      k := k + 1;
    }
    assert subItems[..k] == subItems;
    out := out + "\n\n";
  }

  /** Helper: a prefix one element longer. */
  lemma TakeSnoc<T>(s: seq<T>, n: nat)
    requires n < |s|
    ensures s[..n + 1] == s[..n] + [s[n]]
  {
  }

  /** Helper: appending to the output stream is associative. */
  lemma Assoc(a: string, b: string, c: string)
    ensures a + b + c == a + (b + c)
  {
  }

  /** The branch of main after conversion: only the failure line when the page
      failed to load, otherwise the title and then the body, each written once. */
  method ShowPage(parser: HtmlParser) returns (out: string)
    ensures out == Output(parser)
    ensures parser.loadError ==> out == FailedLoad
    ensures !parser.loadError ==> out == PrintTitle(parser) + MiddleText(parser)
  {
    if parser.loadError {
      out := FailedLoad;
    } else {
      var title := PrintTitle(parser);
      var middle := PrintMiddle(parser);
      out := title + middle;
    }
  }
}
