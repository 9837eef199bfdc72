/**
 The plain-text-to-HTML formatter `format_content`: a single pass over the
 lines of a text that classifies each stripped, non-blank line as a heading,
 a list item, a link line or a paragraph, and keeps one flag saying whether a
 `<ul>` is open.

 The output is described twice. `Format` gives it as a sequence of
 `Fragment`s: the markup events, computed line by line by `Step` and `Run`.
 `FormatContent` is the loop of the source, appending strings to an
 accumulator, and is proved to produce exactly `Render(Format(content))`.
 */
module Formatters {
  import opened Text

  const ListOpen := "<ul class=\"list-disc list-inside mb-4\">"
  const ListClose := "</ul>"
  const HeadingOpen := "<h3 class=\"text-xl font-bold mb-2\">"
  const HeadingClose := "</h3>"
  const ItemOpen := "<li class=\"text-gray-700\">"
  const ItemClose := "</li>"
  const AnchorOpen := "<a href=\""
  const AnchorMiddle := "\" class=\"text-blue-500 hover:underline\" target=\"_blank\">"
  const AnchorClose := "</a> "
  const LineBreak := "<br>"
  const ParagraphOpen := "<p class=\"text-black mb-2\">"
  const ParagraphClose := "</p>"

  /** One piece of emitted markup. */
  datatype Fragment =
    | OpenList
    | CloseList
    | Heading(line: string)
    | Item(text: string)
    | LinkLine(tokens: seq<string>)
    | Paragraph(line: string)

  predicate IsListMarker(f: Fragment)
  {
    f.OpenList? || f.CloseList?
  }

  predicate IsUrl(token: string)
  {
    StartsWith(token, "http://") || StartsWith(token, "https://")
  }

  predicate HasUrl(line: string)
  {
    Contains(line, "http://") || Contains(line, "https://")
  }

  /** A token of a link line: a link to itself if it is a URL, else the token; then one space. */
  function TokenHtml(token: string): string
  {
    if IsUrl(token) then AnchorOpen + token + AnchorMiddle + token + AnchorClose
    else token + " "
  }

  function TokensHtml(tokens: seq<string>): string
  {
    if tokens == [] then ""
    else TokensHtml(tokens[..|tokens| - 1]) + TokenHtml(tokens[|tokens| - 1])
  }

  function Html(f: Fragment): string
  {
    match f
    case OpenList => ListOpen
    case CloseList => ListClose
    case Heading(line) => HeadingOpen + line + HeadingClose
    case Item(text) => ItemOpen + text + ItemClose
    case LinkLine(tokens) => TokensHtml(tokens) + LineBreak
    case Paragraph(line) => ParagraphOpen + line + ParagraphClose
  }

  /** The HTML text of a fragment sequence: the fragments' texts in order. */
  function Render(fs: seq<Fragment>): string
  {
    if fs == [] then ""
    else Render(fs[..|fs| - 1]) + Html(fs[|fs| - 1])
  }

  /**
   The fragment a stripped, non-blank line stands for, by the rules in their
   order of priority: a trailing `:` makes a heading (kept whole, colon
   included), a leading `-` a list item (text after the dash, stripped), a URL
   anywhere a link line (split on whitespace), anything else a paragraph.
   */
  function Classify(line: string): (f: Fragment)
    ensures !IsListMarker(f)
  {
    if EndsWith(line, ":") then Heading(line)
    else if StartsWith(line, "-") then Item(Strip(line[1..]))
    else if HasUrl(line) then LinkLine(Words(line))
    else Paragraph(line)
  }

  /** What a pass has emitted so far and whether a list is open. */
  datatype Scan = Scan(out: seq<Fragment>, inList: bool)

  /**
   One line of the pass: a blank line emits nothing; a heading leaves the list
   state alone; an item opens a list if none is open; any other line closes an
   open list first.
   */
  function Step(raw: string, inList: bool): Scan
  {
    var line := Strip(raw);
    if line == [] then Scan([], inList)
    else
      var f := Classify(line);
      if f.Heading? then Scan([f], inList)
      else if f.Item? then Scan((if inList then [] else [OpenList]) + [f], true)
      else Scan((if inList then [CloseList] else []) + [f], false)
  }

  function Run(lines: seq<string>, inList: bool): Scan
  {
    if lines == [] then Scan([], inList)
    else
      var prev := Run(lines[..|lines| - 1], inList);
      var last := Step(lines[|lines| - 1], prev.inList);
      Scan(prev.out + last.out, last.inList)
  }

  /** The whole pass over the lines of `content`, closing a list left open. */
  function Format(content: string): seq<Fragment>
  {
    var scan := Run(Split(content, '\n'), false);
    scan.out + (if scan.inList then [CloseList] else [])
  }

  lemma RenderSnoc(fs: seq<Fragment>, f: Fragment)
    ensures Render(fs + [f]) == Render(fs) + Html(f)
  {
    assert (fs + [f])[..|fs|] == fs;
  }

  lemma {:induction false} RenderConcat(a: seq<Fragment>, b: seq<Fragment>)
    ensures Render(a + b) == Render(a) + Render(b)
    decreases |b|
  {
    if b == [] {
      assert a + b == a;
    } else {
      var b' := b[..|b| - 1];
      assert (a + b)[..|a + b| - 1] == a + b';
      assert (a + b)[|a + b| - 1] == b[|b| - 1];
      RenderConcat(a, b');
      AppendAssoc(Render(a), Render(b'), Html(b[|b| - 1]));
    }
  }

  lemma RunSnoc(lines: seq<string>, i: nat, inList: bool)
    requires i < |lines|
    ensures var prev := Run(lines[..i], inList);
            var last := Step(lines[i], prev.inList);
            Run(lines[..i + 1], inList) == Scan(prev.out + last.out, last.inList)
  {
    assert lines[..i + 1][..i] == lines[..i];
  }

  lemma StepHeading(raw: string, inList: bool)
    requires Strip(raw) != [] && EndsWith(Strip(raw), ":")
    ensures Step(raw, inList) == Scan([Heading(Strip(raw))], inList)
    ensures Render(Step(raw, inList).out) == HeadingOpen + Strip(raw) + HeadingClose
  {
    RenderSnoc([], Heading(Strip(raw)));
  }

  lemma StepItem(raw: string, inList: bool)
    requires Strip(raw) != [] && !EndsWith(Strip(raw), ":") && StartsWith(Strip(raw), "-")
    ensures Step(raw, inList)
         == Scan((if inList then [] else [OpenList]) + [Item(Strip(Strip(raw)[1..]))], true)
    ensures Render(Step(raw, inList).out)
         == (if inList then "" else ListOpen) + (ItemOpen + Strip(Strip(raw)[1..]) + ItemClose)
  {
    var line := Strip(raw);
    var item := Item(Strip(line[1..]));
    var opening: seq<Fragment> := if inList then [] else [OpenList];
    assert Step(raw, inList) == Scan(opening + [item], true) by {
      assert Classify(line) == item;
    }
    RenderAfterMarker(opening, inList, OpenList, item);
  }

  /** The rendering of an optional list marker followed by one fragment. */
  lemma RenderAfterMarker(marker: seq<Fragment>, absent: bool, m: Fragment, f: Fragment)
    requires marker == if absent then [] else [m]
    ensures Render(marker + [f]) == (if absent then "" else Html(m)) + Html(f)
  {
    RenderSnoc(marker, f);
    if !absent {
      RenderSnoc([], m);
      assert [] + [m] == marker;
    }
  }

  lemma StepOther(raw: string, inList: bool)
    requires Strip(raw) != [] && !EndsWith(Strip(raw), ":") && !StartsWith(Strip(raw), "-")
    ensures !Step(raw, inList).inList
    ensures Render(Step(raw, inList).out) == (if inList then ListClose else "") + Html(Classify(Strip(raw)))
  {
    var f := Classify(Strip(raw));
    var closing: seq<Fragment> := if inList then [CloseList] else [];
    assert Step(raw, inList).out == closing + [f];
    RenderSnoc(closing, f);
    if inList {
      RenderSnoc([], CloseList);
      assert [] + [CloseList] == closing;
      assert Render(closing) == ListClose;
    } else {
      assert Render(closing) == "";
    }
  }

  /**
   A line that is neither a heading nor an item and holds a URL becomes a link
   line: an open list is closed first, then each whitespace-separated token of
   the stripped line is emitted in order, and the line ends with `<br>`.
   */
  lemma StepLinkLine(raw: string, inList: bool)
    requires Strip(raw) != [] && !EndsWith(Strip(raw), ":") && !StartsWith(Strip(raw), "-")
    requires HasUrl(Strip(raw))
    ensures !Step(raw, inList).inList
    ensures Render(Step(raw, inList).out)
         == (if inList then ListClose else "") + (TokensHtml(Words(Strip(raw))) + LineBreak)
  {
    StepOther(raw, inList);
    assert Classify(Strip(raw)) == LinkLine(Words(Strip(raw)));
  }

  /** Any other non-blank line closes an open list and becomes a paragraph holding the stripped line. */
  lemma StepParagraph(raw: string, inList: bool)
    requires Strip(raw) != [] && !EndsWith(Strip(raw), ":") && !StartsWith(Strip(raw), "-")
    requires !HasUrl(Strip(raw))
    ensures !Step(raw, inList).inList
    ensures Render(Step(raw, inList).out)
         == (if inList then ListClose else "") + (ParagraphOpen + Strip(raw) + ParagraphClose)
  {
    StepOther(raw, inList);
    assert Classify(Strip(raw)) == Paragraph(Strip(raw));
  }

  lemma TokensNext(parts: seq<string>, k: nat, prefix: string)
    requires k < |parts|
    ensures prefix + TokensHtml(parts[..k + 1]) == prefix + TokensHtml(parts[..k]) + TokenHtml(parts[k])
  {
    assert parts[..k + 1][..k] == parts[..k];
    AppendAssoc(prefix, TokensHtml(parts[..k]), TokenHtml(parts[k]));
  }

  /** Advancing a pass by line `i`: the scan grows by that line's step, and so does its rendering. */
  lemma RunNextLine(lines: seq<string>, i: nat, frags: seq<Fragment>, inList: bool)
    requires i < |lines| && Run(lines[..i], false) == Scan(frags, inList)
    ensures var step := Step(lines[i], inList);
            Run(lines[..i + 1], false) == Scan(frags + step.out, step.inList) &&
            Render(frags + step.out) == Render(frags) + Render(step.out)
  {
    RunSnoc(lines, i, false);
    RenderConcat(frags, Step(lines[i], inList).out);
  }

  /**
   The link-line rule of `format_content`: appends each token of the line
   followed by one space, a token starting with `http://` or `https://` as a
   link whose address and label are the token itself, and then `<br>`.
   */
  method AppendLinkLine(formatted: string, parts: seq<string>) returns (result: string)
    ensures result == formatted + Html(LinkLine(parts))
  {
    result := formatted;
    for k := 0 to |parts|
      invariant result == formatted + TokensHtml(parts[..k])
    {
      TokensNext(parts, k, formatted);
      var part := parts[k];
      if StartsWith(part, "http://") || StartsWith(part, "https://") {
        result := result + (AnchorOpen + part + AnchorMiddle + part + AnchorClose);
      } else {
        result := result + (part + " ");
      }
    }
    assert parts[..|parts|] == parts;
    AppendAssoc(formatted, TokensHtml(parts), LineBreak);
    result := result + LineBreak;
  }

  /**
   `format_content`: splits `content` on newlines, strips each line, skips
   blank ones, and appends the markup of each remaining line to the result,
   keeping the flag `inList`; closes a list still open at the end. The result
   is the rendering of `Format(content)`.
   */
  method FormatContent(content: string) returns (formatted: string)
    ensures formatted == Render(Format(content))
  {
    formatted := "";
    var lines := Split(content, '\n');
    var inList := false;
    ghost var frags: seq<Fragment> := [];

    for i := 0 to |lines|
      invariant Run(lines[..i], false) == Scan(frags, inList)
      invariant formatted == Render(frags)
    {
      ghost var base, wasInList := formatted, inList;
      var line := Strip(lines[i]);
      if line == [] {
        RunNextLine(lines, i, frags, wasInList);
        frags := frags + Step(lines[i], wasInList).out;
        continue;
      }

      if EndsWith(line, ":") {
        formatted := formatted + (HeadingOpen + line + HeadingClose);
        StepHeading(lines[i], wasInList);
        RunNextLine(lines, i, frags, wasInList);
        frags := frags + Step(lines[i], wasInList).out;
        continue;
      }

      if StartsWith(line, "-") {
        if !inList {
          formatted := formatted + ListOpen;
          inList := true;
        }
        formatted := formatted + (ItemOpen + Strip(line[1..]) + ItemClose);
        AppendAssoc(base, if wasInList then "" else ListOpen, ItemOpen + Strip(line[1..]) + ItemClose);
        StepItem(lines[i], wasInList);
        RunNextLine(lines, i, frags, wasInList);
        frags := frags + Step(lines[i], wasInList).out;
        continue;
      } else {
        if inList {
          formatted := formatted + ListClose;
          inList := false;
        }
      }
      ghost var closing := if wasInList then ListClose else "";

      if Contains(line, "http://") || Contains(line, "https://") {
        var parts := Words(line);
        formatted := AppendLinkLine(formatted, parts);
        AppendAssoc(base, closing, TokensHtml(parts) + LineBreak);
        StepOther(lines[i], wasInList);
        RunNextLine(lines, i, frags, wasInList);
        frags := frags + Step(lines[i], wasInList).out;
        continue;
      }

      formatted := formatted + (ParagraphOpen + line + ParagraphClose);
      AppendAssoc(base, closing, ParagraphOpen + line + ParagraphClose);
      StepOther(lines[i], wasInList);
      RunNextLine(lines, i, frags, wasInList);
      frags := frags + Step(lines[i], wasInList).out;
    }

    assert lines[..|lines|] == lines;
    assert Format(content) == frags + (if inList then [CloseList] else []);
    if inList {
      formatted := formatted + ListClose;
      RenderSnoc(frags, CloseList);
    } else {
      assert frags + [] == frags;
    }
  }

  // ---------------------------------------------------------------------
  // Lists are balanced and never nested

  datatype Option<T> = None | Some(value: T)

  /**
   The list state after one more fragment, or `None` if the fragment is out
   of place: a list opens only when none is open, closes only when one is,
   items stand only inside a list, link lines and paragraphs only outside,
   and a heading may stand anywhere.
   */
  function ListAfter(f: Fragment, open: bool): Option<bool>
  {
    match f
    case OpenList => if open then None else Some(true)
    case CloseList => if open then Some(false) else None
    case Item(_) => if open then Some(true) else None
    case Heading(_) => Some(open)
    case LinkLine(_) => if open then None else Some(false)
    case Paragraph(_) => if open then None else Some(false)
  }

  /** The list state after a fragment sequence starting in state `open`, or `None` if one is out of place. */
  function ListState(fs: seq<Fragment>, open: bool): Option<bool>
  {
    if fs == [] then Some(open)
    else match ListState(fs[..|fs| - 1], open)
      case None => None
      case Some(o) => ListAfter(fs[|fs| - 1], o)
  }

  lemma {:induction false} ListStateConcat(a: seq<Fragment>, b: seq<Fragment>, open: bool)
    requires ListState(a, open).Some?
    ensures ListState(a + b, open) == ListState(b, ListState(a, open).value)
    decreases |b|
  {
    if b == [] {
      assert a + b == a;
    } else {
      assert (a + b)[..|a + b| - 1] == a + b[..|b| - 1];
      ListStateConcat(a, b[..|b| - 1], open);
    }
  }

  lemma ListStateSnoc(fs: seq<Fragment>, f: Fragment, open: bool)
    ensures ListState(fs + [f], open)
         == match ListState(fs, open) case None => None case Some(o) => ListAfter(f, o)
  {
    assert (fs + [f])[..|fs|] == fs;
  }

  lemma StepNested(raw: string, inList: bool)
    ensures ListState(Step(raw, inList).out, inList) == Some(Step(raw, inList).inList)
  {
    var line := Strip(raw);
    if line != [] {
      var f := Classify(line);
      var marker: seq<Fragment> :=
        if f.Heading? || (f.Item? && inList) || (!f.Item? && !inList) then []
        else if f.Item? then [OpenList] else [CloseList];
      assert Step(raw, inList).out == marker + [f];
      ListStateSnoc(marker, f, inList);
      if marker != [] {
        ListStateSnoc([], marker[0], inList);
        assert [] + [marker[0]] == marker;
      }
    }
  }

  /** Every pass keeps the list discipline and ends in the state it reports. */
  lemma {:induction false} RunNested(lines: seq<string>, inList: bool)
    ensures ListState(Run(lines, inList).out, inList) == Some(Run(lines, inList).inList)
    decreases |lines|
  {
    if lines != [] {
      var prev := Run(lines[..|lines| - 1], inList);
      RunNested(lines[..|lines| - 1], inList);
      StepNested(lines[|lines| - 1], prev.inList);
      ListStateConcat(prev.out, Step(lines[|lines| - 1], prev.inList).out, inList);
    }
  }

  /**
   The output of the formatter never opens a list inside a list, never closes
   a list that is not open, puts items only inside a list and link lines and
   paragraphs only outside one, and leaves no list open at the end.
   */
  lemma FormatNested(content: string)
    ensures ListState(Format(content), false) == Some(false)
  {
    var scan := Run(Split(content, '\n'), false);
    RunNested(Split(content, '\n'), false);
    var tail: seq<Fragment> := if scan.inList then [CloseList] else [];
    ListStateConcat(scan.out, tail, false);
    if scan.inList {
      assert tail[..0] == [];
    }
  }

  function Count(fs: seq<Fragment>, f: Fragment): nat
  {
    if fs == [] then 0
    else Count(fs[..|fs| - 1], f) + (if fs[|fs| - 1] == f then 1 else 0)
  }

  /** Under the list discipline, opens and closes differ by the lists left open. */
  lemma {:induction false} OpensMatchCloses(fs: seq<Fragment>, open: bool)
    requires ListState(fs, open).Some?
    ensures Count(fs, OpenList) + (if open then 1 else 0)
         == Count(fs, CloseList) + (if ListState(fs, open).value then 1 else 0)
    decreases |fs|
  {
    if fs != [] {
      OpensMatchCloses(fs[..|fs| - 1], open);
    }
  }

  /** The formatter emits exactly as many `</ul>` as `<ul>`. */
  lemma FormatBalanced(content: string)
    ensures Count(Format(content), OpenList) == Count(Format(content), CloseList)
  {
    FormatNested(content);
    OpensMatchCloses(Format(content), false);
  }

  // ---------------------------------------------------------------------
  // Line by line, in order

  lemma {:induction false} RunConcat(a: seq<string>, b: seq<string>, inList: bool)
    ensures var first := Run(a, inList);
            var second := Run(b, first.inList);
            Run(a + b, inList) == Scan(first.out + second.out, second.inList)
    decreases |b|
  {
    if b == [] {
      assert a + b == a;
    } else {
      var b' := b[..|b| - 1];
      assert (a + b)[..|a + b| - 1] == a + b';
      assert (a + b)[|a + b| - 1] == b[|b| - 1];
      RunConcat(a, b', inList);
      var first := Run(a, inList);
      var mid := Run(b', first.inList);
      var last := Step(b[|b| - 1], mid.inList);
      AppendAssoc(first.out, mid.out, last.out);
    }
  }

  /** A blank line, wherever it stands, changes neither the output nor the list state. */
  lemma BlankLineIgnored(a: seq<string>, blank: string, b: seq<string>, inList: bool)
    requires AllSpace(blank)
    ensures Run(a + [blank] + b, inList) == Run(a + b, inList)
  {
    var first := Run(a, inList);
    assert Run(a + [blank], inList) == first by {
      RunConcat(a, [blank], inList);
      BlankLinesEmitNothing([blank], first.inList);
      assert first.out + [] == first.out;
    }
    var second := Run(b, first.inList);
    assert Run(a + [blank] + b, inList) == Scan(first.out + second.out, second.inList) by {
      RunConcat(a + [blank], b, inList);
    }
    RunConcat(a, b, inList);
  }

  lemma {:induction false} BlankLinesEmitNothing(lines: seq<string>, inList: bool)
    requires forall k :: 0 <= k < |lines| ==> AllSpace(lines[k])
    ensures Run(lines, inList) == Scan([], inList)
    decreases |lines|
  {
    if lines != [] {
      BlankLinesEmitNothing(lines[..|lines| - 1], inList);
    }
  }

  /**
   A heading leaves an open list open: after lines that leave a list open, a
   heading and then an item add the heading and the item to that same list,
   with no `</ul>` before the heading and no new `<ul>` before the item.
   */
  lemma HeadingInsideList(lines: seq<string>, heading: string, item: string)
    requires Run(lines, false).inList
    requires Strip(heading) != [] && EndsWith(Strip(heading), ":")
    requires Strip(item) != [] && !EndsWith(Strip(item), ":") && StartsWith(Strip(item), "-")
    ensures Run(lines + [heading, item], false)
         == Scan(Run(lines, false).out + [Heading(Strip(heading)), Item(Strip(Strip(item)[1..]))], true)
  {
    var all := lines + [heading, item];
    var prev := Run(lines, false);
    var h, it := Heading(Strip(heading)), Item(Strip(Strip(item)[1..]));
    assert Run(all[..|lines| + 1], false) == Scan(prev.out + [h], true) by {
      assert all[..|lines|] == lines && all[|lines|] == heading;
      StepHeading(heading, true);
      RunSnoc(all, |lines|, false);
    }
    assert Run(all[..|lines| + 2], false) == Scan(prev.out + [h] + [it], true) by {
      assert all[|lines| + 1] == item;
      StepItem(item, true);
      RunSnoc(all, |lines| + 1, false);
    }
    assert all[..|lines| + 2] == all;
    assert prev.out + [h] + [it] == prev.out + [h, it];
  }

  /** Empty or whitespace-only input gives empty output. */
  lemma WhitespaceOnlyInput(content: string)
    requires AllSpace(content)
    ensures Format(content) == [] && Render(Format(content)) == ""
  {
    var lines := Split(content, '\n');
    forall k | 0 <= k < |lines|
      ensures AllSpace(lines[k])
    {
      forall j | 0 <= j < |lines[k]|
        ensures IsSpace(lines[k][j])
      {
        assert lines[k][j] in content;
      }
    }
    BlankLinesEmitNothing(lines, false);
  }

  /** The fragments that are not list markers, in order. */
  function Contents(fs: seq<Fragment>): seq<Fragment>
  {
    if fs == [] then []
    else Contents(fs[..|fs| - 1]) + (if IsListMarker(fs[|fs| - 1]) then [] else [fs[|fs| - 1]])
  }

  /** Each non-blank line, stripped and classified, in input order. */
  function Classified(lines: seq<string>): seq<Fragment>
  {
    if lines == [] then []
    else
      var line := Strip(lines[|lines| - 1]);
      Classified(lines[..|lines| - 1]) + (if line == [] then [] else [Classify(line)])
  }

  lemma {:induction false} ContentsConcat(a: seq<Fragment>, b: seq<Fragment>)
    ensures Contents(a + b) == Contents(a) + Contents(b)
    decreases |b|
  {
    if b == [] {
      assert a + b == a;
    } else {
      var b' := b[..|b| - 1];
      assert (a + b)[..|a + b| - 1] == a + b';
      ContentsConcat(a, b');
    }
  }

  lemma ContentsSnoc(fs: seq<Fragment>, f: Fragment)
    ensures Contents(fs + [f]) == Contents(fs) + (if IsListMarker(f) then [] else [f])
  {
    assert (fs + [f])[..|fs|] == fs;
  }

  lemma StepContents(raw: string, inList: bool)
    ensures Contents(Step(raw, inList).out) == Classified([raw])
  {
    var line := Strip(raw);
    assert [raw][..0] == [];
    if line != [] {
      var f := Classify(line);
      var marker: seq<Fragment> :=
        if f.Heading? || (f.Item? && inList) || (!f.Item? && !inList) then []
        else if f.Item? then [OpenList] else [CloseList];
      assert Step(raw, inList).out == marker + [f];
      ContentsSnoc(marker, f);
      if marker != [] {
        ContentsSnoc([], marker[0]);
        assert [] + [marker[0]] == marker;
      }
    }
  }

  /**
   Apart from `<ul>` and `</ul>`, the output holds exactly one fragment per
   non-blank line, in input order, whatever the list state: the heading,
   item, link-line or paragraph that the line's classification calls for.
   */
  lemma {:induction false} RunContents(lines: seq<string>, inList: bool)
    ensures Contents(Run(lines, inList).out) == Classified(lines)
    decreases |lines|
  {
    if lines != [] {
      var init, last := lines[..|lines| - 1], lines[|lines| - 1];
      var prev := Run(init, inList);
      var step := Step(last, prev.inList);
      assert Run(lines, inList) == Scan(prev.out + step.out, step.inList);
      assert Classified(lines) == Classified(init) + Classified([last]) by {
        assert [last][..0] == [];
      }
      RunContents(init, inList);
      StepContents(last, prev.inList);
      ContentsConcat(prev.out, step.out);
    }
  }

  lemma FormatContents(content: string)
    ensures Contents(Format(content)) == Classified(Split(content, '\n'))
  {
    var scan := Run(Split(content, '\n'), false);
    RunContents(Split(content, '\n'), false);
    var tail: seq<Fragment> := if scan.inList then [CloseList] else [];
    ContentsConcat(scan.out, tail);
    if scan.inList {
      assert tail[..0] == [];
    }
  }
}
