/**
 The inline parser of safe message markdown (apps/web/src/chats/SafeMessageMarkdown.tsx):
 code spans, strong, emphasis and links, anything else as text.
 */
module InlineMarkdown {
  import opened Wrappers
  import Text

  /** The rendered tree; a link keeps the raw text between its parentheses. */
  datatype Node =
    | Plain(text: string)
    | Code(text: string)
    | Strong(children: seq<Node>)
    | Emphasis(children: seq<Node>)
    | Link(children: seq<Node>, rawHref: string, href: string)

  datatype Url = Url(protocol: string, text: string)

  /** new URL(...): any partial function from strings to URLs. */
  type UrlParser = string -> Option<Url>

  // ----- String primitives -----

  predicate StartsAt(text: string, pattern: string, i: int) {
    0 <= i && i + |pattern| <= |text| && text[i..i + |pattern|] == pattern
  }

  /** String.prototype.indexOf(pattern, from) */
  function IndexOf(text: string, pattern: string, from: nat): (r: int)
    requires pattern != ""
    ensures r == -1 || (from <= r && StartsAt(text, pattern, r))
    ensures forall i :: from <= i && StartsAt(text, pattern, i) ==> r != -1 && r <= i
    decreases |text| - from
  {
    if from >= |text| then -1
    else if StartsAt(text, pattern, from) then from
    else IndexOf(text, pattern, from + 1)
  }

  function Smaller(a: int, b: int): int {
    if a == -1 then b else if b == -1 then a else if a < b then a else b
  }

  function FindNextSpecialIndex(text: string, cursor: nat): int {
    Smaller(Smaller(IndexOf(text, "`", cursor), IndexOf(text, "*", cursor)), IndexOf(text, "[", cursor))
  }

  function NormalizeSafeHref(value: string, urls: UrlParser): Option<string> {
    var trimmed := Text.Trim(value);
    if !("http://" <= trimmed) && !("https://" <= trimmed) then None
    else
      match urls(trimmed)
      case None => None
      case Some(url) => if url.protocol != "http:" && url.protocol != "https:" then None else Some(url.text)
  }

  // ----- One construct -----

  datatype Step = Step(node: Node, next: nat)

  function TryCode(text: string, cursor: nat): (r: Option<Step>)
    requires cursor < |text|
    ensures r.Some? ==> cursor < r.value.next <= |text|
  {
    if text[cursor] != '`' then None
    else
      var end := IndexOf(text, "`", cursor + 1);
      if end <= cursor + 1 then None
      else Some(Step(Code(text[cursor + 1..end]), end + 1))
  }

  /** The span of a delimiter pair that opens at the cursor and holds more than blanks. */
  function DelimitedEnd(text: string, cursor: nat, delimiter: string): (end: Option<nat>)
    requires delimiter != ""
    ensures end.Some? ==> cursor + |delimiter| < end.value && StartsAt(text, delimiter, end.value)
    ensures end.Some? ==> StartsAt(text, delimiter, cursor)
    ensures end.Some? ==> end.value == IndexOf(text, delimiter, cursor + |delimiter|)
  {
    if !StartsAt(text, delimiter, cursor) then None
    else
      var end := IndexOf(text, delimiter, cursor + |delimiter|);
      if end <= cursor + |delimiter| then None
      else if Text.Trim(text[cursor + |delimiter|..end]) == "" then None
      else Some(end)
  }

  datatype LinkSpan = LinkSpan(separator: nat, end: nat, href: string)

  function FindLink(text: string, cursor: nat, urls: UrlParser): (r: Option<LinkSpan>)
    requires cursor < |text|
    ensures r.Some? ==> cursor < r.value.separator && StartsAt(text, "](", r.value.separator)
    ensures r.Some? ==> r.value.separator + 2 <= r.value.end < |text| && StartsAt(text, ")", r.value.end)
    ensures r.Some? ==> text[cursor] == '[' && r.value.separator == IndexOf(text, "](", cursor + 1)
    ensures r.Some? ==> NormalizeSafeHref(text[r.value.separator + 2..r.value.end], urls) == Some(r.value.href)
  {
    if text[cursor] != '[' then None
    else
      var separator := IndexOf(text, "](", cursor + 1);
      if separator == -1 then None
      else
        var end := IndexOf(text, ")", separator + 2);
        if end == -1 then None
        else
          match NormalizeSafeHref(text[separator + 2..end], urls)
          case None => None
          case Some(href) =>
            if href == "" || Text.Trim(text[cursor + 1..separator]) == "" then None
            else Some(LinkSpan(separator, end, href))
  }

  // ----- The parser -----

  /** The node at the cursor and where it ends: code, strong, emphasis, link, then text. */
  function NextNode(text: string, cursor: nat, urls: UrlParser): (r: Step)
    requires cursor < |text|
    ensures cursor < r.next <= |text|
    decreases |text|, |text| - cursor, 0
  {
    if TryCode(text, cursor).Some? then TryCode(text, cursor).value
    else if DelimitedEnd(text, cursor, "**").Some? then
      var end := DelimitedEnd(text, cursor, "**").value;
      Step(Strong(ParseFrom(text[cursor + 2..end], 0, urls)), end + 2)
    else if DelimitedEnd(text, cursor, "*").Some? then
      var end := DelimitedEnd(text, cursor, "*").value;
      Step(Emphasis(ParseFrom(text[cursor + 1..end], 0, urls)), end + 1)
    else if FindLink(text, cursor, urls).Some? then
      var link := FindLink(text, cursor, urls).value;
      Step(Link(ParseFrom(text[cursor + 1..link.separator], 0, urls), text[link.separator + 2..link.end], link.href),
           link.end + 1)
    else
      var special := FindNextSpecialIndex(text, cursor);
      if special == cursor then Step(Plain([text[cursor]]), cursor + 1)
      else
        var next := if special == -1 then |text| else special;
        Step(Plain(text[cursor..next]), next)
  }

  function ParseFrom(text: string, cursor: nat, urls: UrlParser): seq<Node>
    requires cursor <= |text|
    decreases |text|, |text| - cursor, 1
  {
    if cursor == |text| then []
    else
      var step := NextNode(text, cursor, urls);
      [step.node] + ParseFrom(text, step.next, urls)
  }

  function Parse(text: string, urls: UrlParser): seq<Node> {
    ParseFrom(text, 0, urls)
  }

  // ----- The parser as it runs -----

  /** renderInline: a cursor that advances node by node, recursing into delimited content. */
  method RenderInline(text: string, urls: UrlParser) returns (nodes: seq<Node>)
    ensures nodes == Parse(text, urls)
    decreases |text|, 1
  {
    nodes := [];
    var cursor := 0;
    while cursor < |text|
      invariant 0 <= cursor <= |text|
      invariant Parse(text, urls) == nodes + ParseFrom(text, cursor, urls)
    {
      var step := RenderNext(text, cursor, urls);
      nodes := nodes + [step.node];
      cursor := step.next;
    }
  }

  method RenderNext(text: string, cursor: nat, urls: UrlParser) returns (step: Step)
    requires cursor < |text|
    ensures step == NextNode(text, cursor, urls)
    decreases |text|, 0
  {
    var code := TryCode(text, cursor);
    if code.Some? { return code.value; }

    var strong := DelimitedEnd(text, cursor, "**");
    if strong.Some? {
      var children := RenderInline(text[cursor + 2..strong.value], urls);
      return Step(Strong(children), strong.value + 2);
    }

    var emphasis := DelimitedEnd(text, cursor, "*");
    if emphasis.Some? {
      var children := RenderInline(text[cursor + 1..emphasis.value], urls);
      return Step(Emphasis(children), emphasis.value + 1);
    }

    var link := FindLink(text, cursor, urls);
    if link.Some? {
      var caption := RenderInline(text[cursor + 1..link.value.separator], urls);
      return Step(Link(caption, text[link.value.separator + 2..link.value.end], link.value.href), link.value.end + 1);
    }

    var special := FindNextSpecialIndex(text, cursor);
    if special == cursor { return Step(Plain([text[cursor]]), cursor + 1); }
    var next := if special == -1 then |text| else special;
    return Step(Plain(text[cursor..next]), next);
  }

  // ----- Lossless -----

  function PrintNode(n: Node): string
    decreases n, 0
  {
    match n
    case Plain(text) => text
    case Code(text) => "`" + text + "`"
    case Strong(children) => "**" + Print(children) + "**"
    case Emphasis(children) => "*" + Print(children) + "*"
    case Link(children, rawHref, _) => "[" + Print(children) + "](" + rawHref + ")"
  }

  function Print(nodes: seq<Node>): string
    decreases nodes, 1
  {
    if nodes == [] then "" else PrintNode(nodes[0]) + Print(nodes[1..])
  }

  lemma CodePrints(text: string, cursor: nat)
    requires cursor < |text| && TryCode(text, cursor).Some?
    ensures PrintNode(TryCode(text, cursor).value.node) == text[cursor..TryCode(text, cursor).value.next]
  {
    var end := IndexOf(text, "`", cursor + 1);
    assert text[end..end + 1] == "`";
    assert text[cursor..end + 1] == [text[cursor]] + text[cursor + 1..end] + text[end..end + 1];
  }

  lemma SliceSplit(text: string, a: nat, b: nat, c: nat)
    requires a <= b <= c <= |text|
    ensures text[a..c] == text[a..b] + text[b..c]
  {}

  lemma SliceOfSlice(text: string, a: nat, b: nat, i: nat, j: nat)
    requires a <= b <= |text| && i <= j <= b - a
    ensures text[a..b][i..j] == text[a + i..a + j]
  {
    var x, y := text[a..b][i..j], text[a + i..a + j];
    assert |x| == |y| && forall k :: 0 <= k < |x| ==> x[k] == text[a + i + k] == y[k];
  }

  lemma DelimitedSpan(text: string, cursor: nat, delimiter: string, end: nat)
    requires StartsAt(text, delimiter, cursor) && StartsAt(text, delimiter, end) && cursor + |delimiter| <= end
    ensures delimiter + text[cursor + |delimiter|..end] + delimiter == text[cursor..end + |delimiter|]
  {
    var d := |delimiter|;
    assert text[cursor..end + d] == text[cursor..cursor + d] + text[cursor + d..end] + text[end..end + d];
  }

  lemma LinkSpanPrints(text: string, cursor: nat, separator: nat, end: nat)
    requires cursor < separator && separator + 2 <= end < |text| && text[cursor] == '['
    requires StartsAt(text, "](", separator) && StartsAt(text, ")", end)
    ensures "[" + text[cursor + 1..separator] + "](" + text[separator + 2..end] + ")" == text[cursor..end + 1]
  {
    SliceSplit(text, cursor, cursor + 1, end + 1);
    SliceSplit(text, cursor + 1, separator, end + 1);
    SliceSplit(text, separator, separator + 2, end + 1);
    SliceSplit(text, separator + 2, end, end + 1);
    assert text[cursor..cursor + 1] == "[";
    var a, b, c := text[cursor + 1..separator], text[separator + 2..end], text[cursor + 1..end + 1];
    assert c == a + ("](" + (b + ")"));
    assert "[" + a + "](" + b + ")" == "[" + (a + ("](" + (b + ")")));
  }

  ghost predicate PrintsItsSpan(text: string, cursor: nat, s: Step) {
    cursor < s.next <= |text| && PrintNode(s.node) == text[cursor..s.next]
  }

  lemma StrongRead(text: string, cursor: nat, urls: UrlParser)
    requires cursor < |text| && TryCode(text, cursor).None? && DelimitedEnd(text, cursor, "**").Some?
    ensures var end := DelimitedEnd(text, cursor, "**").value;
            NextNode(text, cursor, urls) == Step(Strong(Parse(text[cursor + 2..end], urls)), end + 2)
  {}

  lemma EmphasisRead(text: string, cursor: nat, urls: UrlParser)
    requires cursor < |text| && TryCode(text, cursor).None? && DelimitedEnd(text, cursor, "**").None?
    requires DelimitedEnd(text, cursor, "*").Some?
    ensures var end := DelimitedEnd(text, cursor, "*").value;
            NextNode(text, cursor, urls) == Step(Emphasis(Parse(text[cursor + 1..end], urls)), end + 1)
  {}

  lemma LinkRead(text: string, cursor: nat, urls: UrlParser)
    requires cursor < |text| && TryCode(text, cursor).None? && DelimitedEnd(text, cursor, "**").None?
    requires DelimitedEnd(text, cursor, "*").None? && FindLink(text, cursor, urls).Some?
    ensures var link := FindLink(text, cursor, urls).value;
            NextNode(text, cursor, urls) ==
            Step(Link(Parse(text[cursor + 1..link.separator], urls), text[link.separator + 2..link.end], link.href),
                 link.end + 1)
  {}

  lemma StrongPrints(text: string, cursor: nat, end: nat, children: seq<Node>)
    requires StartsAt(text, "**", cursor) && StartsAt(text, "**", end) && cursor + 2 <= end
    requires Print(children) == text[cursor + 2..end]
    ensures PrintsItsSpan(text, cursor, Step(Strong(children), end + 2))
  {
    DelimitedSpan(text, cursor, "**", end);
  }

  lemma EmphasisPrints(text: string, cursor: nat, end: nat, children: seq<Node>)
    requires StartsAt(text, "*", cursor) && StartsAt(text, "*", end) && cursor + 1 <= end
    requires Print(children) == text[cursor + 1..end]
    ensures PrintsItsSpan(text, cursor, Step(Emphasis(children), end + 1))
  {
    DelimitedSpan(text, cursor, "*", end);
  }

  lemma LinkPrints(text: string, cursor: nat, separator: nat, end: nat, children: seq<Node>, href: string)
    requires cursor < separator && separator + 2 <= end < |text| && text[cursor] == '['
    requires StartsAt(text, "](", separator) && StartsAt(text, ")", end)
    requires Print(children) == text[cursor + 1..separator]
    ensures PrintsItsSpan(text, cursor, Step(Link(children, text[separator + 2..end], href), end + 1))
  {
    LinkSpanPrints(text, cursor, separator, end);
  }

  lemma PlainPrints(text: string, cursor: nat, urls: UrlParser)
    requires cursor < |text| && TryCode(text, cursor).None? && DelimitedEnd(text, cursor, "**").None?
    requires DelimitedEnd(text, cursor, "*").None? && FindLink(text, cursor, urls).None?
    ensures PrintsItsSpan(text, cursor, NextNode(text, cursor, urls))
  {}

  lemma {:induction false} StrongNodePrints(text: string, cursor: nat, urls: UrlParser)
    requires cursor < |text| && TryCode(text, cursor).None? && DelimitedEnd(text, cursor, "**").Some?
    ensures PrintsItsSpan(text, cursor, NextNode(text, cursor, urls))
    decreases |text|, 1
  {
    var end := DelimitedEnd(text, cursor, "**").value;
    LosslessInside(text, cursor + 2, end, urls);
    StrongRead(text, cursor, urls);
    StrongPrints(text, cursor, end, Parse(text[cursor + 2..end], urls));
  }

  lemma {:induction false} EmphasisNodePrints(text: string, cursor: nat, urls: UrlParser)
    requires cursor < |text| && TryCode(text, cursor).None? && DelimitedEnd(text, cursor, "**").None?
    requires DelimitedEnd(text, cursor, "*").Some?
    ensures PrintsItsSpan(text, cursor, NextNode(text, cursor, urls))
    decreases |text|, 1
  {
    var end := DelimitedEnd(text, cursor, "*").value;
    LosslessInside(text, cursor + 1, end, urls);
    EmphasisRead(text, cursor, urls);
    EmphasisPrints(text, cursor, end, Parse(text[cursor + 1..end], urls));
  }

  lemma {:induction false} LinkNodePrints(text: string, cursor: nat, urls: UrlParser)
    requires cursor < |text| && TryCode(text, cursor).None? && DelimitedEnd(text, cursor, "**").None?
    requires DelimitedEnd(text, cursor, "*").None? && FindLink(text, cursor, urls).Some?
    ensures PrintsItsSpan(text, cursor, NextNode(text, cursor, urls))
    decreases |text|, 1
  {
    var link := FindLink(text, cursor, urls).value;
    LosslessInside(text, cursor + 1, link.separator, urls);
    LinkRead(text, cursor, urls);
    LinkPrints(text, cursor, link.separator, link.end, Parse(text[cursor + 1..link.separator], urls), link.href);
  }

  lemma CodeNodePrints(text: string, cursor: nat, urls: UrlParser)
    requires cursor < |text| && TryCode(text, cursor).Some?
    ensures PrintsItsSpan(text, cursor, NextNode(text, cursor, urls))
  {
    CodePrints(text, cursor);
  }

  /** The node at the cursor prints as the very characters it consumed. */
  lemma {:induction false} NextNodePrints(text: string, cursor: nat, urls: UrlParser)
    requires cursor < |text|
    ensures PrintsItsSpan(text, cursor, NextNode(text, cursor, urls))
    decreases |text|, 2
  {
    if TryCode(text, cursor).Some? {
      CodeNodePrints(text, cursor, urls);
    } else if DelimitedEnd(text, cursor, "**").Some? {
      StrongNodePrints(text, cursor, urls);
    } else if DelimitedEnd(text, cursor, "*").Some? {
      EmphasisNodePrints(text, cursor, urls);
    } else if FindLink(text, cursor, urls).Some? {
      LinkNodePrints(text, cursor, urls);
    } else {
      PlainPrints(text, cursor, urls);
    }
  }

  lemma {:induction false} LosslessInside(text: string, from: nat, end: nat, urls: UrlParser)
    requires 0 < from <= end <= |text|
    ensures Print(Parse(text[from..end], urls)) == text[from..end]
    decreases |text|, 0
  {
    LosslessFrom(text[from..end], 0, urls);
  }

  lemma PrintCons(text: string, cursor: nat, step: Step, rest: seq<Node>)
    requires PrintsItsSpan(text, cursor, step) && Print(rest) == text[step.next..]
    ensures Print([step.node] + rest) == text[cursor..]
  {
    assert ([step.node] + rest)[1..] == rest;
    assert text[cursor..] == text[cursor..step.next] + text[step.next..];
  }

  lemma ParseCons(text: string, cursor: nat, urls: UrlParser)
    requires cursor < |text|
    ensures var step := NextNode(text, cursor, urls);
            ParseFrom(text, cursor, urls) == [step.node] + ParseFrom(text, step.next, urls)
  {}

  lemma {:induction false} LosslessFrom(text: string, cursor: nat, urls: UrlParser)
    requires cursor <= |text|
    ensures Print(ParseFrom(text, cursor, urls)) == text[cursor..]
    decreases |text|, 3, |text| - cursor
  {
    if cursor < |text| {
      var step := NextNode(text, cursor, urls);
      NextNodePrints(text, cursor, urls);
      LosslessFrom(text, step.next, urls);
      ParseCons(text, cursor, urls);
      PrintCons(text, cursor, step, ParseFrom(text, step.next, urls));
    }
  }

  /** Printing the tree with its delimiters gives the input back, for every string. */
  lemma Lossless(text: string, urls: UrlParser)
    ensures Print(Parse(text, urls)) == text
  {
    LosslessFrom(text, 0, urls);
    assert text[0..] == text;
  }

  /** So two different texts never render as the same tree. */
  lemma ParseInjective(a: string, b: string, urls: UrlParser)
    requires Parse(a, urls) == Parse(b, urls)
    ensures a == b
  {
    Lossless(a, urls);
    Lossless(b, urls);
  }

  // ----- Bounded nesting -----

  ghost predicate Contains(text: string, pattern: string) {
    exists i :: StartsAt(text, pattern, i)
  }

  lemma ContainsInSlice(text: string, a: nat, b: nat, pattern: string)
    requires a <= b <= |text| && Contains(text[a..b], pattern)
    ensures Contains(text, pattern)
  {
    var i :| StartsAt(text[a..b], pattern, i);
    SliceOfSlice(text, a, b, i, i + |pattern|);
    assert StartsAt(text, pattern, a + i);
  }

  lemma NotInsideSpan(text: string, from: nat, end: nat, pattern: string)
    requires pattern != "" && from <= end <= |text| && end == IndexOf(text, pattern, from)
    ensures !Contains(text[from..end], pattern)
  {
    if Contains(text[from..end], pattern) {
      var i :| StartsAt(text[from..end], pattern, i);
      SliceOfSlice(text, from, end, i, i + |pattern|);
      assert StartsAt(text, pattern, from + i);
    }
  }

  /** How many kinds of container the text can still open. */
  ghost function Rank(text: string): nat {
    (if Contains(text, "](") then 1 else 0) + (if Contains(text, "**") then 1 else 0) +
    (if Contains(text, "*") then 1 else 0)
  }

  function Max(a: nat, b: nat): nat {
    if a >= b then a else b
  }

  function NodeDepth(n: Node): nat
    decreases n, 0
  {
    match n
    case Plain(_) => 1
    case Code(_) => 1
    case Strong(children) => 1 + Depth(children)
    case Emphasis(children) => 1 + Depth(children)
    case Link(children, _, _) => 1 + Depth(children)
  }

  function Depth(nodes: seq<Node>): nat
    decreases nodes, 1
  {
    if nodes == [] then 0 else Max(NodeDepth(nodes[0]), Depth(nodes[1..]))
  }

  lemma RankOfSpan(text: string, from: nat, end: nat, delimiter: string)
    requires delimiter in {"**", "*", "]("} && from <= end <= |text|
    requires end == IndexOf(text, delimiter, from)
    ensures Rank(text[from..end]) < Rank(text)
  {
    var span := text[from..end];
    NotInsideSpan(text, from, end, delimiter);
    assert Contains(text, delimiter) by { assert StartsAt(text, delimiter, end); }
    if Contains(span, "](") { ContainsInSlice(text, from, end, "]("); }
    if Contains(span, "**") { ContainsInSlice(text, from, end, "**"); }
    if Contains(span, "*") { ContainsInSlice(text, from, end, "*"); }
  }

  lemma {:induction false} NextNodeDepth(text: string, cursor: nat, urls: UrlParser)
    requires cursor < |text|
    ensures NodeDepth(NextNode(text, cursor, urls).node) <= 1 + Rank(text)
    decreases |text|, |text| - cursor, 0
  {
    if TryCode(text, cursor).Some? {
    } else if DelimitedEnd(text, cursor, "**").Some? {
      var end := DelimitedEnd(text, cursor, "**").value;
      DepthWithinRank(text[cursor + 2..end], 0, urls);
      RankOfSpan(text, cursor + 2, end, "**");
    } else if DelimitedEnd(text, cursor, "*").Some? {
      var end := DelimitedEnd(text, cursor, "*").value;
      DepthWithinRank(text[cursor + 1..end], 0, urls);
      RankOfSpan(text, cursor + 1, end, "*");
    } else if FindLink(text, cursor, urls).Some? {
      var link := FindLink(text, cursor, urls).value;
      DepthWithinRank(text[cursor + 1..link.separator], 0, urls);
      RankOfSpan(text, cursor + 1, link.separator, "](");
    }
  }

  lemma {:induction false} DepthWithinRank(text: string, cursor: nat, urls: UrlParser)
    requires cursor <= |text|
    ensures Depth(ParseFrom(text, cursor, urls)) <= 1 + Rank(text)
    decreases |text|, |text| - cursor, 1
  {
    if cursor < |text| {
      var step := NextNode(text, cursor, urls);
      NextNodeDepth(text, cursor, urls);
      DepthWithinRank(text, step.next, urls);
      var nodes := ParseFrom(text, cursor, urls);
      assert nodes[0] == step.node && nodes[1..] == ParseFrom(text, step.next, urls);
    }
  }

  /** However hostile the text, containers nest at most three deep: each kind at most once on a path. */
  lemma NestingBounded(text: string, urls: UrlParser)
    ensures Depth(Parse(text, urls)) <= 4
  {
    DepthWithinRank(text, 0, urls);
  }

  // ----- Links -----

  predicate IsWebLink(rawHref: string, href: string, urls: UrlParser) {
    var trimmed := Text.Trim(rawHref);
    ("http://" <= trimmed || "https://" <= trimmed) && urls(trimmed).Some? &&
    urls(trimmed).value.protocol in {"http:", "https:"} && href == urls(trimmed).value.text
  }

  predicate NodeLinksSafe(n: Node, urls: UrlParser)
    decreases n, 0
  {
    match n
    case Plain(_) => true
    case Code(_) => true
    case Strong(children) => LinksSafe(children, urls)
    case Emphasis(children) => LinksSafe(children, urls)
    case Link(children, rawHref, href) => IsWebLink(rawHref, href, urls) && LinksSafe(children, urls)
  }

  predicate LinksSafe(nodes: seq<Node>, urls: UrlParser)
    decreases nodes, 1
  {
    nodes == [] || (NodeLinksSafe(nodes[0], urls) && LinksSafe(nodes[1..], urls))
  }

  /** Every link anywhere in the tree leads to an http or https address. */
  lemma {:induction false} AllLinksSafe(text: string, cursor: nat, urls: UrlParser)
    requires cursor <= |text|
    ensures LinksSafe(ParseFrom(text, cursor, urls), urls)
    decreases |text|, |text| - cursor
  {
    if cursor < |text| {
      var step := NextNode(text, cursor, urls);
      AllLinksSafe(text, step.next, urls);
      var nodes := ParseFrom(text, cursor, urls);
      assert nodes[0] == step.node && nodes[1..] == ParseFrom(text, step.next, urls);
      if TryCode(text, cursor).Some? {
      } else if DelimitedEnd(text, cursor, "**").Some? {
        AllLinksSafe(text[cursor + 2..DelimitedEnd(text, cursor, "**").value], 0, urls);
      } else if DelimitedEnd(text, cursor, "*").Some? {
        AllLinksSafe(text[cursor + 1..DelimitedEnd(text, cursor, "*").value], 0, urls);
      } else if FindLink(text, cursor, urls).Some? {
        AllLinksSafe(text[cursor + 1..FindLink(text, cursor, urls).value.separator], 0, urls);
      }
    }
  }
}
