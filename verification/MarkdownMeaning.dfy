/**
 Which construct the inline parser reads at a position, without following its search: a construct
 is read exactly where its span is, and no two constructs have a span at the same place, so the
 order in which they are tried does not matter.
 */
module MarkdownMeaning {
  import opened Wrappers
  import opened InlineMarkdown
  import Text

  /** A delimiter pair around something, the closing one the nearest. */
  ghost predicate IsSpan(text: string, c: nat, d: string, e: nat) {
    StartsAt(text, d, c) && c + |d| < e && IsNearest(text, d, c + |d|, e)
  }

  ghost predicate IsNearest(text: string, d: string, from: nat, e: nat) {
    from <= e && StartsAt(text, d, e) && forall i :: from <= i < e ==> !StartsAt(text, d, i)
  }

  predicate IsVisible(text: string, from: nat, end: nat)
    requires from <= end <= |text|
  {
    Text.Trim(text[from..end]) != ""
  }

  ghost predicate IsVisibleSpan(text: string, c: nat, d: string, e: nat) {
    IsSpan(text, c, d, e) && IsVisible(text, c + |d|, e)
  }

  ghost predicate IsLink(text: string, c: nat, s: nat, e: nat, href: string, urls: UrlParser) {
    && c < |text| && text[c] == '[' && IsNearest(text, "](", c + 1, s) && IsNearest(text, ")", s + 2, e)
    && IsVisible(text, c + 1, s) && href != "" && LeadsTo(text[s + 2..e], href, urls)
  }

  /** The trimmed address begins like a web address and the URL parser makes a web address of it. */
  ghost predicate LeadsTo(raw: string, href: string, urls: UrlParser) {
    var address := Text.Trim(raw);
    ("http://" <= address || "https://" <= address) &&
    (urls(address) == Some(Url("http:", href)) || urls(address) == Some(Url("https:", href)))
  }

  lemma SafeHrefExactly(raw: string, href: string, urls: UrlParser)
    ensures NormalizeSafeHref(raw, urls) == Some(href) <==> LeadsTo(raw, href, urls)
  {}

  lemma NearestIsIndex(text: string, d: string, from: nat, e: nat)
    requires d != ""
    ensures IsNearest(text, d, from, e) <==> IndexOf(text, d, from) == e
  {
    if IndexOf(text, d, from) == e {
      forall i | from <= i < e ensures !StartsAt(text, d, i) {}
    }
  }

  lemma CodeExactly(text: string, c: nat, e: nat)
    requires c < |text|
    ensures IsSpan(text, c, "`", e) ==> TryCode(text, c) == Some(Step(Code(text[c + 1..e]), e + 1))
    ensures TryCode(text, c).Some? ==> IsSpan(text, c, "`", TryCode(text, c).value.next - 1)
  {
    NearestIsIndex(text, "`", c + 1, e);
    if TryCode(text, c).Some? { NearestIsIndex(text, "`", c + 1, TryCode(text, c).value.next - 1); }
  }

  lemma DelimitedExactly(text: string, c: nat, d: string, e: nat)
    requires d != ""
    ensures IsVisibleSpan(text, c, d, e) <==> DelimitedEnd(text, c, d) == Some(e)
  {
    NearestIsIndex(text, d, c + |d|, e);
  }

  lemma LinkFound(text: string, c: nat, s: nat, e: nat, href: string, urls: UrlParser)
    requires IsLink(text, c, s, e, href, urls)
    ensures FindLink(text, c, urls) == Some(LinkSpan(s, e, href))
  {
    NearestIsIndex(text, "](", c + 1, s);
    NearestIsIndex(text, ")", s + 2, e);
    SafeHrefExactly(text[s + 2..e], href, urls);
  }

  lemma FoundIsLink(text: string, c: nat, urls: UrlParser)
    requires c < |text| && FindLink(text, c, urls).Some?
    ensures var link := FindLink(text, c, urls).value;
            IsLink(text, c, link.separator, link.end, link.href, urls)
  {
    var link := FindLink(text, c, urls).value;
    NearestIsIndex(text, "](", c + 1, link.separator);
    NearestIsIndex(text, ")", link.separator + 2, link.end);
    SafeHrefExactly(text[link.separator + 2..link.end], link.href, urls);
  }

  /** No delimiter pair opens where another does. */
  lemma SpansExclude(text: string, c: nat, e: nat, e2: nat)
    ensures IsSpan(text, c, "**", e) ==> !IsSpan(text, c, "*", e2)
    ensures IsSpan(text, c, "*", e) || IsSpan(text, c, "**", e) ==> text[c] == '*'
    ensures IsSpan(text, c, "`", e) ==> text[c] == '`'
  {
    if IsSpan(text, c, "**", e) {
      assert text[c..c + 2] == "**";
      assert text[c] == text[c..c + 2][0] && text[c + 1] == text[c..c + 2][1];
      assert text[c + 1..c + 2] == "*";
      assert StartsAt(text, "*", c + 1);
    }
    if IsSpan(text, c, "*", e) { assert text[c] == text[c..c + 1][0]; }
    if IsSpan(text, c, "`", e) { assert text[c] == text[c..c + 1][0]; }
  }

  lemma NoCode(text: string, c: nat)
    requires c < |text| && text[c] != '`'
    ensures TryCode(text, c).None?
  {}

  lemma ReadsCode(text: string, c: nat, e: nat, urls: UrlParser)
    requires c < |text| && IsSpan(text, c, "`", e)
    ensures NextNode(text, c, urls) == Step(Code(text[c + 1..e]), e + 1)
  {
    CodeExactly(text, c, e);
  }

  lemma ReadsStrong(text: string, c: nat, e: nat, urls: UrlParser)
    requires c < |text| && IsVisibleSpan(text, c, "**", e)
    ensures NextNode(text, c, urls) == Step(Strong(Parse(text[c + 2..e], urls)), e + 2)
  {
    SpansExclude(text, c, e, e);
    NoCode(text, c);
    DelimitedExactly(text, c, "**", e);
  }

  lemma NoStrongHere(text: string, c: nat, e: nat)
    requires c < |text| && IsSpan(text, c, "*", e)
    ensures DelimitedEnd(text, c, "**").None?
  {
    if DelimitedEnd(text, c, "**").Some? {
      DelimitedExactly(text, c, "**", DelimitedEnd(text, c, "**").value);
      SpansExclude(text, c, DelimitedEnd(text, c, "**").value, e);
    }
  }

  lemma ReadsEmphasis(text: string, c: nat, e: nat, urls: UrlParser)
    requires c < |text| && IsVisibleSpan(text, c, "*", e)
    ensures NextNode(text, c, urls) == Step(Emphasis(Parse(text[c + 1..e], urls)), e + 1)
  {
    SpansExclude(text, c, e, e);
    NoCode(text, c);
    NoStrongHere(text, c, e);
    DelimitedExactly(text, c, "*", e);
  }

  lemma NoDelimiterAt(text: string, c: nat, d: string)
    requires c < |text| && d != "" && d[0] != text[c]
    ensures DelimitedEnd(text, c, d).None?
  {
    assert c + |d| <= |text| ==> text[c..c + |d|][0] == text[c];
  }

  lemma ReadsLink(text: string, c: nat, s: nat, e: nat, href: string, urls: UrlParser)
    requires IsLink(text, c, s, e, href, urls)
    ensures NextNode(text, c, urls) == Step(Link(Parse(text[c + 1..s], urls), text[s + 2..e], href), e + 1)
  {
    NoCode(text, c);
    NoDelimiterAt(text, c, "**");
    NoDelimiterAt(text, c, "*");
    LinkFound(text, c, s, e, href, urls);
  }

  // ----- And nothing else -----

  predicate IsSpecial(ch: char) {
    ch == '`' || ch == '*' || ch == '['
  }

  lemma OneChar(text: string, ch: char, i: nat)
    ensures StartsAt(text, [ch], i) <==> i < |text| && text[i] == ch
  {
    if i < |text| { assert text[i..i + 1] == [text[i]]; }
  }

  lemma NextSpecial(text: string, c: nat)
    requires c < |text|
    ensures var n := FindNextSpecialIndex(text, c);
            if n == -1 then forall i :: c <= i < |text| ==> !IsSpecial(text[i])
            else c <= n < |text| && IsSpecial(text[n]) && forall i :: c <= i < n ==> !IsSpecial(text[i])
  {
    assert ['`'] == "`" && ['*'] == "*" && ['['] == "[";
    forall i | c <= i < |text|
      ensures (StartsAt(text, "`", i) <==> text[i] == '`') && (StartsAt(text, "*", i) <==> text[i] == '*')
      ensures StartsAt(text, "[", i) <==> text[i] == '['
    {
      OneChar(text, '`', i);
      OneChar(text, '*', i);
      OneChar(text, '[', i);
    }
  }

  ghost predicate HasConstruct(text: string, c: nat, urls: UrlParser) {
    || (exists e :: IsSpan(text, c, "`", e))
    || (exists e :: IsVisibleSpan(text, c, "**", e))
    || (exists e :: IsVisibleSpan(text, c, "*", e))
    || (exists s, e, href :: IsLink(text, c, s, e, href, urls))
  }

  /** A run of plain characters up to the next mark, or one mark that opens nothing. */
  ghost predicate IsPlainRun(text: string, c: nat, next: nat) {
    c < next <= |text| &&
    if IsSpecial(text[c]) then next == c + 1
    else (next < |text| ==> IsSpecial(text[next])) && forall i :: c <= i < next ==> !IsSpecial(text[i])
  }

  lemma ReadsPlain(text: string, c: nat, urls: UrlParser)
    requires c < |text| && !HasConstruct(text, c, urls)
    ensures var step := NextNode(text, c, urls);
            IsPlainRun(text, c, step.next) && step.node == Plain(text[c..step.next])
  {
    if TryCode(text, c).Some? { CodeExactly(text, c, TryCode(text, c).value.next - 1); }
    if DelimitedEnd(text, c, "**").Some? { DelimitedExactly(text, c, "**", DelimitedEnd(text, c, "**").value); }
    if DelimitedEnd(text, c, "*").Some? { DelimitedExactly(text, c, "*", DelimitedEnd(text, c, "*").value); }
    if FindLink(text, c, urls).Some? { FoundIsLink(text, c, urls); }
    NextSpecial(text, c);
  }

  /** The construct read at a position is exactly the one whose span is there. */
  lemma ReadsExactly(text: string, c: nat, urls: UrlParser)
    requires c < |text|
    ensures NextNode(text, c, urls).node.Code? <==> exists e :: IsSpan(text, c, "`", e)
    ensures NextNode(text, c, urls).node.Strong? <==> exists e :: IsVisibleSpan(text, c, "**", e)
    ensures NextNode(text, c, urls).node.Emphasis? <==> exists e :: IsVisibleSpan(text, c, "*", e)
    ensures NextNode(text, c, urls).node.Link? <==> exists s, e, href :: IsLink(text, c, s, e, href, urls)
    ensures NextNode(text, c, urls).node.Plain? <==> !HasConstruct(text, c, urls)
  {
    if e :| IsSpan(text, c, "`", e) { ReadsCode(text, c, e, urls); }
    if e :| IsVisibleSpan(text, c, "**", e) { ReadsStrong(text, c, e, urls); }
    if e :| IsVisibleSpan(text, c, "*", e) { ReadsEmphasis(text, c, e, urls); }
    if s, e, href :| IsLink(text, c, s, e, href, urls) { ReadsLink(text, c, s, e, href, urls); }
    if !HasConstruct(text, c, urls) { ReadsPlain(text, c, urls); }
  }
}
