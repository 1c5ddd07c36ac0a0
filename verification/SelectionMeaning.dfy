/**
 What the selection file means, said of its lines and characters: how a text falls into lines,
 when its lines select a release, and when they are refused.
 */
module SelectionMeaning {
  import opened Wrappers
  import opened SelectionFile
  import Text

  // ----- Lines -----

  /** The characters at which str.splitlines ends a line. */
  const BREAKS: string := "\n\r\U{0B}\U{0C}\U{1C}\U{1D}\U{1E}\U{85}\U{2028}\U{2029}"

  lemma BreakExactly(c: char)
    ensures IsBreak(c) <==> c in BREAKS
  {
    assert BREAKS == ['\n', '\r', '\U{0B}', '\U{0C}', '\U{1C}', '\U{1D}', '\U{1E}', '\U{85}', '\U{2028}', '\U{2029}'];
    assert BREAKS[0] == '\n' && BREAKS[1] == '\r' && BREAKS[2] == '\U{0B}' && BREAKS[3] == '\U{0C}';
    assert BREAKS[4] == '\U{1C}' && BREAKS[5] == '\U{1D}' && BREAKS[6] == '\U{1E}' && BREAKS[7] == '\U{85}';
    assert BREAKS[8] == '\U{2028}' && BREAKS[9] == '\U{2029}';
  }

  /** What ends a line: one break, or a carriage return and a line feed together. */
  ghost predicate IsLineEnd(s: string) {
    s == "\r\n" || (|s| == 1 && s[0] in BREAKS)
  }

  function Rejoined(lines: seq<string>, ends: seq<string>): string
    requires |lines| == |ends|
  {
    if lines == [] then "" else lines[0] + ends[0] + Rejoined(lines[1..], ends[1..])
  }

  /** The lines are the pieces of the text between its line ends, the last one possibly without an end. */
  ghost predicate AreLinesOf(text: string, lines: seq<string>, ends: seq<string>) {
    && |lines| == |ends| && Rejoined(lines, ends) == text
    && (forall i, c :: 0 <= i < |lines| && c in lines[i] ==> c !in BREAKS)
    && (forall i :: 0 <= i < |ends| ==> IsLineEnd(ends[i]) || (i == |ends| - 1 && ends[i] == "" && lines[i] != ""))
    && (forall i :: 0 <= i < |ends| - 1 && ends[i] == "\r" ==> lines[i + 1] != "" || ends[i + 1][..1] != "\n")
  }

  lemma FirstIsNotLineFeed(lines: seq<string>, ends: seq<string>, text: string)
    requires AreLinesOf(text, lines, ends) && lines != [] && (text == "" || text[0] != '\n')
    ensures lines[0] != "" || ends[0][..1] != "\n"
  {
    if lines[0] == "" && ends[0] != "" {
      assert text == ends[0] + Rejoined(lines[1..], ends[1..]);
      assert text[0] == ends[0][0];
    }
  }

  lemma PrependLine(line: string, end: string, rest: string, lines: seq<string>, ends: seq<string>)
    requires AreLinesOf(rest, lines, ends) && IsLineEnd(end) && forall c :: c in line ==> c !in BREAKS
    requires end == "\r" ==> rest == "" || rest[0] != '\n'
    ensures AreLinesOf(line + end + rest, [line] + lines, [end] + ends)
  {
    var all, allEnds := [line] + lines, [end] + ends;
    assert all[1..] == lines && allEnds[1..] == ends;
    if lines != [] && end == "\r" { FirstIsNotLineFeed(lines, ends, rest); }
    forall i | 0 <= i < |allEnds|
      ensures IsLineEnd(allEnds[i]) || (i == |allEnds| - 1 && allEnds[i] == "" && all[i] != "")
    {
      if i > 0 { assert allEnds[i] == ends[i - 1] && all[i] == lines[i - 1]; }
    }
    forall i | 0 <= i < |allEnds| - 1 && allEnds[i] == "\r" ensures all[i + 1] != "" || allEnds[i + 1][..1] != "\n" {
      if i > 0 { assert allEnds[i] == ends[i - 1] && all[i + 1] == lines[i]; }
    }
  }

  /** The line end at the first break of the text, and what follows it. */
  lemma EndAt(text: string, n: nat) returns (end: string, rest: string)
    requires n == FirstBreak(text) && n < |text|
    ensures IsLineEnd(end) && text == text[..n] + end + rest && |rest| < |text|
    ensures end == "\r" ==> rest == "" || rest[0] != '\n'
    ensures SplitLines(text) == [text[..n]] + SplitLines(rest)
  {
    BreakExactly(text[n]);
    var width := if n + 1 < |text| && text[n] == '\r' && text[n + 1] == '\n' then 2 else 1;
    end, rest := text[n..n + width], text[n + width..];
    assert end == "\r\n" || (|end| == 1 && end[0] == text[n]);
    Cut(text, n, n + width);
  }

  lemma Cut(text: string, i: nat, j: nat)
    requires i <= j <= |text|
    ensures text == text[..i] + text[i..j] + text[j..]
  {
    assert text == text[..i] + text[i..];
    assert text[i..] == text[i..j] + text[j..];
  }

  /** Splitting loses no character but the line ends, and a return with its line feed is one end. */
  lemma {:induction false} SplitLinesExactly(text: string) returns (ends: seq<string>)
    ensures AreLinesOf(text, SplitLines(text), ends)
    decreases |text|
  {
    if text == "" {
      ends := [];
    } else {
      var n := FirstBreak(text);
      var line := text[..n];
      forall c | c in line ensures c !in BREAKS { BreakExactly(c); }
      if n == |text| {
        ends := [""];
        assert line == text && Rejoined([line], [""]) == line + "" + "";
      } else {
        var end, rest := EndAt(text, n);
        var more := SplitLinesExactly(rest);
        PrependLine(line, end, rest, SplitLines(rest), more);
        ends := [end] + more;
      }
    }
  }

  // ----- Reading as text changes no line -----

  lemma ReadOne(line: string, rest: string)
    requires IsLine(line)
    ensures ReadText(line + rest) == line + ReadText(rest)
    decreases |line|
  {
    if line == "" {
      assert line + rest == rest;
    } else {
      assert IsBreak('\r') && line[0] in line;
      assert line == [line[0]] + line[1..];
      assert (line + rest)[1..] == line[1..] + rest;
      ReadOne(line[1..], rest);
    }
  }

  lemma BreakAfter(line: string, end: string, rest: string)
    requires IsLine(line) && IsLineEnd(end)
    ensures var text, n := line + end + rest, |line|;
            && FirstBreak(text) == n && text[n] == end[0] && text[..n] == line && text[n + |end|..] == rest
            && (n + 1 < |text| ==> text[n + 1] == if |end| == 2 then end[1] else rest[0])
  {
    var text := line + end + rest;
    BreakExactly(end[0]);
    Associates(line, end, rest);
    FirstBreakAfter(line, end + rest);
  }

  lemma Associates(a: string, b: string, c: string)
    ensures a + b + c == a + (b + c)
  {}

  lemma SplitAtBreak(line: string, end: string, rest: string)
    requires IsLine(line) && IsLineEnd(end) && (end == "\r" ==> rest == "" || rest[0] != '\n')
    ensures SplitLines(line + end + rest) == [line] + SplitLines(rest)
  {
    BreakExactly('\r');
    BreakAfter(line, end, rest);
  }

  /** What a line end becomes. */
  function Translated(end: string): string {
    if end == "\r" || end == "\r\n" then "\n" else end
  }

  lemma ReadEnd(end: string, rest: string)
    requires IsLineEnd(end) && (end == "\r" ==> rest == "" || rest[0] != '\n')
    ensures ReadText(end + rest) == Translated(end) + ReadText(rest)
  {
    assert end != "\r\n" ==> (end + rest)[1..] == rest;
    if end == "\r\n" {
      assert (end + rest)[0] == '\r' && (end + rest)[1] == '\n' && (end + rest)[2..] == rest;
    } else {
      assert end == [end[0]];
      assert |end + rest| > 1 ==> (end + rest)[1] == rest[0];
    }
  }

  lemma ReadOneLine(line: string, end: string, rest: string)
    requires IsLine(line) && IsLineEnd(end) && (end == "\r" ==> rest == "" || rest[0] != '\n')
    ensures ReadText(line + end + rest) == line + Translated(end) + ReadText(rest)
  {
    Associates(line, end, rest);
    ReadOne(line, end + rest);
    ReadEnd(end, rest);
    Associates(line, Translated(end), ReadText(rest));
  }

  lemma TranslatedIsEnd(end: string)
    requires IsLineEnd(end)
    ensures IsLineEnd(Translated(end)) && Translated(end) != "\r"
  {
    assert BREAKS[0] == '\n';
  }

  lemma ReadKeepsOne(line: string, end: string, rest: string)
    requires IsLine(line) && IsLineEnd(end) && (end == "\r" ==> rest == "" || rest[0] != '\n')
    requires SplitLines(ReadText(rest)) == SplitLines(rest)
    ensures SplitLines(ReadText(line + end + rest)) == SplitLines(line + end + rest)
  {
    ReadOneLine(line, end, rest);
    TranslatedIsEnd(end);
    SplitAtBreak(line, end, rest);
    SplitAtBreak(line, Translated(end), ReadText(rest));
  }

  /** Universal newlines translate line ends into line feeds; the lines stay the same. */
  lemma {:induction false} ReadKeepsLines(contents: string)
    ensures SplitLines(ReadText(contents)) == SplitLines(contents)
    decreases |contents|
  {
    var n := FirstBreak(contents);
    if n == |contents| {
      assert contents == contents[..n] + "";
      ReadOne(contents[..n], "");
    } else {
      var end, rest := EndAt(contents, n);
      ReadKeepsLines(rest);
      ReadKeepsOne(contents[..n], end, rest);
    }
  }

  // ----- What is selected -----

  lemma HexExactly(s: string)
    ensures IsHex(s) <==> Text.IsLowerHex(s, |s|)
  {
    forall i | 0 <= i < |s| ensures ('0' <= s[i] <= '9' || 'a' <= s[i] <= 'f') <==> s[i] in "0123456789abcdef" {
      Text.LowerHexDigit(s[i]);
    }
    assert forall i :: 0 <= i < |s| ==> s[i] in s;
  }

  /** A commit and a release digest, as the manifest writes them. */
  ghost predicate IsSelection(sha: string, digest: string) {
    Text.IsLowerHex(sha, 40) && exists hex :: Text.IsLowerHex(hex, 64) && digest == "sha256:" + hex
  }

  lemma SelectionShape(sha: string, digest: string)
    ensures IsSha(sha) && IsReleaseDigest(digest) <==> IsSelection(sha, digest)
  {
    HexExactly(sha);
    if IsReleaseDigest(digest) {
      HexExactly(digest[7..]);
      assert digest == "sha256:" + digest[7..];
    }
    if hex :| Text.IsLowerHex(hex, 64) && digest == "sha256:" + hex {
      HexExactly(hex);
      assert digest[7..] == hex;
    }
  }

  /** The line starts with the key and an equals sign. */
  predicate Sets(line: string, key: string) {
    key + "=" <= line
  }

  ghost predicate SetTwice(lines: seq<string>, key: string) {
    exists i, j :: 0 <= i < j < |lines| && Sets(lines[i], key) && Sets(lines[j], key)
  }

  ghost predicate IsSetTo(lines: seq<string>, key: string, value: string) {
    exists i :: 0 <= i < |lines| && lines[i] == key + "=" + value
  }

  ghost predicate IsSet(lines: seq<string>, key: string) {
    exists i :: 0 <= i < |lines| && Sets(lines[i], key)
  }

  lemma {:induction false} ValuesCount(lines: seq<string>, key: string)
    requires '=' !in key
    ensures |Values(lines, key)| > 0 <==> IsSet(lines, key)
    ensures |Values(lines, key)| > 1 <==> SetTwice(lines, key)
    ensures Values(lines, key) != [] ==> IsSetTo(lines, key, Values(lines, key)[0])
  {
    if lines != [] {
      var front, last := lines[..|lines| - 1], lines[|lines| - 1];
      assert lines == front + [last];
      KeyOfAssignment(last, key);
      ValuesCount(front, key);
      CountOneMore(front, last, key);
      if Sets(last, key) { assert last == key + "=" + ValueOfLine(last) by { Split(last, key); } }
      SetToOneMore(front, last, key, First(Values(lines, key)));
    }
  }

  lemma Split(line: string, key: string)
    requires '=' !in key && Sets(line, key)
    ensures Assigns(line, key) && line == key + "=" + ValueOfLine(line)
  {
    KeyOfAssignment(line, key);
    assert line == line[..KeyLength(line)] + [line[KeyLength(line)]] + line[KeyLength(line) + 1..];
  }

  lemma CountOneMore(front: seq<string>, last: string, key: string)
    ensures IsSet(front + [last], key) <==> IsSet(front, key) || Sets(last, key)
    ensures SetTwice(front + [last], key) <==> SetTwice(front, key) || (IsSet(front, key) && Sets(last, key))
  {
    var lines, n := front + [last], |front|;
    assert lines[n] == last && forall i :: 0 <= i < n ==> lines[i] == front[i];
    if IsSet(front, key) && Sets(last, key) {
      var i :| 0 <= i < n && Sets(front[i], key);
      assert Sets(lines[i], key) && Sets(lines[n], key);
    }
    if SetTwice(front, key) {
      var i, j :| 0 <= i < j < n && Sets(front[i], key) && Sets(front[j], key);
      assert Sets(lines[i], key) && Sets(lines[j], key);
    }
    if IsSet(front, key) {
      var i :| 0 <= i < n && Sets(front[i], key);
      assert Sets(lines[i], key);
    }
  }

  lemma SetToOneMore(front: seq<string>, last: string, key: string, value: string)
    ensures IsSetTo(front + [last], key, value) <==> IsSetTo(front, key, value) || last == key + "=" + value
  {
    var lines := front + [last];
    assert lines[|front|] == last && forall i :: 0 <= i < |front| ==> lines[i] == front[i];
    if i :| 0 <= i < |front| && front[i] == key + "=" + value {
      assert lines[i] == key + "=" + value;
    }
  }

  lemma OnlyValue(lines: seq<string>, key: string, value: string)
    requires '=' !in key && !SetTwice(lines, key) && IsSetTo(lines, key, value)
    ensures Values(lines, key) == [value]
  {
    ValuesCount(lines, key);
    var i :| 0 <= i < |lines| && lines[i] == key + "=" + value;
    var v := Values(lines, key)[0];
    var j :| 0 <= j < |lines| && lines[j] == key + "=" + v;
    assert Sets(lines[i], key) && Sets(lines[j], key);
    assert i == j;
    assert (key + "=" + value)[|key| + 1..] == value && (key + "=" + v)[|key| + 1..] == v;
  }

  /**
   A file selects a pair exactly when it sets each of the two keys on one line and no more, to that
   pair, a commit and a digest. It is refused for a repeated key exactly when one is set on two
   lines, and otherwise as unknown.
   */
  lemma SelectionExactly(lines: seq<string>, sha: string, digest: string)
    ensures Selection(lines) == Ok((sha, digest)) <==>
            && IsSetTo(lines, "AERO_RELEASE_SOURCE_SHA", sha) && !SetTwice(lines, "AERO_RELEASE_SOURCE_SHA")
            && IsSetTo(lines, "AERO_RELEASE_DIGEST", digest) && !SetTwice(lines, "AERO_RELEASE_DIGEST")
            && IsSelection(sha, digest)
    ensures Selection(lines) == Err(DuplicateKey) <==>
            SetTwice(lines, "AERO_RELEASE_SOURCE_SHA") || SetTwice(lines, "AERO_RELEASE_DIGEST")
    ensures Selection(lines).Err? ==> Selection(lines).error in {DuplicateKey, SelectionUnknown}
  {
    ValuesCount(lines, SHA_KEY);
    ValuesCount(lines, DIGEST_KEY);
    if Selection(lines).Ok? {
      SelectionShape(Selection(lines).value.0, Selection(lines).value.1);
    }
    SelectionShape(sha, digest);
    if IsSetTo(lines, SHA_KEY, sha) && !SetTwice(lines, SHA_KEY) { OnlyValue(lines, SHA_KEY, sha); }
    if IsSetTo(lines, DIGEST_KEY, digest) && !SetTwice(lines, DIGEST_KEY) { OnlyValue(lines, DIGEST_KEY, digest); }
  }

  // ----- What is saved -----

  /** The line is neither key alone and sets neither. */
  predicate IsOther(line: string) {
    && line != "AERO_RELEASE_SOURCE_SHA" && !Sets(line, "AERO_RELEASE_SOURCE_SHA")
    && line != "AERO_RELEASE_DIGEST" && !Sets(line, "AERO_RELEASE_DIGEST")
  }

  /** The kept lines are the other lines of the text, each in its place: line at[i] is the i-th kept. */
  ghost predicate AreOthers(lines: seq<string>, kept: seq<string>, at: seq<nat>) {
    && |at| == |kept| && (forall i, j :: 0 <= i < j < |at| ==> at[i] < at[j])
    && (forall i :: 0 <= i < |at| ==> at[i] < |lines| && kept[i] == lines[at[i]] && IsOther(kept[i]))
    && (forall k :: 0 <= k < |lines| && IsOther(lines[k]) ==> k in at)
  }

  lemma OtherExactly(line: string)
    ensures IsOther(line) <==> KeyOfLine(line) !in KEYS
  {
    KeyOfAssignment(line, SHA_KEY);
    KeyOfAssignment(line, DIGEST_KEY);
  }

  lemma OneMoreOther(front: seq<string>, last: string, kept: seq<string>, at: seq<nat>)
    requires AreOthers(front, kept, at)
    ensures IsOther(last) ==> AreOthers(front + [last], kept + [last], at + [|front|])
    ensures !IsOther(last) ==> AreOthers(front + [last], kept, at)
  {
    var lines, more := front + [last], at + [|front|];
    assert lines[|front|] == last && more[|at|] == |front|;
    forall k | 0 <= k < |lines| && IsOther(lines[k]) ensures k in more && (!IsOther(last) ==> k in at) {
      if k < |front| { assert lines[k] == front[k] && k in at; }
    }
  }

  lemma {:induction false} OthersInPlace(lines: seq<string>) returns (at: seq<nat>)
    ensures AreOthers(lines, Others(lines, KEYS), at)
  {
    if lines == [] {
      at := [];
    } else {
      var front, last := lines[..|lines| - 1], lines[|lines| - 1];
      assert lines == front + [last];
      at := OthersInPlace(front);
      OneMoreOther(front, last, Others(front, KEYS), at);
      OtherExactly(last);
      if IsOther(last) {
        at := at + [|front|];
      } else {
        assert Others(front, KEYS) + [] == Others(front, KEYS);
      }
    }
  }

  /** After a save the file has its other lines in their order, then the digest, then the commit. */
  lemma SavedExactly(contents: string, sha: string, digest: string) returns (kept: seq<string>, at: seq<nat>)
    requires IsSelection(sha, digest)
    ensures AreOthers(SplitLines(contents), kept, at)
    ensures SplitLines(Saved(contents, sha, digest)) ==
            kept + ["AERO_RELEASE_DIGEST=" + digest] + ["AERO_RELEASE_SOURCE_SHA=" + sha]
  {
    SelectionShape(sha, digest);
    SavedFileLines(contents, sha, digest);
    ReadKeepsLines(contents);
    ReadKeepsLines(Saved(contents, sha, digest));
    kept := Others(SplitLines(contents), KEYS);
    at := OthersInPlace(SplitLines(contents));
    assert "AERO_RELEASE_DIGEST" + "=" == "AERO_RELEASE_DIGEST=";
    assert "AERO_RELEASE_SOURCE_SHA" + "=" == "AERO_RELEASE_SOURCE_SHA=";
  }
}
