/**
 The known-good release selection: two keys in an env file that are read with a duplicate check
 and replaced as a pair, while every other line stays where it is.
 */
module SelectionFile {
  import opened Wrappers

  const SHA_KEY := "AERO_RELEASE_SOURCE_SHA"
  const DIGEST_KEY := "AERO_RELEASE_DIGEST"
  const DIGEST_PREFIX := "sha256:"

  datatype Refusal = DuplicateKey | SelectionUnknown | InvalidSelection | IsSymlink | DiskError

  predicate IsHex(s: string) {
    forall c :: c in s ==> '0' <= c <= '9' || 'a' <= c <= 'f'
  }

  predicate IsSha(s: string) {
    |s| == 40 && IsHex(s)
  }

  predicate IsReleaseDigest(s: string) {
    DIGEST_PREFIX <= s && |s| == 71 && IsHex(s[7..])
  }

  // ----- Text and lines -----

  /** The line boundaries of str.splitlines. */
  predicate IsBreak(c: char) {
    '\n' <= c <= '\r' || '\U{1C}' <= c <= '\U{1E}' || c == '\U{85}' || '\U{2028}' <= c <= '\U{2029}'
  }

  predicate IsLine(s: string) {
    forall c :: c in s ==> !IsBreak(c)
  }

  /** Universal newlines: a text-mode read turns "\r\n" and "\r" into "\n". */
  function ReadText(contents: string): string {
    if contents == "" then ""
    else if contents[0] != '\r' then [contents[0]] + ReadText(contents[1..])
    else "\n" + ReadText(if |contents| > 1 && contents[1] == '\n' then contents[2..] else contents[1..])
  }

  function FirstBreak(text: string): (n: nat)
    ensures n <= |text| && IsLine(text[..n])
    ensures n < |text| ==> IsBreak(text[n])
  {
    if text == "" || IsBreak(text[0]) then 0
    else
      var n := 1 + FirstBreak(text[1..]);
      assert text[..n] == [text[0]] + text[1..][..n - 1];
      n
  }

  /** str.splitlines */
  function SplitLines(text: string): seq<string> {
    if text == "" then []
    else
      var n := FirstBreak(text);
      var width := if n + 1 < |text| && text[n] == '\r' && text[n + 1] == '\n' then 2 else 1;
      [text[..n]] + if n + width <= |text| then SplitLines(text[n + width..]) else []
  }

  /** "\n".join */
  function Join(lines: seq<string>): string {
    if lines == [] then ""
    else if |lines| == 1 then lines[0]
    else lines[0] + "\n" + Join(lines[1..])
  }

  ghost predicate AreLines(lines: seq<string>) {
    forall i :: 0 <= i < |lines| ==> IsLine(lines[i])
  }

  lemma {:induction false} SplitGivesLines(text: string)
    ensures AreLines(SplitLines(text))
  {
    if text != "" {
      var n := FirstBreak(text);
      var width := if n + 1 < |text| && text[n] == '\r' && text[n + 1] == '\n' then 2 else 1;
      if n + width <= |text| { SplitGivesLines(text[n + width..]); }
    }
  }

  lemma {:induction false} FirstBreakAfter(line: string, rest: string)
    requires IsLine(line) && rest != "" && IsBreak(rest[0])
    ensures FirstBreak(line + rest) == |line|
  {
    if line == "" {
      assert line + rest == rest;
    } else {
      assert line == [line[0]] + line[1..];
      FirstBreakAfter(line[1..], rest);
      assert (line + rest)[1..] == line[1..] + rest;
    }
  }

  lemma SplitOne(line: string, rest: string)
    requires IsLine(line)
    ensures SplitLines(line + "\n" + rest) == [line] + SplitLines(rest)
  {
    var text := line + "\n" + rest;
    assert text == line + ("\n" + rest);
    FirstBreakAfter(line, "\n" + rest);
    assert text[|line|] == '\n' && text[..|line|] == line && text[|line| + 1..] == rest;
  }

  /** Lines written out and split again are the same lines. */
  lemma {:induction false} SplitOfJoin(lines: seq<string>)
    requires lines != [] && AreLines(lines)
    ensures SplitLines(Join(lines) + "\n") == lines
  {
    var rest := lines[1..];
    assert lines == [lines[0]] + rest;
    if rest == [] {
      SplitOne(lines[0], "");
      assert lines[0] + "\n" + "" == Join(lines) + "\n";
    } else {
      SplitOfJoin(rest);
      SplitOne(lines[0], Join(rest) + "\n");
      assert lines[0] + "\n" + (Join(rest) + "\n") == Join(lines) + "\n";
    }
  }

  lemma {:induction false} NoReturnsToTranslate(s: string)
    requires '\r' !in s
    ensures ReadText(s) == s
  {
    if s != "" {
      assert s == [s[0]] + s[1..];
      NoReturnsToTranslate(s[1..]);
    }
  }

  lemma {:induction false} JoinHasNoReturn(lines: seq<string>)
    requires AreLines(lines)
    ensures '\r' !in Join(lines)
  {
    if |lines| > 1 {
      assert lines == [lines[0]] + lines[1..];
      JoinHasNoReturn(lines[1..]);
    }
    assert lines != [] ==> IsLine(lines[0]) && IsBreak('\r');
  }

  // ----- Keys -----

  /** The index of the first "=", or the length: str.partition. */
  function KeyLength(line: string): (n: nat)
    ensures n <= |line| && '=' !in line[..n]
    ensures n < |line| ==> line[n] == '='
  {
    if line == "" || line[0] == '=' then 0
    else
      var n := 1 + KeyLength(line[1..]);
      assert line[..n] == [line[0]] + line[1..][..n - 1];
      n
  }

  function KeyOfLine(line: string): string {
    line[..KeyLength(line)]
  }

  predicate Assigns(line: string, key: string) {
    KeyLength(line) < |line| && KeyOfLine(line) == key
  }

  function ValueOfLine(line: string): string
    requires KeyLength(line) < |line|
  {
    line[KeyLength(line) + 1..]
  }

  lemma {:induction false} KeyLengthIs(key: string, rest: string)
    requires '=' !in key && (rest == "" || rest[0] == '=')
    ensures KeyLength(key + rest) == |key| && KeyOfLine(key + rest) == key
  {
    if key == "" {
      assert key + rest == rest;
    } else {
      assert key == [key[0]] + key[1..];
      KeyLengthIs(key[1..], rest);
      assert (key + rest)[1..] == key[1..] + rest;
    }
    assert (key + rest)[..|key|] == key;
  }

  lemma KeyOfAssignment(line: string, key: string)
    requires '=' !in key
    ensures Assigns(line, key) <==> key + "=" <= line
    ensures KeyOfLine(line) == key <==> line == key || key + "=" <= line
  {
    var n := KeyLength(line);
    assert line == line[..n] + line[n..];
    if key + "=" <= line {
      var rest := line[|key|..];
      assert line == key + rest && rest[0] == '=';
      KeyLengthIs(key, rest);
    }
    if line == key {
      assert key + "" == key;
      KeyLengthIs(key, "");
    }
  }

  // ----- What a file selects -----

  /** The values the file assigns to a key, top to bottom. */
  function Values(lines: seq<string>, key: string): seq<string> {
    if lines == [] then []
    else Values(lines[..|lines| - 1], key) +
         if Assigns(lines[|lines| - 1], key) then [ValueOfLine(lines[|lines| - 1])] else []
  }

  function First(values: seq<string>): string {
    if values == [] then "" else values[0]
  }

  /** Each key assigned exactly once, to well-formed values. */
  function Selection(lines: seq<string>): Result<(string, string), Refusal> {
    var shas, digests := Values(lines, SHA_KEY), Values(lines, DIGEST_KEY);
    if |shas| > 1 || |digests| > 1 then Err(DuplicateKey)
    else if IsSha(First(shas)) && IsReleaseDigest(First(digests)) then Ok((First(shas), First(digests)))
    else Err(SelectionUnknown)
  }

  lemma {:induction false} ValuesGrow(lines: seq<string>, i: nat, key: string)
    requires i <= |lines|
    ensures |Values(lines[..i], key)| <= |Values(lines, key)|
    decreases |lines| - i
  {
    if i == |lines| {
      assert lines[..i] == lines;
    } else {
      assert lines[..i + 1][..i] == lines[..i];
      ValuesGrow(lines, i + 1, key);
    }
  }

  lemma ValuesStep(lines: seq<string>, i: nat, key: string)
    requires i < |lines|
    ensures Values(lines[..i + 1], key) ==
            Values(lines[..i], key) + if Assigns(lines[i], key) then [ValueOfLine(lines[i])] else []
  {
    assert lines[..i + 1][..i] == lines[..i];
  }

  ghost predicate Collected(result: map<string, string>, lines: seq<string>, key: string) {
    && |Values(lines, key)| <= 1
    && (key in result <==> Values(lines, key) != [])
    && (key in result ==> result[key] == Values(lines, key)[0])
  }

  /** The loop of `selected`; None when a key comes twice. */
  method Collect(lines: seq<string>, first: string, second: string) returns (result: Option<map<string, string>>)
    ensures result.None? <==> |Values(lines, first)| > 1 || |Values(lines, second)| > 1
    ensures result.Some? ==> Collected(result.value, lines, first) && Collected(result.value, lines, second)
  {
    var collected: map<string, string> := map[];
    var i := 0;
    while i < |lines|
      invariant 0 <= i <= |lines|
      invariant Collected(collected, lines[..i], first) && Collected(collected, lines[..i], second)
    {
      ValuesStep(lines, i, first);
      ValuesStep(lines, i, second);
      var key := KeyOfLine(lines[i]);
      if KeyLength(lines[i]) < |lines[i]| && (key == first || key == second) {
        if key in collected {
          ValuesGrow(lines, i + 1, key);
          return None;
        }
        collected := collected[key := ValueOfLine(lines[i])];
      }
      i := i + 1;
    }
    assert lines[..i] == lines;
    return Some(collected);
  }

  /** selected */
  method Selected(contents: string) returns (r: Result<(string, string), Refusal>)
    ensures r == Selection(SplitLines(ReadText(contents)))
  {
    var lines := SplitLines(ReadText(contents));
    var collected := Collect(lines, DIGEST_KEY, SHA_KEY);
    if collected.None? { return Err(DuplicateKey); }
    var result := collected.value;
    CollectedDecides(result, lines);
    var sha := if SHA_KEY in result then result[SHA_KEY] else "";
    var digest := if DIGEST_KEY in result then result[DIGEST_KEY] else "";
    if !IsSha(sha) || !IsReleaseDigest(digest) { return Err(SelectionUnknown); }
    return Ok((sha, digest));
  }

  lemma CollectedDecides(result: map<string, string>, lines: seq<string>)
    requires Collected(result, lines, SHA_KEY) && Collected(result, lines, DIGEST_KEY)
    ensures var sha := if SHA_KEY in result then result[SHA_KEY] else "";
            var digest := if DIGEST_KEY in result then result[DIGEST_KEY] else "";
            Selection(lines) ==
            if IsSha(sha) && IsReleaseDigest(digest) then Ok((sha, digest)) else Err(SelectionUnknown)
  {}

  // ----- Saving -----

  const KEYS := {DIGEST_KEY, SHA_KEY}

  /** The lines whose key is none of the given ones. */
  function Others(lines: seq<string>, keys: set<string>): (r: seq<string>) {
    if lines == [] then []
    else
      var last := lines[|lines| - 1];
      Others(lines[..|lines| - 1], keys) + if KeyOfLine(last) !in keys then [last] else []
  }

  function Pair(sha: string, digest: string): seq<string> {
    [DIGEST_KEY + "=" + digest, SHA_KEY + "=" + sha]
  }

  function SavedLines(lines: seq<string>, sha: string, digest: string): seq<string> {
    Others(lines, KEYS) + Pair(sha, digest)
  }

  function Saved(contents: string, sha: string, digest: string): string {
    Join(SavedLines(SplitLines(ReadText(contents)), sha, digest)) + "\n"
  }

  class EnvFile {
    var contents: string
    var symlink: bool

    constructor (contents: string, symlink: bool)
      ensures this.contents == contents && this.symlink == symlink
    {
      this.contents, this.symlink := contents, symlink;
    }

    /** save_selection: the new text is renamed over the old one, or the old one stays. */
    method SaveSelection(sha: string, digest: string, diskFails: bool) returns (r: Result<(), Refusal>)
      modifies this`contents
      ensures r.Ok? <==> IsSha(sha) && IsReleaseDigest(digest) && !symlink && !diskFails
      ensures contents == if r.Ok? then Saved(old(contents), sha, digest) else old(contents)
      ensures r.Err? ==> r.error == if !(IsSha(sha) && IsReleaseDigest(digest)) then InvalidSelection
                                    else if symlink then IsSymlink else DiskError
    {
      if !IsSha(sha) || !IsReleaseDigest(digest) { return Err(InvalidSelection); }
      if symlink { return Err(IsSymlink); }
      var lines := Others(SplitLines(ReadText(contents)), KEYS);
      lines := lines + [DIGEST_KEY + "=" + digest, SHA_KEY + "=" + sha];
      var temporary := Join(lines) + "\n";
      if diskFails { return Err(DiskError); }
      contents := temporary;
      return Ok(());
    }
  }

  // ----- What a save keeps and what it replaces -----

  lemma {:induction false} OthersAreLines(lines: seq<string>, keys: set<string>)
    requires AreLines(lines)
    ensures AreLines(Others(lines, keys))
  {
    if lines != [] { OthersAreLines(lines[..|lines| - 1], keys); }
  }

  lemma HexIsLine(s: string)
    requires IsHex(s)
    ensures IsLine(s)
  {
    forall c | c in s ensures !IsBreak(c) {}
  }

  lemma ConcatIsLine(a: string, b: string)
    requires IsLine(a) && IsLine(b)
    ensures IsLine(a + b)
  {}

  lemma SelectionIsLines(sha: string, digest: string)
    requires IsSha(sha) && IsReleaseDigest(digest)
    ensures IsLine(DIGEST_KEY + "=" + digest) && IsLine(SHA_KEY + "=" + sha)
  {
    HexIsLine(sha);
    HexIsLine(digest[7..]);
    assert digest == DIGEST_PREFIX + digest[7..];
    ConcatIsLine(DIGEST_PREFIX, digest[7..]);
    ConcatIsLine(DIGEST_KEY + "=", digest);
    ConcatIsLine(SHA_KEY + "=", sha);
  }

  /** The saved file has the other lines of the old one, in order, then the new pair. */
  lemma SavedFileLines(contents: string, sha: string, digest: string)
    requires IsSha(sha) && IsReleaseDigest(digest)
    ensures SplitLines(ReadText(Saved(contents, sha, digest))) ==
            SavedLines(SplitLines(ReadText(contents)), sha, digest)
  {
    var before := SplitLines(ReadText(contents));
    SplitGivesLines(ReadText(contents));
    OthersAreLines(before, KEYS);
    SelectionIsLines(sha, digest);
    var lines := SavedLines(before, sha, digest);
    JoinHasNoReturn(lines);
    NoReturnsToTranslate(Join(lines) + "\n");
    SplitOfJoin(lines);
  }

  lemma ValuesSnoc(lines: seq<string>, line: string, key: string)
    ensures Values(lines + [line], key) == Values(lines, key) + if Assigns(line, key) then [ValueOfLine(line)] else []
  {
    assert (lines + [line])[..|lines|] == lines;
  }

  lemma OthersSnoc(lines: seq<string>, line: string, keys: set<string>)
    ensures Others(lines + [line], keys) == Others(lines, keys) + if KeyOfLine(line) !in keys then [line] else []
  {
    assert (lines + [line])[..|lines|] == lines;
  }

  lemma {:induction false} OthersAssignNothing(lines: seq<string>, keys: set<string>, key: string)
    requires key in keys
    ensures Values(Others(lines, keys), key) == []
  {
    if lines != [] {
      var front, last := lines[..|lines| - 1], lines[|lines| - 1];
      OthersAssignNothing(front, keys, key);
      assert Others(front, keys) + [] == Others(front, keys);
      ValuesSnoc(Others(front, keys), last, key);
    }
  }

  lemma Assignment(key: string, value: string)
    requires '=' !in key
    ensures KeyOfLine(key + "=" + value) == key
    ensures Assigns(key + "=" + value, key) && ValueOfLine(key + "=" + value) == value
  {
    assert key + "=" + value == key + ("=" + value);
    KeyLengthIs(key, "=" + value);
  }

  lemma PairValues(lines: seq<string>, first: string, value: string, second: string, value2: string)
    requires '=' !in first && '=' !in second && first != second
    requires Values(lines, first) == [] && Values(lines, second) == []
    ensures Values(lines + [first + "=" + value, second + "=" + value2], first) == [value]
    ensures Values(lines + [first + "=" + value, second + "=" + value2], second) == [value2]
  {
    var a, b := first + "=" + value, second + "=" + value2;
    Assignment(first, value);
    Assignment(second, value2);
    assert lines + [a, b] == lines + [a] + [b];
    ValuesSnoc(lines, a, first);
    ValuesSnoc(lines, a, second);
    ValuesSnoc(lines + [a], b, first);
    ValuesSnoc(lines + [a], b, second);
  }

  lemma SavedValues(lines: seq<string>, sha: string, digest: string)
    ensures Values(SavedLines(lines, sha, digest), SHA_KEY) == [sha]
    ensures Values(SavedLines(lines, sha, digest), DIGEST_KEY) == [digest]
  {
    OthersAssignNothing(lines, KEYS, SHA_KEY);
    OthersAssignNothing(lines, KEYS, DIGEST_KEY);
    PairValues(Others(lines, KEYS), DIGEST_KEY, digest, SHA_KEY, sha);
  }

  /** Whatever the file held before, also duplicates or nothing, the saved pair is what is read. */
  lemma ReadBackSaved(contents: string, sha: string, digest: string)
    requires IsSha(sha) && IsReleaseDigest(digest)
    ensures Selection(SplitLines(ReadText(Saved(contents, sha, digest)))) == Ok((sha, digest))
  {
    SavedFileLines(contents, sha, digest);
    SavedValues(SplitLines(ReadText(contents)), sha, digest);
  }

  /** A line goes exactly when it is one of the keys alone or assigns to one of them. */
  lemma {:induction false} KeptLines(lines: seq<string>, keys: set<string>, line: string)
    requires forall key :: key in keys ==> '=' !in key
    ensures line in Others(lines, keys) <==>
            line in lines && forall key :: key in keys ==> line != key && !(key + "=" <= line)
  {
    forall key | key in keys ensures KeyOfLine(line) == key <==> line == key || key + "=" <= line {
      KeyOfAssignment(line, key);
    }
    if lines != [] {
      var front, last := lines[..|lines| - 1], lines[|lines| - 1];
      assert lines == front + [last];
      KeptLines(front, keys, line);
    }
  }

  lemma {:induction false} OthersOfConcat(a: seq<string>, b: seq<string>, keys: set<string>)
    ensures Others(a + b, keys) == Others(a, keys) + Others(b, keys)
  {
    if b == [] {
      assert a + b == a;
    } else {
      var front := b[..|b| - 1];
      assert (a + b)[..|a + b| - 1] == a + front;
      OthersOfConcat(a, front, keys);
    }
  }

  lemma {:induction false} OthersTwice(lines: seq<string>, keys: set<string>)
    ensures Others(Others(lines, keys), keys) == Others(lines, keys)
  {
    if lines != [] {
      var front, last := lines[..|lines| - 1], lines[|lines| - 1];
      OthersTwice(front, keys);
      assert Others(front, keys) + [] == Others(front, keys);
      OthersSnoc(Others(front, keys), last, keys);
    }
  }

  lemma PairGoes(sha: string, digest: string)
    ensures Others(Pair(sha, digest), KEYS) == []
  {
    var d, s := DIGEST_KEY + "=" + digest, SHA_KEY + "=" + sha;
    Assignment(DIGEST_KEY, digest);
    Assignment(SHA_KEY, sha);
    assert Pair(sha, digest) == [] + [d] + [s];
    OthersSnoc([], d, KEYS);
    OthersSnoc([] + [d], s, KEYS);
  }

  lemma PairIsReplaced(lines: seq<string>, sha: string, digest: string)
    ensures Others(SavedLines(lines, sha, digest), KEYS) == Others(lines, KEYS)
  {
    OthersOfConcat(Others(lines, KEYS), Pair(sha, digest), KEYS);
    PairGoes(sha, digest);
    OthersTwice(lines, KEYS);
  }

  /** The last save wins: nothing of the selection before it is left. */
  lemma LastSaveWins(contents: string, sha: string, digest: string, sha2: string, digest2: string)
    requires IsSha(sha) && IsReleaseDigest(digest)
    ensures Saved(Saved(contents, sha, digest), sha2, digest2) == Saved(contents, sha2, digest2)
  {
    SavedFileLines(contents, sha, digest);
    PairIsReplaced(SplitLines(ReadText(contents)), sha, digest);
  }
}
