/** Files and their lines: what `splitlines` gives back, and what no line can hold. */
module TomlLines {
  import opened KiraStrings
  import opened Outcomes
  import opened TomlReader

  predicate NoBreak(s: string) {
    forall i | 0 <= i < |s| :: !IsBreak(s[i])
  }

  /** What can end `line` when `rest` follows in the file; only the last line may go without an end. */
  predicate EndsLine(line: string, end: string, rest: string) {
    if end == "" then line != "" && rest == ""
    else if |end| == 1 then IsBreak(end[0]) && !(end == "\r" && rest != "" && rest[0] == '\n')
    else end == "\r\n"
  }

  /** The text of a file with these lines and line ends. */
  function FileText(lines: seq<string>, ends: seq<string>): string
    requires |ends| == |lines|
  {
    if lines == [] then "" else lines[0] + (ends[0] + FileText(lines[1..], ends[1..]))
  }

  /** Each line has one of its possible ends. */
  ghost predicate Ended(lines: seq<string>, ends: seq<string>)
    decreases |lines|
  {
    && |ends| == |lines|
    && (lines == [] ||
        (EndsLine(lines[0], ends[0], FileText(lines[1..], ends[1..])) && Ended(lines[1..], ends[1..])))
  }

  predicate AreLines(lines: seq<string>) {
    forall i | 0 <= i < |lines| :: NoBreak(lines[i])
  }

  lemma {:induction false} LineLengthIs(line: string, rest: string)
    requires NoBreak(line) && (rest == "" || IsBreak(rest[0]))
    ensures LineLength(line + rest) == |line|
  {
    if line == "" {
      assert line + rest == rest;
    } else {
      assert (line + rest)[1..] == line[1..] + rest;
      LineLengthIs(line[1..], rest);
    }
  }

  lemma {:induction false} LineLengthStops(text: string)
    ensures var k := LineLength(text);
            NoBreak(text[..k]) && (k < |text| ==> IsBreak(text[k]))
  {
    if text != "" && !IsBreak(text[0]) {
      LineLengthStops(text[1..]);
      var k := LineLength(text[1..]);
      assert text[..k + 1] == [text[0]] + text[1..][..k];
    }
  }

  /** Splitting one line off. */
  lemma FirstLine(line: string, end: string, rest: string)
    requires NoBreak(line) && EndsLine(line, end, rest)
    ensures SplitLines(line + (end + rest)) == [line] + SplitLines(rest)
  {
    var text := line + (end + rest);
    LineLengthIs(line, end + rest);
    if end == "" {
      assert text == line && rest == "";
    } else {
      assert text[..|line|] == line && text[|line|..] == end + rest;
      assert BreakLength(end + rest) == |end|;
      assert text[|line| + |end|..] == rest;
    }
  }

  /** The lines of a file come back. */
  lemma {:induction false} LinesComeBack(lines: seq<string>, ends: seq<string>)
    requires AreLines(lines) && Ended(lines, ends)
    ensures SplitLines(FileText(lines, ends)) == lines
  {
    assert SplitLines("") == [];
    hide SplitLines, NoBreak, EndsLine;
    if lines != [] {
      FirstLine(lines[0], ends[0], FileText(lines[1..], ends[1..]));
      LinesComeBack(lines[1..], ends[1..]);
    }
  }

  /** Conversely, every text is a file with the lines that splitting gives. */
  lemma {:induction false} EveryTextIsFile(text: string) returns (ends: seq<string>)
    ensures var lines := SplitLines(text);
            AreLines(lines) && Ended(lines, ends) && FileText(lines, ends) == text
    decreases |text|
  {
    if text == "" {
      ends := [];
    } else {
      LineLengthStops(text);
      var line, tail := text[..LineLength(text)], text[LineLength(text)..];
      assert text == line + tail;
      if tail == "" {
        ends := [""];
        assert line == text && SplitLines(text) == [text];
        OneLineFile(text);
      } else {
        var b := BreakLength(tail);
        var rest := tail[b..];
        assert text[LineLength(text) + b..] == rest;
        assert SplitLines(text) == [line] + SplitLines(rest);
        hide SplitLines, NoBreak;
        var more := EveryTextIsFile(rest);
        ends := [tail[..b]] + more;
        EndIsEnd(line, tail);
        hide EndsLine;
        LineInFront(line, tail[..b], SplitLines(rest), more);
        assert tail == tail[..b] + rest;
      }
    }
  }

  lemma OneLineFile(line: string)
    requires line != "" && NoBreak(line)
    ensures AreLines([line]) && Ended([line], [""]) && FileText([line], [""]) == line
  {
    assert [line][1..] == [] && [""][1..] == [];
  }

  lemma LineInFront(line: string, end: string, lines: seq<string>, ends: seq<string>)
    requires AreLines(lines) && Ended(lines, ends)
    requires NoBreak(line) && EndsLine(line, end, FileText(lines, ends))
    ensures AreLines([line] + lines) && Ended([line] + lines, [end] + ends)
    ensures FileText([line] + lines, [end] + ends) == line + (end + FileText(lines, ends))
  {
    assert ([line] + lines)[1..] == lines && ([end] + ends)[1..] == ends;
  }

  lemma EndIsEnd(line: string, text: string)
    requires text != "" && IsBreak(text[0])
    ensures var b := BreakLength(text); EndsLine(line, text[..b], text[b..])
  {
  }

  // ---------------------------------------------------------------------------
  // What was read
  // ---------------------------------------------------------------------------

  predicate OnOneLine(e: Entry) {
    e.Text? ==> NoBreak(e.raw)
  }

  /** No string of the tree has a line end in it. */
  ghost predicate TextsOnOneLine(t: Tree) {
    forall p | p in t :: OnOneLine(t[p])
  }

  lemma {:induction false} StripKeepsNoBreak(s: string)
    requires NoBreak(s)
    ensures NoBreak(Strip(s)) && NoBreak(StripRight(s))
  {
    StripLeftSuffix(s);
    StripRightPrefix(s);
    StripRightPrefix(StripLeft(s));
  }

  lemma {:induction false} StripLeftSuffix(s: string)
    ensures |StripLeft(s)| <= |s| && StripLeft(s) == s[|s| - |StripLeft(s)|..]
  {
    if s != "" && IsSpace(s[0]) {
      StripLeftSuffix(s[1..]);
    }
  }

  lemma {:induction false} StripRightPrefix(s: string)
    ensures StripRight(s) <= s
  {
    if s != "" && IsSpace(s[|s| - 1]) {
      StripRightPrefix(s[..|s| - 1]);
    }
  }

  lemma LineKeepsTexts(r: Reader, line: string)
    requires NoBreak(line) && TextsOnOneLine(r.tree) && LineRead(r, line).Ok?
    ensures TextsOnOneLine(LineRead(r, line).value.tree)
  {
    StripKeepsNoBreak(line);
    var content := WithoutComment(Strip(line));
    assert NoBreak(content) by {
      StripKeepsNoBreak(Strip(line)[..CommentStart(Strip(line), OUTSIDE)]);
    }
    if content != "" && content[0] == '[' && content[|content| - 1] == ']' {
      EnteredKeepsTexts(r.tree, [], Split(Strip(content[1..|content| - 1])));
    } else {
      StripKeepsNoBreak(content[Find(content, '=') + 1..]);
    }
  }

  lemma {:induction false} EnteredKeepsTexts(t: Tree, at: Path, parts: seq<string>)
    requires TextsOnOneLine(t) && Entered(t, at, parts).Ok?
    ensures TextsOnOneLine(Entered(t, at, parts).value.tree)
    decreases |parts|
  {
    if parts != [] {
      var next := at + [parts[0]];
      EnteredKeepsTexts(if next in t then t else t[next := Table], next, parts[1..]);
    }
  }

  lemma {:induction false} LinesKeepTexts(r: Reader, lines: seq<string>)
    requires AreLines(lines) && TextsOnOneLine(r.tree) && LinesRead(r, lines).Ok?
    ensures TextsOnOneLine(LinesRead(r, lines).value.tree)
    decreases |lines|
  {
    if lines != [] {
      LineKeepsTexts(r, lines[0]);
      LinesKeepTexts(LineRead(r, lines[0]).value, lines[1..]);
    }
  }

  /** Whatever file a tree was read from, its strings have no line end in them. */
  lemma ReadTextsOnOneLine(text: string)
    requires Loaded(text).Ok?
    ensures TextsOnOneLine(Loaded(text).value)
  {
    var ends := EveryTextIsFile(text);
    LinesKeepTexts(Reader(EMPTY_TREE, []), SplitLines(text));
  }
}
