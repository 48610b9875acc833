/**
 The fallback TOML reader of the LLVM release script: tables with string and integer values, one item a
 line of the file.  A nested dictionary is a map from key paths, in which the root is the empty path.
 */
module TomlReader {
  import opened Decimal
  import opened KiraStrings
  import opened Outcomes

  type Path = seq<string>

  datatype Entry = Table | Number(n: int) | Text(raw: string)

  type Tree = map<Path, Entry>

  const EMPTY_TREE: Tree := map[[] := Table]

  // ---------------------------------------------------------------------------
  // Text
  // ---------------------------------------------------------------------------

  /** The characters that Python's `strip` removes. */
  predicate IsSpace(c: char) {
    var u := c as int;
    9 <= u <= 13 || 28 <= u <= 32 || u == 0x85 || u == 0xA0 || u == 0x1680 || 0x2000 <= u <= 0x200A ||
    u == 0x2028 || u == 0x2029 || u == 0x202F || u == 0x205F || u == 0x3000
  }

  function StripLeft(s: string): string {
    if s != "" && IsSpace(s[0]) then StripLeft(s[1..]) else s
  }

  function StripRight(s: string): string {
    if s != "" && IsSpace(s[|s| - 1]) then StripRight(s[..|s| - 1]) else s
  }

  function Strip(s: string): string {
    StripRight(StripLeft(s))
  }

  /** The characters that end a line for Python's `splitlines`. */
  predicate IsBreak(c: char) {
    var u := c as int;
    10 <= u <= 13 || 28 <= u <= 30 || u == 0x85 || u == 0x2028 || u == 0x2029
  }

  /** Where the first line ends; the length of the text if no line end is in it. */
  function LineLength(text: string): (k: nat)
    ensures k <= |text|
  {
    if text == "" || IsBreak(text[0]) then 0 else 1 + LineLength(text[1..])
  }

  /** The first line end of a text that starts with one: a carriage return takes a newline with it. */
  function BreakLength(text: string): (k: nat)
    requires text != ""
    ensures 0 < k <= |text|
  {
    if |text| > 1 && text[0] == '\r' && text[1] == '\n' then 2 else 1
  }

  /** Python's `splitlines`: nothing follows a line end at the end of the text. */
  function SplitLines(text: string): seq<string>
    decreases |text|
  {
    if text == "" then []
    else
      var k := LineLength(text);
      if k == |text| then [text]
      else [text[..k]] + SplitLines(text[k + BreakLength(text[k..])..])
  }

  /** The parts between the dots. */
  function Split(s: string): (parts: seq<string>)
    ensures parts != []
    decreases |s|
  {
    var dot := Find(s, '.');
    if dot == -1 then [s] else [s[..dot]] + Split(s[dot + 1..])
  }

  /** Whether the scanner is inside a string, and whether the last character was an escape. */
  datatype Quoting = Quoting(inString: bool, escaped: bool)

  const OUTSIDE := Quoting(false, false)

  /** The scanner's reaction to one character; a `#` outside a string starts a comment instead. */
  function Next(q: Quoting, c: char): Quoting {
    if q.escaped then q.(escaped := false)
    else if c == '\\' && q.inString then q.(escaped := true)
    else if c == '"' then q.(inString := !q.inString)
    else q
  }

  predicate StartsComment(q: Quoting, c: char) {
    !q.escaped && c == '#' && !q.inString
  }

  /** Where the comment of a line starts; its length if it has none. */
  function CommentStart(line: string, q: Quoting): (at: nat)
    ensures at <= |line|
  {
    if line == "" || StartsComment(q, line[0]) then 0
    else 1 + CommentStart(line[1..], Next(q, line[0]))
  }

  function WithoutComment(line: string): string {
    var at := CommentStart(line, OUTSIDE);
    if at < |line| then StripRight(line[..at]) else line
  }

  method StripInlineComment(line: string) returns (r: string)
    ensures r == WithoutComment(line)
  {
    var inString := false;
    var escaped := false;
    for index := 0 to |line|
      invariant CommentStart(line, OUTSIDE) == index + CommentStart(line[index..], Quoting(inString, escaped))
    {
      var c := line[index];
      assert line[index..][1..] == line[index + 1..];
      if escaped {
        escaped := false;
      } else if c == '\\' && inString {
        escaped := true;
      } else if c == '"' {
        inString := !inString;
      } else if c == '#' && !inString {
        return StripRight(line[..index]);
      }
    }
    return line;
  }

  // ---------------------------------------------------------------------------
  // Values
  // ---------------------------------------------------------------------------

  /** Digits in which single underscores may stand between two digits, as Python's `int` accepts them. */
  predicate IsPythonDigits(s: string) {
    && s != "" && IsDigit(s[|s| - 1])
    && (|s| == 1 || (s[|s| - 2] == '_' && IsPythonDigits(s[..|s| - 2])) || IsPythonDigits(s[..|s| - 1]))
  }

  function WithoutUnderscores(s: string): string {
    if s == "" then ""
    else WithoutUnderscores(s[..|s| - 1]) + if s[|s| - 1] == '_' then "" else [s[|s| - 1]]
  }

  /** Python's `int` of a stripped text. */
  function PythonInt(s: string): Outcome<int> {
    var signed := s != "" && (s[0] == '-' || s[0] == '+');
    var digits := WithoutUnderscores(if signed then s[1..] else s);
    if !IsPythonDigits(if signed then s[1..] else s) || !AllDigits(digits) then Trap
    else if signed && s[0] == '-' then Ok(0 - NatVal(digits))
    else Ok(NatVal(digits))
  }

  /** A text that starts and ends with a quote is a string, returned raw; anything else must be an integer. */
  function ParsedValue(raw: string): Outcome<Entry> {
    if raw != "" && raw[0] == '"' && raw[|raw| - 1] == '"' then
      Ok(Text(if |raw| == 1 then "" else raw[1..|raw| - 1]))
    else
      var n :- PythonInt(raw);
      Ok(Number(n))
  }

  // ---------------------------------------------------------------------------
  // Lines
  // ---------------------------------------------------------------------------

  /** What has been read, and the table that the following keys go into. */
  datatype Reader = Reader(tree: Tree, current: Path)

  /** `current[key] = value`: a table that stood there goes, with all that it holds. */
  function Assigned(tree: Tree, target: Path, value: Entry): Tree {
    (map p | p in tree && !(target <= p) :: tree[p])[target := value]
  }

  /** Follows a table header from `at` down, making the tables that are missing. */
  function Entered(tree: Tree, at: Path, parts: seq<string>): Outcome<Reader>
    decreases |parts|
  {
    if parts == [] then Ok(Reader(tree, at))
    else
      var next := at + [parts[0]];
      var tree' := if next in tree then tree else tree[next := Table];
      if tree'[next] != Table then Trap else Entered(tree', next, parts[1..])
  }

  method EnterTable(tree: Tree, parts: seq<string>) returns (r: Outcome<Reader>)
    ensures r == Entered(tree, [], parts)
  {
    var all, at := tree, [];
    for i := 0 to |parts|
      invariant Entered(tree, [], parts) == Entered(all, at, parts[i..])
    {
      assert parts[i..][1..] == parts[i + 1..];
      at := at + [parts[i]];
      if at !in all {
        all := all[at := Table];
      }
      if all[at] != Table {
        return Trap;
      }
    }
    r := Ok(Reader(all, at));
  }

  /** One line: nothing, a table header, or a key with a value. */
  function LineRead(r: Reader, rawLine: string): Outcome<Reader> {
    var stripped := Strip(rawLine);
    if stripped == "" || stripped[0] == '#' then Ok(r)
    else
      var line := WithoutComment(stripped);
      if line == "" then Ok(r)
      else if line[0] == '[' && line[|line| - 1] == ']' then
        var tablePath := Strip(line[1..|line| - 1]);
        if tablePath == "" then Trap else Entered(r.tree, [], Split(tablePath))
      else
        var eq := Find(line, '=');
        if eq == -1 then Trap
        else
          var value :- ParsedValue(Strip(line[eq + 1..]));
          Ok(r.(tree := Assigned(r.tree, r.current + [Strip(line[..eq])], value)))
  }

  function LinesRead(r: Reader, lines: seq<string>): Outcome<Reader>
    decreases |lines|
  {
    if lines == [] then Ok(r)
    else
      var r' :- LineRead(r, lines[0]);
      LinesRead(r', lines[1..])
  }

  /** What a file with this text is read as. */
  function Loaded(text: string): Outcome<Tree> {
    var r :- LinesRead(Reader(EMPTY_TREE, []), SplitLines(text));
    Ok(r.tree)
  }

  method LoadToml(text: string) returns (result: Outcome<Tree>)
    ensures result == Loaded(text)
  {
    var r := Reader(EMPTY_TREE, []);
    ghost var start := r;
    var lines := SplitLines(text);
    var i := 0;
    while i < |lines|
      invariant 0 <= i <= |lines|
      invariant LinesRead(start, lines) == LinesRead(r, lines[i..])
    {
      assert lines[i..][1..] == lines[i + 1..];
      r :- ReadLine(r, lines[i]);
      i := i + 1;
    }
    result := Ok(r.tree);
  }

  method ReadLine(r: Reader, rawLine: string) returns (result: Outcome<Reader>)
    ensures result == LineRead(r, rawLine)
  {
    var line := Strip(rawLine);
    if line == "" || line[0] == '#' {
      return Ok(r);
    }
    line := StripInlineComment(line);
    if line == "" {
      return Ok(r);
    }
    if line[0] == '[' && line[|line| - 1] == ']' {
      var tablePath := Strip(line[1..|line| - 1]);
      if tablePath == "" {
        return Trap;
      }
      result := EnterTable(r.tree, Split(tablePath));
      return;
    }
    var eq := IndexOfByte(line, '=');
    if eq == -1 {
      return Trap;
    }
    var value :- ParsedValue(Strip(line[eq + 1..]));
    result := Ok(r.(tree := Assigned(r.tree, r.current + [Strip(line[..eq])], value)));
  }
}
