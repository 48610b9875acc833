/**
 Documents for the fallback TOML reader: any tree written down with headers, keys, blank lines, comments
 and free spacing reads back as that tree.
 */
module TomlDocument {
  import opened Decimal
  import opened KiraStrings
  import opened Outcomes
  import opened TomlLines
  import opened TomlReader

  datatype Comment = NoComment | Comment(text: string)

  /** One line of a document, with the spacing that its author chose. */
  datatype Item =
    | Blank(space: string)
    | Remark(indent: string, text: string)
    | Header(indent: string, left: string, parts: Path, right: string, space: string, comment: Comment)
    | KeyValue(
        indent: string, key: string, before: string, after: string, value: Entry, space: string, comment: Comment)

  predicate IsBlank(s: string) {
    forall i | 0 <= i < |s| :: IsSpace(s[i])
  }

  /** Space within a line. */
  predicate IsSpacing(s: string) {
    IsBlank(s) && NoBreak(s)
  }

  predicate IsKeyChar(c: char) {
    'a' <= c <= 'z' || 'A' <= c <= 'Z' || '0' <= c <= '9' || c == '_' || c == '-'
  }

  /** A bare key. */
  predicate IsKey(s: string) {
    s != "" && forall i | 0 <= i < |s| :: IsKeyChar(s[i])
  }

  predicate AreKeys(parts: Path) {
    forall i | 0 <= i < |parts| :: IsKey(parts[i])
  }

  /** The scanner's state after all of `s`, if no comment starts in it. */
  function After(q: Quoting, s: string): Outcome<Quoting>
    decreases |s|
  {
    if s == "" then Ok(q)
    else if StartsComment(q, s[0]) then Trap
    else After(Next(q, s[0]), s[1..])
  }

  const INSIDE := Quoting(true, false)

  /** A raw string: quotes and the end are not reached through an escape, and no unescaped quote is inside. */
  predicate IsRaw(s: string, q: Quoting) {
    if s == "" then q == INSIDE
    else Next(q, s[0]).inString && IsRaw(s[1..], Next(q, s[0]))
  }

  predicate IsValue(e: Entry) {
    match e
    case Table => false
    case Number(_) => true
    case Text(raw) => IsRaw(raw, INSIDE)
  }

  function ValueText(e: Entry): string
    requires !e.Table?
  {
    match e
    case Number(n) => IntText(n)
    case Text(raw) => ['"'] + raw + ['"']
  }

  function Joined(parts: Path): string {
    if parts == [] then "" else if |parts| == 1 then parts[0] else parts[0] + ['.'] + Joined(parts[1..])
  }

  predicate ValidItem(item: Item) {
    match item
    case Blank(space) => IsSpacing(space)
    case Remark(indent, text) => IsSpacing(indent) && NoBreak(text)
    case Header(indent, left, parts, right, space, comment) =>
      && IsSpacing(indent) && IsSpacing(left) && IsSpacing(right) && IsSpacing(space) && IsNote(comment)
      && parts != [] && AreKeys(parts)
    case KeyValue(indent, key, before, after, value, space, comment) =>
      && IsSpacing(indent) && IsSpacing(before) && IsSpacing(after) && IsSpacing(space) && IsNote(comment)
      && IsKey(key) && IsValue(value) && OnOneLine(value)
  }

  predicate IsNote(c: Comment) {
    c.Comment? ==> NoBreak(c.text)
  }

  function CommentText(c: Comment): string {
    if c.NoComment? then "" else ['#'] + c.text
  }

  /** What a header or key line says, without indentation, trailing space and comment. */
  function Content(item: Item): string
    requires ValidItem(item) && (item.Header? || item.KeyValue?)
  {
    if item.Header? then ['['] + (item.left + Joined(item.parts) + item.right) + [']']
    else (item.key + item.before) + ['='] + (item.after + ValueText(item.value))
  }

  function Rendered(item: Item): string
    requires ValidItem(item)
  {
    match item
    case Blank(space) => space
    case Remark(indent, text) => indent + (['#'] + text)
    case _ => item.indent + (Content(item) + (item.space + CommentText(item.comment)))
  }

  // ---------------------------------------------------------------------------
  // Stripping
  // ---------------------------------------------------------------------------

  lemma {:induction false} StripLeftBlank(space: string, s: string)
    requires IsBlank(space)
    ensures StripLeft(space + s) == StripLeft(s)
  {
    if space == "" {
      assert space + s == s;
    } else {
      assert (space + s)[0] == space[0] && (space + s)[1..] == space[1..] + s;
      StripLeftBlank(space[1..], s);
    }
  }

  lemma {:induction false} StripRightBlank(s: string, space: string)
    requires IsBlank(space)
    ensures StripRight(s + space) == StripRight(s)
  {
    if space == "" {
      assert s + space == s;
    } else {
      var t := s + space;
      assert t[|t| - 1] == space[|space| - 1] && t[..|t| - 1] == s + space[..|space| - 1];
      StripRightBlank(s, space[..|space| - 1]);
    }
  }

  /** Text whose first and last characters are not space. */
  predicate IsTight(s: string) {
    s != "" && !IsSpace(s[0]) && !IsSpace(s[|s| - 1])
  }

  lemma StripTight(a: string, s: string, b: string)
    requires IsBlank(a) && IsBlank(b) && IsTight(s)
    ensures Strip(a + s + b) == s
  {
    assert a + s + b == a + (s + b);
    StripLeftBlank(a, s + b);
    assert (s + b)[0] == s[0];
    StripRightBlank(s, b);
  }

  /** Stripping the right end only ever removes spaces. */
  lemma {:induction false} StripRightKeeps(s: string, i: nat)
    requires i < |s| && !IsSpace(s[i])
    ensures |StripRight(s)| > i && StripRight(s) <= s
    decreases |s|
  {
    if IsSpace(s[|s| - 1]) {
      StripRightKeeps(s[..|s| - 1], i);
    }
  }

  // ---------------------------------------------------------------------------
  // Comments
  // ---------------------------------------------------------------------------

  lemma {:induction false} CommentAfter(q: Quoting, a: string, b: string)
    requires After(q, a).Ok?
    ensures CommentStart(a + b, q) == |a| + CommentStart(b, After(q, a).value)
    decreases |a|
  {
    if a == "" {
      assert a + b == b;
    } else {
      assert (a + b)[0] == a[0] && (a + b)[1..] == a[1..] + b;
      CommentAfter(Next(q, a[0]), a[1..], b);
    }
  }

  lemma {:induction false} AfterConcat(q: Quoting, a: string, b: string)
    requires After(q, a).Ok?
    ensures After(q, a + b) == After(After(q, a).value, b)
    decreases |a|
  {
    if a == "" {
      assert a + b == b;
    } else {
      assert (a + b)[0] == a[0] && (a + b)[1..] == a[1..] + b;
      AfterConcat(Next(q, a[0]), a[1..], b);
    }
  }

  predicate IsQuiet(s: string) {
    forall i | 0 <= i < |s| :: s[i] != '#' && s[i] != '"'
  }

  lemma {:induction false} QuietKeepsOutside(s: string)
    requires IsQuiet(s)
    ensures After(OUTSIDE, s) == Ok(OUTSIDE)
  {
    if s != "" {
      QuietKeepsOutside(s[1..]);
    }
  }

  lemma {:induction false} RawStaysInside(s: string, q: Quoting)
    requires IsRaw(s, q) && q.inString
    ensures After(q, s) == Ok(INSIDE)
  {
    if s != "" {
      RawStaysInside(s[1..], Next(q, s[0]));
    }
  }

  lemma QuotedStaysOutside(raw: string)
    requires IsRaw(raw, INSIDE)
    ensures After(OUTSIDE, ['"'] + raw + ['"']) == Ok(OUTSIDE)
  {
    RawStaysInside(raw, INSIDE);
    AfterConcat(INSIDE, raw, ['"']);
    assert After(INSIDE, ['"']) == Ok(OUTSIDE) by {
      assert ['"'][1..] == [];
    }
    var s := ['"'] + raw + ['"'];
    assert s[1..] == raw + ['"'];
  }

  /** A content from which the comment and the space before it can be told. */
  ghost predicate IsLineContent(content: string) {
    IsTight(content) && content[0] != '#' && After(OUTSIDE, content) == Ok(OUTSIDE)
  }

  /** Indentation, trailing space and comment all disappear. */
  lemma ContentSurvives(indent: string, content: string, space: string, comment: Comment)
    requires IsBlank(indent) && IsBlank(space) && IsLineContent(content)
    ensures var stripped := Strip(indent + (content + (space + CommentText(comment))));
            stripped != "" && stripped[0] == content[0] && WithoutComment(stripped) == content
  {
    hide IsSpace, CommentStart, After, Strip, StripRight, WithoutComment;
    IndentGone(indent, content, space + CommentText(comment));
    ContentEnds(content, space);
    if comment.NoComment? {
      assert content + (space + CommentText(comment)) == content + space;
      CommentAbsent(content);
    } else {
      assert content + (space + CommentText(comment)) == content + space + ['#'] + comment.text;
      CommentCut(content, space, comment.text);
    }
  }

  lemma IndentGone(indent: string, content: string, tail: string)
    requires IsBlank(indent) && IsTight(content)
    ensures Strip(indent + (content + tail)) == StripRight(content + tail)
  {
    StripLeftBlank(indent, content + tail);
    assert (content + tail)[0] == content[0];
  }

  lemma ContentEnds(content: string, space: string)
    requires IsBlank(space) && IsTight(content)
    ensures StripRight(content + space) == content
  {
    StripRightBlank(content, space);
  }

  lemma CommentAbsent(content: string)
    requires IsLineContent(content)
    ensures WithoutComment(content) == content
  {
    CommentAfter(OUTSIDE, content, "");
    assert content + "" == content;
  }

  lemma CommentCut(content: string, space: string, text: string)
    requires IsBlank(space) && IsLineContent(content) && StripRight(content + space) == content
    ensures var stripped := StripRight(content + space + ['#'] + text);
            stripped != "" && stripped[0] == content[0] && WithoutComment(stripped) == content
  {
    hide StripRight, After;
    var body := content + space;
    var full := body + ['#'] + text;
    var at := |body|;
    assert full[at] == '#' && !IsSpace('#');
    StripRightKeeps(full, at);
    var stripped := StripRight(full);
    assert stripped[..at] == body && stripped == body + stripped[at..] && stripped[at..][0] == '#';
    BlankIsQuiet(space);
    QuietKeepsOutside(space);
    AfterConcat(OUTSIDE, content, space);
    CommentAfter(OUTSIDE, body, stripped[at..]);
  }

  lemma BlankIsQuiet(space: string)
    requires IsBlank(space)
    ensures IsQuiet(space) && '=' !in space && '.' !in space
  {
  }

  // ---------------------------------------------------------------------------
  // Headers
  // ---------------------------------------------------------------------------

  lemma {:induction false} JoinedText(parts: Path)
    requires parts != [] && AreKeys(parts)
    ensures IsTight(Joined(parts)) && IsQuiet(Joined(parts))
  {
    if |parts| > 1 {
      assert AreKeys(parts[1..]);
      JoinedText(parts[1..]);
      assert IsKey(parts[0]);
    } else {
      assert IsKey(parts[0]);
    }
  }

  lemma {:induction false} SplitJoined(parts: Path)
    requires parts != [] && AreKeys(parts)
    ensures Split(Joined(parts)) == parts
  {
    assert IsKey(parts[0]);
    if |parts| == 1 {
      FindFirst(parts[0], '.');
    } else {
      var rest := Joined(parts[1..]);
      assert AreKeys(parts[1..]);
      SplitJoined(parts[1..]);
      FindAfter(parts[0], '.', rest);
      var s := parts[0] + ['.'] + rest;
      assert s[..|parts[0]|] == parts[0] && s[|parts[0]| + 1..] == rest;
    }
  }

  lemma HeaderRead(r: Reader, item: Item)
    requires ValidItem(item) && item.Header?
    ensures LineRead(r, Rendered(item)) == Entered(r.tree, [], item.parts)
  {
    var joined := Joined(item.parts);
    var inner := item.left + joined + item.right;
    var content := ['['] + inner + [']'];
    JoinedText(item.parts);
    BlankIsQuiet(item.left);
    BlankIsQuiet(item.right);
    assert IsQuiet(content);
    QuietKeepsOutside(content);
    ContentSurvives(item.indent, content, item.space, item.comment);
    assert content[1..|content| - 1] == inner;
    StripTight(item.left, joined, item.right);
    SplitJoined(item.parts);
  }

  // ---------------------------------------------------------------------------
  // Keys and values
  // ---------------------------------------------------------------------------

  lemma IntTextTight(n: int)
    ensures IsTight(IntText(n)) && IsQuiet(IntText(n)) && IntText(n)[0] != '+'
  {
    IntTextReadsBack(n);
    var s := IntText(n);
    forall i | 0 <= i < |s|
      ensures s[i] == '-' || IsDigit(s[i])
    {
      assert s[0] == '-' && i > 0 ==> IsDigit(s[1..][i - 1]);
    }
  }

  lemma {:induction false} DigitsReadable(s: string)
    requires s != "" && AllDigits(s)
    ensures IsPythonDigits(s) && WithoutUnderscores(s) == s
  {
    var last := |s| - 1;
    assert s == s[..last] + [s[last]];
    assert IsDigit(s[last]) && s[last] != '_';
    if last > 0 {
      DigitsReadable(s[..last]);
    } else {
      assert WithoutUnderscores(s[..last]) == "";
    }
  }

  lemma ValueReadsBack(e: Entry)
    requires IsValue(e)
    ensures IsTight(ValueText(e)) && After(OUTSIDE, ValueText(e)) == Ok(OUTSIDE)
    ensures ParsedValue(ValueText(e)) == Ok(e)
  {
    match e
    case Number(n) =>
      IntTextTight(n);
      QuietKeepsOutside(IntText(n));
      IntTextReadsBack(n);
      DigitsReadable(if n < 0 then IntText(n)[1..] else IntText(n));
    case Text(raw) =>
      QuotedStaysOutside(raw);
      var s := ['"'] + raw + ['"'];
      assert s[1..|s| - 1] == raw;
  }

  lemma KeyValueRead(r: Reader, item: Item)
    requires ValidItem(item) && item.KeyValue?
    ensures LineRead(r, Rendered(item)) ==
            Ok(r.(tree := Assigned(r.tree, r.current + [item.key], item.value)))
  {
    var left, right := item.key + item.before, item.after + ValueText(item.value);
    var content := left + ['='] + right;
    KeyValueContent(item);
    KeyValueParts(item);
    hide IsLineContent, ValueText, WithoutComment, Strip, Find, ParsedValue, Assigned, IsKey, IsValue;
    ContentSurvives(item.indent, content, item.space, item.comment);
    assert Rendered(item) == item.indent + (content + (item.space + CommentText(item.comment)));
  }

  /** The two sides of the first `=`. */
  lemma KeyValueParts(item: Item)
    requires ValidItem(item) && item.KeyValue?
    ensures var content, eq := Content(item), |item.key + item.before|;
            && Find(content, '=') == eq && |content| > eq
            && Strip(content[..eq]) == item.key
            && ParsedValue(Strip(content[eq + 1..])) == Ok(item.value)
  {
    hide Find, Strip, ParsedValue, ValueText;
    var left, right := item.key + item.before, item.after + ValueText(item.value);
    BlankIsQuiet(item.before);
    FindAfter(left, '=', right);
    var content := left + ['='] + right;
    assert content[..|left|] == left && content[|left| + 1..] == right;
    StripTight("", item.key, item.before);
    assert "" + item.key + item.before == left;
    ValueReadsBack(item.value);
    StripTight(item.after, ValueText(item.value), "");
    assert item.after + ValueText(item.value) + "" == right;
  }

  lemma KeyValueContent(item: Item)
    requires ValidItem(item) && item.KeyValue?
    ensures IsLineContent(Content(item)) && Content(item)[0] != '['
  {
    hide After, ValueText;
    var content := Content(item);
    var quiet := item.key + item.before + ['='] + item.after;
    var text := ValueText(item.value);
    BlankIsQuiet(item.before);
    BlankIsQuiet(item.after);
    QuietKeepsOutside(quiet);
    ValueReadsBack(item.value);
    AfterConcat(OUTSIDE, quiet, text);
    assert content == quiet + text;
    assert IsKeyChar(item.key[0]) && content[0] == item.key[0];
    assert content[|content| - 1] == text[|text| - 1];
  }

  lemma NothingRead(r: Reader, item: Item)
    requires ValidItem(item) && (item.Blank? || item.Remark?)
    ensures LineRead(r, Rendered(item)) == Ok(r)
  {
    if item.Blank? {
      StripLeftBlank(item.space, "");
      assert item.space + "" == item.space;
    } else {
      var s := ['#'] + item.text;
      StripLeftBlank(item.indent, s);
      StripRightKeeps(s, 0);
    }
  }

  // ---------------------------------------------------------------------------
  // Documents
  // ---------------------------------------------------------------------------

  /** A nested map of tables: keys are bare, and everything stands in a table. */
  ghost predicate WellFormed(m: Tree) {
    && [] in m && m[[]] == Table
    && forall p | p in m && p != [] :: InTable(m, p)
  }

  ghost predicate InTable(m: Tree, p: Path)
    requires p in m && p != []
  {
    var up := p[..|p| - 1];
    up in m && m[up] == Table && IsKey(p[|p| - 1]) && (m[p] == Table || IsValue(m[p]))
  }

  lemma {:induction false} PrefixesAreTables(m: Tree, p: Path, k: nat)
    requires WellFormed(m) && p in m && k < |p|
    ensures p[..k] in m && m[p[..k]] == Table
    decreases |p|
  {
    assert InTable(m, p);
    if k < |p| - 1 {
      PrefixesAreTables(m, p[..|p| - 1], k);
      assert p[..|p| - 1][..k] == p[..k];
    }
  }

  lemma KeysAreBare(m: Tree, p: Path)
    requires WellFormed(m) && p in m
    ensures AreKeys(p)
  {
    forall i | 0 <= i < |p|
      ensures IsKey(p[i])
    {
      if i + 1 < |p| {
        PrefixesAreTables(m, p, i + 1);
      }
      assert p[..|p|] == p;
      assert InTable(m, p[..i + 1]);
    }
  }

  /** Every line agrees with `m`, under the header `at`. */
  ghost predicate Agrees(doc: seq<Item>, m: Tree, at: Path)
    decreases |doc|
  {
    doc == [] || (
      && ValidItem(doc[0])
      && match doc[0]
         case Header(_, _, parts, _, _, _) => parts in m && m[parts] == Table && Agrees(doc[1..], m, parts)
         case KeyValue(_, key, _, _, value, _, _) =>
           at + [key] in m && m[at + [key]] == value && Agrees(doc[1..], m, at)
         case _ => Agrees(doc[1..], m, at)
    )
  }

  /** Some line of the document, under the header `at`, makes `p`. */
  ghost predicate Makes(doc: seq<Item>, p: Path, at: Path)
    decreases |doc|
  {
    doc != [] && (
      match doc[0]
      case Header(_, _, parts, _, _, _) => p <= parts || Makes(doc[1..], p, parts)
      case KeyValue(_, key, _, _, _, _, _) => p == at + [key] || Makes(doc[1..], p, at)
      case _ => Makes(doc[1..], p, at)
    )
  }

  /** The document is a way of writing down `m`: it says nothing else and leaves nothing out. */
  ghost predicate WritesDown(doc: seq<Item>, m: Tree) {
    && (forall i | 0 <= i < |doc| :: ValidItem(doc[i])) && Agrees(doc, m, [])
    && forall p | p in m && p != [] :: Makes(doc, p, [])
  }

  ghost function RenderedAll(doc: seq<Item>): (lines: seq<string>)
    requires forall i | 0 <= i < |doc| :: ValidItem(doc[i])
    ensures |lines| == |doc|
  {
    if doc == [] then [] else [Rendered(doc[0])] + RenderedAll(doc[1..])
  }

  lemma {:induction false} AgreeingIsValid(doc: seq<Item>, m: Tree, at: Path)
    requires Agrees(doc, m, at)
    ensures forall i | 0 <= i < |doc| :: ValidItem(doc[i])
    decreases |doc|
  {
    if doc != [] {
      AgreeingIsValid(doc[1..], m, if doc[0].Header? then doc[0].parts else at);
      assert forall i | 1 <= i < |doc| :: doc[i] == doc[1..][i - 1];
    }
  }

  ghost predicate PartOf(t: Tree, m: Tree) {
    forall p | p in t :: p in m && t[p] == m[p]
  }

  predicate OnWay(at: Path, p: Path, to: Path) {
    at <= p <= to
  }

  /** Following a header that `m` has makes every table on the way, and nothing that `m` lacks. */
  lemma {:induction false} EntersPart(t: Tree, m: Tree, at: Path, parts: Path)
    requires WellFormed(m) && PartOf(t, m) && at in t
    requires at + parts in m && m[at + parts] == Table
    ensures var r := Entered(t, at, parts);
            && r.Ok? && r.value.current == at + parts && PartOf(r.value.tree, m) && t.Keys <= r.value.tree.Keys
            && forall p | OnWay(at, p, at + parts) :: p in r.value.tree
    decreases |parts|
  {
    hide WellFormed;
    if parts == [] {
      assert at + parts == at;
      forall p | OnWay(at, p, at)
        ensures p == at
      {
        assert p == p[..|at|];
      }
    } else {
      var next := at + [parts[0]];
      assert next + parts[1..] == at + parts;
      assert (at + parts)[..|next|] == next;
      if |parts| > 1 {
        PrefixesAreTables(m, at + parts, |next|);
      } else {
        assert next == at + parts;
      }
      var t' := if next in t then t else t[next := Table];
      EntersPart(t', m, next, parts[1..]);
      forall p | OnWay(at, p, at + parts)
        ensures p == at || OnWay(next, p, at + parts)
      {
        NextOnWay(at, parts, p);
      }
    }
  }

  lemma NextOnWay(at: Path, parts: Path, p: Path)
    requires parts != [] && OnWay(at, p, at + parts)
    ensures p == at || OnWay(at + [parts[0]], p, at + parts)
  {
  }

  /** Assigning a value that `m` has at that place adds it and removes nothing. */
  lemma AssignsPart(t: Tree, m: Tree, target: Path)
    requires WellFormed(m) && PartOf(t, m) && target in m && m[target] != Table
    ensures var t' := Assigned(t, target, m[target]);
            PartOf(t', m) && t.Keys <= t'.Keys && target in t'
  {
    forall p | p in t
      ensures p in Assigned(t, target, m[target])
    {
      if target <= p && p != target {
        PrefixesAreTables(m, p, |target|);
        assert p[..|target|] == target;
      }
    }
  }

  /** The reader has read part of `m`, and is inside one of its tables. */
  ghost predicate Reads(r: Reader, m: Tree) {
    [] in r.tree && PartOf(r.tree, m) && r.current in m && m[r.current] == Table
  }

  /** The table that the lines after `item` belong to. */
  function Below(item: Item, at: Path): Path {
    if item.Header? then item.parts else at
  }

  /** A line that agrees with `m` is read without error, and adds what it makes. */
  lemma LineReadsPart(r: Reader, item: Item, m: Tree)
    requires WellFormed(m) && Reads(r, m) && ValidItem(item)
    requires item.Header? ==> item.parts in m && m[item.parts] == Table
    requires item.KeyValue? ==> r.current + [item.key] in m && m[r.current + [item.key]] == item.value
    ensures var result := LineRead(r, Rendered(item));
            && result.Ok? && Reads(result.value, m) && result.value.current == Below(item, r.current)
            && r.tree.Keys <= result.value.tree.Keys
            && (item.Header? ==> forall p | p <= item.parts :: p in result.value.tree)
            && (item.KeyValue? ==> r.current + [item.key] in result.value.tree)
  {
    hide LineRead, Rendered, ValidItem, Entered, Assigned;
    match item {
      case Header(_, _, parts, _, _, _) =>
        HeaderRead(r, item);
        assert [] + parts == parts;
        EntersPart(r.tree, m, [], parts);
        assert forall p | p <= parts :: OnWay([], p, [] + parts);
      case KeyValue(_, key, _, _, value, _, _) =>
        KeyValueRead(r, item);
        assert InTable(m, r.current + [key]) && (r.current + [key])[..|r.current|] == r.current;
        assert m[r.current + [key]] != Table by { ValuesAreNoTables(item); }
        AssignsPart(r.tree, m, r.current + [key]);
      case _ =>
        NothingRead(r, item);
    }
  }

  lemma ValuesAreNoTables(item: Item)
    requires ValidItem(item) && item.KeyValue?
    ensures item.value != Table
  {
  }

  lemma {:induction false} ReadsPart(r: Reader, doc: seq<Item>, m: Tree)
    requires WellFormed(m) && Reads(r, m) && Agrees(doc, m, r.current)
    ensures forall i | 0 <= i < |doc| :: ValidItem(doc[i])
    ensures var result := LinesRead(r, RenderedAll(doc));
            && result.Ok? && PartOf(result.value.tree, m) && r.tree.Keys <= result.value.tree.Keys
            && forall p | Makes(doc, p, r.current) :: p in result.value.tree
    decreases |doc|
  {
    hide WellFormed, PartOf, LineRead, Rendered, ValidItem;
    AgreeingIsValid(doc, m, r.current);
    assert PartOf(r.tree, m);
    if doc != [] {
      assert RenderedAll(doc)[1..] == RenderedAll(doc[1..]);
      LineReadsPart(r, doc[0], m);
      ReadsPart(LineRead(r, Rendered(doc[0])).value, doc[1..], m);
    }
  }

  lemma {:induction false} JoinedOnOneLine(parts: Path)
    requires AreKeys(parts)
    ensures NoBreak(Joined(parts))
  {
    if parts != [] {
      assert IsKey(parts[0]);
      assert AreKeys(parts[1..]);
      JoinedOnOneLine(parts[1..]);
    }
  }

  lemma ValueOnOneLine(e: Entry)
    requires IsValue(e) && OnOneLine(e)
    ensures NoBreak(ValueText(e))
  {
    if e.Number? {
      IntTextReadsBack(e.n);
      var s := IntText(e.n);
      forall i | 0 <= i < |s|
        ensures !IsBreak(s[i])
      {
        assert s[i] == '-' || IsDigit(if s[0] == '-' then s[1..][i - 1] else s[i]);
      }
    }
  }

  lemma ContentOnOneLine(item: Item)
    requires ValidItem(item) && (item.Header? || item.KeyValue?)
    ensures NoBreak(Content(item))
  {
    if item.Header? {
      JoinedOnOneLine(item.parts);
    } else {
      ValueOnOneLine(item.value);
      assert forall i | 0 <= i < |item.key| :: IsKeyChar(item.key[i]);
    }
  }

  lemma NoBreakJoins(a: string, b: string, c: string, d: string)
    requires NoBreak(a) && NoBreak(b) && NoBreak(c) && NoBreak(d)
    ensures NoBreak(a + (b + (c + d)))
  {
  }

  /** Each item is one line of a file. */
  lemma ItemOnOneLine(item: Item)
    requires ValidItem(item)
    ensures NoBreak(Rendered(item))
  {
    if item.Header? || item.KeyValue? {
      ContentOnOneLine(item);
      assert NoBreak(CommentText(item.comment));
      hide NoBreak, Content, Joined, ValueText, IsBlank;
      NoBreakJoins(item.indent, Content(item), item.space, CommentText(item.comment));
    }
  }

  lemma {:induction false} DocumentHasLines(doc: seq<Item>)
    requires forall i | 0 <= i < |doc| :: ValidItem(doc[i])
    ensures AreLines(RenderedAll(doc))
  {
    hide Rendered, NoBreak;
    if doc != [] {
      ItemOnOneLine(doc[0]);
      DocumentHasLines(doc[1..]);
    }
  }

  /**
   Any way of writing down a tree of tables, integers and raw strings in a file, with line ends of any
   kind, reads back as that tree.
   */
  lemma ReadsBack(doc: seq<Item>, ends: seq<string>, m: Tree)
    requires WellFormed(m) && WritesDown(doc, m) && Ended(RenderedAll(doc), ends)
    ensures Loaded(FileText(RenderedAll(doc), ends)) == Ok(m)
  {
    hide LinesRead, RenderedAll, Agrees, Makes, ValidItem, SplitLines, FileText, Ended, NoBreak;
    var start := Reader(EMPTY_TREE, []);
    assert Reads(start, m);
    ReadsPart(start, doc, m);
    var t := LinesRead(start, RenderedAll(doc)).value.tree;
    assert forall p | p in m :: p in t;
    assert t == m;
    DocumentHasLines(doc);
    LinesComeBack(RenderedAll(doc), ends);
  }

  // ---------------------------------------------------------------------------
  // Every tree can be written down
  // ---------------------------------------------------------------------------

  function PlainHeader(parts: Path): Item {
    Header("", "", parts, "", "", NoComment)
  }

  function PlainKeyValue(key: string, value: Entry): Item {
    KeyValue("", key, "", "", value, "", NoComment)
  }

  /** A document that starts with a header means the same wherever it stands. */
  ghost predicate Headed(doc: seq<Item>) {
    doc == [] || doc[0].Header?
  }

  lemma HeadedAnywhere(doc: seq<Item>, m: Tree, p: Path, at: Path, at': Path)
    requires Headed(doc)
    ensures Agrees(doc, m, at) == Agrees(doc, m, at') && Makes(doc, p, at) == Makes(doc, p, at')
  {
  }

  /** The lines that write down one entry below the root. */
  lemma WriteOne(m: Tree, p: Path, doc: seq<Item>) returns (longer: seq<Item>)
    requires WellFormed(m) && p in m && p != [] && (m[p] == Table || |p| > 1) && OnOneLine(m[p])
    requires Headed(doc) && Agrees(doc, m, [])
    ensures Headed(longer) && Agrees(longer, m, []) && Makes(longer, p, [])
    ensures forall q | Makes(doc, q, []) :: Makes(longer, q, [])
  {
    assert InTable(m, p);
    KeysAreBare(m, p);
    if m[p] == Table {
      longer := [PlainHeader(p)] + doc;
      assert longer[1..] == doc;
      assert ValidItem(longer[0]);
      HeadedAnywhere(doc, m, p, [], p);
      forall q { HeadedAnywhere(doc, m, q, [], p); }
    } else {
      var up, key := p[..|p| - 1], p[|p| - 1];
      assert up + [key] == p;
      KeysAreBare(m, up);
      var body := [PlainKeyValue(key, m[p])] + doc;
      longer := [PlainHeader(up)] + body;
      assert longer[1..] == body && body[1..] == doc;
      assert ValidItem(longer[0]) && ValidItem(body[0]);
      HeadedAnywhere(doc, m, p, [], up);
      forall q { HeadedAnywhere(doc, m, q, [], up); }
      assert Agrees(body, m, up);
    }
  }

  lemma {:induction false} WriteBelowRoot(m: Tree, rest: set<Path>) returns (doc: seq<Item>)
    requires WellFormed(m) && TextsOnOneLine(m)
    requires forall p | p in rest :: p in m && p != [] && (m[p] == Table || |p| > 1)
    ensures Headed(doc) && Agrees(doc, m, []) && forall p | p in rest :: Makes(doc, p, [])
    decreases rest
  {
    doc := [];
    if rest != {} {
      var p :| p in rest;
      var less := WriteBelowRoot(m, rest - {p});
      doc := WriteOne(m, p, less);
    }
  }

  lemma {:induction false} WriteRoot(m: Tree, rest: set<Path>, tail: seq<Item>) returns (doc: seq<Item>)
    requires WellFormed(m) && TextsOnOneLine(m) && forall p | p in rest :: p in m && |p| == 1 && m[p] != Table
    requires Agrees(tail, m, [])
    ensures Agrees(doc, m, []) && forall p | p in rest || Makes(tail, p, []) :: Makes(doc, p, [])
    decreases rest
  {
    doc := tail;
    if rest != {} {
      var p :| p in rest;
      var less := WriteRoot(m, rest - {p}, tail);
      assert InTable(m, p);
      assert p == [] + [p[0]];
      doc := [PlainKeyValue(p[0], m[p])] + less;
      assert doc[1..] == less && ValidItem(doc[0]);
    }
  }

  function Newlines(n: nat): (ends: seq<string>)
    ensures |ends| == n
  {
    seq(n, _ => "\n")
  }

  lemma {:induction false} NewlinesEnd(lines: seq<string>)
    ensures Ended(lines, Newlines(|lines|))
  {
    if lines != [] {
      assert Newlines(|lines|)[1..] == Newlines(|lines| - 1);
      NewlinesEnd(lines[1..]);
    }
  }

  /** There is a file for every tree whose strings fit on a line each. */
  lemma EveryTreeCanBeWritten(m: Tree) returns (doc: seq<Item>, ends: seq<string>)
    requires WellFormed(m) && TextsOnOneLine(m)
    ensures WritesDown(doc, m) && Ended(RenderedAll(doc), ends)
  {
    var below := set p | p in m && p != [] && (m[p] == Table || |p| > 1);
    var root := set p | p in m && |p| == 1 && m[p] != Table;
    var tail := WriteBelowRoot(m, below);
    doc := WriteRoot(m, root, tail);
    assert forall p | p in m && p != [] :: p in below || p in root;
    AgreeingIsValid(doc, m, []);
    ends := Newlines(|doc|);
    NewlinesEnd(RenderedAll(doc));
  }

  /** No other tree can be read from any file, however it is written. */
  lemma FileExistsExactly(m: Tree)
    requires WellFormed(m)
    ensures (exists text :: Loaded(text) == Ok(m)) <==> TextsOnOneLine(m)
  {
    hide WellFormed, Loaded, TextsOnOneLine, WritesDown, RenderedAll, FileText;
    if TextsOnOneLine(m) {
      var doc, ends := EveryTreeCanBeWritten(m);
      ReadsBack(doc, ends, m);
    }
    if exists text :: Loaded(text) == Ok(m) {
      var text :| Loaded(text) == Ok(m);
      ReadTextsOnOneLine(text);
    }
  }
}
