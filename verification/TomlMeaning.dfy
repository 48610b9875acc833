/**
 What any line means to the fallback TOML reader, in terms of its characters: where its comment starts, what
 it changes, and exactly when it is an error.
 */
module TomlMeaning {
  import opened Decimal
  import opened KiraStrings
  import opened Outcomes
  import opened TomlDocument
  import opened TomlReader

  // ---------------------------------------------------------------------------
  // Comments
  // ---------------------------------------------------------------------------

  /** Text and whole strings, with no `#` outside the strings. */
  predicate IsClosed(s: string)
    decreases |s|
  {
    s == "" || if s[0] == '"' then ClosesString(s[1..]) else s[0] != '#' && IsClosed(s[1..])
  }

  /** The rest of a string, in which a backslash takes the next character with it, and closed text after it. */
  predicate ClosesString(s: string)
    decreases |s|
  {
    s != "" &&
    if s[0] == '"' then IsClosed(s[1..])
    else if s[0] == '\\' then |s| > 1 && ClosesString(s[2..])
    else ClosesString(s[1..])
  }

  const ESCAPED := Quoting(true, true)

  lemma {:induction false} ClosedExactly(s: string)
    ensures After(OUTSIDE, s) == Ok(OUTSIDE) <==> IsClosed(s)
    ensures After(INSIDE, s) == Ok(OUTSIDE) <==> ClosesString(s)
    decreases |s|
  {
    if s != "" {
      ClosedExactly(s[1..]);
      if |s| > 1 {
        ClosedExactly(s[2..]);
        assert s[1..][1..] == s[2..] && s[1..][0] == s[1];
        assert After(ESCAPED, s[1..]) == After(INSIDE, s[2..]);
      } else {
        assert After(ESCAPED, s[1..]) == Ok(ESCAPED);
      }
    }
  }

  /** The three states that the scanner can be in. */
  predicate IsState(q: Quoting) {
    q == OUTSIDE || q == INSIDE || q == ESCAPED
  }

  lemma {:induction false} CommentFound(line: string, q: Quoting, at: nat)
    requires at < |line| && IsState(q)
    ensures CommentStart(line, q) == at <==> line[at] == '#' && After(q, line[..at]) == Ok(OUTSIDE)
    decreases |line|
  {
    if at == 0 {
      assert line[..0] == "";
    } else {
      assert line[..at][1..] == line[1..][..at - 1];
      CommentFound(line[1..], Next(q, line[0]), at - 1);
    }
  }

  /** A comment starts at the `#` that closed text precedes, and nowhere else. */
  lemma CommentExactly(line: string, at: nat)
    requires at < |line|
    ensures CommentStart(line, OUTSIDE) == at <==> line[at] == '#' && IsClosed(line[..at])
  {
    CommentFound(line, OUTSIDE, at);
    ClosedExactly(line[..at]);
  }

  // ---------------------------------------------------------------------------
  // Stripping and splitting
  // ---------------------------------------------------------------------------

  /** Python's white space, and those of it that end a line. */
  lemma SpacesExactly(c: char)
    ensures IsBreak(c) <==> c in "\n\r\U{B}\U{C}\U{1C}\U{1D}\U{1E}\U{85}\U{2028}\U{2029}"
    ensures IsSpace(c) <==>
            IsBreak(c) || c in "\t \U{1F}\U{A0}\U{1680}\U{202F}\U{205F}\U{3000}" || '\U{2000}' <= c <= '\U{200A}'
  {
  }

  /** Stripping takes space off both ends, and all of it. */
  lemma StripParts(s: string) returns (left: string, right: string)
    ensures s == left + Strip(s) + right && IsBlank(left) && IsBlank(right)
    ensures Strip(s) == "" || IsTight(Strip(s))
    ensures Strip(s) == "" <==> IsBlank(s)
  {
    left := LeftPart(s);
    right := RightPart(StripLeft(s));
    assert s == left + Strip(s) + right;
    if Strip(s) != "" {
      assert Strip(s)[0] == StripLeft(s)[0];
      assert s[|left|] == Strip(s)[0];
    } else {
      assert s == left + right;
    }
  }

  lemma {:induction false} LeftPart(s: string) returns (left: string)
    ensures s == left + StripLeft(s) && IsBlank(left)
    ensures StripLeft(s) == "" || !IsSpace(StripLeft(s)[0])
  {
    left := "";
    if s != "" && IsSpace(s[0]) {
      var more := LeftPart(s[1..]);
      left := [s[0]] + more;
    }
  }

  lemma {:induction false} RightPart(s: string) returns (right: string)
    ensures s == StripRight(s) + right && IsBlank(right)
    ensures StripRight(s) == "" || !IsSpace(StripRight(s)[|StripRight(s)| - 1])
  {
    right := "";
    if s != "" && IsSpace(s[|s| - 1]) {
      var more := RightPart(s[..|s| - 1]);
      right := more + [s[|s| - 1]];
    }
  }

  predicate DotFree(parts: Path) {
    forall i | 0 <= i < |parts| :: '.' !in parts[i]
  }

  /** Splitting gives the parts without dots whose join is the text; there are no others. */
  lemma SplitExactly(s: string, parts: Path)
    requires parts != []
    ensures Split(s) == parts <==> DotFree(parts) && Joined(parts) == s
  {
    SplitJoins(s);
    if DotFree(parts) {
      JoinedSplits(parts);
    }
  }

  lemma {:induction false} SplitJoins(s: string)
    ensures DotFree(Split(s)) && Joined(Split(s)) == s
    decreases |s|
  {
    var dot := Find(s, '.');
    FindFirst(s, '.');
    if dot != -1 {
      SplitJoins(s[dot + 1..]);
      assert s == s[..dot] + ['.'] + s[dot + 1..];
      assert Split(s)[1..] == Split(s[dot + 1..]);
    }
  }

  lemma {:induction false} JoinedSplits(parts: Path)
    requires parts != [] && DotFree(parts)
    ensures Split(Joined(parts)) == parts
  {
    if |parts| == 1 {
      FindFirst(parts[0], '.');
    } else {
      var rest := Joined(parts[1..]);
      JoinedSplits(parts[1..]);
      FindAfter(parts[0], '.', rest);
      var s := parts[0] + ['.'] + rest;
      assert s[..|parts[0]|] == parts[0] && s[|parts[0]| + 1..] == rest;
    }
  }

  // ---------------------------------------------------------------------------
  // Integers
  // ---------------------------------------------------------------------------

  /** Digits, and underscores that stand between two of them. */
  predicate IsGrouped(s: string) {
    s != "" && forall i | 0 <= i < |s| ::
      IsDigit(s[i]) || (s[i] == '_' && 0 < i < |s| - 1 && IsDigit(s[i - 1]) && IsDigit(s[i + 1]))
  }

  function Unsigned(s: string): string {
    if s != "" && (s[0] == '-' || s[0] == '+') then s[1..] else s
  }

  lemma {:induction false} GroupedExactly(s: string)
    ensures IsPythonDigits(s) <==> IsGrouped(s)
    decreases |s|
  {
    if |s| > 1 && IsDigit(s[|s| - 1]) {
      var last := |s| - 1;
      GroupedExactly(s[..last]);
      GroupedExactly(s[..last - 1]);
      hide IsDigit, IsPythonDigits;
      GroupedStep(s);
      assert IsPythonDigits(s) <==>
             (s[last - 1] == '_' && IsPythonDigits(s[..last - 1])) || IsPythonDigits(s[..last]) by {
        PythonDigitsStep(s);
      }
    } else if |s| == 1 {
      assert IsPythonDigits(s) <==> IsDigit(s[0]);
    } else {
      assert s != "" ==> !IsDigit(s[|s| - 1]);
    }
  }

  lemma PythonDigitsStep(s: string)
    requires |s| > 1 && IsDigit(s[|s| - 1])
    ensures IsPythonDigits(s) <==>
            (s[|s| - 2] == '_' && IsPythonDigits(s[..|s| - 2])) || IsPythonDigits(s[..|s| - 1])
  {
  }

  lemma GroupedStep(s: string)
    requires |s| > 1 && IsDigit(s[|s| - 1])
    ensures IsGrouped(s) <==> (s[|s| - 2] == '_' && IsGrouped(s[..|s| - 2])) || IsGrouped(s[..|s| - 1])
  {
    var last := |s| - 1;
    if IsGrouped(s) {
      assert IsDigit(s[last - 1]) || s[last - 1] == '_';
      GroupedPrefix(s, if s[last - 1] == '_' then last - 1 else last);
    }
    if s[last - 1] == '_' && IsGrouped(s[..last - 1]) {
      assert IsDigit(s[..last - 1][last - 2]);
    }
    if IsGrouped(s[..last]) {
      assert IsDigit(s[..last][last - 1]);
    }
  }

  lemma {:induction false} DigitsRemain(s: string)
    requires forall i | 0 <= i < |s| :: IsDigit(s[i]) || s[i] == '_'
    ensures AllDigits(WithoutUnderscores(s))
  {
    if s != "" {
      DigitsRemain(s[..|s| - 1]);
    }
  }

  lemma GroupedPrefix(s: string, k: nat)
    requires IsGrouped(s) && 0 < k <= |s| && IsDigit(s[k - 1])
    ensures IsGrouped(s[..k])
  {
  }

  /** Exactly which texts are integers: a sign or none, then grouped digits. */
  lemma IntegerExactly(s: string)
    ensures PythonInt(s).Ok? <==> IsGrouped(Unsigned(s))
  {
    GroupedExactly(Unsigned(s));
    if IsGrouped(Unsigned(s)) {
      DigitsRemain(Unsigned(s));
    }
    hide IsPythonDigits, WithoutUnderscores, IsGrouped, AllDigits;
  }

  lemma {:induction false} UnderscoresGone(a: string, b: string)
    ensures WithoutUnderscores(a + b) == WithoutUnderscores(a) + WithoutUnderscores(b)
    decreases |b|
  {
    if b == "" {
      assert a + b == a;
    } else {
      assert (a + b)[..|a + b| - 1] == a + b[..|b| - 1];
      UnderscoresGone(a, b[..|b| - 1]);
    }
  }

  /** The number is that of the digits, negated after a minus sign. */
  lemma IntegerValue(s: string)
    requires IsGrouped(Unsigned(s))
    ensures var digits := WithoutUnderscores(Unsigned(s));
            AllDigits(digits) && PythonInt(s) == Ok(if s[0] == '-' then 0 - NatVal(digits) else NatVal(digits))
  {
    GroupedExactly(Unsigned(s));
    DigitsRemain(Unsigned(s));
    hide IsPythonDigits, WithoutUnderscores, IsGrouped, AllDigits, NatVal;
  }

  predicate IsQuoted(text: string) {
    text != "" && text[0] == '"' && text[|text| - 1] == '"'
  }

  /** What every text stands for as a value: what is between its quotes, whatever it is, or an integer. */
  lemma ValueExactly(text: string)
    ensures forall inner :: text == ['"'] + inner + ['"'] ==> ParsedValue(text) == Ok(Text(inner))
    ensures text == ['"'] ==> ParsedValue(text) == Ok(Text(""))
    ensures !IsQuoted(text) && IsGrouped(Unsigned(text)) ==>
              var digits := WithoutUnderscores(Unsigned(text));
              && AllDigits(digits)
              && ParsedValue(text) == Ok(Number(if text[0] == '-' then 0 - NatVal(digits) else NatVal(digits)))
    ensures !IsQuoted(text) && !IsGrouped(Unsigned(text)) ==> ParsedValue(text) == Trap
  {
    IntegerExactly(text);
    if IsGrouped(Unsigned(text)) {
      IntegerValue(text);
    }
    hide IsGrouped, WithoutUnderscores, PythonInt, NatVal;
    forall inner | text == ['"'] + inner + ['"']
      ensures ParsedValue(text) == Ok(Text(inner))
    {
      assert text[1..|text| - 1] == inner;
    }
  }

  /** An underscore between digits changes nothing. */
  lemma GroupingChangesNothing(a: string, b: string)
    requires IsGrouped(a) && IsGrouped(b)
    ensures PythonInt(a + ['_'] + b) == PythonInt(a + b)
  {
    GroupsJoin(a, b);
    SeparatorGone(a, b);
    assert IsDigit(a[0]) && (a + ['_'] + b)[0] == a[0] && (a + b)[0] == a[0];
    hide IsGrouped, WithoutUnderscores, PythonInt, NatVal;
    IntegerValue(a + ['_'] + b);
    IntegerValue(a + b);
  }

  lemma SeparatorGone(a: string, b: string)
    ensures WithoutUnderscores(a + ['_'] + b) == WithoutUnderscores(a + b)
  {
    assert WithoutUnderscores(['_']) == "" by { assert ['_'][..0] == ""; }
    hide WithoutUnderscores;
    UnderscoresGone(a, b);
    UnderscoresGone(a, ['_']);
    UnderscoresGone(a + ['_'], b);
  }

  lemma GroupsJoin(a: string, b: string)
    requires IsGrouped(a) && IsGrouped(b)
    ensures IsGrouped(a + ['_'] + b) && IsGrouped(a + b)
  {
    assert IsDigit(a[0]) && IsDigit(a[|a| - 1]) && IsDigit(b[0]) && IsDigit(b[|b| - 1]);
    IndexJoined(a, b, ['_']);
    IndexJoined(a, b, []);
    assert a + [] + b == a + b;
  }

  lemma IndexJoined(a: string, b: string, mid: string)
    requires IsGrouped(a) && IsGrouped(b) && IsDigit(a[|a| - 1]) && IsDigit(b[0]) && (mid == [] || mid == ['_'])
    ensures IsGrouped(a + mid + b)
  {
    var s := a + mid + b;
    forall i | 0 <= i < |s|
      ensures IsDigit(s[i]) || (s[i] == '_' && 0 < i < |s| - 1 && IsDigit(s[i - 1]) && IsDigit(s[i + 1]))
    {
      if i < |a| {
        assert s[i] == a[i];
        assert i > 0 ==> s[i - 1] == a[i - 1];
        assert i < |a| - 1 ==> s[i + 1] == a[i + 1];
      } else if i >= |a| + |mid| {
        var k := i - |a| - |mid|;
        assert s[i] == b[k];
        assert k > 0 ==> s[i - 1] == b[k - 1];
        assert k < |b| - 1 ==> s[i + 1] == b[k + 1];
      } else {
        assert s[i - 1] == a[|a| - 1] && s[i + 1] == b[0];
      }
    }
  }

  // ---------------------------------------------------------------------------
  // Headers
  // ---------------------------------------------------------------------------

  /** `p` is one of the tables that the header names on its way from `at`. */
  ghost predicate IsNamed(at: Path, parts: Path, p: Path) {
    exists k | 0 < k <= |parts| :: p == at + parts[..k]
  }

  /** A value stands where the header needs a table. */
  ghost predicate ValueInTheWay(tree: Tree, at: Path, parts: Path) {
    exists p | p in tree :: IsNamed(at, parts, p) && tree[p] != Table
  }

  lemma NamedStep(at: Path, parts: Path, p: Path)
    requires parts != []
    ensures IsNamed(at, parts, p) <==> p == at + [parts[0]] || IsNamed(at + [parts[0]], parts[1..], p)
  {
    var next := at + [parts[0]];
    assert forall k | 0 < k <= |parts| :: at + parts[..k] == next + parts[1..][..k - 1];
    assert next + parts[1..][..0] == next;
    if IsNamed(next, parts[1..], p) {
      var k :| 0 < k <= |parts[1..]| && p == next + parts[1..][..k];
      assert p == at + parts[..k + 1];
    }
    if p == next {
      assert p == at + parts[..1];
    }
  }

  /** A header fails exactly if a value is in the way, and else makes the tables it names and changes nothing. */
  lemma {:induction false} HeaderExactly(tree: Tree, at: Path, parts: Path)
    ensures var r := Entered(tree, at, parts);
            && (r.Trap? <==> ValueInTheWay(tree, at, parts))
            && (r.Ok? ==> r.value.current == at + parts)
            && (r.Ok? ==> forall p :: p in r.value.tree <==> p in tree || IsNamed(at, parts, p))
            && (r.Ok? ==> forall p | p in r.value.tree :: r.value.tree[p] == if p in tree then tree[p] else Table)
    decreases |parts|
  {
    if parts == [] {
      assert at + parts == at;
    } else {
      var next := at + [parts[0]];
      var tree' := if next in tree then tree else tree[next := Table];
      HeaderExactly(tree', next, parts[1..]);
      assert next + parts[1..] == at + parts;
      forall p { NamedStep(at, parts, p); }
      hide IsNamed;
    }
  }

  // ---------------------------------------------------------------------------
  // Lines
  // ---------------------------------------------------------------------------

  /** What the line says, without space at its ends and without its comment. */
  function Said(line: string): string {
    var stripped := Strip(line);
    if stripped == "" || stripped[0] == '#' then "" else WithoutComment(stripped)
  }

  predicate IsHeader(said: string) {
    |said| > 1 && said[0] == '[' && said[|said| - 1] == ']'
  }

  /** The line is an error: a header that names nothing or needs a table where a value is, or no key and value. */
  ghost predicate IsError(tree: Tree, said: string) {
    if said == "" then false
    else if IsHeader(said) then
      var name := Strip(said[1..|said| - 1]);
      name == "" || ValueInTheWay(tree, [], Split(name))
    else
      '=' !in said ||
      var value := Strip(said[Find(said, '=') + 1..]);
      !IsQuoted(value) && !IsGrouped(Unsigned(value))
  }

  /** Exactly these lines are errors. */
  lemma ErrorsExactly(r: Reader, line: string)
    ensures LineRead(r, line).Trap? <==> IsError(r.tree, Said(line))
  {
    var said := Said(line);
    FindFirst(said, '=');
    hide Strip, WithoutComment, Find, Split;
    if IsHeader(said) {
      HeaderExactly(r.tree, [], Split(Strip(said[1..|said| - 1])));
    } else if said != "" && '=' in said {
      IntegerExactly(Strip(said[Find(said, '=') + 1..]));
    }
  }

  /** What stands at and below `target` goes, `value` comes, and everything else stays. */
  ghost predicate Replaces(before: Tree, after: Tree, target: Path, value: Entry) {
    forall p ::
      if p == target then p in after && after[p] == value
      else if target <= p then p !in after
      else (p in after <==> p in before) && (p in after ==> after[p] == before[p])
  }

  /** A line that is no error does exactly this to the tree and to the current table. */
  lemma EffectExactly(r: Reader, line: string)
    requires !IsError(r.tree, Said(line))
    ensures LineRead(r, line).Ok?
    ensures var said, after := Said(line), LineRead(r, line).value;
            if said == "" then after == r
            else if IsHeader(said) then
              var names := Split(Strip(said[1..|said| - 1]));
              && after.current == names
              && (forall p :: p in after.tree <==> p in r.tree || IsNamed([], names, p))
              && (forall p | p in after.tree :: after.tree[p] == if p in r.tree then r.tree[p] else Table)
            else
              var key, text := Strip(said[..Find(said, '=')]), Strip(said[Find(said, '=') + 1..]);
              && after.current == r.current
              && exists value :: ParsedValue(text) == Ok(value) && value != Table &&
                                 Replaces(r.tree, after.tree, r.current + [key], value)
  {
    ErrorsExactly(r, line);
    var said := Said(line);
    if IsHeader(said) {
      HeaderEffect(r, line);
    } else if said != "" {
      KeyEffect(r, line);
    }
    hide *;
  }

  lemma HeaderEffect(r: Reader, line: string)
    requires IsHeader(Said(line)) && LineRead(r, line).Ok?
    ensures var said := Said(line);
            var names, after := Split(Strip(said[1..|said| - 1])), LineRead(r, line).value;
            && after.current == names
            && (forall p :: p in after.tree <==> p in r.tree || IsNamed([], names, p))
            && (forall p | p in after.tree :: after.tree[p] == if p in r.tree then r.tree[p] else Table)
  {
    hide Strip, WithoutComment, Split, Find, ParsedValue, IsNamed;
    var said := Said(line);
    var names := Split(Strip(said[1..|said| - 1]));
    HeaderExactly(r.tree, [], names);
    assert [] + names == names;
    hide Entered;
  }

  lemma KeyEffect(r: Reader, line: string)
    requires Said(line) != "" && !IsHeader(Said(line)) && LineRead(r, line).Ok?
    ensures var said := Said(line);
            var key, text := Strip(said[..Find(said, '=')]), Strip(said[Find(said, '=') + 1..]);
            var after := LineRead(r, line).value;
            && after.current == r.current
            && exists value :: ParsedValue(text) == Ok(value) && value != Table &&
                               Replaces(r.tree, after.tree, r.current + [key], value)
  {
    hide Strip, WithoutComment, Split, Find, Entered, Replaces;
    var said := Said(line);
    FindFirst(said, '=');
    var key, text := Strip(said[..Find(said, '=')]), Strip(said[Find(said, '=') + 1..]);
    AssignedReplaces(r.tree, r.current + [key], ParsedValue(text).value);
    assert ParsedValue(text).value != Table;
    hide ParsedValue, Assigned;
  }

  lemma AssignedReplaces(tree: Tree, target: Path, value: Entry)
    ensures Replaces(tree, Assigned(tree, target, value), target, value)
  {
  }

  /** A file is an error exactly if the lines before some line are read and that line is an error. */
  lemma {:induction false} FileErrorsExactly(r: Reader, lines: seq<string>)
    ensures LinesRead(r, lines).Trap? <==>
            exists k | 0 <= k < |lines| :: LinesRead(r, lines[..k]).Ok? &&
                                           IsError(LinesRead(r, lines[..k]).value.tree, Said(lines[k]))
    decreases |lines|
  {
    hide LineRead, IsError, Said;
    if lines != [] {
      ErrorsExactly(r, lines[0]);
      assert lines[..0] == [] && LinesRead(r, lines[..0]) == Ok(r);
      if LineRead(r, lines[0]).Ok? {
        var r' := LineRead(r, lines[0]).value;
        FileErrorsExactly(r', lines[1..]);
        forall k | 0 < k <= |lines|
          ensures LinesRead(r, lines[..k]) == LinesRead(r', lines[1..][..k - 1])
        {
          assert lines[..k][1..] == lines[1..][..k - 1];
        }
        forall k | 0 < k < |lines|
          ensures lines[k] == lines[1..][k - 1]
        {
        }
        if LinesRead(r', lines[1..]).Trap? {
          var k :| 0 <= k < |lines[1..]| && LinesRead(r', lines[1..][..k]).Ok? &&
                   IsError(LinesRead(r', lines[1..][..k]).value.tree, Said(lines[1..][k]));
          assert LinesRead(r, lines[..k + 1]).Ok?;
        }
      }
    }
  }
}
