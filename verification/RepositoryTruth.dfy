/**
 The repository policy scan: it walks the tree, prunes skipped directories, and checks each file that it
 meets.
 */
module RepositoryTruth {
  import opened KiraStrings

  datatype Node = File(text: string) | Directory(entries: Entries) | Other

  datatype Entries = NoEntries | Entry(name: string, node: Node, rest: Entries)

  datatype Violation =
    | PythonFile(path: string)
    | RootZig(path: string)
    | PythonCommand(token: string, path: string)
    | FakeMarker(token: string, path: string)
    | SupervisorMarker

  // ---------------------------------------------------------------------------
  // Paths
  // ---------------------------------------------------------------------------

  predicate IsSeparator(c: char) {
    c == '/' || c == '\\'
  }

  function NormalizeChar(c: char): char {
    if c == '\\' then '/' else c
  }

  function Normalized(path: string): (n: string)
    ensures |n| == |path|
    ensures forall i | 0 <= i < |path| :: n[i] == NormalizeChar(path[i])
  {
    seq(|path|, i requires 0 <= i < |path| => NormalizeChar(path[i]))
  }

  predicate StartsWithPath(path: string, prefix: string) {
    |path| >= |prefix| && forall i | 0 <= i < |prefix| :: NormalizeChar(path[i]) == NormalizeChar(prefix[i])
  }

  predicate PathsEqual(lhs: string, rhs: string) {
    |lhs| == |rhs| && forall i | 0 <= i < |lhs| :: NormalizeChar(lhs[i]) == NormalizeChar(rhs[i])
  }

  predicate HasSeparator(path: string) {
    exists i | 0 <= i < |path| :: IsSeparator(path[i])
  }

  predicate EndsWith(s: string, suffix: string) {
    |suffix| <= |s| && s[|s| - |suffix|..] == suffix
  }

  const SKIPPED: seq<string> := [
    ".git/", ".claude/", ".kira/", ".kira-build/", ".zig-cache/", "zig-out/", "third_party/", "emsdk-cache/",
    ".codex/", ".github/", ".opencode/", "Images/"]

  predicate SkipPath(path: string) {
    exists i | 0 <= i < |SKIPPED| :: StartsWithPath(path, SKIPPED[i])
  }

  /** `separator` is the one of the host, beside which `/` separates everywhere; joining never doubles it. */
  function ChildPath(separator: char, dir: string, name: string): string {
    if dir == "." then name
    else if dir != "" && (dir[|dir| - 1] == '/' || dir[|dir| - 1] == separator) then dir + name
    else dir + [separator] + name
  }

  // ---------------------------------------------------------------------------
  // Checks of one file
  // ---------------------------------------------------------------------------

  const RELEASE_SCRIPT := "scripts/llvm/llvm_release.py"
  const THIS_FILE := "build_support/repository_truth.zig"
  const SUPERVISOR := "packages/kira_live/src/supervisor.zig"
  const VISIBLE_CONTENT := "KIRA_APP_RENDERED_VISIBLE_CONTENT"

  const PYTHON_TOKENS: seq<string> := [
    "python3", "python -m", "http.server", "pytest", "unittest", "#!/usr/bin/env python", "#!/usr/bin/python"]

  const FAKE_TOKENS: seq<string> := [
    "KiraWebGpuSmoke", "KiraWebSmoke", "KIRA_WEBGPU_FRAME_RENDERED", "KIRA_WEBGPU_PIPELINE_CREATED"]

  ghost predicate Contains(text: string, token: string) {
    exists i :: OccursAt(token, text, i)
  }

  /** The tokens that occur in the text, in order. */
  ghost function Hits(tokens: seq<string>, text: string): seq<string> {
    if tokens == [] then []
    else
      var last := |tokens| - 1;
      Hits(tokens[..last], text) + if Contains(text, tokens[last]) then [tokens[last]] else []
  }

  ghost function PythonHits(tokens: seq<string>, path: string): seq<Violation> {
    seq(|tokens|, i requires 0 <= i < |tokens| => PythonCommand(tokens[i], path))
  }

  ghost function FakeHits(tokens: seq<string>, path: string): seq<Violation> {
    seq(|tokens|, i requires 0 <= i < |tokens| => FakeMarker(tokens[i], path))
  }

  ghost function PythonFileViolations(path: string): seq<Violation> {
    if EndsWith(path, ".py") && !PathsEqual(path, RELEASE_SCRIPT) then [PythonFile(path)] else []
  }

  ghost function RootZigViolations(path: string): seq<Violation> {
    if EndsWith(path, ".zig") && !HasSeparator(path) && !PathsEqual(path, "build.zig") then [RootZig(path)] else []
  }

  predicate ScansText(path: string) {
    EndsWith(path, ".zig") || EndsWith(path, ".zon") || EndsWith(path, ".js") || EndsWith(path, ".sh") ||
    EndsWith(path, ".toml")
  }

  ghost function CommandViolations(path: string, text: string): seq<Violation> {
    if PathsEqual(path, THIS_FILE) || PathsEqual(path, RELEASE_SCRIPT) then []
    else PythonHits(Hits(PYTHON_TOKENS, text), path)
  }

  ghost function MarkerViolations(path: string, text: string): seq<Violation> {
    if PathsEqual(path, THIS_FILE) then []
    else
      FakeHits(Hits(FAKE_TOKENS, text), path) +
      if PathsEqual(path, SUPERVISOR) && Contains(text, VISIBLE_CONTENT) then [SupervisorMarker] else []
  }

  ghost function FileViolations(path: string, text: string): seq<Violation> {
    PythonFileViolations(path) + RootZigViolations(path) +
    if ScansText(path) then CommandViolations(path, text) + MarkerViolations(path, text) else []
  }

  // ---------------------------------------------------------------------------
  // The walk
  // ---------------------------------------------------------------------------

  /** What the pruned walk of a directory reports. */
  ghost function Scanned(separator: char, dir: string, entries: Entries): seq<Violation>
    decreases entries
  {
    match entries
    case NoEntries => []
    case Entry(name, node, rest) =>
      ScannedNode(separator, ChildPath(separator, dir, name), node) + Scanned(separator, dir, rest)
  }

  ghost function ScannedNode(separator: char, path: string, node: Node): seq<Violation>
    decreases node
  {
    if SkipPath(path) then []
    else match node
         case Directory(inner) => Scanned(separator, path, inner)
         case File(text) => FileViolations(path, text)
         case Other => []
  }

  class Scanner {
    const separator: char
    var violations: seq<Violation>

    constructor (separator: char)
      ensures this.separator == separator && violations == []
    {
      this.separator := separator;
      violations := [];
    }

    method ScanDir(dir: string, entries: Entries)
      modifies this
      ensures violations == old(violations) + Scanned(separator, dir, entries)
      decreases entries
    {
      hide SkipPath, FileViolations, ChildPath;
      ghost var before := violations;
      match entries {
        case NoEntries =>
        case Entry(name, node, rest) =>
          var path := ChildPath(separator, dir, name);
          match node {
            case Directory(inner) =>
              if !SkipPath(path) {
                ScanDir(path, inner);
              }
            case File(text) =>
              if !SkipPath(path) {
                CheckFile(path, text);
              }
            case Other =>
          }
          assert violations == before + ScannedNode(separator, path, node);
          ScanDir(dir, rest);
      }
    }

    method CheckFile(path: string, text: string)
      modifies this
      ensures violations == old(violations) + FileViolations(path, text)
    {
      hide PythonFileViolations, RootZigViolations, CommandViolations, MarkerViolations, EndsWith, PathsEqual;
      CheckPythonFile(path);
      CheckRootZig(path);
      if ScansText(path) {
        CheckPythonCommand(path, text);
        CheckFakeMarkers(path, text);
      }
    }

    method CheckPythonFile(path: string)
      modifies this
      ensures violations == old(violations) + PythonFileViolations(path)
    {
      if !EndsWith(path, ".py") {
        return;
      }
      if PathsEqual(path, RELEASE_SCRIPT) {
        return;
      }
      violations := violations + [PythonFile(path)];
    }

    method CheckRootZig(path: string)
      modifies this
      ensures violations == old(violations) + RootZigViolations(path)
    {
      if !EndsWith(path, ".zig") {
        return;
      }
      if HasSeparator(path) {
        return;
      }
      if PathsEqual(path, "build.zig") {
        return;
      }
      violations := violations + [RootZig(path)];
    }

    method CheckPythonCommand(path: string, text: string)
      modifies this
      ensures violations == old(violations) + CommandViolations(path, text)
    {
      if PathsEqual(path, THIS_FILE) || PathsEqual(path, RELEASE_SCRIPT) {
        return;
      }
      for i := 0 to |PYTHON_TOKENS|
        invariant violations == old(violations) + PythonHits(Hits(PYTHON_TOKENS[..i], text), path)
      {
        var token := PYTHON_TOKENS[i];
        var found := TextContains(text, token);
        assert PYTHON_TOKENS[..i + 1][..i] == PYTHON_TOKENS[..i];
        if found {
          violations := violations + [PythonCommand(token, path)];
        }
      }
      assert PYTHON_TOKENS[..|PYTHON_TOKENS|] == PYTHON_TOKENS;
    }

    method CheckFakeMarkers(path: string, text: string)
      modifies this
      ensures violations == old(violations) + MarkerViolations(path, text)
    {
      if PathsEqual(path, THIS_FILE) {
        return;
      }
      for i := 0 to |FAKE_TOKENS|
        invariant violations == old(violations) + FakeHits(Hits(FAKE_TOKENS[..i], text), path)
      {
        var token := FAKE_TOKENS[i];
        var found := TextContains(text, token);
        assert FAKE_TOKENS[..i + 1][..i] == FAKE_TOKENS[..i];
        if found {
          violations := violations + [FakeMarker(token, path)];
        }
      }
      assert FAKE_TOKENS[..|FAKE_TOKENS|] == FAKE_TOKENS;
      var found := TextContains(text, VISIBLE_CONTENT);
      if PathsEqual(path, SUPERVISOR) && found {
        violations := violations + [SupervisorMarker];
      }
    }
  }

  method TextContains(text: string, token: string) returns (found: bool)
    ensures found <==> Contains(text, token)
  {
    var at := IndexOf(text, token);
    found := at != -1;
  }

  // ---------------------------------------------------------------------------
  // Pruning loses nothing
  // ---------------------------------------------------------------------------

  datatype Listed = Listed(path: string, text: string)

  /** Every file of the tree with its path, in the order of the walk, skipped or not. */
  ghost function AllFiles(separator: char, dir: string, entries: Entries): seq<Listed>
    decreases entries
  {
    match entries
    case NoEntries => []
    case Entry(name, node, rest) =>
      FilesOf(separator, ChildPath(separator, dir, name), node) + AllFiles(separator, dir, rest)
  }

  ghost function FilesOf(separator: char, path: string, node: Node): seq<Listed>
    decreases node
  {
    match node
    case File(text) => [Listed(path, text)]
    case Directory(inner) => AllFiles(separator, path, inner)
    case Other => []
  }

  /** A flat check: every file on the list, except the skipped ones. */
  ghost function Checked(files: seq<Listed>): seq<Violation> {
    if files == [] then []
    else
      (if SkipPath(files[0].path) then [] else FileViolations(files[0].path, files[0].text)) + Checked(files[1..])
  }

  lemma {:induction false} CheckedConcat(a: seq<Listed>, b: seq<Listed>)
    ensures Checked(a + b) == Checked(a) + Checked(b)
  {
    hide SkipPath, FileViolations;
    if a == [] {
      assert a + b == b;
    } else {
      assert (a + b)[1..] == a[1..] + b;
      CheckedConcat(a[1..], b);
    }
  }

  /** Skipping a directory skips whatever path begins with it. */
  lemma SkipInherits(separator: char, dir: string, name: string)
    requires SkipPath(dir)
    ensures SkipPath(ChildPath(separator, dir, name))
  {
  }

  lemma {:induction false} SkippedHasNothing(separator: char, dir: string, entries: Entries)
    requires SkipPath(dir)
    ensures Checked(AllFiles(separator, dir, entries)) == []
    decreases entries
  {
    if entries.Entry? {
      var path := ChildPath(separator, dir, entries.name);
      SkipInherits(separator, dir, entries.name);
      hide SkipPath, FileViolations, ChildPath;
      SkippedNodeHasNothing(separator, path, entries.node);
      SkippedHasNothing(separator, dir, entries.rest);
      CheckedConcat(FilesOf(separator, path, entries.node), AllFiles(separator, dir, entries.rest));
    }
  }

  lemma {:induction false} SkippedNodeHasNothing(separator: char, path: string, node: Node)
    requires SkipPath(path)
    ensures Checked(FilesOf(separator, path, node)) == []
    decreases node
  {
    hide SkipPath, FileViolations;
    if node.Directory? {
      SkippedHasNothing(separator, path, node.entries);
    }
  }

  /** The pruned walk reports exactly what a check of every unskipped file of the whole tree reports. */
  lemma {:induction false} PrunedScanIsFlatScan(separator: char, dir: string, entries: Entries)
    ensures Scanned(separator, dir, entries) == Checked(AllFiles(separator, dir, entries))
    decreases entries
  {
    hide SkipPath, FileViolations, ChildPath;
    if entries.Entry? {
      var path := ChildPath(separator, dir, entries.name);
      PrunedNodeIsFlatNode(separator, path, entries.node);
      PrunedScanIsFlatScan(separator, dir, entries.rest);
      CheckedConcat(FilesOf(separator, path, entries.node), AllFiles(separator, dir, entries.rest));
    }
  }

  lemma {:induction false} PrunedNodeIsFlatNode(separator: char, path: string, node: Node)
    ensures ScannedNode(separator, path, node) == Checked(FilesOf(separator, path, node))
    decreases node
  {
    hide SkipPath, FileViolations, ChildPath;
    if SkipPath(path) {
      SkippedNodeHasNothing(separator, path, node);
    } else if node.Directory? {
      PrunedScanIsFlatScan(separator, path, node.entries);
    } else if node.File? {
      var files := FilesOf(separator, path, node);
      assert files[1..] == [];
    }
  }

  // ---------------------------------------------------------------------------
  // Both separators are one
  // ---------------------------------------------------------------------------

  function NormalizedViolation(v: Violation): Violation {
    match v
    case PythonFile(path) => PythonFile(Normalized(path))
    case RootZig(path) => RootZig(Normalized(path))
    case PythonCommand(token, path) => PythonCommand(token, Normalized(path))
    case FakeMarker(token, path) => FakeMarker(token, Normalized(path))
    case SupervisorMarker => v
  }

  function NormalizedAll(vs: seq<Violation>): (ns: seq<Violation>)
    ensures |ns| == |vs| && forall i | 0 <= i < |vs| :: ns[i] == NormalizedViolation(vs[i])
  {
    seq(|vs|, i requires 0 <= i < |vs| => NormalizedViolation(vs[i]))
  }

  /** No name of the tree holds a backslash. */
  predicate PlainNames(entries: Entries) {
    entries.Entry? ==>
      '\\' !in entries.name && PlainNames(entries.rest) &&
      (entries.node.Directory? ==> PlainNames(entries.node.entries))
  }

  lemma PathTestsNormalize(path: string, other: string)
    ensures PathsEqual(Normalized(path), other) == PathsEqual(path, other)
    ensures StartsWithPath(Normalized(path), other) == StartsWithPath(path, other)
    ensures HasSeparator(Normalized(path)) == HasSeparator(path)
  {
  }

  lemma SuffixNormalizes(path: string, suffix: string)
    requires '/' !in suffix && '\\' !in suffix
    ensures EndsWith(Normalized(path), suffix) == EndsWith(path, suffix)
  {
  }

  lemma SkipNormalizes(path: string)
    ensures SkipPath(Normalized(path)) == SkipPath(path)
  {
  }

  lemma ViolationsNormalize(path: string, text: string)
    ensures NormalizedAll(FileViolations(path, text)) == FileViolations(Normalized(path), text)
  {
    NameViolationsNormalize(path);
    TextViolationsNormalize(path, text);
    SuffixNormalizes(path, ".zig");
    SuffixNormalizes(path, ".zon");
    SuffixNormalizes(path, ".js");
    SuffixNormalizes(path, ".sh");
    SuffixNormalizes(path, ".toml");
    hide PathsEqual, EndsWith, HasSeparator, Hits, Contains, Normalized;
    hide PythonFileViolations, RootZigViolations, CommandViolations, MarkerViolations, FileViolations;
    JoinNormalizes(path, text);
  }

  lemma NameViolationsNormalize(path: string)
    ensures NormalizedAll(PythonFileViolations(path)) == PythonFileViolations(Normalized(path))
    ensures NormalizedAll(RootZigViolations(path)) == RootZigViolations(Normalized(path))
  {
    PathTestsNormalize(path, RELEASE_SCRIPT);
    PathTestsNormalize(path, "build.zig");
    SuffixNormalizes(path, ".py");
    SuffixNormalizes(path, ".zig");
    hide PathsEqual, EndsWith, HasSeparator;
  }

  lemma TextViolationsNormalize(path: string, text: string)
    ensures NormalizedAll(CommandViolations(path, text)) == CommandViolations(Normalized(path), text)
    ensures NormalizedAll(MarkerViolations(path, text)) == MarkerViolations(Normalized(path), text)
  {
  }

  lemma JoinNormalizes(path: string, text: string)
    requires ScansText(Normalized(path)) == ScansText(path)
    requires NormalizedAll(PythonFileViolations(path)) == PythonFileViolations(Normalized(path))
    requires NormalizedAll(RootZigViolations(path)) == RootZigViolations(Normalized(path))
    requires NormalizedAll(CommandViolations(path, text)) == CommandViolations(Normalized(path), text)
    requires NormalizedAll(MarkerViolations(path, text)) == MarkerViolations(Normalized(path), text)
    ensures NormalizedAll(FileViolations(path, text)) == FileViolations(Normalized(path), text)
  {
    hide ScansText, PythonFileViolations, RootZigViolations, CommandViolations, MarkerViolations;
    NormalizedConcat(PythonFileViolations(path), RootZigViolations(path));
    var more := if ScansText(path) then CommandViolations(path, text) + MarkerViolations(path, text) else [];
    NormalizedConcat(CommandViolations(path, text), MarkerViolations(path, text));
    NormalizedConcat(PythonFileViolations(path) + RootZigViolations(path), more);
  }

  lemma NormalizedConcat(a: seq<Violation>, b: seq<Violation>)
    ensures NormalizedAll(a + b) == NormalizedAll(a) + NormalizedAll(b)
  {
  }

  /** A backslash separates on this host, or the path has none. */
  predicate IsHostPath(separator: char, path: string) {
    separator == '\\' || (separator == '/' && '\\' !in path)
  }

  lemma ChildNormalizes(separator: char, dir: string, name: string)
    requires IsHostPath(separator, dir) && '\\' !in name
    ensures Normalized(ChildPath(separator, dir, name)) == ChildPath('/', Normalized(dir), name)
    ensures IsHostPath(separator, ChildPath(separator, dir, name))
  {
  }

  /** A host that separates with backslashes reports the same violations, written with slashes, in the same order. */
  lemma {:induction false} SeparatorDoesNotMatter(separator: char, dir: string, entries: Entries)
    requires IsHostPath(separator, dir) && PlainNames(entries)
    ensures NormalizedAll(Scanned(separator, dir, entries)) == Scanned('/', Normalized(dir), entries)
    decreases entries
  {
    hide SkipPath, FileViolations, ChildPath, Normalized;
    if entries.Entry? {
      var path := ChildPath(separator, dir, entries.name);
      ChildNormalizes(separator, dir, entries.name);
      NodeSeparator(separator, path, entries.node);
      SeparatorDoesNotMatter(separator, dir, entries.rest);
      NormalizedConcat(ScannedNode(separator, path, entries.node), Scanned(separator, dir, entries.rest));
    }
  }

  lemma {:induction false} NodeSeparator(separator: char, path: string, node: Node)
    requires IsHostPath(separator, path) && (node.Directory? ==> PlainNames(node.entries))
    ensures NormalizedAll(ScannedNode(separator, path, node)) == ScannedNode('/', Normalized(path), node)
    decreases node
  {
    hide SkipPath, FileViolations, ChildPath, Normalized;
    SkipNormalizes(path);
    if node.Directory? {
      SeparatorDoesNotMatter(separator, path, node.entries);
    } else if node.File? {
      ViolationsNormalize(path, node.text);
    }
  }
}
