/** Exactly which violations the policy scan reports, for every tree of files. */
module RepositoryRules {
  import opened KiraStrings
  import opened RepositoryTruth

  // ---------------------------------------------------------------------------
  // Files of a tree
  // ---------------------------------------------------------------------------

  /** A name that a directory can yield; `.` and `..` are left out by the walk. */
  predicate IsName(name: string) {
    name != "" && name != "." && name != ".." && '/' !in name
  }

  predicate ValidNames(entries: Entries) {
    entries.Entry? ==>
      IsName(entries.name) && ValidNames(entries.rest) &&
      (entries.node.Directory? ==> ValidNames(entries.node.entries))
  }

  /** Following the names leads to a file with this text. */
  ghost predicate FileAt(entries: Entries, names: seq<string>, text: string)
    decreases entries
  {
    entries.Entry? && names != [] && (
      FileAt(entries.rest, names, text) ||
      (entries.name == names[0] &&
       match entries.node
       case File(t) => |names| == 1 && t == text
       case Directory(inner) => FileAt(inner, names[1..], text)
       case Other => false))
  }

  /** The names with `/` between them. */
  function PathText(names: seq<string>): string {
    if names == [] then "" else if |names| == 1 then names[0] else names[0] + ['/'] + PathText(names[1..])
  }

  ghost predicate IsFile(entries: Entries, path: string, text: string) {
    exists names :: FileAt(entries, names, text) && path == PathText(names)
  }

  // ---------------------------------------------------------------------------
  // The rules, spelled out
  // ---------------------------------------------------------------------------

  ghost predicate Ends(path: string, suffix: string) {
    exists front :: path == front + suffix
  }

  ghost predicate Occurs(token: string, text: string) {
    exists before, after :: text == before + token + after
  }

  /** The same path, if a backslash is taken for a slash. */
  predicate ReadsAs(path: string, plain: string) {
    |path| == |plain| && forall i | 0 <= i < |path| :: path[i] == plain[i] || (path[i] == '\\' && plain[i] == '/')
  }

  predicate Begins(path: string, plain: string) {
    |path| >= |plain| && ReadsAs(path[..|plain|], plain)
  }

  predicate Exempt(path: string) {
    Begins(path, ".git/") || Begins(path, ".claude/") || Begins(path, ".kira/") || Begins(path, ".kira-build/") ||
    Begins(path, ".zig-cache/") || Begins(path, "zig-out/") || Begins(path, "third_party/") ||
    Begins(path, "emsdk-cache/") || Begins(path, ".codex/") || Begins(path, ".github/") ||
    Begins(path, ".opencode/") || Begins(path, "Images/")
  }

  ghost predicate HasScannedText(path: string) {
    Ends(path, ".zig") || Ends(path, ".zon") || Ends(path, ".js") || Ends(path, ".sh") || Ends(path, ".toml")
  }

  predicate IsPythonToken(token: string) {
    token == "python3" || token == "python -m" || token == "http.server" || token == "pytest" ||
    token == "unittest" || token == "#!/usr/bin/env python" || token == "#!/usr/bin/python"
  }

  predicate IsFakeToken(token: string) {
    token == "KiraWebGpuSmoke" || token == "KiraWebSmoke" || token == "KIRA_WEBGPU_FRAME_RENDERED" ||
    token == "KIRA_WEBGPU_PIPELINE_CREATED"
  }

  /** A file at `path` with this text is to be reported as `v`. */
  ghost predicate Earned(v: Violation, path: string, text: string) {
    match v
    case PythonFile(p) => p == path && Ends(path, ".py") && !ReadsAs(path, "scripts/llvm/llvm_release.py")
    case RootZig(p) => p == path && Ends(path, ".zig") && '/' !in path && '\\' !in path && path != "build.zig"
    case PythonCommand(token, p) =>
      && p == path && HasScannedText(path) && IsPythonToken(token) && Occurs(token, text)
      && !ReadsAs(path, "build_support/repository_truth.zig") && !ReadsAs(path, "scripts/llvm/llvm_release.py")
    case FakeMarker(token, p) =>
      && p == path && HasScannedText(path) && IsFakeToken(token) && Occurs(token, text)
      && !ReadsAs(path, "build_support/repository_truth.zig")
    case SupervisorMarker =>
      ReadsAs(path, "packages/kira_live/src/supervisor.zig") && Occurs("KIRA_APP_RENDERED_VISIBLE_CONTENT", text)
  }

  // ---------------------------------------------------------------------------
  // One file
  // ---------------------------------------------------------------------------

  lemma EndsExactly(path: string, suffix: string)
    ensures EndsWith(path, suffix) <==> Ends(path, suffix)
  {
    if EndsWith(path, suffix) {
      assert path == path[..|path| - |suffix|] + suffix;
    }
  }

  lemma OccursExactly(token: string, text: string)
    ensures Contains(text, token) <==> Occurs(token, text)
  {
    if Contains(text, token) {
      var i :| OccursAt(token, text, i);
      assert text == text[..i] + token + text[i + |token|..];
    }
    if Occurs(token, text) {
      var before, after :| text == before + token + after;
      assert OccursAt(token, text, |before|);
    }
  }

  lemma ReadsAsExactly(path: string, plain: string)
    requires '\\' !in plain
    ensures PathsEqual(path, plain) <==> ReadsAs(path, plain)
    ensures StartsWithPath(path, plain) <==> Begins(path, plain)
  {
    if |path| >= |plain| {
      assert forall i | 0 <= i < |plain| :: path[..|plain|][i] == path[i];
    }
  }

  lemma SkipsExactly(path: string)
    ensures SkipPath(path) <==> Exempt(path)
  {
    SkippedPrefixes();
    forall i | 0 <= i < |SKIPPED|
      ensures StartsWithPath(path, SKIPPED[i]) <==> Begins(path, SKIPPED[i])
    {
      ReadsAsExactly(path, SKIPPED[i]);
    }
    hide StartsWithPath, Begins;
  }

  lemma SkippedPrefixes()
    ensures |SKIPPED| == 12 && forall i | 0 <= i < |SKIPPED| :: '\\' !in SKIPPED[i]
    ensures SKIPPED[0] == ".git/" && SKIPPED[1] == ".claude/" && SKIPPED[2] == ".kira/"
    ensures SKIPPED[3] == ".kira-build/" && SKIPPED[4] == ".zig-cache/" && SKIPPED[5] == "zig-out/"
    ensures SKIPPED[6] == "third_party/" && SKIPPED[7] == "emsdk-cache/" && SKIPPED[8] == ".codex/"
    ensures SKIPPED[9] == ".github/" && SKIPPED[10] == ".opencode/" && SKIPPED[11] == "Images/"
  {
  }

  lemma {:induction false} HitsExactly(tokens: seq<string>, text: string, token: string)
    ensures token in Hits(tokens, text) <==> token in tokens && Occurs(token, text)
  {
    if tokens != [] {
      var last := |tokens| - 1;
      HitsExactly(tokens[..last], text, token);
      OccursExactly(token, text);
      assert tokens == tokens[..last] + [tokens[last]];
    }
  }

  lemma TokensExactly(token: string)
    ensures token in PYTHON_TOKENS <==> IsPythonToken(token)
    ensures token in FAKE_TOKENS <==> IsFakeToken(token)
  {
  }

  lemma TextsExactly(path: string)
    ensures ScansText(path) <==> HasScannedText(path)
  {
    EndsExactly(path, ".zig");
    EndsExactly(path, ".zon");
    EndsExactly(path, ".js");
    EndsExactly(path, ".sh");
    EndsExactly(path, ".toml");
  }

  lemma NameRules(v: Violation, path: string, text: string)
    requires v.PythonFile? || v.RootZig?
    ensures v in PythonFileViolations(path) + RootZigViolations(path) <==> Earned(v, path, text)
  {
    EndsExactly(path, ".py");
    EndsExactly(path, ".zig");
    ReadsAsExactly(path, RELEASE_SCRIPT);
    ReadsAsExactly(path, "build.zig");
    SeparatorsExactly(path);
    hide EndsWith, PathsEqual, HasSeparator, Ends, ReadsAs, StartsWithPath, Begins;
    assert PathsEqual(path, "build.zig") && !HasSeparator(path) ==> path == "build.zig" by {
      PlainReading(path, "build.zig");
    }
    assert path == "build.zig" ==> PathsEqual(path, "build.zig") by {
      PlainReading(path, "build.zig");
    }
  }

  lemma SeparatorsExactly(path: string)
    ensures HasSeparator(path) <==> '/' in path || '\\' in path
  {
  }

  lemma PlainReading(path: string, plain: string)
    requires '\\' !in plain
    ensures !HasSeparator(path) && PathsEqual(path, plain) ==> path == plain
    ensures path == plain ==> PathsEqual(path, plain)
  {
    if !HasSeparator(path) && PathsEqual(path, plain) {
      assert forall i | 0 <= i < |path| :: path[i] == plain[i];
    }
  }

  lemma CommandRule(v: Violation, path: string, text: string)
    requires v.PythonCommand?
    ensures HasScannedText(path) ==> (v in CommandViolations(path, text) <==> Earned(v, path, text))
  {
    ReadsAsExactly(path, THIS_FILE);
    ReadsAsExactly(path, RELEASE_SCRIPT);
    HitsExactly(PYTHON_TOKENS, text, v.token);
    TokensExactly(v.token);
    var hits := Hits(PYTHON_TOKENS, text);
    hide PathsEqual, ReadsAs, StartsWithPath, Begins, Hits, IsPythonToken, HasScannedText, Occurs;
    HitsBecomeCommands(hits, path, v);
    hide PythonHits;
  }

  lemma HitsBecomeCommands(hits: seq<string>, path: string, v: Violation)
    ensures v in PythonHits(hits, path) <==> v.PythonCommand? && v.path == path && v.token in hits
  {
    assert forall i | 0 <= i < |hits| :: PythonHits(hits, path)[i] == PythonCommand(hits[i], path);
    if v.PythonCommand? && v.path == path && v.token in hits {
      var i :| 0 <= i < |hits| && hits[i] == v.token;
      assert PythonHits(hits, path)[i] == v;
    }
  }

  lemma HitsBecomeMarkers(hits: seq<string>, path: string, v: Violation)
    ensures v in FakeHits(hits, path) <==> v.FakeMarker? && v.path == path && v.token in hits
  {
    assert forall i | 0 <= i < |hits| :: FakeHits(hits, path)[i] == FakeMarker(hits[i], path);
    if v.FakeMarker? && v.path == path && v.token in hits {
      var i :| 0 <= i < |hits| && hits[i] == v.token;
      assert FakeHits(hits, path)[i] == v;
    }
  }

  lemma MarkerRule(v: Violation, path: string, text: string)
    requires v.FakeMarker? || v.SupervisorMarker?
    ensures HasScannedText(path) ==> (v in MarkerViolations(path, text) <==> Earned(v, path, text))
  {
    ReadsAsExactly(path, THIS_FILE);
    ReadsAsExactly(path, SUPERVISOR);
    SupervisorIsNotThis(path);
    OccursExactly(VISIBLE_CONTENT, text);
    var hits := Hits(FAKE_TOKENS, text);
    HitsBecomeMarkers(hits, path, v);
    if v.FakeMarker? {
      HitsExactly(FAKE_TOKENS, text, v.token);
      TokensExactly(v.token);
    }
    hide PathsEqual, ReadsAs, StartsWithPath, Begins, Hits, IsFakeToken, HasScannedText, Occurs, Contains, FakeHits;
  }

  lemma SupervisorIsNotThis(path: string)
    ensures !(ReadsAs(path, SUPERVISOR) && ReadsAs(path, THIS_FILE))
    ensures ReadsAs(path, SUPERVISOR) ==> HasScannedText(path)
  {
    assert |SUPERVISOR| != |THIS_FILE|;
    if ReadsAs(path, SUPERVISOR) {
      var front := |SUPERVISOR| - 4;
      assert SUPERVISOR[front..] == ".zig";
      assert path[front..] == ".zig";
      assert path == path[..front] + ".zig";
    }
  }

  /** The checks of one file report exactly what it earns. */
  lemma FileRules(v: Violation, path: string, text: string)
    ensures v in FileViolations(path, text) <==> Earned(v, path, text)
  {
    TextsExactly(path);
    SupervisorIsNotThis(path);
    match v {
      case PythonFile(_) => NameRules(v, path, text);
      case RootZig(_) => NameRules(v, path, text);
      case PythonCommand(_, _) => CommandRule(v, path, text);
      case FakeMarker(_, _) => MarkerRule(v, path, text);
      case SupervisorMarker => MarkerRule(v, path, text);
    }
    KindsApart(path, text);
    hide PythonFileViolations, RootZigViolations, CommandViolations, MarkerViolations, ScansText;
    hide HasScannedText, ReadsAs, Ends, Occurs, IsPythonToken, IsFakeToken;
  }

  /** Each check reports its own kinds. */
  lemma KindsApart(path: string, text: string)
    ensures forall v | v in PythonFileViolations(path) + RootZigViolations(path) :: v.PythonFile? || v.RootZig?
    ensures forall v | v in CommandViolations(path, text) :: v.PythonCommand?
    ensures forall v | v in MarkerViolations(path, text) :: v.FakeMarker? || v.SupervisorMarker?
  {
    hide PathsEqual, Hits, EndsWith, HasSeparator, Contains;
  }

  // ---------------------------------------------------------------------------
  // The whole tree
  // ---------------------------------------------------------------------------

  /** A directory of the walk: the root, or a path that another name can be added to. */
  predicate IsDir(dir: string) {
    dir == "." || (dir != "" && dir[|dir| - 1] != '/')
  }

  function Under(dir: string, names: seq<string>): string {
    if dir == "." then PathText(names) else dir + ['/'] + PathText(names)
  }

  lemma UnderChild(dir: string, names: seq<string>)
    requires IsDir(dir) && names != [] && IsName(names[0])
    ensures var child := ChildPath('/', dir, names[0]);
            && IsDir(child) && child != "."
            && Under(dir, names) == if |names| == 1 then child else Under(child, names[1..])
  {
    var child := ChildPath('/', dir, names[0]);
    assert child[|child| - 1] == names[0][|names[0]| - 1];
    assert dir != "." ==> |child| > 1;
    if |names| > 1 {
      assert Under(dir, names) == child + ['/'] + PathText(names[1..]);
    }
  }

  lemma {:induction false} FilesAreListed(dir: string, entries: Entries, names: seq<string>, text: string)
    requires ValidNames(entries) && IsDir(dir) && FileAt(entries, names, text)
    ensures Listed(Under(dir, names), text) in AllFiles('/', dir, entries)
    decreases entries
  {
    if FileAt(entries.rest, names, text) {
      FilesAreListed(dir, entries.rest, names, text);
    } else {
      UnderChild(dir, names);
      var child := ChildPath('/', dir, names[0]);
      if entries.node.Directory? {
        assert names[1..] != [];
        FilesAreListed(child, entries.node.entries, names[1..], text);
      }
      hide Under, ChildPath;
      assert Listed(Under(dir, names), text) in FilesOf('/', child, entries.node);
    }
  }

  lemma {:induction false} ListedAreFiles(dir: string, entries: Entries, file: Listed) returns (names: seq<string>)
    requires ValidNames(entries) && IsDir(dir) && file in AllFiles('/', dir, entries)
    ensures FileAt(entries, names, file.text) && file.path == Under(dir, names)
    decreases entries
  {
    var child := ChildPath('/', dir, entries.name);
    if file in AllFiles('/', dir, entries.rest) {
      names := ListedAreFiles(dir, entries.rest, file);
    } else {
      assert file in FilesOf('/', child, entries.node);
      UnderChild(dir, [entries.name]);
      if entries.node.Directory? {
        var inner := ListedAreFiles(child, entries.node.entries, file);
        names := [entries.name] + inner;
        assert names[1..] == inner;
        UnderChild(dir, names);
      } else {
        names := [entries.name];
      }
    }
  }

  lemma {:induction false} CheckedExactly(files: seq<Listed>, v: Violation)
    ensures v in Checked(files) <==>
            exists f | f in files :: !Exempt(f.path) && Earned(v, f.path, f.text)
  {
    hide Exempt, Earned, SkipPath, FileViolations;
    if files != [] {
      var f := files[0];
      CheckedExactly(files[1..], v);
      SkipsExactly(f.path);
      FileRules(v, f.path, f.text);
      assert forall g :: g in files <==> g == f || g in files[1..];
    }
  }

  /**
   For every tree of files and every violation, the walk from the root reports it if and only if some file
   of the tree, not below an exempt directory, earns it.
   */
  lemma ReportsExactly(entries: Entries, v: Violation)
    requires ValidNames(entries)
    ensures v in Scanned('/', ".", entries) <==>
            exists path, text :: IsFile(entries, path, text) && !Exempt(path) && Earned(v, path, text)
  {
    hide Exempt, Earned;
    var files := AllFiles('/', ".", entries);
    PrunedScanIsFlatScan('/', ".", entries);
    CheckedExactly(files, v);
    if v in Checked(files) {
      var f :| f in files && !Exempt(f.path) && Earned(v, f.path, f.text);
      var names := ListedAreFiles(".", entries, f);
      assert IsFile(entries, f.path, f.text);
    }
    if exists path, text :: IsFile(entries, path, text) && !Exempt(path) && Earned(v, path, text) {
      var path, text :| IsFile(entries, path, text) && !Exempt(path) && Earned(v, path, text);
      var names :| FileAt(entries, names, text) && path == PathText(names);
      FilesAreListed(".", entries, names, text);
      assert Listed(path, text) in files;
    }
  }

  /** On a host with backslashes the same holds of the report once its paths are written with slashes. */
  lemma ReportsExactlyAnywhere(separator: char, entries: Entries, v: Violation)
    requires IsSeparator(separator) && ValidNames(entries) && PlainNames(entries)
    ensures v in NormalizedAll(Scanned(separator, ".", entries)) <==>
            exists path, text :: IsFile(entries, path, text) && !Exempt(path) && Earned(v, path, text)
  {
    hide Exempt, Earned, Scanned;
    SeparatorDoesNotMatter(separator, ".", entries);
    assert Normalized(".") == ".";
    ReportsExactly(entries, v);
  }

  lemma FirstCharacters(path: string)
    ensures forall plain | plain != "" && Begins(path, plain) :: path[0] == plain[0] || path[0] == '\\'
  {
    forall plain | plain != "" && Begins(path, plain)
      ensures path[0] == plain[0] || path[0] == '\\'
    {
      assert path[..|plain|][0] == path[0];
    }
  }

  /** Nothing below `packages/` is exempt, and everything below the vendored directories is. */
  lemma PackagesAreScanned(rest: string)
    ensures !Exempt("packages/" + rest)
    ensures Exempt("third_party/" + rest) && Exempt(".zig-cache/" + rest)
  {
    assert ("third_party/" + rest)[..12] == "third_party/";
    assert (".zig-cache/" + rest)[..11] == ".zig-cache/";
    assert Begins("third_party/" + rest, "third_party/") && Begins(".zig-cache/" + rest, ".zig-cache/");
    hide Begins;
    FirstCharacters("packages/" + rest);
  }

  // ---------------------------------------------------------------------------
  // Once, and in order
  // ---------------------------------------------------------------------------

  function Position(tokens: seq<string>, token: string): (k: nat)
    ensures k <= |tokens|
  {
    if tokens == [] || tokens[0] == token then 0 else 1 + Position(tokens[1..], token)
  }

  /** The order of the checks, and of the tokens within one. */
  function Rank(v: Violation): nat {
    match v
    case PythonFile(_) => 0
    case RootZig(_) => 1
    case PythonCommand(token, _) => 2 + Position(PYTHON_TOKENS, token)
    case FakeMarker(token, _) => 10 + Position(FAKE_TOKENS, token)
    case SupervisorMarker => 20
  }

  lemma {:induction false} PositionIs(tokens: seq<string>, k: nat)
    requires k < |tokens| && forall i, j | 0 <= i < j < |tokens| :: tokens[i] != tokens[j]
    ensures Position(tokens, tokens[k]) == k
  {
    if k > 0 {
      assert forall i | 0 <= i < |tokens| - 1 :: tokens[1..][i] == tokens[i + 1];
      PositionIs(tokens[1..], k - 1);
    }
  }

  /** The hits are a selection of the tokens in their order: `at` says which. */
  lemma {:induction false} HitsInOrder(tokens: seq<string>, text: string) returns (at: seq<nat>)
    ensures |at| == |Hits(tokens, text)|
    ensures forall i | 0 <= i < |at| :: at[i] < |tokens| && Hits(tokens, text)[i] == tokens[at[i]]
    ensures forall i, j | 0 <= i < j < |at| :: at[i] < at[j]
  {
    at := [];
    if tokens != [] {
      var last := |tokens| - 1;
      at := HitsInOrder(tokens[..last], text);
      if Contains(text, tokens[last]) {
        at := at + [last];
      }
    }
  }

  lemma TokensDiffer()
    ensures forall i, j | 0 <= i < j < |PYTHON_TOKENS| :: PYTHON_TOKENS[i] != PYTHON_TOKENS[j]
    ensures forall i, j | 0 <= i < j < |FAKE_TOKENS| :: FAKE_TOKENS[i] != FAKE_TOKENS[j]
  {
  }

  /** Later violations have higher ranks, so none is reported twice. */
  ghost predicate InOrder(vs: seq<Violation>) {
    forall i, j | 0 <= i < j < |vs| :: Rank(vs[i]) < Rank(vs[j])
  }

  lemma CommandsInOrder(path: string, text: string)
    ensures InOrder(CommandViolations(path, text))
    ensures forall v | v in CommandViolations(path, text) :: 2 <= Rank(v) <= 9
  {
    var at := HitsInOrder(PYTHON_TOKENS, text);
    TokensDiffer();
    var hits := Hits(PYTHON_TOKENS, text);
    forall i | 0 <= i < |hits|
      ensures Rank(PythonHits(hits, path)[i]) == 2 + at[i]
    {
      PositionIs(PYTHON_TOKENS, at[i]);
    }
    hide Hits, Position, Contains, PathsEqual;
  }

  lemma MarkersInOrder(path: string, text: string)
    ensures InOrder(MarkerViolations(path, text))
    ensures forall v | v in MarkerViolations(path, text) :: 10 <= Rank(v)
  {
    var at := HitsInOrder(FAKE_TOKENS, text);
    TokensDiffer();
    var hits := Hits(FAKE_TOKENS, text);
    var fakes := FakeHits(hits, path);
    forall i | 0 <= i < |hits|
      ensures Rank(fakes[i]) == 10 + at[i] < 20
    {
      PositionIs(FAKE_TOKENS, at[i]);
    }
    hide Hits, Position, Contains, PathsEqual, Rank;
    assert Rank(SupervisorMarker) == 20 by { SupervisorRank(); }
    assert InOrder(fakes) && InOrder(fakes + [SupervisorMarker]);
  }

  lemma SupervisorRank()
    ensures Rank(SupervisorMarker) == 20
  {
  }

  /** The violations of one file come once each, in the order of the checks and of their tokens. */
  lemma FileInOrder(path: string, text: string)
    ensures InOrder(FileViolations(path, text))
  {
    CommandsInOrder(path, text);
    MarkersInOrder(path, text);
    hide CommandViolations, MarkerViolations, Position, ScansText, PathsEqual, EndsWith, HasSeparator;
  }
}
