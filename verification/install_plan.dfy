/** The copy operations `installMod` of src/main/installMod.js derives from a record and the
    file list of its unpacked archive. Downloading, unpacking and copying are not modelled;
    the archive's directory and its file names (non-directory entries in archive order) are
    inputs, and so is the regular-expression engine used by `find_regexp`. */
module InstallPlan {
  import opened Wrappers
  import opened Text
  import opened Paths
  import opened Catalog
  import opened Versions

  /** Tests whether a pattern (the text of a `find_regexp`) matches somewhere in a path. */
  type RegexMatch = (string, string) -> bool

  /** How one directive selects files: by the first of its `file`, `find` and `find_regexp`
      fields that is set and non-empty. */
  datatype Matcher = ByFile(prefix: string) | ByFind(fragment: string) | ByRegexp(pattern: string) | MatchesNothing

  /** `{ source, destination }`: an archive file and its path below the install root. */
  datatype PlannedFile = PlannedFile(source: string, destination: string)

  /** `{ files, destination }`: the files a directive selected and its `install_to`. */
  datatype DirectivePlan = DirectivePlan(files: seq<PlannedFile>, installTo: Option<string>)

  /** A `copyFile(source, target)` call. */
  datatype CopyOperation = CopyOperation(source: string, target: string)

  /** Why planning throws: a directive that selected files has no `install_to`, so `path.join`
      receives `undefined`. */
  datatype PlanError = MissingInstallTo(directive: nat)

  function MatcherOf(d: Directive): (m: Matcher)
    ensures m.ByFile? ==> Present(d.file) && m.prefix == d.file.value
    ensures m.ByFind? ==> !Present(d.file) && Present(d.find) && m.fragment == d.find.value
    ensures m.ByRegexp? ==> !Present(d.file) && !Present(d.find) && Present(d.findRegexp) && m.pattern == d.findRegexp.value
    ensures m.MatchesNothing? <==> !Present(d.file) && !Present(d.find) && !Present(d.findRegexp)
  {
    if Present(d.file) then ByFile(d.file.value)
    else if Present(d.find) then ByFind(d.find.value)
    else if Present(d.findRegexp) then ByRegexp(d.findRegexp.value)
    else MatchesNothing
  }

  /** `dir.match(/GameData\/./g)` is non-null: "GameData/" occurs followed by a character other
      than a line terminator. */
  predicate HasGameDataChild(dir: string) {
    exists i | 0 <= i && i + 9 < |dir| :: OccursAt(dir, "GameData/", i) && !IsLineTerminator(dir[i + 9])
  }

  /** Whether the matcher selects the archive file `path`. */
  predicate Selects(m: Matcher, path: string, regexMatch: RegexMatch) {
    match m
    case ByFile(prefix) => IndexOf(path, prefix) == 0
    case ByFind(fragment) => Contains(Dirname(path), fragment)
    case ByRegexp(pattern) => regexMatch(pattern, path)
    case MatchesNothing => false
  }

  /** The destination the matcher gives a selected file. */
  function Destination(m: Matcher, path: string): string {
    match m
    case ByFile(prefix) => Substring(path, |prefix| - |Basename(prefix)|)
    case ByFind(fragment) => Substring(path, IndexOf(path, fragment))
    case _ => path
  }

  /** `files.filter(selects).map(f => ({ source: f, destination: destination(f) }))`. */
  function SelectFiles(files: seq<string>, selects: string -> bool, destination: string -> string): (r: seq<PlannedFile>)
    ensures |r| <= |files|
  {
    if files == [] then []
    else
      var rest := SelectFiles(files[1..], selects, destination);
      if selects(files[0]) then [PlannedFile(files[0], destination(files[0]))] + rest else rest
  }

  /** Exactly the selected files are planned, each with its destination. */
  lemma {:induction false} SelectFilesMembers(files: seq<string>, selects: string -> bool, destination: string -> string)
    ensures forall p | p in SelectFiles(files, selects, destination) ::
      p.source in files && selects(p.source) && p.destination == destination(p.source)
    ensures forall f | f in files && selects(f) :: PlannedFile(f, destination(f)) in SelectFiles(files, selects, destination)
  {
    if files != [] {
      SelectFilesMembers(files[1..], selects, destination);
      assert forall f | f in files :: f == files[0] || f in files[1..];
    }
  }

  /** The files one directive selects, with their destinations. */
  function PlanFiles(m: Matcher, files: seq<string>, regexMatch: RegexMatch): (r: seq<PlannedFile>)
    ensures forall p | p in r :: p.source in files && Selects(m, p.source, regexMatch) && p.destination == Destination(m, p.source)
    ensures forall f | f in files && Selects(m, f, regexMatch) :: PlannedFile(f, Destination(m, f)) in r
  {
    SelectFilesMembers(files, f => Selects(m, f, regexMatch), f => Destination(m, f));
    SelectFiles(files, f => Selects(m, f, regexMatch), f => Destination(m, f))
  }

  /** The default GameData convention: files below a `GameData/` directory, their destination
      the path without its first `'GameData/'.length` characters. */
  function DefaultFiles(files: seq<string>): (r: seq<PlannedFile>)
    ensures forall p | p in r :: p.source in files && HasGameDataChild(Dirname(p.source)) && p.destination == Substring(p.source, 9)
    ensures forall f | f in files && HasGameDataChild(Dirname(f)) :: PlannedFile(f, Substring(f, 9)) in r
  {
    SelectFilesMembers(files, f => HasGameDataChild(Dirname(f)), f => Substring(f, 9));
    SelectFiles(files, f => HasGameDataChild(Dirname(f)), f => Substring(f, 9))
  }

  /** The `directives` of `installMod`: one default directive rooted at "GameData" when the
      record has no `install` list, otherwise one plan per directive, in order. */
  function Directives(mod: ModRecord, files: seq<string>, regexMatch: RegexMatch): (r: seq<DirectivePlan>)
    ensures mod.install.None? ==> r == [DirectivePlan(DefaultFiles(files), Some("GameData"))]
    ensures mod.install.Some? ==> (
      && |r| == |mod.install.value|
      && forall i | 0 <= i < |r| ::
           r[i] == DirectivePlan(PlanFiles(MatcherOf(mod.install.value[i]), files, regexMatch), mod.install.value[i].installTo))
  {
    if mod.install.None? then [DirectivePlan(DefaultFiles(files), Some("GameData"))]
    else
      var ds := mod.install.value;
      seq(|ds|, i requires 0 <= i < |ds| => DirectivePlan(PlanFiles(MatcherOf(ds[i]), files, regexMatch), ds[i].installTo))
  }

  /** The copies of one directive: from the unpacked directory to
      gameDirectory/installTo/destination. */
  function Copies(plan: DirectivePlan, installTo: string, directory: string, gameDirectory: string): (r: seq<CopyOperation>)
    ensures |r| == |plan.files|
    ensures forall i | 0 <= i < |r| ::
      r[i].source == JoinPath(directory, plan.files[i].source) &&
      r[i].target == JoinPath(JoinPath(gameDirectory, installTo), plan.files[i].destination)
  {
    seq(|plan.files|, i requires 0 <= i < |plan.files| =>
      CopyOperation(JoinPath(directory, plan.files[i].source),
                    JoinPath(JoinPath(gameDirectory, installTo), plan.files[i].destination)))
  }

  /** The `reduce` that concatenates every directive's copies, directive by directive. */
  function CopyOperations(plans: seq<DirectivePlan>, directory: string, gameDirectory: string): (r: Result<seq<CopyOperation>, PlanError>)
    ensures r.Err? <==> exists i | 0 <= i < |plans| :: Unplaceable(plans[i])
    ensures r.Err? ==> (
      && r.error.directive < |plans|
      && Unplaceable(plans[r.error.directive])
      && forall j | 0 <= j < r.error.directive :: !Unplaceable(plans[j]))
    ensures r.Ok? ==> |r.value| == TotalFiles(plans)
  {
    if plans == [] then Ok([])
    else
      var last := plans[|plans| - 1];
      match CopyOperations(plans[..|plans| - 1], directory, gameDirectory)
      case Err(e) => Err(e)
      case Ok(ops) =>
        if last.files == [] then Ok(ops)
        else if last.installTo.None? then Err(MissingInstallTo(|plans| - 1))
        else Ok(ops + Copies(last, last.installTo.value, directory, gameDirectory))
  }

  /** A directive whose selected files have nowhere to go. */
  predicate Unplaceable(plan: DirectivePlan) {
    plan.files != [] && plan.installTo.None?
  }

  function TotalFiles(plans: seq<DirectivePlan>): nat {
    if plans == [] then 0 else TotalFiles(plans[..|plans| - 1]) + |plans[|plans| - 1].files|
  }

  /** The copy operations of `installMod(mod)` for an archive unpacked into `directory`. A
      metapackage returns before anything is downloaded. */
  function PlanInstall(mod: ModRecord, directory: string, files: seq<string>, gameDirectory: string,
                       regexMatch: RegexMatch): (r: Result<seq<CopyOperation>, PlanError>)
    ensures IsMetapackage(mod) ==> r == Ok([])
    ensures !IsMetapackage(mod) ==>
      r == CopyOperations(Directives(mod, files, regexMatch), directory, gameDirectory)
  {
    if IsMetapackage(mod) then Ok([])
    else CopyOperations(Directives(mod, files, regexMatch), directory, gameDirectory)
  }

  // ---------------------------------------------------------------------------------------
  // Properties of the plan
  // ---------------------------------------------------------------------------------------

  /** The `j`-th file of the `i`-th directive is copied by operation number
      `TotalFiles(plans[..i]) + j`. */
  predicate CopiedAt(ops: seq<CopyOperation>, plans: seq<DirectivePlan>, i: nat, j: nat, directory: string, gameDirectory: string)
    requires i < |plans| && j < |plans[i].files|
  {
    && plans[i].installTo.Some?
    && TotalFiles(plans[..i]) + j < |ops|
    && ops[TotalFiles(plans[..i]) + j] ==
         CopyOperation(JoinPath(directory, plans[i].files[j].source),
                       JoinPath(JoinPath(gameDirectory, plans[i].installTo.value), plans[i].files[j].destination))
  }

  /** Copies come in directive order, and within a directive in file order. */
  lemma {:induction false} CopyOrder(plans: seq<DirectivePlan>, directory: string, gameDirectory: string)
    requires CopyOperations(plans, directory, gameDirectory).Ok?
    ensures forall i, j | 0 <= i < |plans| && 0 <= j < |plans[i].files| ::
      CopiedAt(CopyOperations(plans, directory, gameDirectory).value, plans, i, j, directory, gameDirectory)
  {
    if plans != [] {
      var n := |plans| - 1;
      var front := plans[..n];
      CopyOperationsStep(plans, directory, gameDirectory);
      CopyOrder(front, directory, gameDirectory);
      var ops := CopyOperations(plans, directory, gameDirectory).value;
      var frontOps := CopyOperations(front, directory, gameDirectory).value;
      forall i, j | 0 <= i < |plans| && 0 <= j < |plans[i].files|
        ensures CopiedAt(ops, plans, i, j, directory, gameDirectory)
      {
        if i < n {
          CopiedBefore(ops, frontOps, plans, i, j, directory, gameDirectory);
        } else {
          CopiedInLast(plans, j, directory, gameDirectory);
        }
      }
    }
  }

  /** The copies of all directives are those of all but the last, then the last one's. */
  lemma CopyOperationsStep(plans: seq<DirectivePlan>, directory: string, gameDirectory: string)
    requires plans != [] && CopyOperations(plans, directory, gameDirectory).Ok?
    ensures CopyOperations(plans[..|plans| - 1], directory, gameDirectory).Ok?
    ensures TotalFiles(plans[..|plans| - 1]) == |CopyOperations(plans[..|plans| - 1], directory, gameDirectory).value|
    ensures plans[|plans| - 1].files != [] ==> plans[|plans| - 1].installTo.Some?
    ensures CopyOperations(plans, directory, gameDirectory).value ==
      CopyOperations(plans[..|plans| - 1], directory, gameDirectory).value +
      if plans[|plans| - 1].files == [] then []
      else Copies(plans[|plans| - 1], plans[|plans| - 1].installTo.value, directory, gameDirectory)
  {
  }

  /** The last directive's copies come after all the others. */
  lemma CopiedInLast(plans: seq<DirectivePlan>, j: nat, directory: string, gameDirectory: string)
    requires plans != [] && CopyOperations(plans, directory, gameDirectory).Ok?
    requires j < |plans[|plans| - 1].files|
    ensures CopiedAt(CopyOperations(plans, directory, gameDirectory).value, plans, |plans| - 1, j, directory, gameDirectory)
  {
    CopyOperationsStep(plans, directory, gameDirectory);
  }

  /** A copy placed by the directives before the last keeps its place. */
  lemma CopiedBefore(ops: seq<CopyOperation>, frontOps: seq<CopyOperation>, plans: seq<DirectivePlan>, i: nat, j: nat,
                     directory: string, gameDirectory: string)
    requires i < |plans| - 1 && j < |plans[i].files|
    requires |frontOps| <= |ops| && ops[..|frontOps|] == frontOps
    requires TotalFiles(plans[..|plans| - 1]) == |frontOps|
    requires CopiedAt(frontOps, plans[..|plans| - 1], i, j, directory, gameDirectory)
    ensures CopiedAt(ops, plans, i, j, directory, gameDirectory)
  {
    var front := plans[..|plans| - 1];
    assert plans[..i] == front[..i];
    TotalFilesPrefix(front, i);
    var k := TotalFiles(plans[..i]) + j;
    assert ops[k] == ops[..|frontOps|][k];
  }

  /** The files of the directives before `i` and of `i` itself fit in the total. */
  lemma {:induction false} TotalFilesPrefix(plans: seq<DirectivePlan>, i: nat)
    requires i < |plans|
    ensures TotalFiles(plans[..i]) + |plans[i].files| <= TotalFiles(plans)
  {
    var n := |plans| - 1;
    if i < n {
      assert plans[..n][..i] == plans[..i];
      TotalFilesPrefix(plans[..n], i);
    } else {
      assert plans[..i] == plans[..n];
    }
  }

  /** Selection keeps the archive's order: selecting from a concatenation of file lists
      selects from each part in turn. */
  lemma {:induction false} SelectFilesAppend(a: seq<string>, b: seq<string>, selects: string -> bool, destination: string -> string)
    ensures SelectFiles(a + b, selects, destination) == SelectFiles(a, selects, destination) + SelectFiles(b, selects, destination)
  {
    if a != [] {
      assert (a + b)[0] == a[0] && (a + b)[1..] == a[1..] + b;
      SelectFilesAppend(a[1..], b, selects, destination);
    } else {
      assert a + b == b;
    }
  }

  lemma PlanFilesAppend(m: Matcher, a: seq<string>, b: seq<string>, regexMatch: RegexMatch)
    ensures PlanFiles(m, a + b, regexMatch) == PlanFiles(m, a, regexMatch) + PlanFiles(m, b, regexMatch)
  {
    SelectFilesAppend(a, b, f => Selects(m, f, regexMatch), f => Destination(m, f));
  }

  /** A `file` directive whose prefix does not end in a slash installs each matched file under
      the prefix's last segment followed by the rest of the path. */
  lemma FileDestination(prefix: string, path: string)
    requires prefix != [] && prefix[|prefix| - 1] != '/'
    requires Selects(ByFile(prefix), path, (_, _) => false)
    ensures Destination(ByFile(prefix), path) == Basename(prefix) + path[|prefix|..]
  {
    BasenameIsSuffix(prefix);
    assert OccursAt(path, prefix, 0);
    KeepSuffixOfPrefix(path, prefix, |Basename(prefix)|);
  }

  /** Cutting a path that starts with `prefix` just before the last `n` characters of the
      prefix keeps those characters and the rest of the path. */
  lemma KeepSuffixOfPrefix(path: string, prefix: string, n: nat)
    requires n <= |prefix| <= |path| && path[..|prefix|] == prefix
    ensures Substring(path, |prefix| - n) == prefix[|prefix| - n..] + path[|prefix|..]
  {
    var start := |prefix| - n;
    assert path[start..|prefix|] == prefix[start..];
    assert path[start..] == path[start..|prefix|] + path[|prefix|..];
    if start == 0 {
      assert path[start..] == path;
    }
  }

  /** With a trailing slash the prefix's basename is computed without it, so the destination
      loses one character more than intended: `file: "GameData/Mod/"` installs
      "GameData/Mod/a.cfg" as "od/a.cfg". */
  lemma FileDestinationTrailingSlash()
    ensures Destination(ByFile("GameData/Mod/"), "GameData/Mod/a.cfg") == "od/a.cfg"
  {
    var p := "GameData/Mod/";
    assert TrimTrailingSlashes(p) == "GameData/Mod" by {
      assert p[..|p| - 1] == "GameData/Mod";
    }
    BasenameAfterLastSlash("GameData/Mod", 8);
    assert Basename(p) == "Mod";
  }

  /** A `find` directive matched below some directory installs each file from the first
      occurrence of the fragment onward. */
  lemma FindDestination(fragment: string, path: string)
    requires Selects(ByFind(fragment), path, (_, _) => false)
    requires Dirname(path) != "."
    ensures IndexOf(path, fragment) != -1
    ensures StartsWith(Destination(ByFind(fragment), path), fragment)
  {
    var dir := Dirname(path);
    DirnameIsPrefix(path);
    var k := IndexOf(dir, fragment);
    assert OccursAt(dir, fragment, k);
    assert path[k..k + |fragment|] == dir[k..k + |fragment|];
    assert OccursAt(path, fragment, k);
    var i := IndexOf(path, fragment);
    assert OccursAt(path, fragment, i);
  }

  /** A file in the archive's top directory has dirname ".", so `find: "."` selects it even
      when its name has no dot, and then installs it under its own name. */
  lemma FindDotSelectsTopLevelFile(path: string)
    requires '/' !in path && '.' !in path
    ensures Selects(ByFind("."), path, (_, _) => false)
    ensures Destination(ByFind("."), path) == path
  {
    DirnameWithoutSlash(path);
    assert OccursAt(".", ".", 0);
    AbsentCharNeverOccurs(path, '.');
  }

  /** Under the default convention every selected path is longer than 9 characters, and its
      destination is the path without them. */
  lemma DefaultDestination(path: string)
    requires HasGameDataChild(Dirname(path))
    ensures |path| > 9 && Substring(path, 9) == path[9..]
  {
    var dir := Dirname(path);
    DirnameIsPrefix(path);
  }

  /** The 9 characters are cut from the front of the path wherever "GameData/" occurs, so a
      mod packed inside a top-level folder loses part of that folder's name instead. */
  lemma DefaultCutsFixedPrefix()
    ensures DefaultFiles(["Mod/GameData/Mod/a.cfg"]) == [PlannedFile("Mod/GameData/Mod/a.cfg", "ata/Mod/a.cfg")]
  {
    NestedGameDataSelected();
    DefaultFilesSingle("Mod/GameData/Mod/a.cfg");
    NestedGameDataCut();
  }

  lemma NestedGameDataCut()
    ensures Substring("Mod/GameData/Mod/a.cfg", 9) == "ata/Mod/a.cfg"
  {
  }

  lemma NestedGameDataSelected()
    ensures HasGameDataChild(Dirname("Mod/GameData/Mod/a.cfg"))
  {
    var f := "Mod/GameData/Mod/a.cfg";
    DirnameAtLastSlash(f, 16);
    assert Dirname(f) == "Mod/GameData/Mod";
    assert OccursAt(Dirname(f), "GameData/", 4);
  }

  lemma DefaultFilesSingle(f: string)
    requires HasGameDataChild(Dirname(f))
    ensures DefaultFiles([f]) == [PlannedFile(f, Substring(f, 9))]
  {
    assert [f][1..] == [];
  }
}
