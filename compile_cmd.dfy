/**
 * The compiler command line `generate_compile_cmd` assembles from the
 * project configuration: compiler and standard, the source files found by
 * walking the sources directory, the output path, and the include,
 * library-directory and library flags, in that fixed order.
 */
module CompileCommand {
  import opened Wrappers
  import opened FileSystem
  import opened Project

  /** Each element prefixed by `flag`, concatenated in order (`cmd << flag << x` per element). */
  function Flags(flag: string, xs: seq<string>): string {
    if xs == [] then "" else Flags(flag, xs[..|xs| - 1]) + flag + xs[|xs| - 1]
  }

  /** Flags over two lists are the flags over the first, then the flags over the second. */
  lemma {:induction false} FlagsAppend(flag: string, xs: seq<string>, ys: seq<string>)
    ensures Flags(flag, xs + ys) == Flags(flag, xs) + Flags(flag, ys)
  {
    if ys == [] {
      assert xs + ys == xs;
    } else {
      var n := |ys| - 1;
      assert (xs + ys)[..|xs + ys| - 1] == xs + ys[..n];
      FlagsAppend(flag, xs, ys[..n]);
    }
  }

  /** A single element gives a single flag. */
  lemma FlagsOne(flag: string, x: string)
    ensures Flags(flag, [x]) == flag + x
  {
    var none: seq<string> := [];
    assert [x][..0] == none;
    assert Flags(flag, [x]) == Flags(flag, none) + flag + x;
    assert "" + flag == flag;
  }

  /** Element `i` is emitted as `flag` and itself, between the flags of the elements before and after it. */
  lemma FlagsElement(flag: string, xs: seq<string>, i: nat)
    requires i < |xs|
    ensures Flags(flag, xs) == Flags(flag, xs[..i]) + (flag + xs[i]) + Flags(flag, xs[i + 1..])
  {
    assert xs == xs[..i] + [xs[i]] + xs[i + 1..];
    FlagsAppend(flag, xs[..i] + [xs[i]], xs[i + 1..]);
    FlagsAppend(flag, xs[..i], [xs[i]]);
    FlagsOne(flag, xs[i]);
  }

  /** `path.string()` of each path, in order. */
  function PathTexts(ps: seq<Path>): seq<string> {
    if ps == [] then [] else PathTexts(ps[..|ps| - 1]) + [PathText(ps[|ps| - 1])]
  }

  // ---------------------------------------------------------------------
  // The source files

  /** The entries of a walk that are regular files with extension `ext`, in walk order. */
  function Matching(fs: Fs, walk: seq<Path>, ext: string): seq<Path> {
    if walk == [] then []
    else
      var p := walk[|walk| - 1];
      var r := Matching(fs, walk[..|walk| - 1], ext);
      if IsRegular(fs, p) && Extension(p) == ext then r + [p] else r
  }

  /** Exactly the regular files of the walk whose extension is `ext` are selected. */
  lemma {:induction false} MatchingSelects(fs: Fs, walk: seq<Path>, ext: string, p: Path)
    ensures p in Matching(fs, walk, ext) <==> p in walk && IsRegular(fs, p) && Extension(p) == ext
  {
    if walk != [] {
      var n := |walk| - 1;
      MatchingSelects(fs, walk[..n], ext, p);
      assert walk == walk[..n] + [walk[n]];
    }
  }

  /** Selection keeps walk order: a split walk selects the two parts' files one after the other. */
  lemma {:induction false} MatchingAppend(fs: Fs, w1: seq<Path>, w2: seq<Path>, ext: string)
    ensures Matching(fs, w1 + w2, ext) == Matching(fs, w1, ext) + Matching(fs, w2, ext)
  {
    if w2 == [] {
      assert w1 + w2 == w1;
    } else {
      var n := |w2| - 1;
      assert (w1 + w2)[..|w1 + w2| - 1] == w1 + w2[..n];
      MatchingAppend(fs, w1, w2[..n], ext);
    }
  }

  // ---------------------------------------------------------------------
  // find_include_dirs

  /** Directories named "include" or "Include" in the walk of `base`, in walk order; none when `base` is not a directory. */
  function IncludeEntries(fs: Fs, base: Path): seq<Path> {
    match Walk(fs, base)
      case None => []
      case Some(walk) => IncludeDirsIn(fs, walk)
  }

  function IncludeDirsIn(fs: Fs, walk: seq<Path>): seq<Path> {
    if walk == [] then []
    else
      var p := walk[|walk| - 1];
      var r := IncludeDirsIn(fs, walk[..|walk| - 1]);
      if IsIncludeDir(fs, p) then r + [p] else r
  }

  /** A directory called "include" or "Include". */
  predicate IsIncludeDir(fs: Fs, p: Path) {
    IsDirectory(fs, p) && (FileName(p) == "include" || FileName(p) == "Include")
  }

  /** Exactly the directories named "include" or "Include" that the walk of a directory `base` lists. */
  lemma IncludeEntriesAre(fs: Fs, base: Path, p: Path)
    ensures p in IncludeEntries(fs, base) <==> IsDirectory(fs, base) && p in Walk(fs, base).value && IsIncludeDir(fs, p)
  {
    if IsDirectory(fs, base) {
      IncludeDirsInSelects(fs, Walk(fs, base).value, p);
    }
  }

  lemma {:induction false} IncludeDirsInSelects(fs: Fs, walk: seq<Path>, p: Path)
    ensures p in IncludeDirsIn(fs, walk) <==> p in walk && IsIncludeDir(fs, p)
  {
    if walk != [] {
      var n := |walk| - 1;
      IncludeDirsInSelects(fs, walk[..n], p);
      assert walk == walk[..n] + [walk[n]];
    }
  }

  /** `find_include_dirs(base, includes)`: appends the include directories under `base`. */
  method FindIncludeDirs(fs: Fs, base: Path, includes: seq<string>) returns (includes': seq<string>)
    ensures includes' == includes + PathTexts(IncludeEntries(fs, base))
  {
    includes' := includes;
    if !IsDirectory(fs, base) {
      return;
    }
    var walk := Walk(fs, base).value;
    for i := 0 to |walk|
      invariant includes' == includes + PathTexts(IncludeDirsIn(fs, walk[..i]))
    {
      var p := walk[i];
      ghost var before := IncludeDirsIn(fs, walk[..i]);
      assert walk[..i + 1][..i] == walk[..i];
      assert walk[..i + 1][i] == p;
      if IsDirectory(fs, p) && (FileName(p) == "include" || FileName(p) == "Include") {
        assert IncludeDirsIn(fs, walk[..i + 1]) == before + [p];
        assert (before + [p])[..|before|] == before;
        assert PathTexts(before + [p]) == PathTexts(before) + [PathText(p)];
        includes' := includes' + [PathText(p)];
      } else {
        assert IncludeDirsIn(fs, walk[..i + 1]) == before;
      }
    }
    assert walk[..|walk|] == walk;
  }

  // ---------------------------------------------------------------------
  // The command

  /** The dependencies the map yields when iterated in the key order `order`. */
  function InOrder(cfg: Config, order: seq<string>): (deps: seq<Dependency>)
    requires forall k :: k in order ==> k in cfg.dependencies
    ensures |deps| == |order|
    ensures forall i :: 0 <= i < |order| ==> deps[i] == cfg.dependencies[order[i]]
  {
    if order == [] then [] else InOrder(cfg, order[..|order| - 1]) + [cfg.dependencies[order[|order| - 1]]]
  }

  /** The include directories of path dependencies, in iteration order. */
  function PathDependencyIncludes(fs: Fs, deps: seq<Dependency>): seq<string> {
    if deps == [] then []
    else PathDependencyIncludes(fs, deps[..|deps| - 1]) + DependencyIncludes(fs, deps[|deps| - 1])
  }

  /** What one dependency adds: the include directories under its path, if it has one. */
  function DependencyIncludes(fs: Fs, dep: Dependency): seq<string> {
    if dep.path != "" then PathTexts(IncludeEntries(fs, PathOf(dep.path))) else []
  }

  /** Every include directory the command names: path dependencies first, then `.zyn/deps`, then `.zyn/build`. */
  function IncludeDirs(fs: Fs, cfg: Config, order: seq<string>): seq<string>
    requires forall k :: k in order ==> k in cfg.dependencies
  {
    PathDependencyIncludes(fs, InOrder(cfg, order))
      + PathTexts(IncludeEntries(fs, PathOf(".zyn/deps")))
      + PathTexts(IncludeEntries(fs, PathOf(".zyn/build")))
  }

  /** Where the executable goes: `.zyn/build/` and the project name, with the platform's suffix. */
  function OutputPath(cfg: Config, exeSuffix: string): string {
    ".zyn/build/" + cfg.name + exeSuffix
  }

  /** The command for the given source files and include directories. */
  function Assemble(cfg: Config, sources: seq<Path>, includeDirs: seq<string>, exeSuffix: string): string {
    cfg.compiler + " -std=" + cfg.standard
      + Flags(" ", PathTexts(sources))
      + " -o " + OutputPath(cfg, exeSuffix)
      + " -I" + cfg.includeDir
      + Flags(" -I", includeDirs)
      + Flags(" -L", cfg.libDirs)
      + Flags(" -l", cfg.libraries)
  }

  /**
   * `generate_compile_cmd` on a configuration: None when the sources
   * directory cannot be walked (the iterator throws).
   */
  function CompileCommand(fs: Fs, cfg: Config, order: seq<string>, exeSuffix: string): (r: Option<string>)
    requires forall k :: k in order ==> k in cfg.dependencies
    ensures r.None? <==> !IsDirectory(fs, PathOf(cfg.sources))
  {
    match Walk(fs, PathOf(cfg.sources))
      case None => None
      case Some(walk) =>
        Some(Assemble(cfg, Matching(fs, walk, "." + cfg.language), IncludeDirs(fs, cfg, order), exeSuffix))
  }

  /** `cmd << flag << x` for each element. */
  method AppendFlags(out: string, flag: string, xs: seq<string>) returns (out': string)
    ensures out' == out + Flags(flag, xs)
  {
    out' := out;
    for i := 0 to |xs|
      invariant out' == out + Flags(flag, xs[..i])
    {
      assert xs[..i + 1][..i] == xs[..i];
      out' := out' + flag + xs[i];
    }
    assert xs[..|xs|] == xs;
  }

  /** The source files of the walk, each as " " and its path. */
  method AppendSources(out: string, fs: Fs, walk: seq<Path>, ext: string) returns (out': string)
    ensures out' == out + Flags(" ", PathTexts(Matching(fs, walk, ext)))
  {
    out' := out;
    for i := 0 to |walk|
      invariant out' == out + Flags(" ", PathTexts(Matching(fs, walk[..i], ext)))
    {
      var p := walk[i];
      SourcesStep(fs, walk, ext, i);
      ghost var before := Flags(" ", PathTexts(Matching(fs, walk[..i], ext)));
      if IsRegular(fs, p) && Extension(p) == ext {
        Associate3(out, before, " ", PathText(p));
        out' := out' + " " + PathText(p);
      }
    }
    assert walk[..|walk|] == walk;
  }

  /** One more walk entry adds its " path" when it is selected, and nothing otherwise. */
  lemma SourcesStep(fs: Fs, walk: seq<Path>, ext: string, i: nat)
    requires i < |walk|
    ensures var p := walk[i];
      var now := Flags(" ", PathTexts(Matching(fs, walk[..i + 1], ext)));
      var before := Flags(" ", PathTexts(Matching(fs, walk[..i], ext)));
      now == if IsRegular(fs, p) && Extension(p) == ext then before + " " + PathText(p) else before
  {
    var p := walk[i];
    var m := Matching(fs, walk[..i], ext);
    assert walk[..i + 1][..i] == walk[..i];
    assert walk[..i + 1][i] == p;
    if IsRegular(fs, p) && Extension(p) == ext {
      assert Matching(fs, walk[..i + 1], ext) == m + [p];
      SnocTexts(m, p);
    }
  }

  lemma SnocTexts(m: seq<Path>, p: Path)
    ensures Flags(" ", PathTexts(m + [p])) == Flags(" ", PathTexts(m)) + " " + PathText(p)
  {
    assert (m + [p])[..|m|] == m;
    var texts := PathTexts(m);
    assert PathTexts(m + [p]) == texts + [PathText(p)];
    assert (texts + [PathText(p)])[..|texts|] == texts;
  }

  /** The include directories of the path dependencies, collected in `order`. */
  method CollectPathDependencyIncludes(fs: Fs, cfg: Config, order: seq<string>) returns (dirs: seq<string>)
    requires forall k :: k in order ==> k in cfg.dependencies
    ensures dirs == PathDependencyIncludes(fs, InOrder(cfg, order))
  {
    dirs := [];
    ghost var deps := InOrder(cfg, order);
    for i := 0 to |order|
      invariant dirs == PathDependencyIncludes(fs, deps[..i])
    {
      var dep := cfg.dependencies[order[i]];
      assert deps[..i + 1][..i] == deps[..i];
      assert deps[..i + 1][i] == dep;
      assert PathDependencyIncludes(fs, deps[..i + 1]) == dirs + DependencyIncludes(fs, dep);
      if dep.path != "" {
        dirs := FindIncludeDirs(fs, PathOf(dep.path), dirs);
      } else {
        assert dirs + [] == dirs;
      }
    }
    assert deps[..|order|] == deps;
  }

  /**
   * `generate_compile_cmd()`: the configuration is passed in, the map's
   * iteration order is `order`, and `exeSuffix` is ".exe" on Windows and ""
   * elsewhere.
   */
  method GenerateCompileCmd(fs: Fs, cfg: Config, order: seq<string>, exeSuffix: string) returns (cmd: Option<string>)
    requires forall k :: k in order ==> k in cfg.dependencies
    ensures cmd == CompileCommand(fs, cfg, order, exeSuffix)
  {
    var walk := Walk(fs, PathOf(cfg.sources));
    if walk.None? {
      return None;
    }
    var out := cfg.compiler + " -std=" + cfg.standard;
    out := AppendSources(out, fs, walk.value, "." + cfg.language);
    var outputPath := OutputPath(cfg, exeSuffix);
    out := out + " -o " + outputPath;
    out := out + " -I" + cfg.includeDir;
    var includeDirs := CollectPathDependencyIncludes(fs, cfg, order);
    includeDirs := FindIncludeDirs(fs, PathOf(".zyn/deps"), includeDirs);
    includeDirs := FindIncludeDirs(fs, PathOf(".zyn/build"), includeDirs);
    out := AppendFlags(out, " -I", includeDirs);
    out := AppendFlags(out, " -L", cfg.libDirs);
    out := AppendFlags(out, " -l", cfg.libraries);
    cmd := Some(out);
  }

  // ---------------------------------------------------------------------
  // Layout of the command

  /** The command begins with the compiler and its `-std=` flag. */
  lemma CommandBegins(cfg: Config, sources: seq<Path>, includeDirs: seq<string>, exeSuffix: string)
    ensures cfg.compiler + " -std=" + cfg.standard <= Assemble(cfg, sources, includeDirs, exeSuffix)
  {
    var head := cfg.compiler + " -std=" + cfg.standard;
    var s1 := Flags(" ", PathTexts(sources));
    var s2 := " -o " + OutputPath(cfg, exeSuffix);
    var s3 := " -I" + cfg.includeDir;
    var s4 := Flags(" -I", includeDirs);
    var s5 := Flags(" -L", cfg.libDirs);
    var s6 := Flags(" -l", cfg.libraries);
    Associate(head, s1, s2, s3, s4, s5, s6);
  }

  /** The command ends with one `-L` flag per library directory, then one `-l` flag per library. */
  lemma CommandEnds(cfg: Config, sources: seq<Path>, includeDirs: seq<string>, exeSuffix: string)
    ensures var c := Assemble(cfg, sources, includeDirs, exeSuffix);
      var tail := Flags(" -L", cfg.libDirs) + Flags(" -l", cfg.libraries);
      |tail| <= |c| && c[|c| - |tail|..] == tail
  {
    var c := Assemble(cfg, sources, includeDirs, exeSuffix);
    var front := cfg.compiler + " -std=" + cfg.standard
      + Flags(" ", PathTexts(sources))
      + " -o " + OutputPath(cfg, exeSuffix)
      + " -I" + cfg.includeDir
      + Flags(" -I", includeDirs);
    var tail := Flags(" -L", cfg.libDirs) + Flags(" -l", cfg.libraries);
    assert c == front + tail;
    assert c[|front|..] == tail;
  }

  /**
   * After the compiler, its `-std=` flag and the sources come the output
   * path behind ` -o `, the project's include directory behind ` -I`, and
   * one ` -I` flag per collected include directory.
   */
  lemma CommandMiddle(cfg: Config, sources: seq<Path>, includeDirs: seq<string>, exeSuffix: string)
    ensures var c := Assemble(cfg, sources, includeDirs, exeSuffix);
      var front := cfg.compiler + " -std=" + cfg.standard + Flags(" ", PathTexts(sources));
      var middle := " -o " + OutputPath(cfg, exeSuffix) + " -I" + cfg.includeDir + Flags(" -I", includeDirs);
      |front| + |middle| <= |c| && c[|front|..|front| + |middle|] == middle
  {
    var c := Assemble(cfg, sources, includeDirs, exeSuffix);
    var front := cfg.compiler + " -std=" + cfg.standard + Flags(" ", PathTexts(sources));
    var middle := " -o " + OutputPath(cfg, exeSuffix) + " -I" + cfg.includeDir + Flags(" -I", includeDirs);
    var out := OutputPath(cfg, exeSuffix);
    var includes := Flags(" -I", includeDirs);
    var libDirs := Flags(" -L", cfg.libDirs);
    var libs := Flags(" -l", cfg.libraries);
    Regroup(front, " -o ", out, " -I", cfg.includeDir, includes, libDirs, libs);
    Parts(front, middle, libDirs + libs);
  }

  /**
   * The include directories of path dependencies come first, in the map's
   * iteration order `order`, and those under `.zyn/build` come last.
   */
  lemma IncludeOrder(fs: Fs, cfg: Config, order: seq<string>)
    requires forall k :: k in order ==> k in cfg.dependencies
    ensures var dirs := IncludeDirs(fs, cfg, order);
      var first := PathDependencyIncludes(fs, InOrder(cfg, order));
      var last := PathTexts(IncludeEntries(fs, PathOf(".zyn/build")));
      && first <= dirs
      && |last| <= |dirs| && dirs[|dirs| - |last|..] == last
  {
    var dirs := IncludeDirs(fs, cfg, order);
    var first := PathDependencyIncludes(fs, InOrder(cfg, order));
    var deps := PathTexts(IncludeEntries(fs, PathOf(".zyn/deps")));
    var last := PathTexts(IncludeEntries(fs, PathOf(".zyn/build")));
    Parts(first, deps, last);
  }

  /** Where the three parts of a concatenation sit in it. */
  lemma Parts<T>(a: seq<T>, b: seq<T>, c: seq<T>)
    ensures a <= a + b + c
    ensures (a + b + c)[|a|..|a| + |b|] == b
    ensures (a + b + c)[|a + b + c| - |c|..] == c
  {
    assert (a + b + c)[..|a|] == a;
  }

  /** Regrouping the eight parts of a command into three. */
  lemma Regroup(a: string, b: string, c: string, d: string, e: string, f: string, g: string, h: string)
    ensures a + b + c + d + e + f + g + h == a + (b + c + d + e + f) + (g + h)
  {
  }

  lemma Associate3(a: string, b: string, c: string, d: string)
    ensures a + b + c + d == a + (b + c + d)
  {
  }

  /** Regrouping a left-nested concatenation behind its first part. */
  lemma Associate(a: string, b: string, c: string, d: string, e: string, f: string, g: string)
    ensures a + b + c + d + e + f + g == a + (b + c + d + e + f + g)
  {
  }
}
