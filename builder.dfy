/**
 * The build driver for `dependencies/`-style projects: dependency names
 * from URLs, cloning, build-backend detection, the per-dependency task and
 * the `[dependencies]` editor of the configuration file.
 *
 * Shell commands are values of `Command`; their exit statuses come from an
 * oracle `run`. Which marker files a checkout holds is an input.
 */
module Builder {
  import opened Wrappers
  import opened Text

  // ---------------------------------------------------------------------
  // extract_name

  predicate IsAlnum(c: char) {
    ('a' <= c <= 'z') || ('A' <= c <= 'Z') || ('0' <= c <= '9')
  }

  /** The characters a dependency name keeps. */
  predicate NameChar(c: char) {
    IsAlnum(c) || c == '_' || c == '-'
  }

  predicate IsSeparator(c: char) {
    c == '/' || c == ':'
  }

  /** The name without a ".git" suffix, which is removed only from names longer than four characters. */
  function StripGit(s: string): (r: string)
    ensures r <= s
    ensures |s| > 4 && s[|s| - 4..] == ".git" ==> |r| == |s| - 4
    ensures !(|s| > 4 && s[|s| - 4..] == ".git") ==> r == s
  {
    if |s| > 4 && s[|s| - 4..] == ".git" then s[..|s| - 4] else s
  }

  /** The text after the last '/' or ':' (`find_last_of("/:")`), or all of it when there is none. */
  function AfterLastSeparator(s: string): (r: string)
    ensures |r| <= |s| && r == s[|s| - |r|..]
    ensures forall k :: 0 <= k < |r| ==> !IsSeparator(r[k])
    ensures |r| < |s| ==> IsSeparator(s[|s| - |r| - 1])
  {
    if s == [] then []
    else if IsSeparator(s[|s| - 1]) then []
    else AfterLastSeparator(s[..|s| - 1]) + [s[|s| - 1]]
  }

  /** The characters of `s` that `NameChar` keeps, in order (the erase/remove_if idiom). */
  function KeepNameChars(s: string): (r: string)
    ensures |r| <= |s|
    ensures forall k :: 0 <= k < |r| ==> NameChar(r[k])
    ensures (forall k :: 0 <= k < |s| ==> NameChar(s[k])) ==> r == s
  {
    if s == [] then []
    else KeepNameChars(s[..|s| - 1]) + (if NameChar(s[|s| - 1]) then [s[|s| - 1]] else [])
  }

  /** The name `extract_name(url)` gives a dependency URL. */
  function NameOf(url: string): (name: string)
    ensures name != ""
    ensures forall k :: 0 <= k < |name| ==> NameChar(name[k])
  {
    var kept := KeepNameChars(AfterLastSeparator(StripGit(SplitAt(url, '@').0)));
    if kept == "" then UnknownName() else kept
  }

  /** The fallback name. */
  function UnknownName(): (r: string)
    ensures r != "" && forall k :: 0 <= k < |r| ==> NameChar(r[k])
  {
    var r := "unknown";
    assert r[0] == 'u' && r[1] == 'n' && r[2] == 'k' && r[3] == 'n' && r[4] == 'o' && r[5] == 'w' && r[6] == 'n';
    r
  }

  /**
   * `extract_name(url)`: drop the ref, strip ".git", keep what follows the
   * last '/' or ':', erase every character that is not alphanumeric, '_'
   * or '-', and fall back to "unknown".
   */
  method ExtractName(url: string) returns (name: string)
    ensures name == NameOf(url)
    ensures name != "" && forall k :: 0 <= k < |name| ==> NameChar(name[k])
  {
    var clean := StripGit(SplitAt(url, '@').0);
    var tail := CutAfterLastSeparator(clean);
    var kept := EraseNonNameChars(tail);
    name := if kept == "" then UnknownName() else kept;
  }

  /** The `find_last_of("/:")` and `substr` step of `extract_name`. */
  method CutAfterLastSeparator(s: string) returns (tail: string)
    ensures tail == AfterLastSeparator(s)
  {
    var i := |s|;
    while i > 0 && !IsSeparator(s[i - 1])
      invariant 0 <= i <= |s|
      invariant forall k :: i <= k < |s| ==> !IsSeparator(s[k])
    {
      i := i - 1;
    }
    tail := s[i..];
    if i > 0 {
      assert s == s[..i] + tail;
      AfterSeparatorIs(s[..i], tail);
    } else {
      assert |AfterLastSeparator(s)| == |s|;
    }
  }

  /** The `erase(remove_if(...))` step of `extract_name`. */
  method EraseNonNameChars(s: string) returns (kept: string)
    ensures kept == KeepNameChars(s)
  {
    kept := "";
    for j := 0 to |s|
      invariant kept == KeepNameChars(s[..j])
    {
      assert s[..j + 1][..j] == s[..j];
      if NameChar(s[j]) {
        kept := kept + [s[j]];
      }
    }
    assert s[..|s|] == s;
  }

  /** What follows a separator and holds none is the text after the last separator. */
  lemma {:induction false} AfterSeparatorIs(pre: string, t: string)
    requires pre != [] && IsSeparator(pre[|pre| - 1])
    requires forall k :: 0 <= k < |t| ==> !IsSeparator(t[k])
    ensures AfterLastSeparator(pre + t) == t
  {
    if t != [] {
      var init := t[..|t| - 1];
      assert (pre + t)[..|pre + t| - 1] == pre + init;
      AfterSeparatorIs(pre, init);
    }
  }

  /** `extract_name` applied to its own result changes nothing. */
  lemma NameOfIdempotent(url: string)
    ensures NameOf(NameOf(url)) == NameOf(url)
  {
    NameOfValidName(NameOf(url));
  }

  /** A non-empty string of name characters is its own name. */
  lemma NameOfValidName(n: string)
    requires n != "" && forall k :: 0 <= k < |n| ==> NameChar(n[k])
    ensures NameOf(n) == n
  {
    assert forall k :: 0 <= k < |n| ==> n[k] != '@' && n[k] != '.' && !IsSeparator(n[k]);
    assert SplitAt(n, '@').0 == n by {
      assert '@' !in n;
    }
    assert StripGit(n) == n by {
      assert |n| > 4 ==> n[|n| - 4..][0] != '.';
    }
    assert AfterLastSeparator(n) == n by {
      assert |AfterLastSeparator(n)| == |n|;
    }
    assert KeepNameChars(n) == n;
  }

  /**
   * A URL `<host>/<repo>[.git]@<ref>` whose repository part is a valid,
   * non-empty name is named after that part.
   */
  lemma NameOfRepositoryUrl(host: string, repo: string, suffix: string, ref: string)
    requires '@' !in host
    requires repo != "" && forall k :: 0 <= k < |repo| ==> NameChar(repo[k])
    requires suffix == ".git" || suffix == ""
    ensures NameOf(host + "/" + repo + suffix + "@" + ref) == repo
  {
    var stem := host + "/" + repo;
    var clean := stem + suffix;
    assert forall k :: 0 <= k < |repo| ==> repo[k] != '@' && repo[k] != '.';
    assert '@' !in clean;
    assert host + "/" + repo + suffix + "@" + ref == clean + ['@'] + ref;
    SplitAtFirst(clean, '@', ref);
    assert SplitAt(host + "/" + repo + suffix + "@" + ref, '@').0 == clean;
    StemKeepsName(host, repo, suffix);
    AfterSeparatorIs(host + "/", repo);
    assert AfterLastSeparator(StripGit(clean)) == repo;
  }

  /** Stripping ".git" from `<host>/<repo><suffix>` leaves `<host>/<repo>`. */
  lemma StemKeepsName(host: string, repo: string, suffix: string)
    requires repo != "" && forall k :: 0 <= k < |repo| ==> NameChar(repo[k])
    requires suffix == ".git" || suffix == ""
    ensures StripGit(host + "/" + repo + suffix) == host + "/" + repo
  {
    var stem := host + "/" + repo;
    var clean := stem + suffix;
    assert !(|stem| > 4 && stem[|stem| - 4..] == ".git") by {
      if |stem| > 4 {
        if |repo| >= 4 {
          assert stem[|stem| - 4..][0] == repo[|repo| - 4];
          assert NameChar(repo[|repo| - 4]);
        } else {
          assert stem[|stem| - 4..][3 - |repo|] == '/';
        }
      }
    }
    if suffix == ".git" {
      assert clean[|clean| - 4..] == ".git";
      assert clean[..|clean| - 4] == stem;
    } else {
      assert clean == stem;
    }
  }

  // ---------------------------------------------------------------------
  // Commands and the build backends

  /** The shell commands the builder runs (`std::system`), one per call. */
  datatype Command =
    | GitClone(url: string, target: string)       // git clone <url> <target>
    | GitCheckout(target: string, ref: string)    // cd <target> && git checkout <ref>
    | CmakeConfigure(repo: string)                // cmake -S <repo> -B <repo>/build -DCMAKE_INSTALL_PREFIX=<repo>/build
    | CmakeInstall(repo: string)                  // cmake --build <repo>/build --target install
    | RunMake(repo: string)                       // cd <repo> && make
    | RunAutotools(repo: string)                  // cd <repo> && ./configure && make && make install
    | NinjaConfigure(repo: string)                // cmake -S <repo> -B <repo>/build -G Ninja
    | RunNinja(repo: string)                      // ninja -C <repo>/build

  /** Which commands ran, and whether the step as a whole reported success. */
  datatype Steps = Steps(ok: bool, ran: seq<Command>)

  /**
   * Running commands one after the other, stopping at the first non-zero
   * exit status: success exactly when every command exits 0.
   */
  function RunInOrder(cmds: seq<Command>, run: Command -> int): (r: Steps)
    ensures r.ok <==> forall i :: 0 <= i < |cmds| ==> run(cmds[i]) == 0
    ensures r.ran <= cmds
    ensures r.ok ==> r.ran == cmds
    ensures !r.ok ==> r.ran != [] && run(r.ran[|r.ran| - 1]) != 0
    ensures forall i :: 0 <= i < |r.ran| - 1 ==> run(r.ran[i]) == 0
  {
    if cmds == [] then Steps(true, [])
    else if run(cmds[0]) != 0 then Steps(false, [cmds[0]])
    else
      var rest := RunInOrder(cmds[1..], run);
      Steps(rest.ok, [cmds[0]] + rest.ran)
  }

  datatype Backend = Ninja | CMake | Autotools | Make

  /** The commands each `build_with_*` issues, in order. */
  function BackendCommands(b: Backend, repo: string): (cmds: seq<Command>)
    ensures |cmds| == (if b == Ninja || b == CMake then 2 else 1)
  {
    match b
      case Ninja => [NinjaConfigure(repo), RunNinja(repo)]
      case CMake => [CmakeConfigure(repo), CmakeInstall(repo)]
      case Autotools => [RunAutotools(repo)]
      case Make => [RunMake(repo)]
  }

  /**
   * `build_with_ninja`, `build_with_cmake`, `build_with_autotools`,
   * `build_with_make`: a two-step backend builds only after configuring
   * succeeded, and reports success exactly when both steps exit 0.
   */
  function BuildWith(b: Backend, repo: string, run: Command -> int): (r: Steps)
    ensures var cmds := BackendCommands(b, repo);
      && (r.ok <==> forall i :: 0 <= i < |cmds| ==> run(cmds[i]) == 0)
      && (|cmds| == 2 ==> r.ran == if run(cmds[0]) == 0 then cmds else [cmds[0]])
      && (|cmds| == 1 ==> r.ran == cmds)
  {
    var cmds := BackendCommands(b, repo);
    var r := RunInOrder(cmds, run);
    assert |cmds| == 2 && run(cmds[0]) != 0 ==> r.ran == [cmds[0]];
    r
  }

  /** The marker files `detect_and_build` looks for, by backend. */
  function Detect(present: set<string>): (b: Option<Backend>)
    ensures b == Some(Ninja) <==> "build.ninja" in present
    ensures b == Some(CMake) <==> "build.ninja" !in present && "CMakeLists.txt" in present
    ensures b == Some(Autotools) <==> "build.ninja" !in present && "CMakeLists.txt" !in present && "configure" in present
    ensures b == Some(Make) <==>
      "build.ninja" !in present && "CMakeLists.txt" !in present && "configure" !in present
      && ("Makefile" in present || "makefile" in present)
    ensures b.None? <==>
      "build.ninja" !in present && "CMakeLists.txt" !in present && "configure" !in present
      && "Makefile" !in present && "makefile" !in present
  {
    if "build.ninja" in present then Some(Ninja)
    else if "CMakeLists.txt" in present then Some(CMake)
    else if "configure" in present then Some(Autotools)
    else if "Makefile" in present || "makefile" in present then Some(Make)
    else None
  }

  /**
   * `detect_and_build(repo)`: exactly one backend, chosen by the first
   * marker present in priority order, runs; with no marker nothing runs
   * and the result is false.
   */
  function DetectAndBuild(repo: string, present: set<string>, run: Command -> int): (r: Steps)
    ensures Detect(present).None? ==> r == Steps(false, [])
    ensures Detect(present).Some? ==> r == BuildWith(Detect(present).value, repo, run)
    ensures r.ran <= BackendCommands(if Detect(present).Some? then Detect(present).value else Make, repo)
  {
    match Detect(present)
      case None => Steps(false, [])
      case Some(b) => BuildWith(b, repo, run)
  }

  // ---------------------------------------------------------------------
  // clone_dependency and the per-dependency task

  /**
   * `clone_dependency(full_url, target)`: nothing to do when the target
   * exists; otherwise clone the URL without its ref and, when there is a
   * ref and the clone succeeded, check it out.
   */
  function CloneDependency(targetExists: bool, fullUrl: string, target: string, run: Command -> int): (r: Steps)
    ensures var (url, ref) := SplitAt(fullUrl, '@');
      var clone := GitClone(url, target);
      var checkout := GitCheckout(target, ref);
      && (targetExists ==> r == Steps(true, []))
      && (!targetExists ==> r.ran == [clone] + (if ref != "" && run(clone) == 0 then [checkout] else []))
      && (r.ok <==> targetExists || (run(clone) == 0 && (ref == "" || run(checkout) == 0)))
  {
    if targetExists then Steps(true, [])
    else
      var (url, ref) := SplitAt(fullUrl, '@');
      var clone := GitClone(url, target);
      if run(clone) != 0 then Steps(false, [clone])
      else if ref == "" then Steps(true, [clone])
      else
        var checkout := GitCheckout(target, ref);
        Steps(run(checkout) == 0, [clone, checkout])
  }

  /** How one dependency task of `process_dependencies` ends. */
  datatype TaskOutcome = Built | CloneAborted | BuildFailureReported

  datatype Task = Task(outcome: TaskOutcome, ran: seq<Command>)

  /** The directory a dependency is cloned into. */
  function LibPath(dep: string): string {
    "dependencies/" + NameOf(dep)
  }

  /**
   * One task of `process_dependencies(deps)`: clone into
   * `dependencies/<name>` unless that exists (a failed clone ends the task
   * silently), then detect and build; a failed or impossible build is
   * reported as a build failure.
   */
  function ProcessDependency(dep: string, libExists: bool, present: set<string>, run: Command -> int): (t: Task)
    ensures var c := CloneDependency(libExists, dep, LibPath(dep), run);
      var d := DetectAndBuild(LibPath(dep), present, run);
      && (t.outcome == CloneAborted <==> !c.ok)
      && (t.outcome == Built <==> c.ok && d.ok)
      && (c.ok ==> t.ran == c.ran + d.ran)
      && (!c.ok ==> t.ran == c.ran)
    ensures libExists ==> t.ran == DetectAndBuild(LibPath(dep), present, run).ran
    ensures Detect(present).None? ==> t.outcome != Built && t.ran == CloneDependency(libExists, dep, LibPath(dep), run).ran
  {
    var path := LibPath(dep);
    var c := if libExists then Steps(true, []) else CloneDependency(false, dep, path, run);
    if !c.ok then Task(CloneAborted, c.ran)
    else
      var d := DetectAndBuild(path, present, run);
      Task(if d.ok then Built else BuildFailureReported, c.ran + d.ran)
  }

  // ---------------------------------------------------------------------
  // add_dependencies

  const Marker := "[dependencies]"

  /** The text inserted for a list of dependencies: each one on a line of its own, after a newline. */
  function Entries(deps: seq<string>): string {
    if deps == [] then ""
    else
      var init := deps[..|deps| - 1];
      Entries(init) + "\n" + deps[|deps| - 1]
  }

  /** Entries of a concatenation are the concatenated entries. */
  lemma {:induction false} EntriesAppend(a: seq<string>, b: seq<string>)
    ensures Entries(a + b) == Entries(a) + Entries(b)
    decreases |b|
  {
    if b == [] {
      assert a + b == a;
    } else {
      var init := b[..|b| - 1];
      var x := b[|b| - 1];
      assert (a + b)[..|a + b| - 1] == a + init;
      assert (a + b)[|a + b| - 1] == x;
      assert Entries(a + b) == Entries(a + init) + "\n" + x;
      EntriesAppend(a, init);
      assert Entries(b) == Entries(init) + "\n" + x;
      assert Entries(a) + Entries(init) + "\n" + x == Entries(a) + (Entries(init) + "\n" + x);
    }
  }

  /**
   * The configuration text after `add_dependencies`: the entries right
   * after the first "[dependencies]", or a new section at the end.
   */
  function WithDependencies(content: string, deps: seq<string>): string {
    match Find(content, Marker)
      case Some(p) => content[..p + |Marker|] + Entries(deps) + content[p + |Marker|..]
      case None => content + "\n" + Marker + "\n" + Entries(deps)
  }

  /**
   * `add_dependencies(deps, config_file)`: find the insertion point after
   * the first "[dependencies]", or append the section; then insert the
   * entries there. An unreadable file is left alone.
   */
  method AddDependencies(file: Option<string>, deps: seq<string>) returns (written: Option<string>)
    ensures file.None? ==> written.None?
    ensures file.Some? ==> written == Some(WithDependencies(file.value, deps))
  {
    if file.None? {
      return None;
    }
    var content := file.value;
    var found := Find(content, Marker);
    var pos: nat;
    if found.None? {
      content := content + "\n" + Marker + "\n";
      pos := |content|;
    } else {
      pos := found.value + |Marker|;
    }
    var result := InsertEntries(content, pos, deps);
    assert content[..pos] + Entries(deps) + content[pos..] == WithDependencies(file.value, deps) by {
      if found.None? {
        assert content[..pos] == content && content[pos..] == [];
      }
    }
    return Some(result);
  }

  /** The insertion loop: each dependency goes in as "\n" + dep, and the insertion point moves past it. */
  method InsertEntries(content: string, pos: nat, deps: seq<string>) returns (result: string)
    requires pos <= |content|
    ensures result == content[..pos] + Entries(deps) + content[pos..]
  {
    ghost var before, after := content[..pos], content[pos..];
    result := content;
    var at := pos;
    for i := 0 to |deps|
      invariant at == |before| + |Entries(deps[..i])|
      invariant result == before + Entries(deps[..i]) + after
    {
      assert deps[..i + 1][..i] == deps[..i];
      ghost var done := Entries(deps[..i]);
      assert result[..at] == before + done;
      assert result[at..] == after;
      result := result[..at] + "\n" + deps[i] + result[at..];
      at := at + |deps[i]| + 1;
    }
    assert deps[..|deps|] == deps;
  }

  /** A first occurrence is what `Find` reports. */
  lemma FindIs(s: string, pat: string, p: nat)
    requires OccursAt(s, pat, p)
    requires forall j :: 0 <= j < p ==> !OccursAt(s, pat, j)
    ensures Find(s, pat) == Some(p)
  {
  }

  /** Inserting after the first marker leaves that marker the first one. */
  lemma MarkerStaysFirst(content: string, deps: seq<string>)
    requires Find(content, Marker).Some?
    ensures Find(WithDependencies(content, deps), Marker) == Find(content, Marker)
  {
    var p := Find(content, Marker).value;
    var q := p + |Marker|;
    var r := WithDependencies(content, deps);
    InsertedAfterMarker(content, deps, p);
    assert r[..q] == content[..q];
    forall k | 0 <= k < q
      ensures r[k] == content[k]
    {
      assert r[k] == r[..q][k];
    }
    forall j | 0 <= j <= p
      ensures OccursAt(r, Marker, j) <==> OccursAt(content, Marker, j)
    {
      assert r[j..j + |Marker|] == content[j..j + |Marker|];
    }
    FindIs(r, Marker, p);
  }

  /** With the section present, the entries go right after its first marker. */
  lemma InsertedAfterMarker(content: string, deps: seq<string>, p: nat)
    requires Find(content, Marker) == Some(p)
    ensures p + |Marker| <= |content|
    ensures WithDependencies(content, deps) == content[..p + |Marker|] + Entries(deps) + content[p + |Marker|..]
  {
  }

  /**
   * Adding twice to a file that has the section: the second batch lands
   * before the first, each in its own order, and nothing else moves.
   */
  lemma AddTwice(content: string, first: seq<string>, second: seq<string>)
    requires Find(content, Marker).Some?
    ensures WithDependencies(WithDependencies(content, first), second) == WithDependencies(content, second + first)
  {
    var p := Find(content, Marker).value;
    var q := p + |Marker|;
    var once := WithDependencies(content, first);
    InsertedAfterMarker(content, first, p);
    MarkerStaysFirst(content, first);
    InsertedAfterMarker(once, second, p);
    InsertedAfterMarker(content, second + first, p);
    EntriesAppend(second, first);
    SpliceTwice(content[..q], content[q..], Entries(first), Entries(second));
  }

  /** Splicing `e1` and then `e2` at the same point is splicing `e2 + e1` once. */
  lemma SpliceTwice(head: string, tail: string, e1: string, e2: string)
    ensures (head + e1 + tail)[..|head|] + e2 + (head + e1 + tail)[|head|..] == head + (e2 + e1) + tail
  {
    assert (head + e1 + tail)[..|head|] == head;
    assert (head + e1 + tail)[|head|..] == e1 + tail;
  }

  /** Adding to a file without the section creates it, and it is then found where it was appended. */
  lemma NewSectionFound(content: string, deps: seq<string>)
    requires Find(content, Marker).None?
    ensures Find(WithDependencies(content, deps), Marker) == Some(|content| + 1)
  {
    var r := WithDependencies(content, deps);
    assert r == content + "\n" + Marker + "\n" + Entries(deps);
    assert r == content + "\n" + Marker + ("\n" + Entries(deps));
    FirstAfter(content, "\n" + Entries(deps));
  }

  /** A marker appended after a newline to text without one is the first. */
  lemma FirstAfter(content: string, rest: string)
    requires Find(content, Marker).None?
    ensures Find(content + "\n" + Marker + rest, Marker) == Some(|content| + 1)
  {
    var head := content + "\n";
    var r := head + Marker + rest;
    var p := |head|;
    assert r[p..p + |Marker|] == Marker;
    forall k | 0 <= k < |content|
      ensures r[k] == content[k]
    {
      assert r[k] == head[k];
    }
    assert r[|content|] == '\n';
    forall j | 0 <= j < p
      ensures !OccursAt(r, Marker, j)
    {
      if j + |Marker| <= |content| {
        assert !OccursAt(content, Marker, j);
        assert r[j..j + |Marker|] == content[j..j + |Marker|];
      } else if j + |Marker| <= |r| {
        assert r[j..j + |Marker|][|content| - j] == '\n';
      }
    }
    FindIs(r, Marker, p);
  }
}
