/**
 * The git dependency pipeline of `dependency_manager`: the content digest
 * of a checkout, revision resolution, the install and update decision
 * machines, and the name/tag derivation of `zyn install <url>`.
 *
 * Every external effect is an input: the answers of git and cmake for one
 * dependency are the fields of a `Remote`, the checked-out tree is a
 * filesystem snapshot, and SHA-256 is a function parameter.
 */
module GitDependency {
  import opened Wrappers
  import opened Text
  import opened Hex
  import opened FileSystem
  import opened LockFile
  import opened Project

  // ---------------------------------------------------------------------
  // hash_directory

  /** A file `hash_directory` feeds: a regular file that `IsTracked` names. */
  predicate Digested(fs: Fs, p: Path) {
    IsRegular(fs, p) && IsTracked(p)
  }

  /** The regular `.cpp`/`.h`/`CMakeLists.txt` files of a walk, in walk order. */
  function Selected(fs: Fs, walk: seq<Path>): (r: seq<Path>)
    ensures forall p :: p in r <==> p in walk && Digested(fs, p)
  {
    if walk == [] then []
    else
      var p := walk[|walk| - 1];
      var init := walk[..|walk| - 1];
      assert walk == init + [p];
      Selected(fs, init) + (if Digested(fs, p) then [p] else [])
  }

  /** The bytes fed to the digest: the files' contents concatenated in the given order. */
  function Feed(fs: Fs, files: seq<Path>): seq<byte> {
    if files == [] then []
    else Feed(fs, files[..|files| - 1]) + ContentsOf(fs, files[|files| - 1])
  }

  /** The bytes `hash_directory` feeds for a walk: the digested files' contents, sorted by path. */
  function DigestInput(fs: Fs, walk: seq<Path>): seq<byte> {
    Feed(fs, SortPaths(Selected(fs, walk)))
  }

  /** The digest `hash_directory(dir)` returns; None when the walk throws. */
  function DirectoryDigest(fs: Fs, dir: Path, sha: Sha256): Option<string> {
    match Walk(fs, dir)
      case None => None
      case Some(walk) => Some(Hex.Hex(sha(DigestInput(fs, walk))))
  }

  /**
   * `hash_directory(dir)`: collects the digested files of the walk, sorts
   * them by path and feeds their contents, in that order, to one SHA-256
   * context; the 32-byte result is rendered with `hex_string`.
   */
  method HashDirectory(fs: Fs, dir: Path, sha: Sha256) returns (r: Option<string>)
    ensures r == DirectoryDigest(fs, dir, sha)
    ensures r.Some? ==> |r.value| == 64 && forall i :: 0 <= i < 64 ==> IsHexDigit(r.value[i])
  {
    var walk := Walk(fs, dir);
    if walk.None? {
      return None;
    }
    var entries := walk.value;
    var files: seq<Path> := [];
    for i := 0 to |entries|
      invariant files == Selected(fs, entries[..i])
    {
      assert entries[..i + 1][..i] == entries[..i];
      var p := entries[i];
      if IsRegular(fs, p) && IsTracked(p) {
        files := files + [p];
      }
    }
    assert entries[..|entries|] == entries;
    files := SortPaths(files);
    var fed: seq<byte> := [];
    for i := 0 to |files|
      invariant fed == Feed(fs, files[..i])
    {
      assert files[..i + 1][..i] == files[..i];
      fed := fed + ContentsOf(fs, files[i]);
    }
    assert files[..|files|] == files;
    var hex := HexString(sha(fed));
    return Some(hex);
  }

  /** How many times a path occurs in the selection: as often as in the walk, if it is digested at all. */
  lemma {:induction false} SelectedCount(fs: Fs, walk: seq<Path>, p: Path)
    ensures multiset(Selected(fs, walk))[p] == if Digested(fs, p) then multiset(walk)[p] else 0
  {
    if walk != [] {
      var x := walk[|walk| - 1];
      var init := walk[..|walk| - 1];
      assert walk == init + [x];
      SelectedCount(fs, init, p);
    }
  }

  /**
   * The digest does not depend on the order in which the directory walk
   * lists the files: two walks listing the same paths (with the same
   * multiplicities) over the same nodes give the same digest.
   */
  lemma DigestIgnoresWalkOrder(fs1: Fs, fs2: Fs, dir: Path, sha: Sha256)
    requires fs1.nodes == fs2.nodes
    requires Walk(fs1, dir).Some? ==> multiset(Walk(fs1, dir).value) == multiset(Walk(fs2, dir).value)
    ensures DirectoryDigest(fs1, dir, sha) == DirectoryDigest(fs2, dir, sha)
  {
    if Walk(fs1, dir).Some? {
      var w1, w2 := Walk(fs1, dir).value, Walk(fs2, dir).value;
      var s1, s2 := Selected(fs1, w1), Selected(fs2, w2);
      forall p
        ensures multiset(s1)[p] == multiset(s2)[p]
      {
        SelectedCount(fs1, w1, p);
        SelectedCount(fs2, w2, p);
      }
      assert multiset(s1) == multiset(s2);
      SortedUnique(SortPaths(s1), SortPaths(s2));
      FeedSameNodes(fs1, fs2, SortPaths(s1));
    }
  }

  lemma {:induction false} FeedSameNodes(fs1: Fs, fs2: Fs, files: seq<Path>)
    requires fs1.nodes == fs2.nodes
    ensures Feed(fs1, files) == Feed(fs2, files)
  {
    if files != [] {
      FeedSameNodes(fs1, fs2, files[..|files| - 1]);
    }
  }

  /** Byte `k` of regular file `p` can be overwritten: the file is readable and that long. */
  predicate CanOverwrite(fs: Fs, p: Path, k: nat) {
    IsRegular(fs, p) && fs.nodes[p].data.Some? && k < |fs.nodes[p].data.value|
  }

  /** The snapshot after byte `k` of file `p` is overwritten with `b` at time `t`; nothing else changes. */
  function Overwrite(fs: Fs, p: Path, k: nat, b: byte, t: int): (fs2: Fs)
    requires CanOverwrite(fs, p, k)
    ensures fs2.walks == fs.walks && IsRegular(fs2, p)
    ensures forall q :: q != p ==> (q in fs2.nodes <==> q in fs.nodes) && (q in fs.nodes ==> fs2.nodes[q] == fs.nodes[q])
  {
    fs.(nodes := fs.nodes[p := Regular(Some(fs.nodes[p].data.value[k := b]), t)])
  }

  /** Snapshots that agree on which paths are digested select the same files from a walk. */
  lemma {:induction false} SelectedAgree(fs1: Fs, fs2: Fs, walk: seq<Path>)
    requires forall q :: Digested(fs1, q) == Digested(fs2, q)
    ensures Selected(fs1, walk) == Selected(fs2, walk)
  {
    if walk != [] {
      SelectedAgree(fs1, fs2, walk[..|walk| - 1]);
    }
  }

  /** Files of equal length in both snapshots feed equally many bytes. */
  lemma {:induction false} FeedLength(fs1: Fs, fs2: Fs, files: seq<Path>)
    requires forall q :: q in files ==> |ContentsOf(fs1, q)| == |ContentsOf(fs2, q)|
    ensures |Feed(fs1, files)| == |Feed(fs2, files)|
  {
    if files != [] {
      var init := files[..|files| - 1];
      assert forall q :: q in init ==> q in files;
      FeedLength(fs1, fs2, init);
    }
  }

  /** Files with the same contents in both snapshots feed the same bytes. */
  lemma {:induction false} FeedAgree(fs1: Fs, fs2: Fs, files: seq<Path>)
    requires forall q :: q in files ==> ContentsOf(fs1, q) == ContentsOf(fs2, q)
    ensures Feed(fs1, files) == Feed(fs2, files)
  {
    if files != [] {
      var init := files[..|files| - 1];
      assert forall q :: q in init ==> q in files;
      FeedAgree(fs1, fs2, init);
    }
  }

  /**
   * When one fed file changes its contents but not its length, and every
   * other file is unchanged, the fed bytes change.
   */
  lemma {:induction false} FeedDiffers(fs1: Fs, fs2: Fs, files: seq<Path>, p: Path)
    requires p in files
    requires forall q :: q in files ==> |ContentsOf(fs1, q)| == |ContentsOf(fs2, q)|
    requires forall q :: q in files && q != p ==> ContentsOf(fs1, q) == ContentsOf(fs2, q)
    requires ContentsOf(fs1, p) != ContentsOf(fs2, p)
    ensures Feed(fs1, files) != Feed(fs2, files)
  {
    var init := files[..|files| - 1];
    var last := files[|files| - 1];
    assert files == init + [last];
    assert forall q :: q in init ==> q in files;
    var a, b := Feed(fs1, init), Feed(fs2, init);
    assert Feed(fs1, files) == a + ContentsOf(fs1, last);
    assert Feed(fs2, files) == b + ContentsOf(fs2, last);
    if p in init {
      FeedDiffers(fs1, fs2, init, p);
      FeedLength(fs1, fs2, init);
      assert Feed(fs1, files)[..|a|] == a;
      assert Feed(fs2, files)[..|b|] == b;
    } else {
      assert last == p;
      FeedAgree(fs1, fs2, init);
      assert Feed(fs1, files)[|a|..] == ContentsOf(fs1, p);
      assert Feed(fs2, files)[|a|..] == ContentsOf(fs2, p);
    }
  }

  /**
   * Overwriting one byte of a tracked file that the walk lists with a
   * different value changes the bytes fed to the digest.
   */
  lemma FeedDetectsChange(fs: Fs, walk: seq<Path>, p: Path, k: nat, b: byte, t: int)
    requires p in walk && IsTracked(p)
    requires CanOverwrite(fs, p, k) && b != fs.nodes[p].data.value[k]
    ensures DigestInput(Overwrite(fs, p, k, b, t), walk) != DigestInput(fs, walk)
  {
    var fs2 := Overwrite(fs, p, k, b, t);
    var d := fs.nodes[p].data.value;
    assert ContentsOf(fs2, p) == d[k := b];
    assert ContentsOf(fs2, p)[k] != ContentsOf(fs, p)[k];
    assert forall q :: q != p ==> ContentsOf(fs2, q) == ContentsOf(fs, q);
    assert forall q :: Digested(fs, q) == Digested(fs2, q);
    SelectedAgree(fs, fs2, walk);
    var files := SortPaths(Selected(fs, walk));
    assert p in Selected(fs, walk);
    assert p in multiset(files);
    FeedDiffers(fs2, fs, files, p);
  }

  // ---------------------------------------------------------------------
  // The environment of one git dependency

  /** What git and cmake answer for one dependency (exit statuses and raw standard output). */
  datatype Remote = Remote(
    hasCheckout: bool,        // `<dep_dir>/.git` exists
    cloneStatus: int,         // `git clone <url> <dep_dir>`
    revListOutput: string,    // `git rev-list -n 1 refs/tags/<tag>` after `git fetch --tags`
    lsRemoteOutput: string,   // `git ls-remote origin HEAD | cut -f1`
    checkoutStatus: int,      // `git fetch origin <commit> && git reset --hard <commit>`
    tree: Fs,                 // the working tree once checked out
    configureStatus: int,     // `cmake -S <dep_dir> -B <build_dir> …`
    buildStatus: int)         // `cmake --build <build_dir>`

  /** The observable steps of the pipeline, in the order they happen. */
  datatype Effect =
    | Clone(url: string)
    | FetchTags
    | RevList(tag: string)
    | LsRemote
    | Checkout(commit: string)
    | HashTree
    | WriteLock(rev: string, hash: string)
    | Configure
    | Build

  /** The `std::runtime_error`s the pipeline can throw. */
  datatype Failure =
    | CloneFailed(url: string)
    | TagNotFound(tag: string)
    | CheckoutFailed(commit: string)
    | TreeNotWalkable
    | BuildFailed
    | BareCloneFailed

  function DepDir(name: string): Path {
    PathOf(".zyn/deps/" + name)
  }

  /**
   * `get_commit_hash(repo, tag)`: with a tag, the trimmed `rev-list`
   * output, an error when it is empty; without one, the trimmed
   * `ls-remote` output, whatever it is.
   */
  function GetCommitHash(tag: string, env: Remote): (r: Result<string, Failure>)
    ensures r.Err? <==> tag != "" && TrimTrailing(env.revListOutput) == ""
    ensures r.Err? ==> r.error == TagNotFound(tag)
    ensures r.Ok? ==> r.value == TrimTrailing(if tag != "" then env.revListOutput else env.lsRemoteOutput)
    ensures r.Ok? ==> r.value <= (if tag != "" then env.revListOutput else env.lsRemoteOutput)
    ensures r.Ok? && tag != "" ==> r.value != ""
  {
    TrimTrailingIsPrefix(env.revListOutput);
    TrimTrailingIsPrefix(env.lsRemoteOutput);
    if tag != "" then
      var hash := TrimTrailing(env.revListOutput);
      if hash == "" then Err(TagNotFound(tag)) else Ok(hash)
    else Ok(TrimTrailing(env.lsRemoteOutput))
  }

  function ResolveEffects(tag: string): seq<Effect> {
    if tag != "" then [FetchTags, RevList(tag)] else [LsRemote]
  }

  predicate Cloned(env: Remote) {
    env.hasCheckout || env.cloneStatus == 0
  }

  /** Everything before the lock decision succeeds: clone, resolution, checkout and the digest walk. */
  predicate Ready(name: string, tag: string, env: Remote, sha: Sha256) {
    && Cloned(env)
    && GetCommitHash(tag, env).Ok?
    && env.checkoutStatus == 0
    && DirectoryDigest(env.tree, DepDir(name), sha).Some?
  }

  /** The effects up to and including revision resolution. */
  function Preamble(url: string, tag: string, env: Remote): seq<Effect> {
    (if env.hasCheckout then [] else [Clone(url)]) + ResolveEffects(tag)
  }

  // ---------------------------------------------------------------------
  // ensure_git_dep

  datatype InstallOutcome =
    | UpToDate                     // lock verified, nothing written or built
    | Installed                    // lock written and the build succeeded
    | Fatal(verdict: Verdict)      // lock mismatch: the whole process exits with status 1
    | Failed(reason: Failure)      // an exception, caught and reported for this dependency only

  /** The outcome of one run, the effects it had, and the lock file it leaves behind. */
  datatype Run<O> = Run(outcome: O, trace: seq<Effect>, lock: LockState)

  /** What `ensure_git_dep(name, url, tag)` does, given the answers of git and cmake. */
  function InstallRun(name: string, url: string, tag: string, env: Remote, lock: LockState, sha: Sha256): Run<InstallOutcome> {
    var cloned := if env.hasCheckout then [] else [Clone(url)];
    if !Cloned(env) then Run(Failed(CloneFailed(url)), cloned, lock)
    else
      var resolving := cloned + ResolveEffects(tag);
      match GetCommitHash(tag, env)
        case Err(e) => Run(Failed(e), resolving, lock)
        case Ok(commit) =>
          if env.checkoutStatus != 0 then Run(Failed(CheckoutFailed(commit)), resolving + [Checkout(commit)], lock)
          else
            var hashing := resolving + [Checkout(commit), HashTree];
            match DirectoryDigest(env.tree, DepDir(name), sha)
              case None => Run(Failed(TreeNotWalkable), hashing, lock)
              case Some(hash) =>
                if lock != Absent then
                  var v := StrictVerdict(lock, commit, hash);
                  Run(if v == Verified then UpToDate else Fatal(v), hashing, lock)
                else
                  var written := Present(LockText(commit, hash));
                  var configuring := hashing + [WriteLock(commit, hash), Configure];
                  if env.configureStatus != 0 then Run(Failed(BuildFailed), configuring, written)
                  else Run(if env.buildStatus == 0 then Installed else Failed(BuildFailed), configuring + [Build], written)
  }

  /**
   * `ensure_git_dep(name, url, tag)`: clone if missing, resolve the
   * commit; with a lock file, check out, digest and verify strictly
   * (verified: done; otherwise: fatal); without one, check out, digest,
   * write the lock and build with cmake. Exceptions end the task as Failed.
   */
  method EnsureGitDep(name: string, url: string, tag: string, env: Remote, lock: LockState, sha: Sha256)
    returns (out: InstallOutcome, trace: seq<Effect>, newLock: LockState)
    ensures Run(out, trace, newLock) == InstallRun(name, url, tag, env, lock, sha)
  {
    newLock := lock;
    // clone_if_missing
    var cloned := if env.hasCheckout then [] else [Clone(url)];
    if !env.hasCheckout && env.cloneStatus != 0 {
      return Failed(CloneFailed(url)), cloned, newLock;
    }
    // get_commit_hash
    var resolving := cloned + ResolveEffects(tag);
    var resolved := GetCommitHash(tag, env);
    if resolved.Err? {
      return Failed(resolved.error), resolving, newLock;
    }
    var commit := resolved.value;
    // checkout_commit
    if env.checkoutStatus != 0 {
      return Failed(CheckoutFailed(commit)), resolving + [Checkout(commit)], newLock;
    }
    // hash_directory
    var hashing := resolving + [Checkout(commit), HashTree];
    var digest := HashDirectory(env.tree, DepDir(name), sha);
    if digest.None? {
      return Failed(TreeNotWalkable), hashing, newLock;
    }
    var hash := digest.value;
    if lock != Absent {
      var v := CheckLockStrict(lock, commit, hash);
      out := if v == Verified then UpToDate else Fatal(v);
      return out, hashing, newLock;
    }
    // write_lock, then build_cmake
    newLock := Present(LockText(commit, hash));
    trace := hashing + [WriteLock(commit, hash), Configure];
    if env.configureStatus != 0 {
      return Failed(BuildFailed), trace, newLock;
    }
    trace := trace + [Build];
    out := if env.buildStatus == 0 then Installed else Failed(BuildFailed);
  }

  predicate Mutates(e: Effect) {
    e.WriteLock? || e.Configure? || e.Build?
  }

  predicate Quiet(trace: seq<Effect>) {
    forall i :: 0 <= i < |trace| ==> !Mutates(trace[i])
  }

  /** A run that does not get as far as the lock decision fails, writing and building nothing. */
  lemma NotReadyFails(name: string, url: string, tag: string, env: Remote, lock: LockState, sha: Sha256)
    requires !Ready(name, tag, env, sha)
    ensures var r := InstallRun(name, url, tag, env, lock, sha);
      r.outcome.Failed? && r.lock == lock && Quiet(r.trace)
  {
    var pre := Preamble(url, tag, env);
    QuietPreamble(url, tag, env);
    if !Cloned(env) {
      assert Quiet(if env.hasCheckout then [] else [Clone(url)]);
    } else if GetCommitHash(tag, env).Ok? {
      var commit := GetCommitHash(tag, env).value;
      QuietSnoc(pre, Checkout(commit));
      QuietHashing(url, tag, env, commit);
    }
  }

  /** The effects up to the digest change nothing. */
  lemma QuietHashing(url: string, tag: string, env: Remote, commit: string)
    ensures Quiet(Preamble(url, tag, env) + [Checkout(commit), HashTree])
  {
    var pre := Preamble(url, tag, env);
    QuietPreamble(url, tag, env);
    QuietSnoc(pre, Checkout(commit));
    QuietSnoc(pre + [Checkout(commit)], HashTree);
    assert pre + [Checkout(commit)] + [HashTree] == pre + [Checkout(commit), HashTree];
  }

  lemma QuietPreamble(url: string, tag: string, env: Remote)
    ensures Quiet(Preamble(url, tag, env))
  {
  }

  lemma QuietSnoc(trace: seq<Effect>, e: Effect)
    requires Quiet(trace) && !Mutates(e)
    ensures Quiet(trace + [e])
  {
    forall i | 0 <= i < |trace + [e]|
      ensures !Mutates((trace + [e])[i])
    {
      if i < |trace| {
        assert (trace + [e])[i] == trace[i];
      }
    }
  }


  /**
   * With a lock file present, the run never writes the lock, configures or
   * builds; it ends UpToDate exactly when the strict check accepts the
   * record for the resolved commit and the fresh digest, and Fatal with the
   * check's verdict otherwise.
   */
  lemma LockedRun(name: string, url: string, tag: string, env: Remote, lock: LockState, sha: Sha256)
    requires lock != Absent
    ensures var r := InstallRun(name, url, tag, env, lock, sha);
      r.lock == lock && Quiet(r.trace)
    ensures Ready(name, tag, env, sha) ==>
      var r := InstallRun(name, url, tag, env, lock, sha);
      var commit := GetCommitHash(tag, env).value;
      var hash := DirectoryDigest(env.tree, DepDir(name), sha).value;
      && (r.outcome == UpToDate <==> StrictAccepts(lock, commit, hash))
      && (r.outcome != UpToDate ==> r.outcome == Fatal(StrictVerdict(lock, commit, hash)))
      && r.trace == Preamble(url, tag, env) + [Checkout(commit), HashTree]
  {
    if Ready(name, tag, env, sha) {
      var commit := GetCommitHash(tag, env).value;
      var hash := DirectoryDigest(env.tree, DepDir(name), sha).value;
      StrictVerdictCharacterised(lock, commit, hash);
      var v := StrictVerdict(lock, commit, hash);
      assert InstallRun(name, url, tag, env, lock, sha)
          == Run(if v == Verified then UpToDate else Fatal(v), Preamble(url, tag, env) + [Checkout(commit), HashTree], lock);
      QuietHashing(url, tag, env, commit);
    } else {
      NotReadyFails(name, url, tag, env, lock, sha);
    }
  }

  /**
   * Without a lock file the run checks out, digests, writes the lock for
   * that commit and digest, configures, and builds only if configuring
   * succeeded; it is Installed exactly when both cmake steps succeed.
   */
  lemma FreshRun(name: string, url: string, tag: string, env: Remote, sha: Sha256)
    requires Ready(name, tag, env, sha)
    ensures var r := InstallRun(name, url, tag, env, Absent, sha);
      var commit := GetCommitHash(tag, env).value;
      var hash := DirectoryDigest(env.tree, DepDir(name), sha).value;
      && r.lock == Present(LockText(commit, hash))
      && r.trace == Preamble(url, tag, env) + [Checkout(commit), HashTree, WriteLock(commit, hash), Configure]
                    + (if env.configureStatus == 0 then [Build] else [])
      && (r.outcome == Installed <==> env.configureStatus == 0 && env.buildStatus == 0)
      && (r.outcome != Installed ==> r.outcome == Failed(BuildFailed))
  {
    FreshUnfold(name, url, tag, env, sha, GetCommitHash(tag, env).value, DirectoryDigest(env.tree, DepDir(name), sha).value);
  }

  lemma FreshUnfold(name: string, url: string, tag: string, env: Remote, sha: Sha256, commit: string, hash: string)
    requires Cloned(env) && env.checkoutStatus == 0
    requires GetCommitHash(tag, env) == Ok(commit)
    requires DirectoryDigest(env.tree, DepDir(name), sha) == Some(hash)
    ensures InstallRun(name, url, tag, env, Absent, sha) ==
      Run(if env.configureStatus == 0 && env.buildStatus == 0 then Installed else Failed(BuildFailed),
          Preamble(url, tag, env) + [Checkout(commit), HashTree, WriteLock(commit, hash), Configure]
            + (if env.configureStatus == 0 then [Build] else []),
          Present(LockText(commit, hash)))
  {
    var configuring := Preamble(url, tag, env) + [Checkout(commit), HashTree, WriteLock(commit, hash), Configure];
    assert configuring == Preamble(url, tag, env) + [Checkout(commit), HashTree] + [WriteLock(commit, hash), Configure];
    if env.configureStatus == 0 {
      assert configuring + [Build] == configuring + (if env.configureStatus == 0 then [Build] else []);
    } else {
      assert configuring == configuring + (if env.configureStatus == 0 then [Build] else []);
    }
  }

  /** The digest never holds a newline and is never empty. */
  lemma DigestShape(fs: Fs, dir: Path, sha: Sha256)
    requires DirectoryDigest(fs, dir, sha).Some?
    ensures var h := DirectoryDigest(fs, dir, sha).value;
      h != "" && '\n' !in h
  {
    var d := sha(DigestInput(fs, Walk(fs, dir).value));
    HexHasNoNewline(d);
  }

  /**
   * A run against a lock holding what `write_lock` wrote for `rev` and
   * `hash`: UpToDate when they are the resolved commit and the fresh
   * digest; otherwise Fatal, with the first check that fails.
   */
  lemma RunAgainstRecord(name: string, url: string, tag: string, env: Remote, rev: string, hash: string, sha: Sha256)
    requires Ready(name, tag, env, sha)
    requires '\n' !in rev && '\n' !in hash
    ensures var r := InstallRun(name, url, tag, env, Present(LockText(rev, hash)), sha);
      var commit := GetCommitHash(tag, env).value;
      var current := DirectoryDigest(env.tree, DepDir(name), sha).value;
      r.outcome ==
        if rev == "" || hash == "" then Fatal(EmptyField)
        else if rev != commit then Fatal(RevMismatch(commit, rev))
        else if hash != current then Fatal(HashMismatch(current, hash))
        else UpToDate
  {
    var commit := GetCommitHash(tag, env).value;
    var current := DirectoryDigest(env.tree, DepDir(name), sha).value;
    StrictVerdictOfRecord(rev, hash, commit, current);
  }

  /**
   * Installing twice with the same answers from git: the second run finds
   * the lock the first one wrote, accepts it, and writes and builds nothing.
   */
  lemma {:induction false} InstallTwice(name: string, url: string, tag: string, env: Remote, sha: Sha256)
    requires Ready(name, tag, env, sha)
    requires GetCommitHash(tag, env).value != "" && '\n' !in GetCommitHash(tag, env).value
    ensures var first := InstallRun(name, url, tag, env, Absent, sha);
      var second := InstallRun(name, url, tag, env.(hasCheckout := true), first.lock, sha);
      second.outcome == UpToDate && second.lock == first.lock && Quiet(second.trace)
  {
    var commit := GetCommitHash(tag, env).value;
    var hash := DirectoryDigest(env.tree, DepDir(name), sha).value;
    DigestShape(env.tree, DepDir(name), sha);
    FreshRun(name, url, tag, env, sha);
    var env2 := env.(hasCheckout := true);
    assert GetCommitHash(tag, env2) == GetCommitHash(tag, env);
    RunAgainstRecord(name, url, tag, env2, commit, hash, sha);
    LockedRun(name, url, tag, env2, Present(LockText(commit, hash)), sha);
  }

  /**
   * A tree whose digest differs from the one recorded at install time
   * makes the next install fatal with a hash mismatch, before anything is
   * written or built.
   */
  lemma {:induction false} DigestChangeIsFatal(name: string, url: string, tag: string, env: Remote, tree: Fs, sha: Sha256)
    requires Ready(name, tag, env, sha)
    requires GetCommitHash(tag, env).value != "" && '\n' !in GetCommitHash(tag, env).value
    requires DirectoryDigest(tree, DepDir(name), sha).Some?
    requires DirectoryDigest(tree, DepDir(name), sha) != DirectoryDigest(env.tree, DepDir(name), sha)
    ensures var first := InstallRun(name, url, tag, env, Absent, sha);
      var second := InstallRun(name, url, tag, env.(hasCheckout := true, tree := tree), first.lock, sha);
      && second.outcome == Fatal(HashMismatch(DirectoryDigest(tree, DepDir(name), sha).value,
                                              DirectoryDigest(env.tree, DepDir(name), sha).value))
      && second.lock == first.lock && Quiet(second.trace)
  {
    var commit := GetCommitHash(tag, env).value;
    var hash := DirectoryDigest(env.tree, DepDir(name), sha).value;
    DigestShape(env.tree, DepDir(name), sha);
    FreshRun(name, url, tag, env, sha);
    var env2 := env.(hasCheckout := true, tree := tree);
    assert GetCommitHash(tag, env2) == GetCommitHash(tag, env);
    RunAgainstRecord(name, url, tag, env2, commit, hash, sha);
    LockedRun(name, url, tag, env2, Present(LockText(commit, hash)), sha);
  }

  /** The digest function tells these two inputs apart (no collision between them). */
  predicate Separates(sha: Sha256, a: seq<byte>, b: seq<byte>) {
    a != b ==> sha(a) != sha(b)
  }

  /**
   * Overwriting one byte of a tracked file of the checkout with a different
   * value after installing makes the next install fatal with a hash
   * mismatch, before anything is written or built, provided the digest
   * function has no collision between the old and the new fed bytes.
   */
  lemma {:induction false} ChangedTreeIsFatal(name: string, url: string, tag: string, env: Remote, sha: Sha256,
                                              p: Path, k: nat, b: byte, t: int)
    requires Ready(name, tag, env, sha)
    requires GetCommitHash(tag, env).value != "" && '\n' !in GetCommitHash(tag, env).value
    requires p in Walk(env.tree, DepDir(name)).value && IsTracked(p)
    requires CanOverwrite(env.tree, p, k) && b != env.tree.nodes[p].data.value[k]
    requires var walk := Walk(env.tree, DepDir(name)).value;
      Separates(sha, DigestInput(env.tree, walk), DigestInput(Overwrite(env.tree, p, k, b, t), walk))
    ensures var tree := Overwrite(env.tree, p, k, b, t);
      var first := InstallRun(name, url, tag, env, Absent, sha);
      var second := InstallRun(name, url, tag, env.(hasCheckout := true, tree := tree), first.lock, sha);
      && DirectoryDigest(tree, DepDir(name), sha).Some?
      && DirectoryDigest(tree, DepDir(name), sha) != DirectoryDigest(env.tree, DepDir(name), sha)
      && second.outcome == Fatal(HashMismatch(DirectoryDigest(tree, DepDir(name), sha).value,
                                              DirectoryDigest(env.tree, DepDir(name), sha).value))
      && second.lock == first.lock && Quiet(second.trace)
  {
    var tree := Overwrite(env.tree, p, k, b, t);
    var dir := DepDir(name);
    var walk := Walk(env.tree, dir).value;
    assert dir != p;
    assert Walk(tree, dir) == Walk(env.tree, dir);
    FeedDetectsChange(env.tree, walk, p, k, b, t);
    var d1, d2 := sha(DigestInput(env.tree, walk)), sha(DigestInput(tree, walk));
    assert d1 != d2;
    UnhexHex(d1);
    UnhexHex(d2);
    assert DirectoryDigest(tree, dir, sha) == Some(Hex.Hex(d2));
    DigestChangeIsFatal(name, url, tag, env, tree, sha);
  }

  /**
   * Without a tag, an empty `ls-remote` answer is taken as the commit; the
   * lock then records an empty revision, which every later install rejects.
   */
  lemma {:induction false} EmptyRemoteHeadIsFatalOnRerun(name: string, url: string, env: Remote, sha: Sha256)
    requires Ready(name, "", env, sha)
    requires TrimTrailing(env.lsRemoteOutput) == ""
    ensures var first := InstallRun(name, url, "", env, Absent, sha);
      var second := InstallRun(name, url, "", env.(hasCheckout := true), first.lock, sha);
      second.outcome == Fatal(EmptyField)
  {
    var hash := DirectoryDigest(env.tree, DepDir(name), sha).value;
    DigestShape(env.tree, DepDir(name), sha);
    FreshRun(name, url, "", env, sha);
    RunAgainstRecord(name, url, "", env.(hasCheckout := true), "", hash, sha);
  }

  // ---------------------------------------------------------------------
  // update_git_dependency

  datatype UpdateOutcome =
    | AlreadyUpToDate            // the lenient check accepted the lock
    | Updated                    // lock rewritten and rebuilt
    | Thrown(reason: Failure)    // an exception leaves the function (nothing catches it here)

  /** What `update_git_dependency(name, url, tag)` does, given the answers of git and cmake. */
  function UpdateRun(name: string, url: string, tag: string, env: Remote, lock: LockState, sha: Sha256): Run<UpdateOutcome> {
    var cloned := if env.hasCheckout then [] else [Clone(url)];
    if !Cloned(env) then Run(Thrown(CloneFailed(url)), cloned, lock)
    else
      var resolving := cloned + ResolveEffects(tag);
      match GetCommitHash(tag, env)
        case Err(e) => Run(Thrown(e), resolving, lock)
        case Ok(commit) =>
          if env.checkoutStatus != 0 then Run(Thrown(CheckoutFailed(commit)), resolving + [Checkout(commit)], lock)
          else
            var hashing := resolving + [Checkout(commit), HashTree];
            match DirectoryDigest(env.tree, DepDir(name), sha)
              case None => Run(Thrown(TreeNotWalkable), hashing, lock)
              case Some(hash) =>
                if LenientAccepts(lock, commit, hash) then Run(AlreadyUpToDate, hashing, lock)
                else
                  var written := Present(LockText(commit, hash));
                  var configuring := hashing + [WriteLock(commit, hash), Configure];
                  if env.configureStatus != 0 then Run(Thrown(BuildFailed), configuring, written)
                  else Run(if env.buildStatus == 0 then Updated else Thrown(BuildFailed), configuring + [Build], written)
  }

  /**
   * `update_git_dependency(name, url, tag)`: clone if missing, resolve,
   * check out and digest unconditionally; rewrite the lock and rebuild
   * unless the lenient check accepts the current commit and digest.
   */
  method UpdateGitDependency(name: string, url: string, tag: string, env: Remote, lock: LockState, sha: Sha256)
    returns (out: UpdateOutcome, trace: seq<Effect>, newLock: LockState)
    ensures Run(out, trace, newLock) == UpdateRun(name, url, tag, env, lock, sha)
  {
    newLock := lock;
    var cloned := if env.hasCheckout then [] else [Clone(url)];
    if !env.hasCheckout && env.cloneStatus != 0 {
      return Thrown(CloneFailed(url)), cloned, newLock;
    }
    var resolving := cloned + ResolveEffects(tag);
    var resolved := GetCommitHash(tag, env);
    if resolved.Err? {
      return Thrown(resolved.error), resolving, newLock;
    }
    var latest := resolved.value;
    if env.checkoutStatus != 0 {
      return Thrown(CheckoutFailed(latest)), resolving + [Checkout(latest)], newLock;
    }
    var hashing := resolving + [Checkout(latest), HashTree];
    var digest := HashDirectory(env.tree, DepDir(name), sha);
    if digest.None? {
      return Thrown(TreeNotWalkable), hashing, newLock;
    }
    var hash := digest.value;
    var current := CheckLock(lock, latest, hash);
    if current {
      return AlreadyUpToDate, hashing, newLock;
    }
    newLock := Present(LockText(latest, hash));
    trace := hashing + [WriteLock(latest, hash), Configure];
    if env.configureStatus != 0 {
      return Thrown(BuildFailed), trace, newLock;
    }
    trace := trace + [Build];
    out := if env.buildStatus == 0 then Updated else Thrown(BuildFailed);
  }

  /**
   * An update against the record `write_lock` wrote for the current commit
   * and digest is up to date: it writes and builds nothing.
   */
  lemma UpdateAgainstOwnRecord(name: string, url: string, tag: string, env: Remote, sha: Sha256)
    requires Ready(name, tag, env, sha)
    requires '\n' !in GetCommitHash(tag, env).value
    ensures var commit := GetCommitHash(tag, env).value;
      var hash := DirectoryDigest(env.tree, DepDir(name), sha).value;
      var r := UpdateRun(name, url, tag, env, Present(LockText(commit, hash)), sha);
      r.outcome == AlreadyUpToDate && r.lock == Present(LockText(commit, hash)) && Quiet(r.trace)
  {
    var commit := GetCommitHash(tag, env).value;
    var hash := DirectoryDigest(env.tree, DepDir(name), sha).value;
    DigestShape(env.tree, DepDir(name), sha);
    LenientRoundTrip(commit, hash);
    var lock := Present(LockText(commit, hash));
    assert LenientAccepts(lock, commit, hash);
    var r := UpdateRun(name, url, tag, env, lock, sha);
    assert r == Run(AlreadyUpToDate, Preamble(url, tag, env) + [Checkout(commit), HashTree], lock);
    QuietHashing(url, tag, env, commit);
  }

  /** Updating twice with the same answers: the second update writes and builds nothing. */
  lemma {:induction false} UpdateTwice(name: string, url: string, tag: string, env: Remote, lock: LockState, sha: Sha256)
    requires Ready(name, tag, env, sha)
    requires '\n' !in GetCommitHash(tag, env).value
    ensures var first := UpdateRun(name, url, tag, env, lock, sha);
      var second := UpdateRun(name, url, tag, env.(hasCheckout := true), first.lock, sha);
      second.outcome == AlreadyUpToDate && second.lock == first.lock && Quiet(second.trace)
  {
    var env2 := env.(hasCheckout := true);
    var commit := GetCommitHash(tag, env).value;
    var hash := DirectoryDigest(env.tree, DepDir(name), sha).value;
    assert GetCommitHash(tag, env2) == GetCommitHash(tag, env);
    ReadyUpdate(name, url, tag, env, lock, sha, commit, hash);
    var first := UpdateRun(name, url, tag, env, lock, sha);
    if LenientAccepts(lock, commit, hash) {
      ReadyUpdate(name, url, tag, env2, lock, sha, commit, hash);
      QuietHashing(url, tag, env2, commit);
    } else {
      assert first.lock == Present(LockText(commit, hash));
      UpdateAgainstOwnRecord(name, url, tag, env2, sha);
    }
  }

  /** A ready update keeps an accepted lock, quietly, and otherwise rewrites it for the current commit and digest. */
  lemma ReadyUpdate(name: string, url: string, tag: string, env: Remote, lock: LockState, sha: Sha256, commit: string, hash: string)
    requires Cloned(env) && env.checkoutStatus == 0
    requires GetCommitHash(tag, env) == Ok(commit)
    requires DirectoryDigest(env.tree, DepDir(name), sha) == Some(hash)
    ensures var r := UpdateRun(name, url, tag, env, lock, sha);
      && r.lock == (if LenientAccepts(lock, commit, hash) then lock else Present(LockText(commit, hash)))
      && (LenientAccepts(lock, commit, hash) ==>
            r == Run(AlreadyUpToDate, Preamble(url, tag, env) + [Checkout(commit), HashTree], lock))
  {
  }

  /** Whatever install accepts as up to date, update accepts too. */
  lemma InstallUpToDateImpliesUpdateUpToDate(name: string, url: string, tag: string, env: Remote, lock: LockState, sha: Sha256)
    requires InstallRun(name, url, tag, env, lock, sha).outcome == UpToDate
    ensures UpdateRun(name, url, tag, env, lock, sha).outcome == AlreadyUpToDate
  {
    var commit := GetCommitHash(tag, env).value;
    var hash := DirectoryDigest(env.tree, DepDir(name), sha).value;
    StrictVerdictCharacterised(lock, commit, hash);
    StrictImpliesLenient(lock, commit, hash);
  }

  // ---------------------------------------------------------------------
  // install_from_url: name and tag derivation

  /** Length of the longest run of characters not in `stop` starting at `i`. */
  function RunLength(s: string, i: nat, stop: set<char>): (n: nat)
    requires i <= |s|
    ensures i + n <= |s|
    ensures forall k :: i <= k < i + n ==> s[k] !in stop
    ensures i + n == |s| || s[i + n] in stop
    decreases |s| - i
  {
    if i == |s| || s[i] in stop then 0 else 1 + RunLength(s, i + 1, stop)
  }

  const GithubHost := "github.com/"

  /**
   * The match of `github\.com/[^/]+/([^/@]+)` that starts at index `i`, if
   * any: its capture group. Both repetitions are greedy and, as they stop
   * only at characters they exclude, backtracking cannot shorten them into
   * another match.
   */
  function MatchAt(u: string, i: nat): (r: Option<string>)
    requires i <= |u|
    ensures r.Some? ==> r.value != [] && '/' !in r.value && '@' !in r.value
  {
    if !(GithubHost <= u[i..]) then None
    else
      var o := i + |GithubHost|;
      var n := RunLength(u, o, {'/'});
      if n == 0 || o + n == |u| then None
      else
        var c := o + n + 1;
        var m := RunLength(u, c, {'/', '@'});
        if m == 0 then None
        else
          Some(u[c..c + m])
  }

  /** `std::regex_search`: the leftmost match at or after `i`. */
  function SearchFrom(u: string, i: nat): (r: Option<string>)
    requires i <= |u|
    ensures r.Some? ==> r.value != [] && '/' !in r.value && '@' !in r.value
    decreases |u| - i
  {
    match MatchAt(u, i)
      case Some(c) => Some(c)
      case None => if i == |u| then None else SearchFrom(u, i + 1)
  }

  /** The search finds nothing exactly when no position from `i` on starts a match. */
  lemma {:induction false} SearchNone(u: string, i: nat)
    requires i <= |u|
    ensures SearchFrom(u, i).None? <==> forall j :: i <= j <= |u| ==> MatchAt(u, j).None?
    decreases |u| - i
  {
    if MatchAt(u, i).Some? {
      assert SearchFrom(u, i).Some?;
    } else if i == |u| {
      assert SearchFrom(u, i).None?;
    } else {
      assert SearchFrom(u, i) == SearchFrom(u, i + 1);
      SearchNone(u, i + 1);
      if forall j :: i + 1 <= j <= |u| ==> MatchAt(u, j).None? {
        forall j | i <= j <= |u|
          ensures MatchAt(u, j).None?
        {
        }
      }
    }
  }

  /** The name `install_from_url` gives a URL: the repository capture without a trailing ".git", or "library". */
  function RepoName(url: string): (name: string)
    ensures SearchFrom(url, 0).None? ==> name == "library"
    ensures SearchFrom(url, 0).Some? ==> name <= SearchFrom(url, 0).value
    ensures '/' !in name && '@' !in name
  {
    match SearchFrom(url, 0)
      case None => "library"
      case Some(c) => if |c| >= 4 && c[|c| - 4..] == ".git" then c[..|c| - 4] else c
  }

  lemma {:induction false} SearchSkips(u: string, i: nat, j: nat)
    requires i <= j <= |u|
    requires forall k :: i <= k < j ==> MatchAt(u, k).None?
    ensures SearchFrom(u, i) == SearchFrom(u, j)
    decreases j - i
  {
    if i < j {
      SearchStep(u, i);
      SearchSkips(u, i + 1, j);
    }
  }

  /** A position that starts no match passes the search on to the next one. */
  lemma SearchStep(u: string, i: nat)
    requires i < |u| && MatchAt(u, i).None?
    ensures SearchFrom(u, i) == SearchFrom(u, i + 1)
  {
  }

  /** A run that ends exactly at `i + n` has length `n`. */
  lemma RunLengthExact(s: string, i: nat, n: nat, stop: set<char>)
    requires i + n <= |s|
    requires forall k :: i <= k < i + n ==> s[k] !in stop
    requires i + n == |s| || s[i + n] in stop
    ensures RunLength(s, i, stop) == n
  {
  }

  /** No match can start at a character other than 'g'. */
  lemma MatchNeedsG(u: string, k: nat)
    requires k < |u| && u[k] != 'g'
    ensures MatchAt(u, k).None?
  {
    assert u[k..][0] == u[k];
  }

  /** At `github.com/<owner>/<repo>`, followed by the end or by '/' or '@', the match captures `<repo>`. */
  lemma MatchAtGithub(u: string, s: nat, owner: nat, repo: nat)
    requires s + |GithubHost| + owner + 1 + repo <= |u|
    requires u[s..s + |GithubHost|] == GithubHost
    requires owner > 0 && forall k :: s + |GithubHost| <= k < s + |GithubHost| + owner ==> u[k] != '/'
    requires u[s + |GithubHost| + owner] == '/'
    requires repo > 0 && forall k :: s + |GithubHost| + owner + 1 <= k < s + |GithubHost| + owner + 1 + repo ==> u[k] != '/' && u[k] != '@'
    requires var e := s + |GithubHost| + owner + 1 + repo; e == |u| || u[e] == '/' || u[e] == '@'
    ensures MatchAt(u, s) == Some(u[s + |GithubHost| + owner + 1..s + |GithubHost| + owner + 1 + repo])
  {
    assert u[s..][..|GithubHost|] == u[s..s + |GithubHost|];
    var o := s + |GithubHost|;
    RunLengthExact(u, o, owner, {'/'});
    var c := o + owner + 1;
    RunLengthExact(u, c, repo, {'/', '@'});
  }

  /** No match starts inside a prefix that holds no 'g'. */
  lemma NoMatchBefore(u: string, n: nat)
    requires n <= |u| && 'g' !in u[..n]
    ensures forall k :: 0 <= k < n ==> MatchAt(u, k).None?
  {
    forall k | 0 <= k < n
      ensures MatchAt(u, k).None?
    {
      assert u[k] == u[..n][k];
      MatchNeedsG(u, k);
    }
  }

  /**
   * For `<scheme>github.com/<owner>/<repo><rest>`, where the scheme holds
   * no 'g' and `rest` is empty or starts at a '/' or '@', the captured name
   * is `<repo>`.
   */
  lemma {:induction false} GithubRepoCaptured(scheme: string, owner: string, repo: string, rest: string)
    requires 'g' !in scheme
    requires owner != "" && '/' !in owner
    requires repo != "" && '/' !in repo && '@' !in repo
    requires rest == "" || rest[0] == '/' || rest[0] == '@'
    ensures SearchFrom(scheme + GithubHost + owner + "/" + repo + rest, 0) == Some(repo)
  {
    var u := scheme + GithubHost + owner + "/" + repo + rest;
    var s := |scheme|;
    GithubLayout(scheme, owner, repo, rest);
    SearchFindsGithub(u, s, |owner|, |repo|);
  }

  /** The leftmost match is the one at `s` when no 'g' comes before it. */
  lemma SearchFindsGithub(u: string, s: nat, owner: nat, repo: nat)
    requires s + |GithubHost| + owner + 1 + repo <= |u|
    requires 'g' !in u[..s]
    requires u[s..s + |GithubHost|] == GithubHost
    requires owner > 0 && forall k :: s + |GithubHost| <= k < s + |GithubHost| + owner ==> u[k] != '/'
    requires u[s + |GithubHost| + owner] == '/'
    requires repo > 0 && forall k :: s + |GithubHost| + owner + 1 <= k < s + |GithubHost| + owner + 1 + repo ==> u[k] != '/' && u[k] != '@'
    requires var e := s + |GithubHost| + owner + 1 + repo; e == |u| || u[e] == '/' || u[e] == '@'
    ensures SearchFrom(u, 0) == Some(u[s + |GithubHost| + owner + 1..s + |GithubHost| + owner + 1 + repo])
  {
    NoMatchBefore(u, s);
    SearchSkips(u, 0, s);
    MatchAtGithub(u, s, owner, repo);
  }

  /** Where the host, the owner, the '/' and the repository sit in such a URL. */
  lemma GithubLayout(scheme: string, owner: string, repo: string, rest: string)
    requires '/' !in owner
    requires '/' !in repo && '@' !in repo
    requires rest == "" || rest[0] == '/' || rest[0] == '@'
    ensures var u := scheme + GithubHost + owner + "/" + repo + rest;
      var s := |scheme|;
      var o := s + |GithubHost|;
      var c := o + |owner| + 1;
      && c + |repo| <= |u|
      && u[..s] == scheme
      && u[s..o] == GithubHost
      && (forall k :: o <= k < o + |owner| ==> u[k] != '/')
      && u[o + |owner|] == '/'
      && (forall k :: c <= k < c + |repo| ==> u[k] != '/' && u[k] != '@')
      && u[c..c + |repo|] == repo
      && (c + |repo| == |u| || u[c + |repo|] == '/' || u[c + |repo|] == '@')
  {
    var h := scheme + GithubHost + owner + "/";
    var t := repo + rest;
    var u := scheme + GithubHost + owner + "/" + repo + rest;
    var s := |scheme|;
    var o := s + |GithubHost|;
    var c := |h|;
    assert u == h + t;
    assert u[..c] == h && u[c..] == t;
    HeadLayout(scheme, owner);
    assert u[..s] == h[..s] && u[s..o] == h[s..o];
    forall k | o <= k < o + |owner|
      ensures u[k] != '/'
    {
      assert u[k] == h[k];
    }
    assert u[o + |owner|] == h[o + |owner|];
    forall k | c <= k < c + |repo|
      ensures u[k] != '/' && u[k] != '@'
    {
      assert u[k] == t[k - c] == repo[k - c];
    }
    assert u[c..c + |repo|] == t[..|repo|] == repo;
    assert c + |repo| < |u| ==> u[c + |repo|] == t[|repo|] == rest[0];
  }

  /** The scheme, the host, the owner and the '/' that closes it. */
  lemma HeadLayout(scheme: string, owner: string)
    requires '/' !in owner
    ensures var h := scheme + GithubHost + owner + "/";
      var s := |scheme|;
      var o := s + |GithubHost|;
      && |h| == o + |owner| + 1
      && h[..s] == scheme
      && h[s..o] == GithubHost
      && (forall k :: o <= k < o + |owner| ==> h[k] != '/')
      && h[o + |owner|] == '/'
  {
    var p1 := scheme + GithubHost;
    var h := p1 + owner + "/";
    var o := |p1|;
    assert h[..o] == p1;
    assert h[..|scheme|] == p1[..|scheme|] == scheme;
    assert h[|scheme|..o] == p1[|scheme|..] == GithubHost;
    forall k | o <= k < o + |owner|
      ensures h[k] != '/'
    {
      assert h[k] == owner[k - o];
    }
  }

  /** The dependency name of such a URL is `<repo>` without a trailing ".git". */
  lemma GithubRepoName(scheme: string, owner: string, repo: string, rest: string)
    requires 'g' !in scheme
    requires owner != "" && '/' !in owner
    requires repo != "" && '/' !in repo && '@' !in repo
    requires rest == "" || rest[0] == '/' || rest[0] == '@'
    ensures RepoName(scheme + GithubHost + owner + "/" + repo + rest) ==
      if |repo| >= 4 && repo[|repo| - 4..] == ".git" then repo[..|repo| - 4] else repo
  {
    var u := scheme + GithubHost + owner + "/" + repo + rest;
    GithubRepoCaptured(scheme, owner, repo, rest);
    assert SearchFrom(u, 0) == Some(repo);
  }

  /** The probes `install_from_url` makes in a bare clone of the repository. */
  datatype TagProbe = TagProbe(
    bareCloneStatus: int,   // `git clone --bare <url> .zyn/tmp_<name>`
    describeOutput: string, // `git describe --tags --abbrev=0` in that clone
    verifyOutput: string)   // `git rev-parse --verify --quiet refs/tags/<candidate>`

  /**
   * The tag `install_from_url` settles on: the latest tag when none is
   * given; otherwise "v" + tag when the tag lacks the 'v' and that tag
   * exists, else the tag as given.
   */
  function ResolveTag(tag: string, probe: TagProbe): (r: Result<string, Failure>)
    ensures r.Err? <==> probe.bareCloneStatus != 0
    ensures r.Ok? && tag == "" ==> r.value == TrimTrailing(probe.describeOutput)
    ensures r.Ok? && tag != "" ==> r.value == tag || r.value == "v" + tag
    ensures r.Ok? && tag != "" && tag[0] == 'v' ==> r.value == tag
    ensures r.Ok? && tag != "" && tag[0] != 'v' ==>
      (r.value == "v" + tag <==> TrimTrailing(probe.verifyOutput) != "")
  {
    if probe.bareCloneStatus != 0 then Err(BareCloneFailed)
    else if tag == "" then Ok(TrimTrailing(probe.describeOutput))
    else
      var candidate := if tag[0] != 'v' then "v" + tag else tag;
      if TrimTrailing(probe.verifyOutput) != "" then Ok(candidate) else Ok(tag)
  }

  /** What `install_from_url(input)` decides before it calls `ensure_git_dep`. */
  datatype InstallPlan =
    | AlreadyDeclared(name: string)
    | Declare(name: string, dep: Dependency)
    | PlanFailed(reason: Failure)

  function PlanInstall(input: string, declared: map<string, Dependency>, probe: TagProbe): (p: InstallPlan)
    ensures var (url, tag) := SplitAt(input, '@');
      && (p.AlreadyDeclared? <==> RepoName(url) in declared)
      && (p.AlreadyDeclared? ==> p.name == RepoName(url))
      && (p.PlanFailed? <==> RepoName(url) !in declared && probe.bareCloneStatus != 0)
      && (p.Declare? ==> p.name == RepoName(url) && p.name !in declared
                         && p.dep == Dependency(url, ResolveTag(tag, probe).value, ""))
  {
    var (url, tag) := SplitAt(input, '@');
    var name := RepoName(url);
    if name in declared then AlreadyDeclared(name)
    else match ResolveTag(tag, probe)
      case Err(e) => PlanFailed(e)
      case Ok(t) => Declare(name, Dependency(url, t, ""))
  }

  // ---------------------------------------------------------------------
  // install_all_from_config: classification

  datatype Action = InstallGit(url: string, tag: string) | SkipLocal | SkipEmpty

  /** A declared dependency is installed from git when it has a URL, else skipped as local or as empty. */
  function Classify(dep: Dependency): (a: Action)
    ensures a.InstallGit? <==> dep.git != ""
    ensures a.InstallGit? ==> a.url == dep.git && a.tag == dep.tag
    ensures a == SkipLocal <==> dep.git == "" && dep.path != ""
    ensures a == SkipEmpty <==> dep.git == "" && dep.path == ""
  {
    if dep.git != "" then InstallGit(dep.git, dep.tag)
    else if dep.path != "" then SkipLocal
    else SkipEmpty
  }
}
