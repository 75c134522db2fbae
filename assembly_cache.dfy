/**
 * The incremental-build cache of `project_management`: per-file digests,
 * the source fingerprint, the rebuild decision and the cache update.
 *
 * The project tree is a filesystem snapshot; SHA-256 is a function
 * parameter, and feeding it in pieces is the same as digesting their
 * concatenation.
 */
module AssemblyCache {
  import opened Wrappers
  import opened Text
  import opened Hex
  import opened FileSystem
  import opened Project

  const ChunkSize := 4096

  /** The bytes of a sequence of digest updates, in order. */
  function Concat(chunks: seq<seq<byte>>): seq<byte> {
    if chunks == [] then [] else Concat(chunks[..|chunks| - 1]) + chunks[|chunks| - 1]
  }

  // ---------------------------------------------------------------------
  // hash_file_contents

  /**
   * `hash_file_contents(path)`: full 4096-byte reads while they succeed,
   * then one last update with what the failed read got (possibly nothing);
   * every byte is fed once, in order. An unopenable file throws (None).
   */
  method HashFileContents(file: Option<seq<byte>>, sha: Sha256) returns (r: Option<string>, updates: seq<seq<byte>>)
    ensures file.None? ==> r.None? && updates == []
    ensures file.Some? ==> r == Some(Hex.Hex(sha(file.value)))
    ensures file.Some? ==> Concat(updates) == file.value
    ensures file.Some? ==> |updates| == |file.value| / ChunkSize + 1
    ensures file.Some? ==> |updates[|updates| - 1]| == |file.value| % ChunkSize
    ensures forall i :: 0 <= i < |updates| - 1 ==> |updates[i]| == ChunkSize
  {
    if file.None? {
      return None, [];
    }
    var data := file.value;
    var offset := 0;
    updates := [];
    while offset + ChunkSize <= |data|
      invariant offset == ChunkSize * |updates| && offset <= |data|
      invariant Concat(updates) == data[..offset]
      invariant forall i :: 0 <= i < |updates| ==> |updates[i]| == ChunkSize
      decreases |data| - offset
    {
      var chunk := data[offset..offset + ChunkSize];
      assert data[..offset + ChunkSize] == data[..offset] + chunk;
      updates := updates + [chunk];
      offset := offset + ChunkSize;
    }
    var rest := data[offset..];
    assert data == data[..offset] + rest;
    updates := updates + [rest];
    DivisionByChunks(|data|, |updates| - 1);
    var hex := HexString(sha(Concat(updates)));
    r := Some(hex);
  }

  /** `n` lies in the `k`-th block of 4096. */
  lemma DivisionByChunks(n: nat, k: nat)
    requires ChunkSize * k <= n < ChunkSize * k + ChunkSize
    ensures n / ChunkSize == k && n % ChunkSize == n - ChunkSize * k
  {
  }

  // ---------------------------------------------------------------------
  // hash_source_files

  /** The digest text of one regular file, or None when it cannot be opened. */
  function FileDigest(fs: Fs, p: Path, sha: Sha256): Option<string> {
    if IsRegular(fs, p) && fs.nodes[p].data.Some? then Some(Hex.Hex(sha(fs.nodes[p].data.value))) else None
  }

  /** A file the cache fingerprint feeds: a regular file with exactly the extension `ext` (the dependency digest uses the fixed set `IsTracked` instead). */
  predicate Selects(fs: Fs, p: Path, ext: string) {
    IsRegular(fs, p) && Extension(p) == ext
  }

  /**
   * What one loop of `hash_source_files` feeds over a walk: the digest text
   * of every regular file with extension `ext`, in walk order; None once a
   * selected file cannot be opened.
   */
  function WalkFeed(fs: Fs, walk: seq<Path>, ext: string, sha: Sha256): Option<seq<byte>> {
    if walk == [] then Some([])
    else
      var p := walk[|walk| - 1];
      match WalkFeed(fs, walk[..|walk| - 1], ext, sha)
        case None => None
        case Some(fed) =>
          if !Selects(fs, p, ext) then Some(fed)
          else match FileDigest(fs, p, sha)
            case None => None
            case Some(h) => Some(fed + Bytes(h))
  }

  /**
   * The fingerprint `hash_source_files(config)` returns: the digest of the
   * per-file digest texts of the `.<language>` files under `sources`, then
   * of the `.h` files under `include`. None when either walk or a file
   * read throws.
   */
  function SourceFingerprint(fs: Fs, config: Config, sha: Sha256): Option<string> {
    match Walk(fs, PathOf(config.sources))
      case None => None
      case Some(sourceWalk) =>
        match WalkFeed(fs, sourceWalk, "." + config.language, sha)
          case None => None
          case Some(sourceFeed) =>
            match Walk(fs, PathOf(config.includeDir))
              case None => None
              case Some(headerWalk) =>
                match WalkFeed(fs, headerWalk, ".h", sha)
                  case None => None
                  case Some(headerFeed) => Some(Hex.Hex(sha(sourceFeed + headerFeed)))
  }

  /** Once a selected file fails, the loop's result is a failure whatever follows. */
  lemma {:induction false} WalkFeedStops(fs: Fs, walk: seq<Path>, i: nat, ext: string, sha: Sha256)
    requires i <= |walk| && WalkFeed(fs, walk[..i], ext, sha).None?
    ensures WalkFeed(fs, walk, ext, sha).None?
    decreases |walk| - i
  {
    if i < |walk| {
      assert walk[..i + 1][..i] == walk[..i];
      WalkFeedStops(fs, walk, i + 1, ext, sha);
    } else {
      assert walk[..i] == walk;
    }
  }

  /** One loop of `hash_source_files`: digest each selected file and feed its digest text. */
  method FeedWalk(fs: Fs, walk: seq<Path>, ext: string, sha: Sha256) returns (fed: Option<seq<byte>>)
    ensures fed == WalkFeed(fs, walk, ext, sha)
  {
    var bytes: seq<byte> := [];
    for i := 0 to |walk|
      invariant WalkFeed(fs, walk[..i], ext, sha) == Some(bytes)
    {
      var p := walk[i];
      assert walk[..i + 1][..i] == walk[..i];
      if IsRegular(fs, p) && Extension(p) == ext {
        var digest, _ := HashFileContents(fs.nodes[p].data, sha);
        if digest.None? {
          WalkFeedStops(fs, walk, i + 1, ext, sha);
          return None;
        }
        bytes := bytes + Bytes(digest.value);
      }
    }
    assert walk[..|walk|] == walk;
    return Some(bytes);
  }

  /** `hash_source_files(config)`. */
  method HashSourceFiles(fs: Fs, config: Config, sha: Sha256) returns (r: Option<string>)
    ensures r == SourceFingerprint(fs, config, sha)
    ensures r.Some? ==> |r.value| == 64 && forall i :: 0 <= i < 64 ==> IsHexDigit(r.value[i])
  {
    var sourceWalk := Walk(fs, PathOf(config.sources));
    if sourceWalk.None? {
      return None;
    }
    var sourceFeed := FeedWalk(fs, sourceWalk.value, "." + config.language, sha);
    if sourceFeed.None? {
      return None;
    }
    var headerWalk := Walk(fs, PathOf(config.includeDir));
    if headerWalk.None? {
      return None;
    }
    var headerFeed := FeedWalk(fs, headerWalk.value, ".h", sha);
    if headerFeed.None? {
      return None;
    }
    var hex := HexString(sha(sourceFeed.value + headerFeed.value));
    return Some(hex);
  }

  /** Every selected file contributes the 64 characters of its digest text. */
  lemma {:induction false} WalkFeedLength(fs: Fs, walk: seq<Path>, ext: string, sha: Sha256)
    requires WalkFeed(fs, walk, ext, sha).Some?
    ensures |WalkFeed(fs, walk, ext, sha).value| == 64 * |SelectedIn(fs, walk, ext)|
  {
    if walk != [] {
      WalkFeedLength(fs, walk[..|walk| - 1], ext, sha);
    }
  }

  /** The files a loop selects, in walk order. */
  function SelectedIn(fs: Fs, walk: seq<Path>, ext: string): (r: seq<Path>)
    ensures forall p :: p in r <==> p in walk && Selects(fs, p, ext)
  {
    if walk == [] then []
    else
      var init := walk[..|walk| - 1];
      var p := walk[|walk| - 1];
      assert walk == init + [p];
      SelectedIn(fs, init, ext) + (if Selects(fs, p, ext) then [p] else [])
  }

  /** Files without the selected extension contribute nothing: changing them leaves the feed unchanged. */
  lemma {:induction false} WalkFeedFrame(fs1: Fs, fs2: Fs, walk: seq<Path>, ext: string, sha: Sha256)
    requires forall p :: p in walk && Extension(p) == ext ==>
      (p in fs1.nodes <==> p in fs2.nodes) && (p in fs1.nodes ==> fs1.nodes[p] == fs2.nodes[p])
    ensures WalkFeed(fs1, walk, ext, sha) == WalkFeed(fs2, walk, ext, sha)
  {
    if walk != [] {
      var init, p := walk[..|walk| - 1], walk[|walk| - 1];
      assert walk == init + [p];
      WalkFeedFrame(fs1, fs2, init, ext, sha);
      SelectsFrame(fs1, fs2, p, ext, sha);
    }
  }

  /** A file with the selected extension that is the same in both snapshots is selected and digested alike. */
  lemma SelectsFrame(fs1: Fs, fs2: Fs, p: Path, ext: string, sha: Sha256)
    requires Extension(p) == ext ==>
      (p in fs1.nodes <==> p in fs2.nodes) && (p in fs1.nodes ==> fs1.nodes[p] == fs2.nodes[p])
    ensures Selects(fs1, p, ext) == Selects(fs2, p, ext)
    ensures Selects(fs1, p, ext) ==> FileDigest(fs1, p, sha) == FileDigest(fs2, p, sha)
  {
  }

  // ---------------------------------------------------------------------
  // needs_rebuild and update_cache

  const CacheFile: Path := [".zyn", "cache", "source_hashes.txt"]

  /** `.zyn/build/<name>`. */
  function ExePath(config: Config): Path {
    [".zyn", "build"] + PathOf(config.name)
  }

  /** The first line of the cache file, as one `std::getline` reads it ("" when it cannot be read). */
  function StoredHash(fs: Fs): string {
    FirstLine(Chars(ContentsOf(fs, CacheFile)))
  }

  /** A path dependency's directory holds a tracked regular file written after `since`. */
  predicate DirectoryNewer(fs: Fs, dir: string, since: int) {
    && dir != ""
    && IsDirectory(fs, PathOf(dir))
    && exists p :: p in Walk(fs, PathOf(dir)).value && IsRegular(fs, p) && IsTracked(p) && fs.nodes[p].mtime > since
  }

  /** Some declared dependency's path holds a tracked file newer than `since`. */
  predicate DependencyNewer(fs: Fs, deps: map<string, Dependency>, since: int) {
    exists n :: n in deps && DirectoryNewer(fs, deps[n].path, since)
  }

  /**
   * `needs_rebuild(config)`: rebuild when the executable or the cache file
   * is missing, when the stored first line is not the current fingerprint,
   * or when a path dependency holds a newer tracked file. None when
   * computing the fingerprint throws.
   */
  function NeedsRebuild(fs: Fs, config: Config, sha: Sha256): (r: Option<bool>)
    ensures !Exists(fs, ExePath(config)) ==> r == Some(true)
    ensures Exists(fs, ExePath(config)) && !Exists(fs, CacheFile) ==> r == Some(true)
    ensures r.None? <==> Exists(fs, ExePath(config)) && Exists(fs, CacheFile) && SourceFingerprint(fs, config, sha).None?
    ensures r == Some(false) <==>
      && Exists(fs, ExePath(config))
      && Exists(fs, CacheFile)
      && SourceFingerprint(fs, config, sha) == Some(StoredHash(fs))
      && !DependencyNewer(fs, config.dependencies, fs.nodes[ExePath(config)].mtime)
  {
    var exe := ExePath(config);
    if !Exists(fs, exe) then Some(true)
    else if !Exists(fs, CacheFile) then Some(true)
    else
      var stored := StoredHash(fs);
      match SourceFingerprint(fs, config, sha)
        case None => None
        case Some(current) =>
          if stored != current then Some(true)
          else Some(DependencyNewer(fs, config.dependencies, fs.nodes[exe].mtime))
  }

  /** The snapshot after `update_cache`: the fingerprint written, without a newline, as the cache file. */
  function Cached(fs: Fs, config: Config, sha: Sha256, now: int): Option<Fs> {
    match SourceFingerprint(fs, config, sha)
      case None => None
      case Some(h) => Some(fs.(nodes := fs.nodes[CacheFile := Regular(Some(Bytes(h)), now)]))
  }

  /** `update_cache(config)`: None when computing the fingerprint throws (nothing is written then). */
  method UpdateCache(fs: Fs, config: Config, sha: Sha256, now: int) returns (r: Option<Fs>)
    ensures r == Cached(fs, config, sha, now)
    ensures r.Some? ==> StoredHash(r.value) == SourceFingerprint(fs, config, sha).value
  {
    var current := HashSourceFiles(fs, config, sha);
    if current.None? {
      return None;
    }
    var h := current.value;
    r := Some(fs.(nodes := fs.nodes[CacheFile := Regular(Some(Bytes(h)), now)]));
    assert ContentsOf(r.value, CacheFile) == Bytes(h);
    assert h == Hex.Hex(sha(Feeds(fs, config, sha)));
    CharsBytesHex(sha(Feeds(fs, config, sha)));
    HexHasNoNewline(sha(Feeds(fs, config, sha)));
    assert Text.FindChar(h, '\n').None?;
  }

  /** The bytes digested into the fingerprint, when it exists. */
  function Feeds(fs: Fs, config: Config, sha: Sha256): seq<byte>
    requires SourceFingerprint(fs, config, sha).Some?
  {
    WalkFeed(fs, Walk(fs, PathOf(config.sources)).value, "." + config.language, sha).value
    + WalkFeed(fs, Walk(fs, PathOf(config.includeDir)).value, ".h", sha).value
  }

  /** The cache file is neither a tracked file nor selected by any loop other than one for "txt" sources. */
  lemma CacheFileName()
    ensures FileName(CacheFile) == "source_hashes.txt"
    ensures Extension(CacheFile) == ".txt"
    ensures !IsTracked(CacheFile)
  {
    var f := "source_hashes.txt";
    assert f[..|f| - 1] == "source_hashes.tx";
    assert f[..|f| - 1][..|f| - 2] == "source_hashes.t";
    assert f[..|f| - 1][..|f| - 2][..|f| - 3] == "source_hashes.";
    assert LastDot(f) == Some(13);
    assert f[13..] == ".txt";
  }

  /**
   * Writing the cache file changes nothing the fingerprint or the
   * staleness check looks at, as long as the sources are not ".txt" files
   * and the cache path is not a directory.
   */
  lemma {:induction false} CacheWriteFrame(fs: Fs, config: Config, sha: Sha256, node: Node)
    requires node.Regular?
    requires config.language != "txt"
    requires !IsDirectory(fs, CacheFile)
    requires Exists(fs, ExePath(config))
    ensures var fs2 := fs.(nodes := fs.nodes[CacheFile := node]);
      && SourceFingerprint(fs2, config, sha) == SourceFingerprint(fs, config, sha)
      && ExePath(config) != CacheFile
      && fs2.nodes[ExePath(config)] == fs.nodes[ExePath(config)]
      && (DependencyNewer(fs2, config.dependencies, fs.nodes[ExePath(config)].mtime)
          <==> DependencyNewer(fs, config.dependencies, fs.nodes[ExePath(config)].mtime))
  {
    var fs2 := fs.(nodes := fs.nodes[CacheFile := node]);
    CacheFileName();
    assert ExePath(config)[1] != CacheFile[1];
    forall d
      ensures Walk(fs2, d) == Walk(fs, d)
    {
      assert IsDirectory(fs2, d) == IsDirectory(fs, d);
    }
    var ext := "." + config.language;
    assert ext != ".txt" by {
      assert ext[1..] == config.language;
    }
    forall walk | true
      ensures WalkFeed(fs2, walk, ext, sha) == WalkFeed(fs, walk, ext, sha)
      ensures WalkFeed(fs2, walk, ".h", sha) == WalkFeed(fs, walk, ".h", sha)
    {
      WalkFeedFrame(fs2, fs, walk, ext, sha);
      WalkFeedFrame(fs2, fs, walk, ".h", sha);
    }
    var since := fs.nodes[ExePath(config)].mtime;
    forall dir
      ensures DirectoryNewer(fs2, dir, since) <==> DirectoryNewer(fs, dir, since)
    {
      if dir != "" && IsDirectory(fs, PathOf(dir)) {
        var w := Walk(fs, PathOf(dir)).value;
        assert Walk(fs2, PathOf(dir)).value == w;
        forall p | p in w
          ensures (IsRegular(fs2, p) && IsTracked(p) && fs2.nodes[p].mtime > since)
              <==> (IsRegular(fs, p) && IsTracked(p) && fs.nodes[p].mtime > since)
        {
          if p == CacheFile {
            assert !IsTracked(p);
          }
        }
      }
    }
  }

  /**
   * `update_cache` followed by `needs_rebuild` on an unchanged tree, with
   * the executable present and no newer dependency file, asks for no
   * rebuild: the written fingerprint is read back as the first line.
   */
  lemma {:induction false} UpdateThenUpToDate(fs: Fs, config: Config, sha: Sha256, now: int)
    requires Exists(fs, ExePath(config))
    requires SourceFingerprint(fs, config, sha).Some?
    requires !DependencyNewer(fs, config.dependencies, fs.nodes[ExePath(config)].mtime)
    requires config.language != "txt"
    requires !IsDirectory(fs, CacheFile)
    ensures Cached(fs, config, sha, now).Some?
    ensures NeedsRebuild(Cached(fs, config, sha, now).value, config, sha) == Some(false)
  {
    var h := SourceFingerprint(fs, config, sha).value;
    var node := Regular(Some(Bytes(h)), now);
    var fs2 := fs.(nodes := fs.nodes[CacheFile := node]);
    assert Cached(fs, config, sha, now) == Some(fs2);
    CacheWriteFrame(fs, config, sha, node);
    assert ContentsOf(fs2, CacheFile) == Bytes(h);
    var d := sha(Feeds(fs, config, sha));
    assert h == Hex.Hex(d);
    CharsBytesHex(d);
    HexHasNoNewline(d);
    assert Text.FindChar(h, '\n').None?;
    assert StoredHash(fs2) == h;
  }

  /** A stored line that is not the current fingerprint always means a rebuild. */
  lemma StaleCacheRebuilds(fs: Fs, config: Config, sha: Sha256)
    requires Exists(fs, ExePath(config)) && Exists(fs, CacheFile)
    requires SourceFingerprint(fs, config, sha).Some?
    requires StoredHash(fs) != SourceFingerprint(fs, config, sha).value
    ensures NeedsRebuild(fs, config, sha) == Some(true)
  {
  }
}
