# zyn dependency handling and build bookkeeping, modelled in Dafny

zyn is a package manager and build driver for C/C++ projects. This project
models the parts of zyn that decide what gets installed, built or rebuilt,
and what is trusted:

- **Git dependency pinning** (`src/git_dependency.cpp`). zyn resolves a tag
  or the remote `HEAD` to a commit and checks it out. It then digests the
  tracked files of the checkout: regular `.cpp`/`.h` files and
  `CMakeLists.txt`, sorted by path, fed in that order to SHA-256 and printed
  as lowercase hex. zyn pins the commit and the digest in a two-line lock
  file `rev=<commit>` / `sha256=<digest>`. On a later install the strict
  lock check must accept that record, or the whole process exits with
  status 1. An update uses the lenient check and rewrites the lock when that
  check refuses. The model also covers how `install_from_url` names and tags
  a new dependency, and how `install_all_from_config` classifies declared
  dependencies.
- **The builder** (`src/builder.cpp`). This covers naming a dependency from
  its URL, cloning it at a ref, detecting its build system (ninja, cmake,
  autotools, make, in that order of priority), running that backend, the
  per-dependency task of `process_dependencies`, and the textual insertion
  of entries under `[dependencies]` by `add_dependencies`.
- **The assembly cache** (`src/assembly_cache.cpp`). This covers hashing a
  file in 4096-byte chunks, the source fingerprint over the sources and
  headers in walk order, the `needs_rebuild` decision and `update_cache`.
- **The line-oriented settings reader** (`src/parser.cpp`). This covers
  `trim`, `parse_bool`, and the per-line step of `parse_config` folded over
  the lines of the file.
- **The compile command** (`src/compile_cmd_generator.cpp`). This is the
  text of the compiler invocation built from the configuration and the
  files on disk.

Git, cmake and the other external commands are oracles. The model receives
their exit statuses and their output as inputs: the `Remote` and `TagProbe`
records, and a `run: Command -> int` function for the builder. SHA-256 is a
function parameter from bytes to a 32-byte digest. A filesystem snapshot
(`FileSystem.Fs`) holds the nodes and the order in which a recursive
directory walk lists each directory. That walk order is an input because the
platform does not fix it.

Each install or update run returns three things: the outcome, the ordered
list of observable effects, and the lock file it leaves behind. The effects
are clone, fetch, rev-list, ls-remote, checkout, hashing, lock write,
configure and build. Lemmas about whole runs compare these three things:
"nothing written or built" means that no effect in the list is a lock write,
a configure or a build.

Behaviour of the code that the model follows as written:

- `ensure_git_dep` always builds a fresh git dependency with
  `build_with_cmake`, whatever build system the dependency uses. Only the
  builder's `detect_and_build` chooses a backend.
- `update_git_dependency` verifies with the lenient `check_lock`, not
  `check_lock_strict`. Update therefore accepts records that install
  rejects. For example, extra lines are accepted and the last `rev=` line
  wins. `LockFile.StrictImpliesLenient` shows that the converse never
  happens.
- When `detect_and_build` finds no build marker, it returns false.
  `process_dependencies` reports that as a build failure.
- The assembly-cache fingerprint feeds files in walk order, unsorted. Unlike
  the lock digest, it can therefore change when only the walk order
  changes.
- Without a tag, `get_commit_hash` accepts an empty `ls-remote` answer as
  the commit. The lock then records an empty revision, and every later
  install rejects it as fatal
  (`GitDependency.EmptyRemoteHeadIsFatalOnRerun`).

## Model

| member | source | states |
|---|---|---|
| Text.TrimTrailing | src/git_dependency.cpp:30 | the result ends in a non-space character or is empty, and everything the output loses is whitespace |
| Text.TrimTrailingIsPrefix | src/git_dependency.cpp:30 | trimming the output of a command only removes characters from its end |
| Text.TrimTrailingUnique | src/git_dependency.cpp:30 | the trimmed text is the only prefix that ends in a non-space character and is followed by whitespace alone |
| Text.TrimLeading | src/parser.cpp:11 | the result starts with a non-space character or is empty, and everything removed before it is whitespace |
| Text.TrimLeadingIsSuffix | src/parser.cpp:11 | trimming the front only removes characters from the start |
| Text.TrimmedKeeps | src/parser.cpp:10-13 | `trim` leaves text that is already trimmed unchanged |
| Text.TrimmedEnds | src/parser.cpp:10-13 | after `trim`, neither end is whitespace |
| Text.TrimmedIsInterior | src/parser.cpp:10-13 | `trim` yields a contiguous slice of the input with only whitespace on each side |
| Text.TrimmedEmpty | src/parser.cpp:10-13 | `trim` yields the empty string exactly when the line is all whitespace |
| Text.TrimmedIdempotent | src/parser.cpp:10-13 | trimming twice is trimming once |
| Text.FindChar | src/builder.cpp:14 | `find('@')` yields the first position of the character, or npos exactly when the character is absent |
| Text.Find | src/builder.cpp:216 | `find(marker)` yields the first occurrence, or none when no position holds one |
| Text.SplitAt | src/builder.cpp:13-19 | with no '@', the whole text is the URL and the ref is empty; otherwise URL + '@' + ref is the input and the URL holds no '@' |
| Text.SplitAtFirst | src/builder.cpp:13-19 | the split happens at the first '@', so a ref that contains '@' is kept whole |
| Text.Lines | src/git_dependency.cpp:160 | the lines that the `getline` loop reads never contain a newline |
| Text.LinesCons | src/git_dependency.cpp:160 | a text that starts with a newline-free line reads as that line followed by the lines of the rest |
| Text.FirstLine | src/assembly_cache.cpp:88-90 | one `getline` reads a newline-free prefix of the file |
| Hex.HexDigit | src/git_dependency.cpp:50 | every nibble is written as a lowercase hex digit |
| Hex.DigitValue | src/git_dependency.cpp:50 | reading a digit back is defined exactly on the 16 lowercase digits and gives back the nibble they were written for |
| Hex.Hex | src/git_dependency.cpp:49-58 | the encoding has two characters per byte, all of them lowercase hex digits |
| Hex.HexAt | src/git_dependency.cpp:53-56 | characters 2i and 2i+1 are the digits of the high and low nibble of byte i |
| Hex.HexSnoc | src/git_dependency.cpp:53-56 | appending a byte appends exactly its two digits |
| Hex.HexHasNoNewline | src/git_dependency.cpp:49-58 | an encoding never contains a newline, so it survives a one-line record |
| Hex.UnhexHex | src/git_dependency.cpp:49-58 | decoding an encoding gives back the bytes, so the encoding is injective |
| Hex.HexUnhex | src/git_dependency.cpp:49-58 | every valid lowercase hex text is the encoding of exactly the bytes it decodes to |
| Hex.HexString | src/git_dependency.cpp:49-58 | the loop that pushes the high digit and then the low digit of each byte computes the encoding |
| Hex.Bytes | src/assembly_cache.cpp:48 | feeding a text to the digest feeds one byte per character |
| Hex.Chars | src/assembly_cache.cpp:128-129 | writing bytes writes one character per byte |
| Hex.CharsBytesHex | src/assembly_cache.cpp:123-130 | a hex text written as bytes reads back as the same text |
| FileSystem.Extension | src/git_dependency.cpp:65 | an extension is empty or starts with '.' |
| FileSystem.PathLessIrreflexive | src/git_dependency.cpp:73 | no path sorts before itself |
| FileSystem.PathLessTransitive | src/git_dependency.cpp:73 | the path order is transitive |
| FileSystem.PathLessTotal | src/git_dependency.cpp:73 | of two distinct paths, one sorts before the other |
| FileSystem.SortPaths | src/git_dependency.cpp:73 | the sort yields an ordered permutation of its input |
| FileSystem.SortedUnique | src/git_dependency.cpp:73 | two ordered arrangements of the same multiset are equal, so the sorted order does not depend on the input order |
| LockFile.LockTextLines | src/git_dependency.cpp:92-97 | a record written for newline-free values reads back as exactly the lines `rev=<rev>` and `sha256=<hash>` |
| LockFile.ScanStrictCounts | src/git_dependency.cpp:160-171 | the reading loop reaches the end exactly when every line is a `rev=` or `sha256=` line, and it then counts them all |
| LockFile.ScanStrictStops | src/git_dependency.cpp:167-170 | once the loop stops at an invalid line, later lines make no difference |
| LockFile.StrictVerdictOfRecord | src/git_dependency.cpp:173-195 | against a record that `write_lock` wrote, the verdict is the first check that fails in source order: empty field, then revision mismatch, then hash mismatch |
| LockFile.StrictVerdictCharacterised | src/git_dependency.cpp:143-196 | the strict check accepts exactly a record of the two expected lines, in either order, with non-empty values |
| LockFile.StrictRoundTrip | src/git_dependency.cpp:143-196 | the strict check accepts what `write_lock` wrote for non-empty values exactly when the expected values are the written ones |
| LockFile.StrictRejectsUnrecognised | src/git_dependency.cpp:167-170 | a record with a foreign line is rejected, and the rejection names the first such line |
| LockFile.CheckLockStrict | src/git_dependency.cpp:143-196 | the loop and the checks return true exactly when the record is the expected pair of lines, and otherwise give the diagnostic that the source prints |
| LockFile.LenientLastRevWins | src/git_dependency.cpp:107-112 | in the lenient reader, the last `rev=` line with a value wins |
| LockFile.LenientLastHashWins | src/git_dependency.cpp:107-112 | in the lenient reader, the last `sha256=` line with a value wins |
| LockFile.LenientRoundTrip | src/git_dependency.cpp:99-115 | the lenient check accepts what `write_lock` wrote for the same values |
| LockFile.StrictImpliesLenient | src/git_dependency.cpp:99-115 | every record that the strict check accepts, the lenient check accepts too |
| LockFile.CheckLock | src/git_dependency.cpp:99-115 | the reading loop returns true exactly when the lenient acceptance holds |
| GitDependency.Selected | src/git_dependency.cpp:63-71 | a path is digested exactly when the walk lists it as a regular `.cpp`, `.h` or `CMakeLists.txt` file |
| GitDependency.SelectedCount | src/git_dependency.cpp:63-71 | each digested path occurs in the selection as often as in the walk, and every other path not at all |
| GitDependency.HashDirectory | src/git_dependency.cpp:60-90 | the method computes the directory digest (sort, feed, hex), which is 64 lowercase hex digits, or fails when the walk fails |
| GitDependency.DigestIgnoresWalkOrder | src/git_dependency.cpp:60-90 | two walks listing the same entries in any order over the same files give the same digest |
| GitDependency.DigestShape | src/git_dependency.cpp:86-89 | a digest is never empty and never contains a newline |
| GitDependency.GetCommitHash | src/git_dependency.cpp:34-47 | with a tag, the result is exactly the trimmed `rev-list` output, an error exactly when that is empty; without a tag, it is exactly the trimmed `ls-remote` output, even when that is empty; the result is a prefix of that output |
| GitDependency.EnsureGitDep | src/git_dependency.cpp:198-243 | the steps of `ensure_git_dep` produce the outcome, effects and lock of the install run |
| GitDependency.NotReadyFails | src/git_dependency.cpp:239-242 | a failed clone, resolution, checkout or walk ends the task as failed, and nothing is written or built |
| GitDependency.LockedRun | src/git_dependency.cpp:209-222 | with a lock file, nothing is written or built; the run is up to date exactly when the strict check accepts the record for the resolved commit and the fresh digest, and otherwise fatal with that verdict |
| GitDependency.FreshRun | src/git_dependency.cpp:224-238 | without a lock file, the run writes the lock for that commit and digest, configures, and builds only after a successful configure; it is installed exactly when both cmake steps succeed |
| GitDependency.RunAgainstRecord | src/git_dependency.cpp:209-222 | against a record written for (rev, hash), the run is up to date when these are the resolved commit and fresh digest; otherwise it is fatal with the first failing check |
| GitDependency.InstallTwice | src/git_dependency.cpp:198-243 | a second install with the same answers from git accepts the lock that the first one wrote, and writes and builds nothing |
| GitDependency.FeedDetectsChange | src/git_dependency.cpp:60-84 | overwriting one byte of a tracked file of the walk with a different value changes the bytes fed to SHA-256 |
| GitDependency.DigestChangeIsFatal | src/git_dependency.cpp:209-222 | when the digest of the checkout differs from the one recorded at install time, the next install is fatal with a hash mismatch before anything is written or built, and the lock is left as it was |
| GitDependency.ChangedTreeIsFatal | src/git_dependency.cpp:209-222 | overwriting one byte of a tracked file of the checkout after installing changes its digest and makes the next install fatal with a hash mismatch before anything is written or built, provided SHA-256 has no collision between the old and the new fed bytes |
| GitDependency.EmptyRemoteHeadIsFatalOnRerun | src/git_dependency.cpp:45-46 | an empty remote `HEAD` answer gets pinned as an empty revision, and the next install is fatal |
| GitDependency.UpdateGitDependency | src/git_dependency.cpp:361-381 | the steps of `update_git_dependency` produce the outcome, effects and lock of the update run |
| GitDependency.UpdateAgainstOwnRecord | src/git_dependency.cpp:372-375 | an update against the lock written for the current commit and digest is up to date, and writes and builds nothing |
| GitDependency.UpdateTwice | src/git_dependency.cpp:361-381 | after one update with the same answers, a second update writes and builds nothing and keeps the lock |
| GitDependency.ReadyUpdate | src/git_dependency.cpp:372-380 | a ready update keeps a lock that the lenient check accepts and otherwise rewrites it for the current commit and digest |
| GitDependency.InstallUpToDateImpliesUpdateUpToDate | src/git_dependency.cpp:372 | whatever install accepts as up to date, update accepts too |
| GitDependency.MatchAt | src/git_dependency.cpp:268 | a match of `github\.com/[^/]+/([^/@]+)` captures a non-empty name without '/' or '@' |
| GitDependency.SearchFrom | src/git_dependency.cpp:271 | `regex_search` returns the capture of the leftmost match |
| GitDependency.SearchNone | src/git_dependency.cpp:271 | the search fails exactly when no position starts a match |
| GitDependency.RepoName | src/git_dependency.cpp:267-277 | the name is "library" when nothing matches, and otherwise a prefix of the capture (".git" stripped) |
| GitDependency.GithubRepoCaptured | src/git_dependency.cpp:268-272 | in `<scheme>github.com/<owner>/<repo>` followed by the end, '/' or '@', the capture is `<repo>` |
| GitDependency.GithubRepoName | src/git_dependency.cpp:267-277 | such a URL is named `<repo>` without a trailing ".git" |
| GitDependency.ResolveTag | src/git_dependency.cpp:288-320 | without a tag, the latest tag is used; a tag lacking 'v' becomes "v" + tag exactly when that tag exists; otherwise the tag stays as given; an error occurs only when the bare clone fails |
| GitDependency.PlanInstall | src/git_dependency.cpp:260-324 | a name already declared is reported and nothing else happens; otherwise the new entry records the URL without its '@' ref and the resolved tag |
| GitDependency.Classify | src/git_dependency.cpp:342-353 | a declared dependency is installed from git exactly when it has a URL; otherwise it is skipped as local when it has a path, and as empty when it has neither |
| Builder.StripGit | src/builder.cpp:25-27 | a trailing ".git" is removed only from names longer than four characters, and nothing else changes |
| Builder.AfterLastSeparator | src/builder.cpp:29-32 | the result is the suffix after the last '/' or ':', or all of the text when it has neither |
| Builder.KeepNameChars | src/builder.cpp:34-38 | the result keeps only letters, digits, '_' and '-', and a text made of them stays as it is |
| Builder.NameOf | src/builder.cpp:21-41 | the name is never empty and holds only name characters (the fallback covers the empty case) |
| Builder.ExtractName | src/builder.cpp:21-41 | the steps of `extract_name` compute that name |
| Builder.CutAfterLastSeparator | src/builder.cpp:29-32 | the `find_last_of` and `substr` step keeps the text after the last separator |
| Builder.EraseNonNameChars | src/builder.cpp:34-38 | the `remove_if` loop keeps exactly the name characters, in order |
| Builder.NameOfIdempotent | src/builder.cpp:21-41 | naming a name gives back the same name |
| Builder.NameOfValidName | src/builder.cpp:21-41 | a non-empty string of name characters is its own name |
| Builder.NameOfRepositoryUrl | src/builder.cpp:21-41 | `<host>/<repo>[.git]@<ref>` is named `<repo>` |
| Builder.RunInOrder | src/builder.cpp:89-94 | commands run in order up to and including the first one that fails, and success means that all of them exited 0 |
| Builder.BuildWith | src/builder.cpp:82-119 | each backend succeeds exactly when all its commands exit 0, and a two-step backend builds only after configuring succeeded |
| Builder.Detect | src/builder.cpp:121-131 | the backend is chosen by the first marker present in the order build.ninja, CMakeLists.txt, configure, Makefile/makefile |
| Builder.DetectAndBuild | src/builder.cpp:121-139 | exactly the detected backend runs; with no marker nothing runs and the result is false |
| Builder.CloneDependency | src/builder.cpp:43-80 | an existing target needs nothing; otherwise the URL without its ref is cloned and, when there is a ref and the clone succeeded, checked out; success means that every step that ran succeeded |
| Builder.ProcessDependency | src/builder.cpp:147-159 | a failed clone ends the task without building; otherwise the detected backend runs and a failed or impossible build is reported |
| Builder.EntriesAppend | src/builder.cpp:225-228 | the text inserted for two lists is the text for the first followed by the text for the second |
| Builder.AddDependencies | src/builder.cpp:201-240 | nothing is written when the file cannot be read; otherwise the new content is written |
| Builder.InsertEntries | src/builder.cpp:225-228 | the loop splices "\n" + dependency for each dependency, in order, at the insertion point |
| Builder.InsertedAfterMarker | src/builder.cpp:216-228 | with the section present, the entries go right after its first `[dependencies]` marker and the rest of the file is untouched |
| Builder.MarkerStaysFirst | src/builder.cpp:216-228 | after inserting, the first marker is still where it was |
| Builder.NewSectionFound | src/builder.cpp:218-220 | without a section, one is appended after a newline and is then the first marker |
| Builder.AddTwice | src/builder.cpp:201-240 | adding two lists one after the other leaves the second list's entries before the first list's |
| AssemblyCache.HashFileContents | src/assembly_cache.cpp:12-37 | an unopenable file fails (the source throws; the model returns `None`); otherwise the file is fed in full 4096-byte chunks and one shorter last chunk, and the hex of its digest is returned |
| AssemblyCache.WalkFeedStops | src/assembly_cache.cpp:44-50 | once a selected file fails, the fingerprint computation fails |
| AssemblyCache.FeedWalk | src/assembly_cache.cpp:44-50 | one selection loop feeds the digest text of each selected file, in walk order |
| AssemblyCache.SelectedIn | src/assembly_cache.cpp:45-46 | exactly the regular files of the walk that have the loop's extension are selected |
| AssemblyCache.WalkFeedLength | src/assembly_cache.cpp:47-48 | each selected file contributes the 64 characters of its digest text |
| AssemblyCache.WalkFeedFrame | src/assembly_cache.cpp:44-58 | changing files without the loop's extension leaves what the loop feeds unchanged |
| AssemblyCache.HashSourceFiles | src/assembly_cache.cpp:39-70 | the fingerprint over the sources and then the headers is 64 lowercase hex digits, or fails when a walk or a file fails |
| AssemblyCache.NeedsRebuild | src/assembly_cache.cpp:72-121 | rebuild when the executable or the cache is missing; otherwise do not rebuild exactly when the stored first line equals the fingerprint and no path dependency holds a newer tracked file |
| AssemblyCache.UpdateCache | src/assembly_cache.cpp:123-130 | after the update, the cache file's first line is the current fingerprint |
| AssemblyCache.CacheFileName | src/assembly_cache.cpp:74 | the cache file is `source_hashes.txt`, which is neither tracked nor a source or header file |
| AssemblyCache.CacheWriteFrame | src/assembly_cache.cpp:123-130 | writing the cache file changes neither the fingerprint nor the dependency staleness |
| AssemblyCache.UpdateThenUpToDate | src/assembly_cache.cpp:88-120 | right after `update_cache`, `needs_rebuild` says no rebuild is needed, unless a path dependency is newer |
| AssemblyCache.StaleCacheRebuilds | src/assembly_cache.cpp:93-98 | a stored line that is not the current fingerprint always means a rebuild |
| Parser.Trim | src/parser.cpp:10-13 | the two erase steps compute the trimmed line, which has no whitespace at either end |
| Parser.SkipLeadingSpace | src/parser.cpp:11 | the first erase removes exactly the leading whitespace |
| Parser.DropTrailingSpace | src/parser.cpp:12 | the second erase removes exactly the trailing whitespace |
| Parser.ParseBool | src/parser.cpp:15-17 | exactly "true", "1", "on" and "all" are true, case-sensitively |
| Parser.SetString | src/parser.cpp:118-119 | writing a string field sets that field and leaves every other field alone |
| Parser.SetBool | src/parser.cpp:120-121 | writing a boolean field sets that field and leaves every other field alone |
| Parser.Assign | src/parser.cpp:116-122 | a key in neither table changes nothing, and no setting touches the dependency list |
| Parser.Setting | src/parser.cpp:105-122 | a line without '=' changes nothing, and a setting never touches the dependency list |
| Parser.ApplyLine | src/parser.cpp:79-122 | the per-line steps of the reader compute the model's step on the configuration and the current section |
| Parser.ApplySetting | src/parser.cpp:105-122 | splitting at the first '=', trimming both halves and writing the named field computes the setting |
| Parser.ParseConfig | src/parser.cpp:32-131 | the reader's loop gives the configuration of the lines applied in file order |
| Parser.BlankLineIgnored | src/parser.cpp:79-81 | a blank or comment line changes nothing |
| Parser.IgnoredLinesVanish | src/parser.cpp:79-81 | any run of blank and comment lines leaves the state as it was |
| Parser.HeaderOpensSection | src/parser.cpp:89-97 | a `[name]` line switches the section to the trimmed name and changes nothing else |
| Parser.DependencyLinesCollected | src/parser.cpp:99-103 | inside `[dependencies]`, every line up to the next header is appended, trimmed and in order |
| Parser.SettingLine | src/parser.cpp:105-122 | outside `[dependencies]`, `key=value` assigns the value to `section.key` |
| Parser.StringSettingLine | src/parser.cpp:118-119 | a key in the string table sets that field to the trimmed value and nothing else |
| Parser.BoolSettingLine | src/parser.cpp:120-121 | a key in the boolean table sets that field to the parsed value and nothing else |
| Parser.TablesDisjoint | src/parser.cpp:38-70 | no key is in both tables, so the string table taking precedence never hides a boolean |
| Parser.UnknownKeyIgnored | src/parser.cpp:118-122 | a key in neither table changes nothing |
| Parser.LineWithoutEqualsIgnored | src/parser.cpp:105-107 | outside `[dependencies]`, a line that is not a header and has no '=' changes nothing |
| Parser.DependenciesOnlyGrow | src/parser.cpp:75-124 | the reader only ever appends to the dependency list |
| CompileCommand.FlagsAppend | src/compile_cmd_generator.cpp:53-66 | the flags for two lists are the flags for the first followed by those for the second |
| CompileCommand.FlagsElement | src/compile_cmd_generator.cpp:53-66 | element i is emitted once, with its flag, between the elements before it and those after it |
| CompileCommand.MatchingSelects | src/compile_cmd_generator.cpp:26-32 | exactly the regular files of the walk that have the language's extension are listed |
| CompileCommand.MatchingAppend | src/compile_cmd_generator.cpp:26-32 | the source files are listed in walk order |
| CompileCommand.IncludeEntriesAre | src/git_dependency.cpp:245-258 | exactly the directories named "include" or "Include" in the walk of a directory are found, and nothing at all when the base is not a directory |
| CompileCommand.IncludeDirsInSelects | src/git_dependency.cpp:250-257 | a walk entry is collected exactly when it is such a directory |
| CompileCommand.FindIncludeDirs | src/git_dependency.cpp:245-258 | the loop appends the include directories under the base, in walk order, after what the list already held |
| CompileCommand.InOrder | src/compile_cmd_generator.cpp:42 | iterating the dependency map in a key order yields the dependency under each key, in that order |
| CompileCommand.CollectPathDependencyIncludes | src/compile_cmd_generator.cpp:42-48 | the loop collects the include directories of the path dependencies in iteration order |
| CompileCommand.CompileCommand | src/compile_cmd_generator.cpp:19-69 | the command cannot be produced exactly when the sources directory cannot be walked |
| CompileCommand.AppendFlags | src/compile_cmd_generator.cpp:53-66 | the loop appends the flag and the element for each element |
| CompileCommand.AppendSources | src/compile_cmd_generator.cpp:26-32 | the loop appends " " and the path of each selected file, in walk order |
| CompileCommand.GenerateCompileCmd | src/compile_cmd_generator.cpp:19-69 | the steps produce the command, or fail when the sources directory cannot be walked |
| CompileCommand.CommandBegins | src/compile_cmd_generator.cpp:24 | the command starts with the compiler and its `-std=` flag |
| CompileCommand.CommandMiddle | src/compile_cmd_generator.cpp:34-56 | after the compiler, its standard and the sources come ` -o ` and the output path, ` -I` and the project's include directory, then one ` -I` per collected include directory |
| CompileCommand.IncludeOrder | src/compile_cmd_generator.cpp:39-51 | the collected include directories start with those of the path dependencies, in map order, and end with those under `.zyn/build` |
| CompileCommand.CommandEnds | src/compile_cmd_generator.cpp:58-66 | the command ends with one `-L` per library directory, then one `-l` per library |

## Left out

- Concurrency: `parse_config` runs its per-line step in parallel tasks that share the current section. The model applies the lines in file order, which the source does not guarantee. The parallel fan-outs of `install_all_from_config` and `process_dependencies` are modelled one item at a time, and the mutexes that serialise their output are left out.
- `update_all_dependencies` is not modelled beyond `update_git_dependency`: it is a loop over the declared git dependencies.
- Console output (`std::cout`/`std::cerr` messages) is left out. The strict check's diagnostics are kept as the `LockFile.Verdict` it returns.
- Process exit: `std::exit(1)` on a lock mismatch is the `Fatal` outcome. Exceptions that `ensure_git_dep` catches are `Failed`, and those that escape `update_git_dependency` are `Thrown`.
- External commands (`popen`, `std::system`) are oracles given as inputs. A `popen` that itself fails to start is not modelled.
- SHA-256 is a function parameter. The OpenSSL digest API and its errors are not modelled.
- GitDependency.ChangedTreeIsFatal: assumes that SHA-256 tells the old and the new fed bytes apart (`Separates`). No function from all byte strings to 32-byte digests is injective, so a collision-free digest cannot be proved; the model states the assumption for the one pair it needs.
- TOML loading and saving (`project_management::parse`, `save`, and the `cfg.dependencies[name] = dep` save in `install_from_url`) are not modelled. `PlanInstall` returns the entry to declare.
- The rest of `install_from_url` after the plan is not modelled: the `ensure_git_dep` call (modelled on its own) and the printing of the include directories.
- Filesystem side effects that decide nothing: `create_directories`, `remove_all` of the bare clone, and builder.cpp's `clean_*` helpers.
- builder.cpp's own `find_include_dirs` (src/builder.cpp:168-199) is not modelled; only git_dependency's version, which the compile command uses, is.
- Write failures: `write_lock` and the cache write are assumed to succeed. In `add_dependencies`, a failed output open is not distinguished from a successful write.
- The platform's `EXE_SUFFIX` is a parameter of the compile command.
- `std::unordered_map` iteration order in the compile command is an input key order (`order`).
- Directory walk order is an input (`Fs.walks`). Timestamps are plain integers.
- Parser.ParseConfig: the initial configuration (including the uninitialised boolean fields) is a parameter, and the `include` field is named `includeDir`.
- CompileCommand.CompileCommand: its ensures states only when the command exists. The text of the command is given by the reference definitions `Assemble` and `IncludeDirs` (path-dependency includes, then `.zyn/deps`, then `.zyn/build`), which `GenerateCompileCmd` is proved to compute; the lemmas `CommandBegins`, `CommandMiddle`, `CommandEnds` and `IncludeOrder` state its layout.
