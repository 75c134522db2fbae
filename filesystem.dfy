/**
 * The part of `std::filesystem` the core observes: paths as their element
 * sequences, a snapshot of nodes with write times, and the order in which
 * `recursive_directory_iterator` happens to list a directory (an input).
 */
module FileSystem {
  import opened Wrappers
  import opened Hex
  import Text

  /** A path as the sequence of its elements ("a/b/c.h" is ["a", "b", "c.h"]). */
  type Path = seq<string>

  datatype Node =
    | Regular(data: Option<seq<byte>>, mtime: int)   // None: the file cannot be opened
    | Directory(mtime: int)
    | Other(mtime: int)

  /** Nodes by path, and for each directory the order its recursive walk yields. */
  datatype Fs = Fs(nodes: map<Path, Node>, walks: map<Path, seq<Path>>)

  predicate Exists(fs: Fs, p: Path) {
    p in fs.nodes
  }

  predicate IsRegular(fs: Fs, p: Path) {
    p in fs.nodes && fs.nodes[p].Regular?
  }

  predicate IsDirectory(fs: Fs, p: Path) {
    p in fs.nodes && fs.nodes[p].Directory?
  }

  /** `recursive_directory_iterator(d)`: throws (None) unless `d` is a directory. */
  function Walk(fs: Fs, d: Path): Option<seq<Path>> {
    if !IsDirectory(fs, d) then None
    else if d in fs.walks then Some(fs.walks[d])
    else Some([])
  }

  /** Whole-file read through an unchecked `std::ifstream`: an unopenable file reads as empty. */
  function ContentsOf(fs: Fs, p: Path): seq<byte> {
    if IsRegular(fs, p) && fs.nodes[p].data.Some? then fs.nodes[p].data.value else []
  }

  /** Splits a path string at '/' into its elements. */
  function PathOf(s: string): Path
    decreases |s|
  {
    match Text.FindChar(s, '/')
      case None => [s]
      case Some(i) => [s[..i]] + PathOf(s[i + 1..])
  }

  /** `path.string()`: the elements joined by '/'. */
  function PathText(p: Path): string {
    if p == [] then "" else if |p| == 1 then p[0] else p[0] + "/" + PathText(p[1..])
  }

  /** `path.filename()`: the last element. */
  function FileName(p: Path): string {
    if p == [] then "" else p[|p| - 1]
  }

  /** Index of the last '.' in `s`. */
  function LastDot(s: string): (r: Option<nat>)
    ensures r.Some? ==> r.value < |s| && s[r.value] == '.' && '.' !in s[r.value + 1..]
    ensures r.None? ==> '.' !in s
  {
    if s == [] then None
    else if s[|s| - 1] == '.' then Some(|s| - 1)
    else LastDot(s[..|s| - 1])
  }

  /**
   * `path.extension()`: from the last '.' of the file name, except that
   * ".", ".." and a name whose only '.' is its first character have none.
   */
  function Extension(p: Path): (e: string)
    ensures e == [] || e[0] == '.'
  {
    var f := FileName(p);
    if f == "." || f == ".." then ""
    else match LastDot(f)
      case None => ""
      case Some(k) => if k == 0 then "" else f[k..]
  }

  /** The files the dependency digest and the path-dependency staleness check look at. */
  predicate IsTracked(p: Path) {
    Extension(p) == ".cpp" || Extension(p) == ".h" || FileName(p) == "CMakeLists.txt"
  }

  // ---------------------------------------------------------------------
  // Ordering of paths, as `std::sort` on `std::filesystem::path` uses it:
  // element by element, each element compared character by character.

  predicate StrLess(a: string, b: string)
    decreases |a|
  {
    |b| > 0 && (|a| == 0 || a[0] < b[0] || (a[0] == b[0] && StrLess(a[1..], b[1..])))
  }

  lemma StrLessIrreflexive(a: string)
    ensures !StrLess(a, a)
  {
  }

  lemma StrLessTransitive(a: string, b: string, c: string)
    requires StrLess(a, b) && StrLess(b, c)
    ensures StrLess(a, c)
  {
  }

  lemma StrLessTotal(a: string, b: string)
    ensures StrLess(a, b) || StrLess(b, a) || a == b
  {
    if |a| > 0 && |b| > 0 && a[0] == b[0] {
      StrLessTotal(a[1..], b[1..]);
      if a[1..] == b[1..] {
        assert a == [a[0]] + a[1..] && b == [b[0]] + b[1..];
      }
    }
  }

  predicate PathLess(a: Path, b: Path)
    decreases |a|
  {
    |b| > 0 && (|a| == 0 || StrLess(a[0], b[0]) || (a[0] == b[0] && PathLess(a[1..], b[1..])))
  }

  lemma {:induction false} PathLessIrreflexive(a: Path)
    ensures !PathLess(a, a)
  {
    if |a| > 0 {
      StrLessIrreflexive(a[0]);
      PathLessIrreflexive(a[1..]);
    }
  }

  lemma {:induction false} PathLessTransitive(a: Path, b: Path, c: Path)
    requires PathLess(a, b) && PathLess(b, c)
    ensures PathLess(a, c)
  {
    if |a| > 0 {
      if StrLess(a[0], b[0]) && StrLess(b[0], c[0]) {
        StrLessTransitive(a[0], b[0], c[0]);
      } else if a[0] == b[0] && b[0] == c[0] {
        PathLessTransitive(a[1..], b[1..], c[1..]);
      }
    }
  }

  lemma {:induction false} PathLessTotal(a: Path, b: Path)
    ensures PathLess(a, b) || PathLess(b, a) || a == b
  {
    if |a| > 0 && |b| > 0 {
      StrLessTotal(a[0], b[0]);
      if a[0] == b[0] {
        PathLessTotal(a[1..], b[1..]);
        if a[1..] == b[1..] {
          assert a == [a[0]] + a[1..] && b == [b[0]] + b[1..];
        }
      }
    }
  }

  /** Non-decreasing under the path order. */
  predicate Sorted(s: seq<Path>) {
    forall i, j :: 0 <= i < j < |s| ==> !PathLess(s[j], s[i])
  }

  /** `a <= b` and `b <= c` give `a <= c`, for the non-strict order. */
  lemma NotLessTransitive(a: Path, b: Path, c: Path)
    requires !PathLess(b, a) && !PathLess(c, b)
    ensures !PathLess(c, a)
  {
    PathLessTotal(a, b);
    if PathLess(c, a) && PathLess(a, b) {
      PathLessTransitive(c, a, b);
    }
  }

  lemma SortedCons(y: Path, t: seq<Path>)
    requires Sorted(t)
    requires forall k :: 0 <= k < |t| ==> !PathLess(t[k], y)
    ensures Sorted([y] + t)
  {
    var r := [y] + t;
    forall i, j | 0 <= i < j < |r|
      ensures !PathLess(r[j], r[i])
    {
      assert r[j] == t[j - 1];
      if i > 0 {
        assert r[i] == t[i - 1];
      }
    }
  }

  /** One step of insertion sort. */
  function Insert(x: Path, s: seq<Path>): seq<Path> {
    if s == [] then [x]
    else if PathLess(s[0], x) then [s[0]] + Insert(x, s[1..])
    else [x] + s
  }

  lemma {:induction false} InsertPermutes(x: Path, s: seq<Path>)
    ensures multiset(Insert(x, s)) == multiset(s) + multiset{x}
  {
    if s != [] {
      assert s == [s[0]] + s[1..];
      if PathLess(s[0], x) {
        InsertPermutes(x, s[1..]);
      }
    }
  }

  lemma {:induction false} InsertSorted(x: Path, s: seq<Path>)
    requires Sorted(s)
    ensures Sorted(Insert(x, s))
  {
    if s == [] {
    } else if PathLess(s[0], x) {
      var t := Insert(x, s[1..]);
      InsertSorted(x, s[1..]);
      InsertPermutes(x, s[1..]);
      forall k | 0 <= k < |t|
        ensures !PathLess(t[k], s[0])
      {
        assert t[k] in multiset(t);
        if t[k] == x {
          if PathLess(x, s[0]) {
            PathLessTransitive(x, s[0], x);
            PathLessIrreflexive(x);
          }
        } else {
          assert t[k] in multiset(s[1..]);
          var m :| 0 <= m < |s[1..]| && s[1..][m] == t[k];
          assert s[m + 1] == t[k];
        }
      }
      SortedCons(s[0], t);
    } else {
      forall k | 0 <= k < |s|
        ensures !PathLess(s[k], x)
      {
        if k > 0 {
          NotLessTransitive(x, s[0], s[k]);
        }
      }
      SortedCons(x, s);
    }
  }

  /** `std::sort` over paths: a sorted permutation. */
  function SortPaths(s: seq<Path>): (r: seq<Path>)
    ensures Sorted(r) && multiset(r) == multiset(s)
  {
    if s == [] then []
    else
      var t := SortPaths(s[1..]);
      InsertSorted(s[0], t);
      InsertPermutes(s[0], t);
      assert s == [s[0]] + s[1..];
      Insert(s[0], t)
  }

  /** The head of a sorted sequence is below every element. */
  lemma SortedHeadLeast(a: seq<Path>, x: Path)
    requires Sorted(a) && x in multiset(a)
    ensures !PathLess(x, a[0])
  {
    var j :| 0 <= j < |a| && a[j] == x;
    if j == 0 {
      PathLessIrreflexive(x);
    }
  }

  lemma SortedTail(a: seq<Path>)
    requires a != [] && Sorted(a)
    ensures Sorted(a[1..])
  {
    var t := a[1..];
    forall i, j | 0 <= i < j < |t|
      ensures !PathLess(t[j], t[i])
    {
      assert t[i] == a[i + 1] && t[j] == a[j + 1];
    }
  }

  lemma TailMultiset(a: seq<Path>)
    requires a != []
    ensures multiset(a[1..]) == multiset(a) - multiset{a[0]}
  {
    assert a == [a[0]] + a[1..];
  }

  /** Two sorted arrangements of the same paths are the same sequence. */
  lemma {:induction false} SortedUnique(a: seq<Path>, b: seq<Path>)
    requires Sorted(a) && Sorted(b) && multiset(a) == multiset(b)
    ensures a == b
  {
    if a == [] {
      assert |b| == |multiset(b)| == 0;
    } else {
      assert |b| == |multiset(b)| == |multiset(a)| == |a|;
      assert a[0] in multiset(b) && b[0] in multiset(a);
      SortedHeadLeast(a, b[0]);
      SortedHeadLeast(b, a[0]);
      PathLessTotal(a[0], b[0]);
      assert a[0] == b[0];
      TailMultiset(a);
      TailMultiset(b);
      assert multiset(a[1..]) == multiset(b[1..]);
      SortedTail(a);
      SortedTail(b);
      SortedUnique(a[1..], b[1..]);
      assert a == [a[0]] + a[1..] && b == [b[0]] + b[1..];
    }
  }
}
