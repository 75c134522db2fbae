/**
 * Character-level string helpers shared by the core files: the whitespace
 * set that `find_first_not_of` / `find_last_not_of` skip, `std::getline`
 * splitting, prefix tests and first-occurrence searches.
 */
module Text {
  import opened Wrappers

  /** The four characters " \t\r\n" that the trimming code strips. */
  predicate IsSpace(c: char) {
    c == ' ' || c == '\t' || c == '\r' || c == '\n'
  }

  predicate AllSpace(s: string) {
    forall i :: 0 <= i < |s| ==> IsSpace(s[i])
  }

  /**
   * `s.erase(s.find_last_not_of(ws) + 1)`: drops the longest all-space
   * suffix (everything, when no character is kept).
   */
  function TrimTrailing(s: string): (r: string)
    ensures |r| <= |s|
    ensures r == [] || !IsSpace(r[|r| - 1])
    ensures AllSpace(s[|r|..])
  {
    if s != [] && IsSpace(s[|s| - 1]) then TrimTrailing(s[..|s| - 1]) else s
  }

  /** `s.erase(0, s.find_first_not_of(ws))`: drops the longest all-space prefix. */
  function TrimLeading(s: string): (r: string)
    ensures |r| <= |s|
    ensures r == [] || !IsSpace(r[0])
    ensures AllSpace(s[..|s| - |r|])
  {
    if s != [] && IsSpace(s[0]) then TrimLeading(s[1..]) else s
  }

  /** The trailing trim keeps a prefix of the text. */
  lemma {:induction false} TrimTrailingIsPrefix(s: string)
    ensures TrimTrailing(s) <= s
  {
    if s != [] && IsSpace(s[|s| - 1]) {
      TrimTrailingIsPrefix(s[..|s| - 1]);
    }
  }

  /** The leading trim keeps a suffix of the text. */
  lemma {:induction false} TrimLeadingIsSuffix(s: string)
    ensures TrimLeading(s) == s[|s| - |TrimLeading(s)|..]
  {
    if s != [] && IsSpace(s[0]) {
      TrimLeadingIsSuffix(s[1..]);
    }
  }

  /** Both ends stripped, as parser.cpp's `trim` does. */
  function Trimmed(s: string): string {
    TrimTrailing(TrimLeading(s))
  }

  /** Any prefix of `s` that ends in a non-space and leaves only spaces behind is the trailing trim. */
  lemma {:induction false} TrimTrailingUnique(s: string, p: string)
    requires p <= s
    requires p == [] || !IsSpace(p[|p| - 1])
    requires AllSpace(s[|p|..])
    ensures p == TrimTrailing(s)
  {
    if |p| < |s| {
      assert IsSpace(s[|p|..][|s| - 1 - |p|]);
      var s' := s[..|s| - 1];
      assert s'[|p|..] == s[|p|..][..|s| - 1 - |p|];
      TrimTrailingUnique(s', p);
    }
  }

  /** Begins and ends with a non-space character, or is empty. */
  predicate IsTrimmed(s: string) {
    s == [] || (!IsSpace(s[0]) && !IsSpace(s[|s| - 1]))
  }

  /** Trimming leaves a text that is already trimmed as it is. */
  lemma TrimmedKeeps(s: string)
    requires IsTrimmed(s)
    ensures Trimmed(s) == s
  {
    assert TrimLeading(s) == s;
  }

  /** The result of trimming begins and ends with a non-space character. */
  lemma TrimmedEnds(s: string)
    ensures var t := Trimmed(s); t == [] || (!IsSpace(t[0]) && !IsSpace(t[|t| - 1]))
  {
    var l := TrimLeading(s);
    var t := TrimTrailing(l);
    TrimTrailingIsPrefix(l);
    if t != [] {
      assert t[0] == l[0];
    }
  }

  /** The trimmed text is a contiguous piece of the input with only spaces around it. */
  lemma TrimmedIsInterior(s: string)
    ensures var t := Trimmed(s); var i := |s| - |TrimLeading(s)|;
      i + |t| <= |s| && t == s[i..i + |t|] && AllSpace(s[..i]) && AllSpace(s[i + |t|..])
  {
    var l := TrimLeading(s);
    var t := TrimTrailing(l);
    var i := |s| - |l|;
    TrimLeadingIsSuffix(s);
    TrimTrailingIsPrefix(l);
    assert l == s[i..];
    assert t == l[..|t|];
    assert s[i + |t|..] == l[|t|..];
  }

  /** Trimming empties a text exactly when it is all spaces. */
  lemma TrimmedEmpty(s: string)
    ensures Trimmed(s) == [] <==> AllSpace(s)
  {
    TrimmedIsInterior(s);
    var i := |s| - |TrimLeading(s)|;
    if Trimmed(s) == [] {
      forall j | 0 <= j < |s|
        ensures IsSpace(s[j])
      {
        assert s[..i][j] == s[j];
      }
    } else {
      TrimmedEnds(s);
      assert s[i] == Trimmed(s)[0];
    }
  }

  /** Trimming twice is trimming once. */
  lemma {:induction false} TrimmedIdempotent(s: string)
    ensures Trimmed(Trimmed(s)) == Trimmed(s)
  {
    var t := Trimmed(s);
    TrimmedEnds(s);
    assert TrimLeading(t) == t;
    assert TrimTrailing(t) == t;
  }

  /** Index of the first `c` in `s` (`std::string::find(c)`), or None for `npos`. */
  function FindChar(s: string, c: char): (r: Option<nat>)
    ensures r.None? <==> c !in s
    ensures r.Some? ==> r.value < |s| && s[r.value] == c && c !in s[..r.value]
  {
    if s == [] then None
    else if s[0] == c then Some(0)
    else match FindChar(s[1..], c)
      case None => None
      case Some(i) => Some(i + 1)
  }

  /** `pat` occurs in `s` at index `i`. */
  predicate OccursAt(s: string, pat: string, i: nat) {
    i + |pat| <= |s| && s[i..i + |pat|] == pat
  }

  /** Index of the first occurrence of `pat` in `s` (`std::string::find(pat)`), or None for `npos`. */
  function Find(s: string, pat: string): (r: Option<nat>)
    ensures r.Some? ==> OccursAt(s, pat, r.value) && forall j :: 0 <= j < r.value ==> !OccursAt(s, pat, j)
    ensures r.None? ==> forall j :: 0 <= j <= |s| ==> !OccursAt(s, pat, j)
  {
    FindFrom(s, pat, 0)
  }

  function FindFrom(s: string, pat: string, i: nat): (r: Option<nat>)
    requires i <= |s|
    requires forall j :: 0 <= j < i ==> !OccursAt(s, pat, j)
    ensures r.Some? ==> OccursAt(s, pat, r.value) && forall j :: 0 <= j < r.value ==> !OccursAt(s, pat, j)
    ensures r.None? ==> forall j :: 0 <= j <= |s| ==> !OccursAt(s, pat, j)
    decreases |s| - i
  {
    if OccursAt(s, pat, i) then Some(i)
    else if i == |s| then None
    else FindFrom(s, pat, i + 1)
  }

  /**
   * Split at the first `c`: the text before it and the text after it, or
   * the whole text and "" when there is none.
   */
  function SplitAt(s: string, c: char): (r: (string, string))
    ensures c !in s ==> r == (s, "")
    ensures c in s ==> r.0 + [c] + r.1 == s && c !in r.0
  {
    match FindChar(s, c)
      case None => (s, "")
      case Some(i) =>
        assert s == s[..i] + [c] + s[i + 1..];
        (s[..i], s[i + 1..])
  }

  /** Splitting text that has no `c` before a `c` gives back both sides. */
  lemma {:induction false} SplitAtFirst(a: string, c: char, b: string)
    requires c !in a
    ensures SplitAt(a + [c] + b, c) == (a, b)
  {
    FindCharAfter(a, c, b);
    assert (a + [c] + b)[..|a|] == a;
    assert (a + [c] + b)[|a| + 1..] == b;
  }

  lemma {:induction false} FindCharAfter(a: string, c: char, b: string)
    requires c !in a
    ensures FindChar(a + [c] + b, c) == Some(|a|)
  {
    if a != [] {
      assert (a + [c] + b)[1..] == a[1..] + [c] + b;
      FindCharAfter(a[1..], c, b);
    }
  }

  /**
   * The lines `std::getline` yields from a text: split on '\n', no line for
   * a final newline, none at all for the empty text; '\r' is kept.
   */
  function Lines(s: string): (ls: seq<string>)
    ensures forall i :: 0 <= i < |ls| ==> '\n' !in ls[i]
    decreases |s|
  {
    if s == [] then []
    else match FindChar(s, '\n')
      case None => [s]
      case Some(i) => [s[..i]] + Lines(s[i + 1..])
  }

  /** A newline-free line followed by '\n' is read back as that one line. */
  lemma LinesCons(a: string, rest: string)
    requires '\n' !in a
    ensures Lines(a + "\n" + rest) == [a] + Lines(rest)
  {
    var s := a + "\n" + rest;
    assert s[..|a|] == a;
    assert s[|a|] == '\n';
    assert FindChar(s, '\n') == Some(|a|) by {
      assert '\n' !in s[..|a|];
    }
    assert s[|a| + 1..] == rest;
  }

  /** What a single `std::getline` into an empty string reads: the first line, or "" at end of input. */
  function FirstLine(s: string): (r: string)
    ensures '\n' !in r
    ensures r <= s
  {
    match FindChar(s, '\n')
      case None => s
      case Some(i) => s[..i]
  }
}
