/**
 * The per-dependency lock record `.zyn/lock/<name>.lock`: the text
 * `write_lock` produces, the strict reader used before installing and the
 * lenient reader used by `update`.
 */
module LockFile {
  import opened Text

  /** What `fs::exists` and `std::ifstream` observe at the lock path. */
  datatype LockState = Absent | Unreadable | Present(text: string)

  /** The record `write_lock` writes: two newline-terminated lines. */
  function LockText(rev: string, hash: string): string {
    "rev=" + rev + "\n" + "sha256=" + hash + "\n"
  }

  /** Read back line by line, a record whose values hold no newline gives exactly its two lines. */
  lemma LockTextLines(rev: string, hash: string)
    requires '\n' !in rev && '\n' !in hash
    ensures Lines(LockText(rev, hash)) == ["rev=" + rev, "sha256=" + hash]
  {
    var l0, l1 := "rev=" + rev, "sha256=" + hash;
    assert '\n' !in l0 && '\n' !in l1;
    assert LockText(rev, hash) == l0 + "\n" + (l1 + "\n" + "");
    LinesCons(l0, l1 + "\n" + "");
    LinesCons(l1, "");
  }

  // ---------------------------------------------------------------------
  // check_lock_strict

  predicate IsRevLine(l: string) {
    "rev=" <= l
  }

  predicate IsHashLine(l: string) {
    "sha256=" <= l
  }

  predicate Recognised(l: string) {
    IsRevLine(l) || IsHashLine(l)
  }

  /** The state of the strict reading loop: stopped at an invalid line, or the fields seen so far. */
  datatype Scan = Invalid(line: string) | Fields(rev: string, hash: string, count: nat)

  /** The strict loop over a prefix of the lines: a later line overwrites its field and counts. */
  function ScanStrict(lines: seq<string>): Scan {
    if lines == [] then Fields("", "", 0)
    else
      var l := lines[|lines| - 1];
      match ScanStrict(lines[..|lines| - 1])
        case Invalid(bad) => Invalid(bad)
        case Fields(r, h, n) =>
          if IsRevLine(l) then Fields(l[4..], h, n + 1)
          else if IsHashLine(l) then Fields(r, l[7..], n + 1)
          else Invalid(l)
  }

  /** Why `check_lock_strict` returned what it did (one case per diagnostic it prints). */
  datatype Verdict =
    | Verified
    | Missing
    | CannotOpen
    | InvalidLine(line: string)
    | WrongLineCount(count: nat)
    | EmptyField
    | RevMismatch(expected: string, found: string)
    | HashMismatch(expected: string, found: string)

  function StrictVerdict(lock: LockState, expectedRev: string, expectedHash: string): Verdict {
    match lock
      case Absent => Missing
      case Unreadable => CannotOpen
      case Present(text) =>
        match ScanStrict(Lines(text))
          case Invalid(l) => InvalidLine(l)
          case Fields(rev, hash, n) =>
            if n != 2 then WrongLineCount(n)
            else if rev == "" || hash == "" then EmptyField
            else if rev != expectedRev then RevMismatch(expectedRev, rev)
            else if hash != expectedHash then HashMismatch(expectedHash, hash)
            else Verified
  }

  /**
   * The verdict on a record `write_lock` wrote: the first of the checks
   * after the line count that fails, in the order the reader makes them.
   */
  lemma StrictVerdictOfRecord(rev: string, hash: string, expectedRev: string, expectedHash: string)
    requires '\n' !in rev && '\n' !in hash
    ensures StrictVerdict(Present(LockText(rev, hash)), expectedRev, expectedHash) ==
      if rev == "" || hash == "" then EmptyField
      else if rev != expectedRev then RevMismatch(expectedRev, rev)
      else if hash != expectedHash then HashMismatch(expectedHash, hash)
      else Verified
  {
    LockTextLines(rev, hash);
    var lr, lh := "rev=" + rev, "sha256=" + hash;
    TwoLineScan(lr, lh);
    assert !IsRevLine(lh) by { assert lh[0] == 's'; }
    assert lr[4..] == rev && lh[7..] == hash;
  }

  /** What the strict check accepts, said directly: exactly the two expected lines, in either order, both values non-empty. */
  predicate StrictAccepts(lock: LockState, expectedRev: string, expectedHash: string) {
    && lock.Present?
    && expectedRev != ""
    && expectedHash != ""
    && (|| Lines(lock.text) == ["rev=" + expectedRev, "sha256=" + expectedHash]
        || Lines(lock.text) == ["sha256=" + expectedHash, "rev=" + expectedRev])
  }

  /** A scan that reached its end without an invalid line counted every line. */
  lemma {:induction false} ScanStrictCounts(lines: seq<string>)
    ensures ScanStrict(lines).Fields? ==> ScanStrict(lines).count == |lines|
    ensures ScanStrict(lines).Fields? <==> forall i :: 0 <= i < |lines| ==> Recognised(lines[i])
  {
    if lines != [] {
      var init := lines[..|lines| - 1];
      ScanStrictCounts(init);
      assert forall i :: 0 <= i < |init| ==> init[i] == lines[i];
    }
  }

  /** Once the strict scan has met an invalid line, later lines do not matter. */
  lemma {:induction false} ScanStrictStops(a: seq<string>, b: seq<string>)
    requires ScanStrict(a).Invalid?
    ensures ScanStrict(a + b) == ScanStrict(a)
  {
    if b != [] {
      var init := b[..|b| - 1];
      assert (a + b)[..|a + b| - 1] == a + init;
      ScanStrictStops(a, init);
    } else {
      assert a + b == a;
    }
  }

  lemma TwoLineScan(l0: string, l1: string)
    ensures ScanStrict([l0, l1]) ==
      if !Recognised(l0) then Invalid(l0)
      else if !Recognised(l1) then Invalid(l1)
      else
        var r0 := if IsRevLine(l0) then l0[4..] else "";
        var h0 := if IsRevLine(l0) then "" else l0[7..];
        if IsRevLine(l1) then Fields(l1[4..], h0, 2) else Fields(r0, l1[7..], 2)
  {
    assert [l0, l1][..1] == [l0];
    assert [l0][..0] == [];
    assert ScanStrict([l0]) ==
      if IsRevLine(l0) then Fields(l0[4..], "", 1)
      else if IsHashLine(l0) then Fields("", l0[7..], 1)
      else Invalid(l0);
  }

  /** The strict verdict is Verified exactly when the record is the expected pair of lines. */
  lemma StrictVerdictCharacterised(lock: LockState, expectedRev: string, expectedHash: string)
    ensures StrictVerdict(lock, expectedRev, expectedHash) == Verified
        <==> StrictAccepts(lock, expectedRev, expectedHash)
  {
    if lock.Present? {
      var lines := Lines(lock.text);
      var sc := ScanStrict(lines);
      ScanStrictCounts(lines);
      assert StrictVerdict(lock, expectedRev, expectedHash) == Verified
          <==> sc.Fields? && sc.count == 2 && sc.rev != "" && sc.hash != "" && sc.rev == expectedRev && sc.hash == expectedHash;
      if |lines| == 2 {
        assert lines == [lines[0], lines[1]];
        PairAccepted(lines[0], lines[1], expectedRev, expectedHash);
      }
    }
  }

  /** Two lines pass every strict check exactly when they are the expected revision and hash lines, in either order. */
  lemma PairAccepted(l0: string, l1: string, expectedRev: string, expectedHash: string)
    ensures var sc := ScanStrict([l0, l1]);
      (sc.Fields? && sc.count == 2 && sc.rev != "" && sc.hash != "" && sc.rev == expectedRev && sc.hash == expectedHash)
      <==> (&& expectedRev != "" && expectedHash != ""
            && ([l0, l1] == ["rev=" + expectedRev, "sha256=" + expectedHash]
                || [l0, l1] == ["sha256=" + expectedHash, "rev=" + expectedRev]))
  {
    TwoLineScan(l0, l1);
    if IsRevLine(l0) { assert l0 == "rev=" + l0[4..]; }
    if IsHashLine(l0) { assert l0 == "sha256=" + l0[7..]; }
    if IsRevLine(l1) { assert l1 == "rev=" + l1[4..]; }
    if IsHashLine(l1) { assert l1 == "sha256=" + l1[7..]; }
    assert ("rev=" + expectedRev)[4..] == expectedRev;
    assert ("sha256=" + expectedHash)[7..] == expectedHash;
    assert !IsRevLine("sha256=" + expectedHash) by { assert ("sha256=" + expectedHash)[0] == 's'; }
  }

  /** For values without newlines, the strict check accepts what `write_lock` wrote exactly when the expected values are the written ones. */
  lemma {:induction false} StrictRoundTrip(rev: string, hash: string, expectedRev: string, expectedHash: string)
    requires rev != "" && hash != "" && '\n' !in rev && '\n' !in hash
    ensures StrictVerdict(Present(LockText(rev, hash)), expectedRev, expectedHash) == Verified
        <==> expectedRev == rev && expectedHash == hash
  {
    LockTextLines(rev, hash);
    StrictVerdictCharacterised(Present(LockText(rev, hash)), expectedRev, expectedHash);
    var lines := ["rev=" + rev, "sha256=" + hash];
    if lines == ["rev=" + expectedRev, "sha256=" + expectedHash] {
      assert ("rev=" + rev)[4..] == rev && ("rev=" + expectedRev)[4..] == expectedRev;
      assert ("sha256=" + hash)[7..] == hash && ("sha256=" + expectedHash)[7..] == expectedHash;
    }
    if lines == ["sha256=" + expectedHash, "rev=" + expectedRev] {
      assert lines[0][0] == 'r' && ("sha256=" + expectedHash)[0] == 's';
    }
  }

  /** A record holding an unrecognised line is rejected, naming the first such line. */
  lemma {:induction false} StrictRejectsUnrecognised(text: string, expectedRev: string, expectedHash: string, k: nat)
    requires k < |Lines(text)| && !Recognised(Lines(text)[k])
    requires forall i :: 0 <= i < k ==> Recognised(Lines(text)[i])
    ensures StrictVerdict(Present(text), expectedRev, expectedHash) == InvalidLine(Lines(text)[k])
  {
    var lines := Lines(text);
    var pre := lines[..k];
    var upto := lines[..k + 1];
    ScanStrictCounts(pre);
    assert upto[..k] == pre;
    assert ScanStrict(upto) == Invalid(lines[k]);
    ScanStrictStops(upto, lines[k + 1..]);
    assert upto + lines[k + 1..] == lines;
  }

  /**
   * `check_lock_strict(name, expected_rev, expected_hash)`: reads the
   * record line by line, stops at the first line that starts with neither
   * "rev=" nor "sha256=", then demands two recognised lines, both values
   * non-empty and equal to the expected ones.
   */
  method CheckLockStrict(lock: LockState, expectedRev: string, expectedHash: string) returns (v: Verdict)
    ensures v == StrictVerdict(lock, expectedRev, expectedHash)
    ensures v == Verified <==> StrictAccepts(lock, expectedRev, expectedHash)
  {
    StrictVerdictCharacterised(lock, expectedRev, expectedHash);
    if lock.Absent? {
      return Missing;
    }
    if lock.Unreadable? {
      return CannotOpen;
    }
    var lines := Lines(lock.text);
    var rev, hash := "", "";
    var validLines := 0;
    var i := 0;
    while i < |lines|
      invariant 0 <= i <= |lines|
      invariant ScanStrict(lines[..i]) == Fields(rev, hash, validLines)
    {
      var line := lines[i];
      assert lines[..i + 1][..i] == lines[..i];
      if "rev=" <= line {
        rev := line[4..];
        validLines := validLines + 1;
      } else if "sha256=" <= line {
        hash := line[7..];
        validLines := validLines + 1;
      } else {
        ScanStrictStops(lines[..i + 1], lines[i + 1..]);
        assert lines[..i + 1] + lines[i + 1..] == lines;
        return InvalidLine(line);
      }
      i := i + 1;
    }
    assert lines[..i] == lines;
    if validLines != 2 {
      return WrongLineCount(validLines);
    }
    if rev == "" || hash == "" {
      return EmptyField;
    }
    if rev != expectedRev {
      return RevMismatch(expectedRev, rev);
    }
    if hash != expectedHash {
      return HashMismatch(expectedHash, hash);
    }
    return Verified;
  }

  // ---------------------------------------------------------------------
  // check_lock (lenient)

  /** A line the lenient reader takes as the revision: "rev=" and at least one more character. */
  predicate IsLenientRev(l: string) {
    |l| > 4 && "rev=" <= l
  }

  predicate IsLenientHash(l: string) {
    |l| > 7 && "sha256=" <= l
  }

  /** The lenient loop over a prefix of the lines: unrecognised lines are skipped, a later value overwrites. */
  function ScanLenient(lines: seq<string>): (string, string) {
    if lines == [] then ("", "")
    else
      var l := lines[|lines| - 1];
      var (r, h) := ScanLenient(lines[..|lines| - 1]);
      if IsLenientRev(l) then (l[4..], h)
      else if IsLenientHash(l) then (r, l[7..])
      else (r, h)
  }

  /** The lines the lenient reader sees: none when the file cannot be opened. */
  function LenientLines(lock: LockState): seq<string> {
    if lock.Present? then Lines(lock.text) else []
  }

  predicate LenientAccepts(lock: LockState, rev: string, hash: string) {
    !lock.Absent? && ScanLenient(LenientLines(lock)) == (rev, hash)
  }

  /** The revision the lenient reader reports is that of the last revision line, whatever follows it. */
  lemma {:induction false} LenientLastRevWins(a: seq<string>, l: string, b: seq<string>)
    requires IsLenientRev(l)
    requires forall i :: 0 <= i < |b| ==> !IsLenientRev(b[i])
    ensures ScanLenient(a + [l] + b).0 == l[4..]
  {
    if b == [] {
      assert (a + [l] + b)[..|a| ] == a;
    } else {
      var init := b[..|b| - 1];
      assert (a + [l] + b)[..|a + [l] + b| - 1] == a + [l] + init;
      LenientLastRevWins(a, l, init);
    }
  }

  /** Likewise for the hash. */
  lemma {:induction false} LenientLastHashWins(a: seq<string>, l: string, b: seq<string>)
    requires IsLenientHash(l)
    requires forall i :: 0 <= i < |b| ==> !IsLenientHash(b[i])
    ensures ScanLenient(a + [l] + b).1 == l[7..]
  {
    if b == [] {
      assert (a + [l] + b)[..|a| ] == a;
      assert !IsLenientRev(l) by {
        assert l[0] == 's';
      }
    } else {
      var init := b[..|b| - 1];
      assert (a + [l] + b)[..|a + [l] + b| - 1] == a + [l] + init;
      LenientLastHashWins(a, l, init);
    }
  }

  /** The lenient reader accepts whatever `write_lock` wrote for the same values. */
  lemma LenientRoundTrip(rev: string, hash: string)
    requires '\n' !in rev && '\n' !in hash
    ensures LenientAccepts(Present(LockText(rev, hash)), rev, hash)
  {
    LockTextLines(rev, hash);
    var lr, lh := "rev=" + rev, "sha256=" + hash;
    var lines := [lr, lh];
    assert lines[..1] == [lr];
    assert [lr][..0] == lines[..0];
    assert lr[4..] == rev && lh[7..] == hash;
    assert !IsLenientRev(lh) by {
      assert lh[0] == 's';
    }
    assert ScanLenient([lr]) == (if IsLenientRev(lr) then (rev, "") else ("", ""));
    assert ScanLenient(lines) == (if IsLenientHash(lh) then (ScanLenient([lr]).0, hash) else ScanLenient([lr]));
  }

  /** Whatever the strict check accepts, the lenient one accepts too. */
  lemma StrictImpliesLenient(lock: LockState, rev: string, hash: string)
    requires StrictAccepts(lock, rev, hash)
    ensures LenientAccepts(lock, rev, hash)
  {
    var lines := Lines(lock.text);
    var lr, lh := "rev=" + rev, "sha256=" + hash;
    assert lr[4..] == rev && lh[7..] == hash;
    assert !IsLenientRev(lh) by { assert lh[0] == 's'; }
    assert !IsLenientHash(lr) by { assert lr[0] == 'r'; }
    assert lines[..1][..0] == [];
  }

  /**
   * `check_lock(name, rev, hash)`: false when the file does not exist;
   * otherwise the last non-empty "rev=" and "sha256=" values read (or "")
   * must equal the given ones.
   */
  method CheckLock(lock: LockState, rev: string, hash: string) returns (ok: bool)
    ensures ok <==> LenientAccepts(lock, rev, hash)
  {
    if lock.Absent? {
      return false;
    }
    var lines := LenientLines(lock);
    var fileRev, fileHash := "", "";
    var i := 0;
    while i < |lines|
      invariant 0 <= i <= |lines|
      invariant ScanLenient(lines[..i]) == (fileRev, fileHash)
    {
      var line := lines[i];
      assert lines[..i + 1][..i] == lines[..i];
      if |line| > 4 && "rev=" <= line {
        fileRev := line[4..];
      } else if |line| > 7 && "sha256=" <= line {
        fileHash := line[7..];
      }
      i := i + 1;
    }
    assert lines[..i] == lines;
    return fileRev == rev && fileHash == hash;
  }
}
