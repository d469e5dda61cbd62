/** The file-name helpers of utils.go: `normalizeFilename` (characters that
    are invalid in a Windows file name), `basename` (the name without its
    extension, after Go's `path.Ext`) and `normalizeDirectory`. */
module Paths {

  import opened GoStrings

  // The characters of the class in utils.go's pattern: < > " | ? * / \ : %
  predicate IsBadChar(c: char)
  {
    c == '<' || c == '>' || c == '"' || c == '|' || c == '?' || c == '*'
    || c == '/' || c == '\\' || c == ':' || c == '%'
  }

  predicate NoBadChars(s: string)
  {
    forall i :: 0 <= i < |s| ==> !IsBadChar(s[i])
  }

  predicate AllBadChars(s: string)
  {
    forall i :: 0 <= i < |s| ==> IsBadChar(s[i])
  }

  /** Skips the run of invalid characters at the front of `s`. */
  function DropBadRun(s: string): (r: string)
    ensures |r| <= |s| && r == s[|s| - |r|..]
    ensures AllBadChars(s[..|s| - |r|])
    ensures r == [] || !IsBadChar(r[0])
  {
    if s != [] && IsBadChar(s[0]) then DropBadRun(s[1..]) else s
  }

  // The regular-expression replacement of utils.go `normalizeFilename`: each
  // maximal run of invalid characters becomes a single underscore.
  function NormalizeFilename(s: string): (r: string)
    ensures |r| <= |s|
    ensures s != [] ==> r != []
    decreases |s|
  {
    if s == [] then []
    else if IsBadChar(s[0]) then "_" + NormalizeFilename(DropBadRun(s[1..]))
    else [s[0]] + NormalizeFilename(s[1..])
  }

  /** A normalised name holds no invalid character. */
  lemma {:induction false} NormalizeFilenameValid(s: string)
    ensures NoBadChars(NormalizeFilename(s))
    decreases |s|
  {
    if s != [] {
      if IsBadChar(s[0]) {
        NormalizeFilenameValid(DropBadRun(s[1..]));
      } else {
        NormalizeFilenameValid(s[1..]);
      }
    }
  }

  /** A name without invalid characters is left as it is. */
  lemma {:induction false} NormalizeFilenameClean(s: string)
    requires NoBadChars(s)
    ensures NormalizeFilename(s) == s
    decreases |s|
  {
    if s != [] {
      NormalizeFilenameClean(s[1..]);
    }
  }

  /** Normalising a normalised name changes nothing. */
  lemma NormalizeFilenameIdempotent(s: string)
    ensures NormalizeFilename(NormalizeFilename(s)) == NormalizeFilename(s)
  {
    NormalizeFilenameValid(s);
    NormalizeFilenameClean(NormalizeFilename(s));
  }

  /** A maximal run of invalid characters after a clean prefix is replaced
      by exactly one underscore, and normalisation carries on after the run. */
  lemma NormalizeFilenameRun(clean: string, run: string, rest: string)
    requires NoBadChars(clean)
    requires run != [] && AllBadChars(run)
    requires rest == [] || !IsBadChar(rest[0])
    ensures NormalizeFilename(clean + run + rest) == clean + "_" + NormalizeFilename(rest)
  {
    var tail := run + rest;
    var n := NormalizeFilename(rest);
    assert clean + run + rest == clean + tail;
    NormalizeFilenameCleanPrefix(clean, tail);
    NormalizeFilenameRunStart(run, rest);
    ConcatAssoc(clean, "_", n);
  }

  lemma ConcatAssoc(a: string, b: string, c: string)
    ensures a + (b + c) == a + b + c
  {
  }

  /** A prefix without invalid characters is kept as it is. */
  lemma {:induction false} NormalizeFilenameCleanPrefix(clean: string, tail: string)
    requires NoBadChars(clean)
    ensures NormalizeFilename(clean + tail) == clean + NormalizeFilename(tail)
    decreases |clean|
  {
    if clean == [] {
      assert clean + tail == tail;
    } else {
      var n := NormalizeFilename(tail);
      NormalizeFilenameCleanHead(clean, tail);
      NoBadCharsTail(clean);
      NormalizeFilenameCleanPrefix(clean[1..], tail);
      assert [clean[0]] + (clean[1..] + n) == clean + n;
    }
  }

  lemma NoBadCharsTail(s: string)
    requires s != [] && NoBadChars(s)
    ensures !IsBadChar(s[0]) && NoBadChars(s[1..])
  {
  }

  lemma NormalizeFilenameCleanHead(clean: string, tail: string)
    requires clean != [] && !IsBadChar(clean[0])
    ensures NormalizeFilename(clean + tail) == [clean[0]] + NormalizeFilename(clean[1..] + tail)
  {
    var s := clean + tail;
    assert s[0] == clean[0];
    assert s[1..] == clean[1..] + tail;
  }

  lemma NormalizeFilenameRunStart(run: string, rest: string)
    requires run != [] && AllBadChars(run)
    requires rest == [] || !IsBadChar(rest[0])
    ensures NormalizeFilename(run + rest) == "_" + NormalizeFilename(rest)
  {
    var s := run + rest;
    assert IsBadChar(s[0]);
    assert s[1..] == run[1..] + rest;
    DropBadRunSkips(run[1..], rest);
  }

  lemma {:induction false} DropBadRunSkips(run: string, rest: string)
    requires AllBadChars(run)
    requires rest == [] || !IsBadChar(rest[0])
    ensures DropBadRun(run + rest) == rest
    decreases |run|
  {
    if run != [] {
      assert (run + rest)[1..] == run[1..] + rest;
      DropBadRunSkips(run[1..], rest);
    } else {
      assert run + rest == rest;
    }
  }

  /** Some `.` in the final slash-separated element of `p`. */
  predicate LastElementHasDot(p: string)
  {
    exists i :: 0 <= i < |p| && p[i] == '.' && '/' !in p[i + 1..]
  }

  /** The loop of `path.Ext`, looking at `p[..i]` from the right; `p[i..]`
      has already been seen to hold neither `.` nor `/`. */
  function ExtBefore(p: string, i: nat): (r: string)
    requires i <= |p|
    requires '.' !in p[i..] && '/' !in p[i..]
    ensures |r| <= |p| && r == p[|p| - |r|..]
    ensures r != [] ==> r[0] == '.' && '.' !in r[1..] && '/' !in r
    ensures r == [] ==> forall j :: 0 <= j < i && p[j] == '.' ==> '/' in p[j + 1..]
    decreases i
  {
    if i == 0 then []
    else if p[i - 1] == '/' then []
    else if p[i - 1] == '.' then p[i - 1..]
    else
      assert p[i - 1..] == [p[i - 1]] + p[i..];
      ExtBefore(p, i - 1)
  }

  /** `path.Ext`: the suffix from the final `.` of the final element, or empty. */
  function Ext(p: string): (r: string)
    ensures |r| <= |p| && r == p[|p| - |r|..]
    ensures r != [] ==> r[0] == '.' && '.' !in r[1..] && '/' !in r
    ensures r == [] <==> !LastElementHasDot(p)
  {
    var r := ExtBefore(p, |p|);
    assert r != [] ==> p[|p| - |r|] == '.' && '/' !in p[|p| - |r| + 1..] by {
      if r != [] {
        assert r[1..] == p[|p| - |r| + 1..];
      }
    }
    r
  }

  /** utils.go `basename`: the name with the extension trimmed. */
  function Basename(f: string): (r: string)
    ensures r + Ext(f) == f
    ensures r == f[..|r|]
    ensures !LastElementHasDot(f) ==> r == f
  {
    TrimSuffix(f, Ext(f))
  }

  /** utils.go `normalizeDirectory`: on Windows every backslash becomes a
      forward slash; everywhere else the directory is returned as given. */
  function NormalizeDirectory(dir: string, goos: string): (r: string)
    ensures |r| == |dir|
    ensures goos != "windows" ==> r == dir
    ensures goos == "windows" ==> '\\' !in r
    ensures goos == "windows" ==>
      forall i :: 0 <= i < |dir| ==> r[i] == (if dir[i] == '\\' then '/' else dir[i])
  {
    if goos != "windows" then dir else ReplaceChar(dir, '\\', '/')
  }
}
