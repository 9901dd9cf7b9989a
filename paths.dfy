/** The `System.IO.Path` operations used to name a repository and place its working
    copy: `GetFileName`, `GetFileNameWithoutExtension`, `IsPathRooted` and `Combine`,
    with the Windows separators. The functions only compute; what they promise is
    stated by the lemmas after each of them. */
module Paths {
  import opened Wrappers

  /** The directory separator `\` and the alternative separator `/`. */
  predicate IsDirectorySeparator(c: char) {
    c == '\\' || c == '/'
  }

  predicate HasNoSeparator(s: string) {
    forall i :: 0 <= i < |s| ==> !IsDirectorySeparator(s[i])
  }

  /** Index just after the last separator of `path`, 0 when it has none. */
  function FileNameStart(path: string): (k: nat)
    ensures k <= |path|
  {
    if path == [] then 0
    else if IsDirectorySeparator(path[|path| - 1]) then |path|
    else FileNameStart(path[..|path| - 1])
  }

  /** Nothing after `FileNameStart` is a separator, and the character just before it is one. */
  lemma {:induction false} FileNameStartIsAfterLastSeparator(path: string)
    ensures var k := FileNameStart(path);
      && (k > 0 ==> IsDirectorySeparator(path[k - 1]))
      && HasNoSeparator(path[k..])
  {
    if path != [] && !IsDirectorySeparator(path[|path| - 1]) {
      var p := path[..|path| - 1];
      FileNameStartIsAfterLastSeparator(p);
      var k := FileNameStart(p);
      assert path[k..] == p[k..] + [path[|path| - 1]];
    }
  }

  /** A drive letter: an ASCII letter. */
  predicate IsValidDriveChar(c: char) {
    'A' <= c <= 'Z' || 'a' <= c <= 'z'
  }

  /** The extended prefix `\\?\` or `\??\`, spelled with back slashes only. */
  predicate IsExtended(path: string) {
    && |path| >= 4
    && path[0] == '\\' && (path[1] == '\\' || path[1] == '?') && path[2] == '?' && path[3] == '\\'
  }

  /** A device path: the extended prefix, or two separators, '.' or '?', and a separator. */
  predicate IsDevice(path: string) {
    || IsExtended(path)
    || (&& |path| >= 4
        && IsDirectorySeparator(path[0]) && IsDirectorySeparator(path[1])
        && (path[2] == '.' || path[2] == '?') && IsDirectorySeparator(path[3]))
  }

  /** A device path to a network share: the device prefix followed by `UNC` and a separator. */
  predicate IsDeviceUnc(path: string) {
    |path| >= 8 && IsDevice(path) && path[4] == 'U' && path[5] == 'N' && path[6] == 'C' && IsDirectorySeparator(path[7])
  }

  /** The first separator of `path` at or after `i`, or `|path|` when there is none. */
  function NextSeparator(path: string, i: nat): (j: nat)
    requires i <= |path|
    ensures i <= j <= |path|
    decreases |path| - i
  {
    if i == |path| || IsDirectorySeparator(path[i]) then i else NextSeparator(path, i + 1)
  }

  /** `NextSeparator` stops at a separator, or at the end, and skips none. */
  lemma {:induction false} NextSeparatorIsFirst(path: string, i: nat)
    requires i <= |path|
    ensures var j := NextSeparator(path, i);
      && (j < |path| ==> IsDirectorySeparator(path[j]))
      && forall m :: i <= m < j ==> !IsDirectorySeparator(path[m])
    decreases |path| - i
  {
    if i < |path| && !IsDirectorySeparator(path[i]) {
      NextSeparatorIsFirst(path, i + 1);
    }
  }

  /** Length of the Windows path root, as `Path.GetPathRoot` measures it. A network
      share (`\\server\share`, or the device form `\\?\UNC\server\share`) runs up to
      the separator after the share; a device path (`\\?\C:`, `\\.\pipe`) takes its
      first segment and the separator after it; a lone leading separator is one
      character; a drive letter takes its ':' and the separator after it, if any.
      Any other path has no root. */
  function RootLength(path: string): (n: nat)
    ensures n <= |path|
  {
    var device := IsDevice(path);
    var deviceUnc := IsDeviceUnc(path);
    if (!device || deviceUnc) && |path| > 0 && IsDirectorySeparator(path[0]) then
      if deviceUnc || (|path| > 1 && IsDirectorySeparator(path[1])) then
        var server := NextSeparator(path, if deviceUnc then 8 else 2);
        if server == |path| then server else NextSeparator(path, server + 1)
      else 1
    else if device then
      var i := NextSeparator(path, 4);
      if i < |path| && i > 4 then i + 1 else i
    else if |path| >= 2 && path[1] == ':' && IsValidDriveChar(path[0]) then
      if |path| > 2 && IsDirectorySeparator(path[2]) then 3 else 2
    else 0
  }

  /** A path has a root exactly when `IsPathRooted` holds of it. */
  lemma {:induction false} RootLengthIffRooted(path: string)
    ensures RootLength(path) > 0 <==> IsPathRooted(path)
  {
    if IsPathRooted(path) && |path| > 0 && IsDirectorySeparator(path[0]) && !IsDevice(path) && |path| > 1 && IsDirectorySeparator(path[1]) {
      assert NextSeparator(path, 2) >= 2;
    }
  }

  /** `Path.GetFileName`: the text after the last separator, but never any part of the
      root (so `C:tool` names `tool`). */
  function GetFileName(path: string): (name: string)
    ensures |name| <= |path|
  {
    var start := FileNameStart(path);
    var root := RootLength(path);
    path[if start < root then root else start..]
  }

  /** The file name is a suffix of `path` holding no separator and no part of the root;
      it is all of `path`, or follows a separator, or follows the root. */
  lemma {:induction false} GetFileNameIsLastSegment(path: string)
    ensures var name := GetFileName(path);
      var k := |path| - |name|;
      && name == path[k..]
      && HasNoSeparator(name)
      && RootLength(path) <= k
      && (k > 0 ==> IsDirectorySeparator(path[k - 1]) || k == RootLength(path))
  {
    FileNameStartIsAfterLastSeparator(path);
    var start := FileNameStart(path);
    var root := RootLength(path);
    var k := if start < root then root else start;
    assert GetFileName(path) == path[k..];
    if start < root {
      assert forall i :: 0 <= i < |path| - k ==> path[k..][i] == path[start..][i + k - start];
    }
  }

  /** The drive of a drive-relative path is root, not file name: `C:tool.git` names
      `tool.git`. */
  lemma DriveRelativeFileName()
    ensures GetFileName("C:tool.git") == "tool.git"
  {
    var relative := "C:tool.git";
    FileNameStartIsAfterLastSeparator(relative);
    assert HasNoSeparator(relative);
    assert FileNameStart(relative) == 0;
    assert !IsDevice(relative) && RootLength(relative) == 2;
  }

  /** Index of the last '.' of `s` (`String.LastIndexOf('.')`), if there is one. */
  function LastIndexOfDot(s: string): (r: Option<nat>)
    ensures r.Some? ==> r.value < |s|
  {
    if s == [] then None
    else if s[|s| - 1] == '.' then Some(|s| - 1)
    else LastIndexOfDot(s[..|s| - 1])
  }

  /** `LastIndexOfDot` finds a '.' after which no '.' follows, and finds nothing only
      when there is no '.'. */
  lemma {:induction false} LastIndexOfDotIsLast(s: string)
    ensures var r := LastIndexOfDot(s);
      && (r.Some? ==> s[r.value] == '.' && '.' !in s[r.value + 1..])
      && (r.None? ==> '.' !in s)
  {
    if s != [] && s[|s| - 1] != '.' {
      var p := s[..|s| - 1];
      LastIndexOfDotIsLast(p);
      var r := LastIndexOfDot(p);
      assert s == p + [s[|s| - 1]];
      if r.Some? {
        assert s[r.value + 1..] == p[r.value + 1..] + [s[|s| - 1]];
      }
    }
  }

  /** A file name cut before its last '.', kept whole when it has none. */
  function RemoveExtension(name: string): string {
    var dot := LastIndexOfDot(name);
    if dot.None? then name else name[..dot.value]
  }

  /** The cut is a prefix of the name, and keeps a name without separators free of
      them; either the name has no '.' and is kept whole, or the cut is at a '.' after
      which no '.' follows. */
  lemma {:induction false} RemoveExtensionCutsLastDot(name: string)
    ensures var r := RemoveExtension(name);
      && |r| <= |name| && r == name[..|r|]
      && (HasNoSeparator(name) ==> HasNoSeparator(r))
      && ((r == name && '.' !in name) || (|r| < |name| && name[|r|] == '.' && '.' !in name[|r| + 1..]))
  {
    LastIndexOfDotIsLast(name);
    var r := RemoveExtension(name);
    assert forall i :: 0 <= i < |r| ==> r[i] == name[i];
  }

  /** `Path.GetFileNameWithoutExtension`: the file name cut before its last '.'. */
  function GetFileNameWithoutExtension(path: string): string {
    RemoveExtension(GetFileName(path))
  }

  /** The result is a prefix of the file name without separators; either the name has
      no '.' and is kept whole, or the cut is at a '.' after which no '.' follows. */
  lemma {:induction false} GetFileNameWithoutExtensionCutsLastDot(path: string)
    ensures var name := GetFileName(path);
      var r := GetFileNameWithoutExtension(path);
      && |r| <= |name| && r == name[..|r|]
      && HasNoSeparator(r)
      && ((r == name && '.' !in name) || (|r| < |name| && name[|r|] == '.' && '.' !in name[|r| + 1..]))
  {
    GetFileNameIsLastSegment(path);
    RemoveExtensionCutsLastDot(GetFileName(path));
  }

  /** `Path.IsPathRooted` on Windows: a leading separator or a drive letter and ':'. */
  predicate IsPathRooted(path: string) {
    || (|path| >= 1 && IsDirectorySeparator(path[0]))
    || (|path| >= 2 && IsValidDriveChar(path[0]) && path[1] == ':')
  }

  /** `Path.Combine(path1, path2)`. */
  function Combine(path1: string, path2: string): (r: string)
  {
    if path2 == "" then path1
    else if path1 == "" || IsPathRooted(path2) then path2
    else if IsDirectorySeparator(path1[|path1| - 1]) then path1 + path2
    else path1 + "\\" + path2
  }

  /** An empty `path2` gives `path1`; otherwise the result ends with `path2`. Unless
      `path2` is rooted (then it wins) or `path1` is empty, the result starts with
      `path1` and a separator stands just before `path2`: `path1`'s own last character
      when it is one, otherwise a `\` inserted between the two. */
  lemma {:induction false} CombineJoins(path1: string, path2: string)
    ensures var r := Combine(path1, path2);
      && (path2 == "" ==> r == path1)
      && (path2 != "" ==> |r| >= |path2| && r[|r| - |path2|..] == path2)
      && (path2 != "" && (path1 == "" || IsPathRooted(path2)) ==> r == path2)
      && (path2 != "" && path1 != "" && !IsPathRooted(path2) ==>
            && |path1| + |path2| <= |r| <= |path1| + 1 + |path2|
            && r[..|path1|] == path1
            && IsDirectorySeparator(r[|r| - |path2| - 1])
            && (|r| == |path1| + |path2| <==> IsDirectorySeparator(path1[|path1| - 1]))
            && (|r| > |path1| + |path2| ==> r[|path1|] == '\\'))
  {
    if path2 != "" && path1 != "" && !IsPathRooted(path2) {
      var r := Combine(path1, path2);
      if IsDirectorySeparator(path1[|path1| - 1]) {
        assert r[|r| - |path2|..] == path2;
        assert r[..|path1|] == path1;
      } else {
        assert r[|r| - |path2|..] == path2;
        assert r[..|path1|] == path1;
      }
    }
  }

  /** For a non-empty name without separators and without root, the file name of
      `Combine(base, name)` is `name` again exactly when the root of the joined path
      ends before `name`. A base such as `\\server`, whose root would swallow the
      name, is the exception. */
  lemma {:induction false} CombineThenGetFileName(base: string, name: string)
    requires name != "" && HasNoSeparator(name) && !IsPathRooted(name)
    ensures var r := Combine(base, name);
      GetFileName(r) == name <==> RootLength(r) + |name| <= |r|
  {
    var r := Combine(base, name);
    CombineJoins(base, name);
    FileNameStartIsAfterLastSeparator(r);
    var start := FileNameStart(r);
    var k := |r| - |name|;
    if base == "" {
      RootLengthIffRooted(name);
      assert start == 0;
    } else {
      assert IsDirectorySeparator(r[k - 1]);
      assert start == k;
    }
  }
}
