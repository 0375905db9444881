/**
 * Splitting and joining of file paths: `File::fileName`, `File::directory`,
 * `File::fileExtension` and the POSIX branch of `File::path`
 * (utility/file_utility.cpp).
 */
module FilePaths {
  import opened Wrappers
  import opened Chars

  /** The characters `find_last_of("/\\")` looks for. */
  const Separators: set<Byte> := {'/', '\\'}

  predicate NoSeparator(s: seq<Byte>)
  {
    forall i :: 0 <= i < |s| ==> s[i] !in Separators
  }

  /** `std::string::find_last_of`: the last position holding one of `targets`, or `None` for `npos`. */
  function FindLastOf(s: seq<Byte>, targets: set<Byte>): (r: Option<nat>)
    ensures r.None? <==> forall i :: 0 <= i < |s| ==> s[i] !in targets
    ensures r.Some? ==> r.value < |s| && s[r.value] in targets
    ensures r.Some? ==> forall j :: r.value < j < |s| ==> s[j] !in targets
    decreases |s|
  {
    if |s| == 0 then None
    else if s[|s| - 1] in targets then Some(|s| - 1)
    else FindLastOf(s[..|s| - 1], targets)
  }

  /**
   * `File::fileName`: the longest suffix of `path` without a separator; the
   * whole path when it has none, otherwise what follows the last separator.
   */
  function FileName(path: seq<Byte>): (r: seq<Byte>)
    ensures NoSeparator(r)
    ensures |r| <= |path| && r == path[|path| - |r|..]
    ensures NoSeparator(path) ==> r == path
    ensures !NoSeparator(path) ==> |r| < |path| && path[|path| - |r| - 1] in Separators
  {
    match FindLastOf(path, Separators)
    case None => path
    case Some(pos) => path[pos + 1..]
  }

  /**
   * `File::directory`: everything before the last separator, or the empty
   * string when there is none. The directory, the separator and the file
   * name put back together give the path again.
   */
  function Directory(path: seq<Byte>): (r: seq<Byte>)
    ensures NoSeparator(path) ==> r == []
    ensures !NoSeparator(path) ==>
              |r| < |path| && path[|r|] in Separators && r + [path[|r|]] + FileName(path) == path
  {
    match FindLastOf(path, Separators)
    case None => []
    case Some(pos) =>
      assert path[..pos] + [path[pos]] + path[pos + 1..] == path;
      path[..pos]
  }

  /** `transform(..., ::tolower)` over a whole string. */
  function LowerAll(s: seq<Byte>): (r: seq<Byte>)
    ensures |r| == |s|
    ensures forall i :: 0 <= i < |s| ==> r[i] == ToLower(s[i])
  {
    seq(|s|, i requires 0 <= i < |s| => ToLower(s[i]))
  }

  /**
   * `File::fileExtension`: the text after the last '.', lower-cased, or the
   * empty string when the path has no '.'.
   */
  function FileExtension(path: seq<Byte>): (r: seq<Byte>)
    ensures '.' !in r
    ensures forall i :: 0 <= i < |r| ==> !IsUpper(r[i])
    ensures |r| <= |path|
    ensures '.' !in path ==> r == []
    ensures '.' in path ==>
              |r| < |path| && path[|path| - |r| - 1] == '.'
              && forall i :: 0 <= i < |r| ==> r[i] == ToLower(path[|path| - |r| + i])
  {
    match FindLastOf(path, {'.'})
    case None => []
    case Some(pos) =>
      assert forall j :: pos < j < |path| ==> path[j] != '.';
      LowerAll(path[pos + 1..])
  }

  /** `replace(path.begin(), path.end(), '\\', '/')`, the POSIX separator clean-up. */
  function ForwardSlashes(s: seq<Byte>): (r: seq<Byte>)
    ensures |r| == |s|
    ensures '\\' !in r
    ensures forall i :: 0 <= i < |s| ==> r[i] == (if s[i] == '\\' then '/' else s[i])
  {
    seq(|s|, i requires 0 <= i < |s| => if s[i] == '\\' then '/' else s[i])
  }

  predicate EndsWithSeparator(s: seq<Byte>)
  {
    |s| > 0 && s[|s| - 1] in Separators
  }

  /** The directory `File::path` joins onto: one trailing separator dropped. */
  function TrimOneSeparator(directory: seq<Byte>): (r: seq<Byte>)
    ensures EndsWithSeparator(directory) ==> r + [directory[|directory| - 1]] == directory
    ensures !EndsWithSeparator(directory) ==> r == directory
  {
    if EndsWithSeparator(directory) then directory[..|directory| - 1] else directory
  }

  /**
   * `File::path` on POSIX: drop at most one trailing separator from the
   * directory, join with '/', and turn every backslash into '/'.
   */
  function JoinPath(directory: seq<Byte>, relativePath: seq<Byte>): (r: seq<Byte>)
    ensures |r| == |TrimOneSeparator(directory)| + 1 + |relativePath|
    ensures '\\' !in r
    ensures r[|TrimOneSeparator(directory)|] == '/'
    ensures r[..|TrimOneSeparator(directory)|] == ForwardSlashes(TrimOneSeparator(directory))
    ensures r[|TrimOneSeparator(directory)| + 1..] == ForwardSlashes(relativePath)
  {
    var dir := TrimOneSeparator(directory);
    var joined := dir + ['/'] + relativePath;
    var r := ForwardSlashes(joined);
    assert r[..|dir|] == ForwardSlashes(dir);
    assert r[|dir| + 1..] == ForwardSlashes(relativePath);
    r
  }

  /** A position holding a target with no target after it is what `FindLastOf` reports. */
  lemma FindLastOfAt(s: seq<Byte>, targets: set<Byte>, k: nat)
    requires k < |s| && s[k] in targets
    requires forall j :: k < j < |s| ==> s[j] !in targets
    ensures FindLastOf(s, targets) == Some(k)
  {
  }

  /** Slashes are already uniform in a string without separators. */
  lemma ForwardSlashesNoSeparator(s: seq<Byte>)
    requires NoSeparator(s)
    ensures ForwardSlashes(s) == s
  {
    assert forall i :: 0 <= i < |s| ==> ForwardSlashes(s)[i] == s[i];
  }

  /** The last separator of a joined path is the '/' that `File::path` inserted. */
  lemma LastSeparatorOfJoin(directory: seq<Byte>, name: seq<Byte>)
    requires NoSeparator(name)
    ensures FindLastOf(JoinPath(directory, name), Separators) == Some(|TrimOneSeparator(directory)|)
  {
    var k := |TrimOneSeparator(directory)|;
    var r := JoinPath(directory, name);
    ForwardSlashesNoSeparator(name);
    forall j | k < j < |r|
      ensures r[j] !in Separators
    {
      assert r[j] == r[k + 1..][j - k - 1];
    }
    FindLastOfAt(r, Separators, k);
  }

  /** A name without separators joined onto a directory is what `FileName` splits off again. */
  lemma FileNameOfJoin(directory: seq<Byte>, name: seq<Byte>)
    requires NoSeparator(name)
    ensures FileName(JoinPath(directory, name)) == name
    ensures Directory(JoinPath(directory, name)) == ForwardSlashes(TrimOneSeparator(directory))
  {
    LastSeparatorOfJoin(directory, name);
    ForwardSlashesNoSeparator(name);
  }

  /** Which separator stands at a position makes no difference once slashes are made uniform. */
  lemma SameUpToSeparator(a: seq<Byte>, b: seq<Byte>, x: Byte, y: Byte)
    requires x in Separators && y in Separators
    ensures ForwardSlashes(a + [x] + b) == ForwardSlashes(a + [y] + b)
  {
    var p, q := a + [x] + b, a + [y] + b;
    forall i | 0 <= i < |p|
      ensures ForwardSlashes(p)[i] == ForwardSlashes(q)[i]
    {
      if i != |a| {
        assert p[i] == q[i];
      }
    }
  }

  /**
   * Splitting a path and joining the parts again gives the path back with
   * forward slashes, unless the directory part itself ended in a separator
   * (then `File::path` drops that one).
   */
  lemma JoinOfSplit(path: seq<Byte>)
    requires !NoSeparator(path)
    requires !EndsWithSeparator(Directory(path))
    ensures JoinPath(Directory(path), FileName(path)) == ForwardSlashes(path)
  {
    var d, f := Directory(path), FileName(path);
    assert JoinPath(d, f) == ForwardSlashes(d + ['/'] + f);
    SameUpToSeparator(d, f, path[|d|], '/');
  }

  /** The extension of `stem.ext` is `ext` lower-cased, whatever the stem holds. */
  lemma ExtensionAfterLastDot(stem: seq<Byte>, ext: seq<Byte>)
    requires '.' !in ext
    ensures FileExtension(stem + ['.'] + ext) == LowerAll(ext)
  {
    var p := stem + ['.'] + ext;
    assert forall j :: |stem| < j < |p| ==> p[j] == ext[j - |stem| - 1];
    FindLastOfAt(p, {'.'}, |stem|);
    assert p[|stem| + 1..] == ext;
  }

  /** A string with a '.' is a stem, its last '.', and a tail without one. */
  lemma SplitAtLastDot(s: seq<Byte>) returns (stem: seq<Byte>, ext: seq<Byte>)
    requires '.' in s
    ensures s == stem + ['.'] + ext && '.' !in ext
  {
    var pos := FindLastOf(s, {'.'}).value;
    stem, ext := s[..pos], s[pos + 1..];
    assert s == stem + ['.'] + ext;
    forall j | 0 <= j < |ext|
      ensures ext[j] != '.'
    {
      assert ext[j] == s[pos + 1 + j];
    }
  }

  /**
   * The extension is taken from the whole path, not from the file name: it
   * agrees with the file name's extension only when the file name has a '.'.
   */
  lemma ExtensionOfFileName(path: seq<Byte>)
    requires '.' in FileName(path)
    ensures FileExtension(path) == FileExtension(FileName(path))
  {
    ExtensionOfSuffix(path, |path| - |FileName(path)|);
  }

  /** The extension of a string is that of any suffix of it that holds a '.'. */
  lemma ExtensionOfSuffix(s: seq<Byte>, k: nat)
    requires k <= |s| && '.' in s[k..]
    ensures FileExtension(s) == FileExtension(s[k..])
  {
    var stem, ext := SplitAtLastDot(s[k..]);
    ExtensionAfterLastDot(stem, ext);
    DotInSuffix(s, k, stem, ext);
    ExtensionAfterLastDot(s[..k + |stem|], ext);
  }

  /** A suffix split at a '.' splits the whole string at the same '.'. */
  lemma DotInSuffix(s: seq<Byte>, k: nat, stem: seq<Byte>, ext: seq<Byte>)
    requires k <= |s| && s[k..] == stem + ['.'] + ext
    ensures s == s[..k + |stem|] + ['.'] + ext
  {
    assert s == s[..k] + s[k..];
  }
}
