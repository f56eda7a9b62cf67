/** File names, class names and the changed-file filter. */
module Naming {
  import opened Wrappers
  import opened Text
  import Jacoco

  /** Marker in the names of AspectJ's compiler-generated closure classes. */
  const ClosureMarker: string := "AjcClosure"

  /** The last path segment (POSIX `os.path.basename`). */
  function Basename(path: string): (r: string)
    ensures '/' !in r
    ensures '/' !in path ==> r == path
    ensures |r| <= |path| && path[|path| - |r|..] == r
  {
    path[LastIndexOf(path, '/') + 1..]
  }

  /** The directory part of `pathToClass`, up to and including its last
      '/', followed by `sourceFilename`. */
  function PathToFilepath(pathToClass: string, sourceFilename: string): (r: string)
    ensures '/' !in pathToClass ==> r == sourceFilename
    ensures |r| >= |sourceFilename| && r[|r| - |sourceFilename|..] == sourceFilename
  {
    var r := pathToClass[..LastIndexOf(pathToClass, '/') + 1] + sourceFilename;
    assert r[|r| - |sourceFilename|..] == sourceFilename;
    r
  }

  /** With a '/', the result keeps `pathToClass` up to its last '/'. */
  lemma PathToFilepathKeepsDirectory(pathToClass: string, sourceFilename: string)
    requires '/' in pathToClass
    ensures exists k :: 0 <= k < |pathToClass| && pathToClass[k] == '/' && '/' !in pathToClass[k + 1..]
                        && PathToFilepath(pathToClass, sourceFilename) == pathToClass[..k + 1] + sourceFilename
  {
    var k := LastIndexOf(pathToClass, '/');
    assert PathToFilepath(pathToClass, sourceFilename) == pathToClass[..k + 1] + sourceFilename;
    assert 0 <= k < |pathToClass| && pathToClass[k] == '/' && '/' !in pathToClass[k + 1..];
  }

  /** Substituting a file name keeps that name's own last segment. */
  lemma BasenameOfFilepath(pathToClass: string, sourceFilename: string)
    ensures Basename(PathToFilepath(pathToClass, sourceFilename)) == Basename(sourceFilename)
  {
    var prefix := pathToClass[..LastIndexOf(pathToClass, '/') + 1];
    assert PathToFilepath(pathToClass, sourceFilename) == prefix + sourceFilename;
    BasenameAfterDirectory(prefix, sourceFilename);
  }

  /** Prepending a directory prefix does not change a basename. */
  lemma BasenameAfterDirectory(prefix: string, name: string)
    requires prefix == [] || prefix[|prefix| - 1] == '/'
    ensures Basename(prefix + name) == Basename(name)
  {
    LastIndexOfAppend(prefix, name, '/');
    if '/' !in name {
      PrefixEndsAtSlash(prefix);
      BasenameAfterDirectoryOfSimpleName(prefix, name);
    } else {
      BasenameAfterDirectoryOfPath(prefix, name);
    }
  }

  lemma BasenameAfterDirectoryOfSimpleName(prefix: string, name: string)
    requires '/' !in name && LastIndexOf(prefix + name, '/') == |prefix| - 1
    ensures Basename(prefix + name) == Basename(name)
  {
    assert Basename(prefix + name) == (prefix + name)[|prefix|..];
    DropAfterPrefix(prefix, name, 0);
  }

  lemma BasenameAfterDirectoryOfPath(prefix: string, name: string)
    requires '/' in name && LastIndexOf(prefix + name, '/') == |prefix| + LastIndexOf(name, '/')
    ensures Basename(prefix + name) == Basename(name)
  {
    var j := LastIndexOf(name, '/');
    assert Basename(prefix + name) == (prefix + name)[|prefix| + j + 1..];
    DropAfterPrefix(prefix, name, j + 1);
  }

  lemma DropAfterPrefix(prefix: string, s: string, i: nat)
    requires i <= |s|
    ensures (prefix + s)[|prefix| + i..] == s[i..]
  {
  }

  /** The last '/' of a directory prefix is its last character. */
  lemma PrefixEndsAtSlash(prefix: string)
    requires prefix == [] || prefix[|prefix| - 1] == '/'
    ensures LastIndexOf(prefix, '/') == |prefix| - 1
  {
  }

  /** A slash-separated JaCoCo name in Cobertura's dotted form. */
  function DottedName(name: string): (r: string)
    ensures |r| == |name| && '/' !in r
    ensures forall k :: 0 <= k < |name| && name[k] != '/' ==> r[k] == name[k]
    ensures forall k :: 0 <= k < |name| && name[k] == '/' ==> r[k] == '.'
  {
    Replace(name, '/', '.')
  }

  /** A class's file path: its own directory with the declared
      `sourcefilename`, or with its whole name when that is absent. */
  function DerivedFilename(c: Jacoco.Class): string
  {
    match c.sourceFileName
    case Some(f) => PathToFilepath(c.name, f)
    case None => PathToFilepath(c.name, c.name)
  }

  /** The second-to-last '.'-separated segment of the path's basename
      (`basename.split('.')[-2]`); nothing, where Python raises an
      IndexError, when the basename has no '.'. */
  function FileStem(filename: string): (r: Option<string>)
    ensures r.None? <==> '.' !in Basename(filename)
  {
    var parts := Split(Basename(filename), '.');
    SplitSingleIff(Basename(filename), '.');
    if |parts| < 2 then None else Some(parts[|parts| - 2])
  }

  /** The stem is the segment between the last two dots of the basename
      (or between its start and its only dot). */
  lemma {:induction false} StemIsSecondToLastSegment(filename: string)
    requires FileStem(filename).Some?
    ensures exists pre, ext :: Basename(filename) == pre + FileStem(filename).value + "." + ext
                               && '.' !in FileStem(filename).value && '.' !in ext
                               && (pre == "" || pre[|pre| - 1] == '.')
  {
    var b := Basename(filename);
    var parts := Split(b, '.');
    SplitSepFree(b, '.');
    SplitJoinsBack(b, '.');
    var n := |parts|;
    var stem, ext := parts[n - 2], parts[n - 1];
    assert FileStem(filename).value == stem;
    assert '.' !in stem && '.' !in ext;
    var pre := JoinBeforeLastTwo(parts, '.');
    assert b == pre + stem + "." + ext;
  }

  /** Without `sourcefilename` the derived basename is the class's own
      simple name, so a dotless simple name has no stem. */
  lemma FallbackStem(c: Jacoco.Class)
    requires c.sourceFileName.None?
    ensures FileStem(DerivedFilename(c)).None? <==> '.' !in Basename(c.name)
  {
    BasenameOfFilepath(c.name, c.name);
  }

  /** The filter: the class's stem is a changed file and its dotted name
      does not mark a compiler-generated closure. */
  predicate IsIncluded(c: Jacoco.Class, changed: seq<string>)
  {
    match FileStem(DerivedFilename(c))
    case None => false
    case Some(stem) => stem in changed && !Contains(DottedName(c.name), ClosureMarker)
  }
}
