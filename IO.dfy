/** The static helpers of the program's IO class: path-string
    manipulation built on `String.split`, and the naming and counter logic of
    `moveFile` and the return value of `deleteFile`. The file system is
    modelled as the set of paths that exist; what the operating system may
    still refuse (permissions, devices) comes from oracle functions. */
module IO {
  import opened JavaLang
  import opened JavaSplit

  /** `fileName.replace("\\", "/")`: every backslash becomes a slash. */
  function Normalize(p: string): (r: string)
    ensures |r| == |p| && '\\' !in r
    ensures forall i :: 0 <= i < |p| && p[i] != '\\' ==> r[i] == p[i]
  {
    seq(|p|, i requires 0 <= i < |p| => if p[i] == '\\' then '/' else p[i])
  }

  /** A non-empty path made only of slashes and backslashes. */
  predicate OnlySeparators(p: string)
  {
    |p| > 0 && forall i :: 0 <= i < |p| ==> p[i] == '/' || p[i] == '\\'
  }

  /** `getFileName`: the last piece of the normalised path split on `/`.
      Trailing separators are ignored, and a path made only of separators
      makes split return an empty array, so indexing it throws. */
  function FileName(p: string): (r: Outcome<string>)
    ensures r.OutOfBounds? <==> OnlySeparators(p)
    ensures r.Normal? ==> '/' !in r.value
    ensures r.Normal? ==> r.value == AfterLast(StripTrailing(Normalize(p), '/'), '/')
  {
    var n := Normalize(p);
    var seg := Split(n, '/');
    SplitEmpty(n, '/');
    SplitFree(n, '/');
    assert AllChar(n, '/') <==> forall i :: 0 <= i < |p| ==> p[i] == '/' || p[i] == '\\';
    if |seg| == 0 then OutOfBounds
    else
      SplitLast(n, '/');
      Normal(seg[|seg| - 1])
  }

  /** `getFileNameNoExtension`: the file name up to its first dot. A name
      made only of dots splits into an empty array, so indexing it throws. */
  function FileNameNoExtension(p: string): (r: Outcome<string>)
    ensures FileName(p).OutOfBounds? ==> r.OutOfBounds?
    ensures FileName(p).Normal? ==>
      var name := FileName(p).value;
      (r.OutOfBounds? <==> |name| > 0 && AllChar(name, '.')) &&
      (r.Normal? ==> r.value == BeforeFirst(name, '.'))
  {
    match FileName(p)
    case OutOfBounds => OutOfBounds
    case Normal(name) =>
      var nameExt := Split(name, '.');
      SplitEmpty(name, '.');
      if |nameExt| == 0 then OutOfBounds
      else
        SplitFirst(name, '.');
        Normal(nameExt[0])
  }

  /** `getFileExtension`: the last piece of the WHOLE path (not normalised,
      not only the file name) split on `.`; trailing dots are ignored and a
      path with no dot is returned whole. */
  function FileExtension(p: string): (r: Outcome<string>)
    ensures r.OutOfBounds? <==> |p| > 0 && AllChar(p, '.')
    ensures r.Normal? ==> '.' !in r.value && r.value == AfterLast(StripTrailing(p, '.'), '.')
    ensures '.' !in p ==> r == Normal(p)
  {
    var seg := Split(p, '.');
    SplitEmpty(p, '.');
    SplitFree(p, '.');
    if |seg| == 0 then OutOfBounds
    else
      SplitLast(p, '.');
      Normal(seg[|seg| - 1])
  }

  /** `getFilePath`: every piece of the normalised path but the last, each
      followed by the platform separator `sep`. */
  method FilePath(p: string, sep: string) returns (path: string)
    ensures var seg := Split(Normalize(p), '/');
      path == if |seg| == 0 then "" else JoinTerminated(seg[..|seg| - 1], sep)
    ensures sep == "/" && (|p| == 0 || (p[|p| - 1] != '/' && p[|p| - 1] != '\\')) ==>
      FileName(p).Normal? && path + FileName(p).value == Normalize(p)
  {
    var fileName := Normalize(p);
    var seg := Split(fileName, '/');
    var sb := "";
    var i := 0;
    while i < |seg|
      invariant 0 <= i <= |seg| && (|seg| > 0 ==> i <= |seg| - 1)
      invariant sb == JoinTerminated(seg[..i], sep)
    {
      if i == |seg| - 1 {
        break;
      }
      sb := sb + seg[i] + sep;
      assert seg[..i + 1][..i] == seg[..i];
      i := i + 1;
    }
    path := sb;
    if sep == "/" && (|p| == 0 || (p[|p| - 1] != '/' && p[|p| - 1] != '\\')) {
      SplitJoin(fileName, '/');
      SplitLast(fileName, '/');
      assert ['/'] == "/";
    }
  }

  // -----------------------------------------------------------------------
  // Moving and deleting.

  /** What the program sees of the file system, together with IO's static
      rename counter `appendNum`. */
  datatype Disk = Disk(paths: set<string>, appendNum: int32)

  /** `Files.move(source, target)` without options: moving an existing
      file onto itself does nothing and completes; otherwise it throws an
      IOException when the source is missing, when the target already
      exists, or when the environment refuses, and else the file changes
      its path. The boolean says whether it completed. */
  function Relocate(paths: set<string>, source: string, target: string,
                    refuses: (string, string) -> bool): (set<string>, bool)
  {
    if source in paths && source == target then (paths, true)
    else if source in paths && target !in paths && !refuses(source, target)
    then (paths - {source} + {target}, true)
    else (paths, false)
  }

  /** The name `moveFile` tries when `dest + sep + name` is taken: no
      separator after `dest`, and the extension of the whole path. */
  function CollisionTarget(dest: string, stem: string, n: int32, ext: string): string
  {
    dest + stem + "-(" + IntToDecimal(n) + ")." + ext
  }

  /** `moveFile(path, dest)`: the new disk and what the call does, either
      return a boolean (true iff no IOException) or throw the unchecked
      exception of an empty split. Paths are compared as raw strings, where
      `Files.exists(Paths.get(..))` would first collapse doubled
      separators. */
  function Move(d: Disk, path: string, dest: string, sep: string,
                refuses: (string, string) -> bool): (r: (Disk, Outcome<bool>))
    // a move never destroys a file: at most the moved file leaves its path
    ensures d.paths - {path} <= r.0.paths
    ensures r.1 == Normal(true) ==> path in d.paths && |r.0.paths| == |d.paths|
    ensures r.1 != Normal(true) ==> r.0.paths == d.paths
    // the plain target is tried first, and the counter is then left alone
    ensures FileName(path).OutOfBounds? ==> r == (d, OutOfBounds)
    ensures FileName(path).Normal? && dest + sep + FileName(path).value !in d.paths ==>
      var target := dest + sep + FileName(path).value;
      r.1.Normal? && r.0.appendNum == d.appendNum &&
      (r.1 == Normal(true) <==> path in d.paths && !refuses(path, target)) &&
      (r.1 == Normal(true) ==> r.0.paths == d.paths - {path} + {target})
    // on a collision the counter goes up by one whatever happens next
    ensures FileName(path).Normal? && dest + sep + FileName(path).value in d.paths ==>
      match FileNameNoExtension(path)
      case OutOfBounds => r == (d, OutOfBounds)
      case Normal(stem) =>
        r.0.appendNum == Increment(d.appendNum) &&
        match FileExtension(path)
        case OutOfBounds => r.1 == OutOfBounds
        case Normal(ext) =>
          var target := CollisionTarget(dest, stem, d.appendNum, ext);
          r.1.Normal? &&
          (r.1 == Normal(true) <==>
             path in d.paths && (target == path || (target !in d.paths && !refuses(path, target)))) &&
          (r.1 == Normal(true) ==> r.0.paths == d.paths - {path} + {target})
  {
    match FileName(path)
    case OutOfBounds => (d, OutOfBounds)
    case Normal(name) =>
      var newDest := dest + sep + name;
      if newDest !in d.paths then
        var (ps, ok) := Relocate(d.paths, path, newDest, refuses);
        assert ok ==> |ps| == |d.paths - {path}| + 1 == |d.paths|;
        (Disk(ps, d.appendNum), Normal(ok))
      else
        match FileNameNoExtension(path)
        case OutOfBounds => (d, OutOfBounds)
        case Normal(stem) =>
          var n := d.appendNum;
          var bumped := Increment(n);
          match FileExtension(path)
          case OutOfBounds => (Disk(d.paths, bumped), OutOfBounds)
          case Normal(ext) =>
            var (ps, ok) := Relocate(d.paths, path, CollisionTarget(dest, stem, n, ext), refuses);
            assert ok ==> |ps| == |d.paths - {path}| + 1 == |d.paths|;
            (Disk(ps, bumped), Normal(ok))
  }

  /** `deleteFile(path)`: `Files.deleteIfExists` only throws when an existing
      file cannot be removed, so a missing file still counts as deleted. */
  function Delete(paths: set<string>, path: string, refuses: string -> bool): (r: (set<string>, bool))
    ensures r.1 <==> path !in paths || !refuses(path)
    ensures r.0 == if path in paths && r.1 then paths - {path} else paths
  {
    if path !in paths then (paths, true)
    else if refuses(path) then (paths, false)
    else (paths - {path}, true)
  }

  /** The file system as the program mutates it: the existing paths and the
      static `appendNum`, plus what the environment refuses. */
  class FileSystem {
    var paths: set<string>
    var appendNum: int32
    const refusesMove: (string, string) -> bool
    const refusesDelete: string -> bool

    constructor(existing: set<string>, refusesMove: (string, string) -> bool,
                refusesDelete: string -> bool)
      ensures paths == existing && appendNum == 0
      ensures this.refusesMove == refusesMove && this.refusesDelete == refusesDelete
    {
      paths := existing;
      appendNum := 0;
      this.refusesMove := refusesMove;
      this.refusesDelete := refusesDelete;
    }

    function State(): Disk
      reads this
    {
      Disk(paths, appendNum)
    }

    /** `Files.move` on the modelled file system. */
    method FilesMove(source: string, target: string) returns (ok: bool)
      modifies this`paths
      ensures (paths, ok) == Relocate(old(paths), source, target, refusesMove)
    {
      ok := source in paths && (source == target || (target !in paths && !refusesMove(source, target)));
      if ok && source != target {
        paths := paths - {source} + {target};
      }
    }

    /** `moveFile(path, dest)`. */
    method MoveFile(path: string, dest: string, sep: string) returns (r: Outcome<bool>)
      modifies this
      ensures (State(), r) == Move(old(State()), path, dest, sep, refusesMove)
    {
      var name := FileName(path);
      if name.OutOfBounds? {
        return OutOfBounds;
      }
      var newDest := dest + sep + name.value;
      if newDest !in paths {
        var ok := FilesMove(path, newDest);
        r := Normal(ok);
      } else {
        var stem := FileNameNoExtension(path);
        if stem.OutOfBounds? {
          return OutOfBounds;
        }
        var n := appendNum;
        appendNum := Increment(appendNum);
        var ext := FileExtension(path);
        if ext.OutOfBounds? {
          return OutOfBounds;
        }
        var target := dest + stem.value + "-(" + IntToDecimal(n) + ")." + ext.value;
        var ok := FilesMove(path, target);
        r := Normal(ok);
      }
    }

    /** `deleteFile(path)`. */
    method DeleteFile(path: string) returns (ok: bool)
      modifies this`paths
      ensures (paths, ok) == Delete(old(paths), path, refusesDelete)
    {
      if path !in paths {
        ok := true;
      } else if refusesDelete(path) {
        ok := false;
      } else {
        paths := paths - {path};
        ok := true;
      }
    }
  }

  /** The weakness of resetting the counter before every move: with
      `appendNum` at 0, a second file of the same name finds both the plain
      name and the `-(0)` name taken by other files, so its move fails, and the counter it
      leaves behind is 1. */
  lemma SecondCollisionFails(d: Disk, path: string, dest: string, sep: string,
                             refuses: (string, string) -> bool)
    requires d.appendNum == 0
    requires FileName(path).Normal? && dest + sep + FileName(path).value in d.paths
    requires FileNameNoExtension(path).Normal? && FileExtension(path).Normal?
    requires CollisionTarget(dest, FileNameNoExtension(path).value, 0, FileExtension(path).value) in d.paths
    requires CollisionTarget(dest, FileNameNoExtension(path).value, 0, FileExtension(path).value) != path
    ensures Move(d, path, dest, sep, refuses) == (Disk(d.paths, 1), Normal(false))
  {
  }
}
