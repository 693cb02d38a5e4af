/**
  The two folder listings of `ExplorerAction`: the plain
  `GetAllFilesInFolder(Path, ExtraFolders)` over the disk, and the
  resource listing of the nested `JAR` class, which either walks a folder
  inside an archive or, for a resource that is not archived, relativises
  the plain listing.

  The host is a value: the class loader becomes a map from resource name
  to URL, the disk a map from path string to the node there, and the
  archives a map from archive file path to the root of its contents.
 */
module Explorer {
  import opened Outcomes
  import opened Text
  import opened PathFix
  import opened FileNames
  import opened FileTree

  /** `Integer.MAX_VALUE`, the depth of a recursive `Files.walk`. */
  const MaxDepth: nat := 0x7fff_ffff

  /** The archive listing drops this many characters, the `file:` of the
      archive's URL, from the part of the path before `!`. */
  const SchemeLength: nat := 5

  datatype Url = Url(protocol: string, path: string)

  datatype Host = Host(
    resources: map<string, Url>,
    disk: map<string, Node>,
    archives: map<string, Node>)

  /** `JAR.ThatJAR`. */
  predicate ThatJar(u: Url) {
    u.protocol == "jar"
  }

  function WalkDepth(recursive: bool): nat {
    if recursive then MaxDepth else 1
  }

  /** The path the plain listing walks from, and the node there, if any. */
  datatype Target = Target(path: string, node: Option<Node>)

  /** The first half of the plain listing. A name the class loader does not
      know is taken as a disk path: a NUL makes it invalid and a path with
      nothing there fails. A known resource is turned back into a path
      through its URI, which only works for `file` URLs; nothing checks that
      the target exists. */
  function Locate(h: Host, path: string): (r: Result<Target>)
    ensures path !in h.resources ==>
      && (Nul in path ==> r == Err(InvalidPath))
      && (Nul !in path && NormalPath(path) !in h.disk ==> r == Err(DirectoryNotFound))
      && (Nul !in path && NormalPath(path) in h.disk ==>
            r == Ok(Target(NormalPath(path), Some(h.disk[NormalPath(path)]))))
    ensures path in h.resources ==>
      && (h.resources[path].protocol != "file" ==> r == Err(NoFileSystem))
      && (h.resources[path].protocol == "file" ==> r.Ok? && r.value.path == NormalPath(h.resources[path].path))
    ensures r.Ok? && r.value.node.Some? ==> r.value.path in h.disk && h.disk[r.value.path] == r.value.node.value
    ensures r.Ok? ==> (r.value.node.Some? <==> r.value.path in h.disk)
  {
    if path in h.resources then
      var url := h.resources[path];
      if url.protocol != "file" then Err(NoFileSystem)
      else
        var f := NormalPath(url.path);
        Ok(Target(f, if f in h.disk then Some(h.disk[f]) else None))
    else if Nul in path then Err(InvalidPath)
    else
      var f := NormalPath(path);
      if f !in h.disk then Err(DirectoryNotFound) else Ok(Target(f, Some(h.disk[f])))
  }

  predicate IsDirectory(t: Target) {
    t.node.Some? && t.node.value.Dir?
  }

  /** `ExplorerAction.GetAllFilesInFolder`: the regular files of the walk
      from the located directory, one level deep or to any depth. Every
      failure comes out wrapped in a `FileException`: a missing or invalid
      path, a URL without a file system, and a target that is not a
      directory. */
  function ListFolder(h: Host, path: string, recursive: bool): (r: Result<seq<string>>)
    ensures r.Err? ==> r.failure.FileException?
    ensures Locate(h, path).Err? ==> r == Err(FileException(Locate(h, path).failure))
    ensures Locate(h, path).Ok? ==> (r.Ok? <==> IsDirectory(Locate(h, path).value))
    ensures Locate(h, path).Ok? && !IsDirectory(Locate(h, path).value) ==> r == Err(FileException(NotDirectory))
  {
    match Locate(h, path)
    case Err(e) => Err(FileException(e))
    case Ok(t) =>
      if IsDirectory(t) then Ok(Walk(t.path, t.node.value, WalkDepth(recursive)))
      else Err(FileException(NotDirectory))
  }

  /** Every directory on the disk has uniquely named entries and is less
      than `Integer.MAX_VALUE` levels deep. */
  predicate DiskWellFormed(h: Host) {
    forall f :: f in h.disk ==> WellFormed(h.disk[f]) && Height(h.disk[f]) <= MaxDepth
  }

  /** A non-recursive plain listing yields exactly the regular files
      directly inside the folder, under the folder's path. */
  lemma ShallowListing(h: Host, path: string, p: string)
    requires DiskWellFormed(h)
    requires ListFolder(h, path, false).Ok?
    ensures var t := Locate(h, path).value;
      p in ListFolder(h, path, false).value <==> Child(t.node.value, t.path, p)
  {
    var t := Locate(h, path).value;
    ShallowWalkListsChildren(t.path, t.node.value, p);
  }

  /** A recursive plain listing yields exactly the regular files anywhere
      below the folder; it never yields a directory. */
  lemma DeepListing(h: Host, path: string, p: string)
    requires DiskWellFormed(h)
    requires ListFolder(h, path, true).Ok?
    ensures var t := Locate(h, path).value;
      p in ListFolder(h, path, true).value <==> Below(t.node.value, t.path, p)
  {
    var t := Locate(h, path).value;
    DeepWalkListsAll(t.path, t.node.value, MaxDepth, p);
  }

  /** How the archive listing reads the URL path: the archive file and, if
      there is a second `!`-separated part, the entry path inside it. */
  datatype JarSplit = JarSplit(archive: string, entry: Option<string>)

  /** `jarPath.split("!")`, then `jarParts[0].substring(5)` and
      `jarParts[1]`. The first part must be at least five characters long;
      a missing second part only fails once it is read. */
  function SplitJarPath(jarPath: string): (r: Result<JarSplit>)
    ensures r.Err? <==> |Before(jarPath, '!')| < SchemeLength
    ensures r.Err? ==> r.failure == IndexOutOfBounds
    ensures r.Ok? ==>
      && SchemeLength + |r.value.archive| == |Before(jarPath, '!')|
      && jarPath[SchemeLength..SchemeLength + |r.value.archive|] == r.value.archive
    ensures r.Ok? ==> (r.value.entry.Some? <==> |JavaSplit(jarPath, '!')| >= 2)
    ensures r.Ok? && r.value.entry.Some? ==>
      && |Before(jarPath, '!')| < |jarPath|
      && r.value.entry.value == Before(jarPath[|Before(jarPath, '!')| + 1..], '!')
  {
    var parts := JavaSplit(jarPath, '!');
    JavaSplitHead(jarPath, '!');
    assert |parts| >= 2 ==> parts[1] == Before(jarPath[|Before(jarPath, '!')| + 1..], '!') by {
      if |parts| >= 2 {
        JavaSplitPieces(jarPath, '!');
      }
    }
    if |parts| == 0 then Err(IndexOutOfBounds)
    else if |parts[0]| < SchemeLength then Err(IndexOutOfBounds)
      else Ok(JarSplit(parts[0][SchemeLength..], if |parts| >= 2 then Some(parts[1]) else None))
  }

  /** An archive URL path `file:<archive>!<entry>` splits into exactly
      the archive file path and the entry path. */
  lemma SplitJarUrl(archive: string, entry: string)
    requires '!' !in archive && '!' !in entry && entry != []
    ensures SplitJarPath("file:" + archive + "!" + entry) == Ok(JarSplit(archive, Some(entry)))
  {
    var head := "file:" + archive;
    assert "file:" + archive + "!" + entry == head + ['!'] + entry;
    JavaSplitTwo(head, entry, '!');
    assert head[SchemeLength..] == archive;
  }

  /** The walk inside the archive, after the archive is opened. Failures
      here pass through the inner `FileException` wrapper first. */
  function WalkArchive(h: Host, sp: JarSplit, recursive: bool): (r: Result<seq<string>>)
    ensures r.Err? ==> r.failure.FileException?
    ensures sp.archive !in h.archives ==> r == Err(FileException(ArchiveAccess))
    ensures sp.archive in h.archives && sp.entry.None? ==> r == Err(FileException(IndexOutOfBounds))
    ensures sp.archive in h.archives && sp.entry.Some? ==>
      (Lookup(h.archives[sp.archive], Components(sp.entry.value)).None? ==> r == Err(FileException(NoSuchFile)))
    ensures r.Ok? <==>
      sp.archive in h.archives && sp.entry.Some?
      && Lookup(h.archives[sp.archive], Components(sp.entry.value)).Some?
  {
    if sp.archive !in h.archives then Err(FileException(ArchiveAccess))
    else match sp.entry
      case None => Err(FileException(IndexOutOfBounds))
      case Some(root) =>
        match Lookup(h.archives[sp.archive], Components(root))
        case None => Err(FileException(NoSuchFile))
        case Some(n) => Ok(Visit(NormalPath(root), n, true, recursive))
  }

  /** The `ThatJAR` branch of `JAR.GetAllFilesInFolder`. The paths it
      returns are the entry paths inside the archive, not relativised. */
  function ArchiveList(h: Host, jarPath: string, recursive: bool): (r: Result<seq<string>>)
    ensures r.Err? ==> r.failure.FileException?
    ensures |Before(jarPath, '!')| < SchemeLength ==> r == Err(FileException(IndexOutOfBounds))
    ensures '!' !in jarPath ==> r.Err?
    ensures r.Ok? <==> SplitJarPath(jarPath).Ok? && WalkArchive(h, SplitJarPath(jarPath).value, recursive).Ok?
    ensures SplitJarPath(jarPath).Ok? && WalkArchive(h, SplitJarPath(jarPath).value, recursive).Err? ==>
      r == Err(FileException(WalkArchive(h, SplitJarPath(jarPath).value, recursive).failure))
    ensures r.Ok? ==> r.value == WalkArchive(h, SplitJarPath(jarPath).value, recursive).value
  {
    match SplitJarPath(jarPath)
    case Err(e) => Err(FileException(e))
    case Ok(sp) =>
      assert '!' !in jarPath ==> sp.entry.None?;
      match WalkArchive(h, sp, recursive)
      case Err(e) => Err(FileException(e))
      case Ok(files) => Ok(files)
  }

  /** Every archive's directories have uniquely named entries. */
  predicate ArchivesWellFormed(h: Host) {
    forall a :: a in h.archives ==> WellFormed(h.archives[a])
  }

  /** What the archive listing yields from a folder: without recursion the
      files directly inside it, with recursion every file below it, each
      under its entry path; from an entry that is a file, that file. */
  lemma ArchiveListing(h: Host, sp: JarSplit, recursive: bool, p: string)
    requires ArchivesWellFormed(h)
    requires WalkArchive(h, sp, recursive).Ok?
    ensures var n := Lookup(h.archives[sp.archive], Components(sp.entry.value)).value;
      var root := NormalPath(sp.entry.value);
      && (n.File? ==> WalkArchive(h, sp, recursive).value == [root])
      && (n.Dir? && !recursive ==> (p in WalkArchive(h, sp, recursive).value <==> Listed(n, root, 1, p)))
      && (n.Dir? && recursive ==> (p in WalkArchive(h, sp, recursive).value <==> Below(n, root, p)))
  {
    var a := h.archives[sp.archive];
    var n := Lookup(a, Components(sp.entry.value)).value;
    var root := NormalPath(sp.entry.value);
    if n.Dir? {
      LookupKeepsWellFormed(a, Components(sp.entry.value));
      if recursive {
        VisitRootIsWalk(root, n.entries, true, Height(n));
        DeepWalkListsAll(root, n, Height(n), p);
      } else {
        VisitRootIsWalk(root, n.entries, false, 1);
        WalkListsFiles(root, n, 1, p);
      }
    }
  }

  /** `FilePath.substring(n)` for every walked path, in order; a path
      shorter than `n` makes the whole listing fail. */
  function Relativise(files: seq<string>, n: nat): (r: Result<seq<string>>)
    ensures r.Ok? <==> forall i :: 0 <= i < |files| ==> n <= |files[i]|
    ensures r.Err? ==> r.failure == IndexOutOfBounds
    ensures r.Ok? ==>
      && |r.value| == |files|
      && forall i :: 0 <= i < |files| ==> |r.value[i]| == |files[i]| - n
  {
    if files == [] then Ok([])
    else if |files[0]| < n then Err(IndexOutOfBounds)
    else
      match Relativise(files[1..], n)
      case Err(e) =>
        assert exists i :: 1 <= i < |files| && |files[i]| < n by {
          var j :| 0 <= j < |files[1..]| && |files[1..][j]| < n;
          assert files[j + 1] == files[1..][j];
        }
        Err(e)
      case Ok(rest) =>
        assert forall i :: 1 <= i < |files| ==> files[i] == files[1..][i - 1];
        Ok([files[0][n..]] + rest)
  }

  /** Relativising keeps each path's tail: putting back the dropped
      characters gives the walked path again. */
  lemma {:induction false} RelativiseRestores(files: seq<string>, n: nat, i: int)
    requires Relativise(files, n).Ok? && 0 <= i < |files|
    ensures files[i] == files[i][..n] + Relativise(files, n).value[i]
  {
    if i > 0 {
      RelativiseRestores(files[1..], n, i - 1);
      assert files[1..][i - 1] == files[i];
    } else {
      assert files[0] == files[0][..n] + files[0][n..];
    }
  }

  /** When every walked path starts with the folder path, relativising by
      its length gives each file's path relative to the folder. */
  lemma RelativiseUnderFolder(files: seq<string>, folder: string, i: int)
    requires forall k :: 0 <= k < |files| ==> StartsWith(files[k], folder)
    requires 0 <= i < |files|
    ensures Relativise(files, |folder|).Ok?
    ensures folder + Relativise(files, |folder|).value[i] == files[i]
  {
    RelativiseRestores(files, |folder|, i);
  }

  /** The loop of the non-archive branch, over the walked paths in order. */
  method RelativiseAll(files: seq<string>, n: nat) returns (r: Result<seq<string>>)
    ensures r == Relativise(files, n)
  {
    var out: seq<string> := [];
    var i := 0;
    while i < |files|
      invariant 0 <= i <= |files|
      invariant forall k :: 0 <= k < i ==> n <= |files[k]|
      invariant |out| == i && forall k :: 0 <= k < i ==> out[k] == files[k][n..]
    {
      if |files[i]| < n {
        RelativiseFailsAt(files, n, i);
        return Err(IndexOutOfBounds);
      }
      out := out + [files[i][n..]];
      i := i + 1;
    }
    RelativiseSucceeds(files, n, out);
    r := Ok(out);
  }

  /** Each relativised path is its walked path from the cut on. */
  lemma RelativiseCuts(files: seq<string>, n: nat)
    requires Relativise(files, n).Ok?
    ensures forall i :: 0 <= i < |files| ==> Relativise(files, n).value[i] == files[i][n..]
  {
    forall i | 0 <= i < |files|
      ensures Relativise(files, n).value[i] == files[i][n..]
    {
      RelativiseRestores(files, n, i);
    }
  }

  lemma {:induction false} RelativiseFailsAt(files: seq<string>, n: nat, i: int)
    requires 0 <= i < |files| && |files[i]| < n
    ensures Relativise(files, n) == Err(IndexOutOfBounds)
  {
  }

  lemma {:induction false} RelativiseSucceeds(files: seq<string>, n: nat, out: seq<string>)
    requires |out| == |files|
    requires forall k :: 0 <= k < |files| ==> n <= |files[k]| && out[k] == files[k][n..]
    ensures Relativise(files, n) == Ok(out)
  {
    if files != [] {
      RelativiseSucceeds(files[1..], n, out[1..]);
      assert out == [out[0]] + out[1..];
    }
  }

  /** The non-archive branch: the plain listing of the prefixed path, with
      as many leading characters dropped from each path as the fixed URL
      path has once every occurrence of the prefixed path is removed from
      it. */
  function LooseList(h: Host, full: string, url: Url, recursive: bool): (r: Result<seq<string>>)
    requires |full| > 0
    ensures r.Err? ==> r.failure.FileException?
    ensures ListFolder(h, full, recursive).Err? ==> r == Err(FileException(ListFolder(h, full, recursive).failure))
    ensures ListFolder(h, full, recursive).Ok? && FixPath(url.path).Err? ==> r == Err(FileException(IndexOutOfBounds))
    ensures r.Ok? <==>
      && ListFolder(h, full, recursive).Ok?
      && FixPath(url.path).Ok?
      && forall i :: 0 <= i < |ListFolder(h, full, recursive).value| ==>
           |RemoveAll(FixPath(url.path).value, full)| <= |ListFolder(h, full, recursive).value[i]|
    ensures r.Ok? ==>
      var files := ListFolder(h, full, recursive).value;
      var cut := |RemoveAll(FixPath(url.path).value, full)|;
      && |r.value| == |files|
      && forall i :: 0 <= i < |files| ==> r.value[i] == files[i][cut..]
  {
    var listing := ListFolder(h, full, recursive);
    if listing.Err? then Err(FileException(listing.failure))
    else
      var fix := FixPath(url.path);
      if fix.Err? then Err(FileException(fix.failure))
      else
        var cut := |RemoveAll(fix.value, full)|;
        var rel := Relativise(listing.value, cut);
        if rel.Err? then Err(FileException(rel.failure))
        else
          RelativiseCuts(listing.value, cut);
          Ok(rel.value)
  }

  /** `JAR.GetAllFilesInFolder`: the resource `assets/` + `path`, listed
      inside its archive or, when it is not archived, from the disk. */
  function JarList(h: Host, path: string, recursive: bool): (r: Result<seq<string>>)
    ensures r.Err? ==> r.failure.FileException?
    ensures ResourcePrefix + path !in h.resources ==> r == Err(FileException(DirectoryNotFound))
    ensures ResourcePrefix + path in h.resources && ThatJar(h.resources[ResourcePrefix + path]) ==>
      r == ArchiveList(h, h.resources[ResourcePrefix + path].path, recursive)
    ensures ResourcePrefix + path in h.resources && !ThatJar(h.resources[ResourcePrefix + path]) ==>
      r == LooseList(h, ResourcePrefix + path, h.resources[ResourcePrefix + path], recursive)
  {
    var full := ResourcePrefix + path;
    if full !in h.resources then Err(FileException(DirectoryNotFound))
    else
      var url := h.resources[full];
      if ThatJar(url) then ArchiveList(h, url.path, recursive)
      else LooseList(h, full, url, recursive)
  }

  /** What the archive branch yields: the files the visitor reaches under
      the entry path, or just that path when the entry is a file. */
  lemma ArchiveListed(h: Host, jarPath: string, recursive: bool, p: string)
    requires ArchivesWellFormed(h)
    requires ArchiveList(h, jarPath, recursive).Ok?
    ensures var r := ArchiveList(h, jarPath, recursive).value;
      var sp := SplitJarPath(jarPath).value;
      var n := Lookup(h.archives[sp.archive], Components(sp.entry.value)).value;
      var root := NormalPath(sp.entry.value);
      && (n.File? ==> r == [root])
      && (n.Dir? && !recursive ==> (p in r <==> Listed(n, root, 1, p)))
      && (n.Dir? && recursive ==> (p in r <==> Below(n, root, p)))
  {
    ArchiveListing(h, SplitJarPath(jarPath).value, recursive, p);
  }

  /** What the disk branch yields: the files the plain listing finds, each
      with its first `cut` characters dropped, where `cut` is the length of
      the fixed URL path once the prefixed resource name is removed. */
  lemma LooseListed(h: Host, full: string, url: Url, recursive: bool, p: string)
    requires |full| > 0 && DiskWellFormed(h)
    requires LooseList(h, full, url, recursive).Ok?
    ensures var r := LooseList(h, full, url, recursive).value;
      var t := Locate(h, full).value;
      var cut := |RemoveAll(FixPath(url.path).value, full)|;
      && (!recursive ==> (p in r <==> exists q :: Child(t.node.value, t.path, q) && cut <= |q| && q[cut..] == p))
      && (recursive ==> (p in r <==> exists q :: Below(t.node.value, t.path, q) && cut <= |q| && q[cut..] == p))
  {
    if recursive {
      LooseListedDeep(h, full, url, p);
    } else {
      LooseListedShallow(h, full, url, p);
    }
  }

  lemma LooseListedShallow(h: Host, full: string, url: Url, p: string)
    requires |full| > 0 && DiskWellFormed(h)
    requires LooseList(h, full, url, false).Ok?
    ensures var t := Locate(h, full).value;
      var cut := |RemoveAll(FixPath(url.path).value, full)|;
      p in LooseList(h, full, url, false).value <==> exists q :: Child(t.node.value, t.path, q) && cut <= |q| && q[cut..] == p
  {
    var files := ListFolder(h, full, false).value;
    var t := Locate(h, full).value;
    LooseListCut(h, full, url, false, p);
    assert forall q :: q in files <==> Child(t.node.value, t.path, q) by {
      forall q | true
        ensures q in files <==> Child(t.node.value, t.path, q)
      {
        ShallowListing(h, full, q);
      }
    }
  }

  lemma LooseListedDeep(h: Host, full: string, url: Url, p: string)
    requires |full| > 0 && DiskWellFormed(h)
    requires LooseList(h, full, url, true).Ok?
    ensures var t := Locate(h, full).value;
      var cut := |RemoveAll(FixPath(url.path).value, full)|;
      p in LooseList(h, full, url, true).value <==> exists q :: Below(t.node.value, t.path, q) && cut <= |q| && q[cut..] == p
  {
    var files := ListFolder(h, full, true).value;
    var t := Locate(h, full).value;
    LooseListCut(h, full, url, true, p);
    assert forall q :: q in files <==> Below(t.node.value, t.path, q) by {
      forall q | true
        ensures q in files <==> Below(t.node.value, t.path, q)
      {
        DeepListing(h, full, q);
      }
    }
  }

  lemma LooseListCut(h: Host, full: string, url: Url, recursive: bool, p: string)
    requires |full| > 0
    requires LooseList(h, full, url, recursive).Ok?
    ensures var cut := |RemoveAll(FixPath(url.path).value, full)|;
      p in LooseList(h, full, url, recursive).value <==>
        exists q :: q in ListFolder(h, full, recursive).value && cut <= |q| && q[cut..] == p
  {
    var files := ListFolder(h, full, recursive).value;
    var r := LooseList(h, full, url, recursive).value;
    var cut := |RemoveAll(FixPath(url.path).value, full)|;
    assert |r| == |files| && forall i :: 0 <= i < |files| ==> r[i] == files[i][cut..];
    CutMembers(files, r, cut, p);
  }

  /** A path is among the cut paths iff it is the cut of some walked path. */
  lemma CutMembers(files: seq<string>, r: seq<string>, cut: nat, p: string)
    requires |r| == |files|
    requires forall i :: 0 <= i < |files| ==> cut <= |files[i]| && r[i] == files[i][cut..]
    ensures p in r <==> exists q :: q in files && cut <= |q| && q[cut..] == p
  {
    if p in r {
      var i :| 0 <= i < |r| && r[i] == p;
      assert files[i] in files && files[i][cut..] == p;
    }
  }

  /** What `JAR.GetAllFilesInFolder` yields when it succeeds, on every
      host: the archive branch's files under the entry path, or the disk
      branch's files with the cut applied. */
  lemma JarListing(h: Host, path: string, recursive: bool, p: string)
    requires DiskWellFormed(h) && ArchivesWellFormed(h)
    requires JarList(h, path, recursive).Ok?
    ensures var full := ResourcePrefix + path;
      var url := h.resources[full];
      var r := JarList(h, path, recursive).value;
      && (ThatJar(url) ==>
            var sp := SplitJarPath(url.path).value;
            var n := Lookup(h.archives[sp.archive], Components(sp.entry.value)).value;
            var root := NormalPath(sp.entry.value);
            && (n.File? ==> r == [root])
            && (n.Dir? && !recursive ==> (p in r <==> Listed(n, root, 1, p)))
            && (n.Dir? && recursive ==> (p in r <==> Below(n, root, p))))
      && (!ThatJar(url) ==>
            var t := Locate(h, full).value;
            var cut := |RemoveAll(FixPath(url.path).value, full)|;
            && (!recursive ==> (p in r <==> exists q :: Child(t.node.value, t.path, q) && cut <= |q| && q[cut..] == p))
            && (recursive ==> (p in r <==> exists q :: Below(t.node.value, t.path, q) && cut <= |q| && q[cut..] == p)))
  {
    var full := ResourcePrefix + path;
    var url := h.resources[full];
    if ThatJar(url) {
      ArchiveListed(h, url.path, recursive, p);
    } else {
      LooseListed(h, full, url, recursive, p);
    }
  }
}
