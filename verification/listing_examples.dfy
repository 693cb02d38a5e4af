/**
  Worked listing examples, proved by evaluation: a folder on the disk
  holding `x.txt` and `sub/y.txt`, and an archive `/x/app.jar` whose
  folder `r` holds `a.png` and `sub/b.png`. These two listings yield full
  paths, not paths relative to the listed folder. The same folder reached
  as the unpacked resource `assets/d`, through the `file` URL
  `/g/assets/d`, is listed with the cut applied: the cut is the length of
  `g/`, measured on the path FixPath stripped of its leading `/`, so the
  walked `/g/assets/d/x.txt` comes back as `/assets/d/x.txt`.
 */
module ListingExamples {
  import opened Outcomes
  import opened Text
  import opened FileTree
  import opened Explorer
  import opened PathFix

  const Sub := Dir([Entry("y.txt", File)])
  const Folder := Dir([Entry("x.txt", File), Entry("sub", Sub)])
  const Disk := Host(map[], map["d" := Folder], map[])

  const Unpacked := Host(map["assets/d" := Url("file", "/g/assets/d")], map["/g/assets/d" := Folder], map[])

  const Pictures := Dir([Entry("a.png", File), Entry("sub", Dir([Entry("b.png", File)]))])
  const Archive := Dir([Entry("r", Pictures)])
  const Packaged := Host(map["assets/g" := Url("jar", "file:/x/app.jar!/r")], map[], map["/x/app.jar" := Archive])

  lemma NormalFolderName()
    ensures Components("d") == ["d"]
    ensures NormalPath("d") == "d"
  {
  }

  lemma LocateFolder()
    ensures Locate(Disk, "d") == Ok(Target("d", Some(Folder)))
  {
    NormalFolderName();
  }

  lemma ResolvedNames()
    ensures Resolve("d", "x.txt") == "d/x.txt"
    ensures Resolve("d", "sub") == "d/sub"
    ensures Resolve("d/sub", "y.txt") == "d/sub/y.txt"
  {
  }

  /** One level deep, the sub-folder is neither listed nor entered. */
  lemma ShallowFolderWalk(base: string)
    ensures Walk(base, Folder, 1) == [Resolve(base, "x.txt")]
  {
    var es := Folder.entries;
    assert EntryWalk(base, es[1], 1) == [] by {
      assert Walk(Resolve(base, "sub"), Sub, 0) == [];
    }
    assert WalkEntries(base, es[2..], 1) == [];
    assert WalkEntries(base, es[1..], 1) == EntryWalk(base, es[1], 1) + WalkEntries(base, es[2..], 1);
    assert EntryWalk(base, es[0], 1) == [Resolve(base, "x.txt")];
    assert Walk(base, Folder, 1) == EntryWalk(base, es[0], 1) + WalkEntries(base, es[1..], 1);
  }

  lemma DeepFolderWalk(base: string)
    ensures Walk(base, Folder, MaxDepth) == [Resolve(base, "x.txt"), Resolve(Resolve(base, "sub"), "y.txt")]
  {
    var es := Folder.entries;
    var sub := Resolve(base, "sub");
    assert EntryWalk(base, es[1], MaxDepth) == [Resolve(sub, "y.txt")] by {
      var ys := Sub.entries;
      assert EntryWalk(sub, ys[0], MaxDepth - 1) == [Resolve(sub, "y.txt")];
      assert WalkEntries(sub, ys[1..], MaxDepth - 1) == [];
    }
    assert WalkEntries(base, es[2..], MaxDepth) == [];
    assert WalkEntries(base, es[1..], MaxDepth) == EntryWalk(base, es[1], MaxDepth) + WalkEntries(base, es[2..], MaxDepth);
    assert EntryWalk(base, es[0], MaxDepth) == [Resolve(base, "x.txt")];
    assert Walk(base, Folder, MaxDepth) == EntryWalk(base, es[0], MaxDepth) + WalkEntries(base, es[1..], MaxDepth);
  }

  lemma ShallowFolderListing()
    ensures ListFolder(Disk, "d", false) == Ok(["d/x.txt"])
  {
    LocateFolder();
    ShallowFolderWalk("d");
    ResolvedNames();
  }

  lemma DeepFolderListing()
    ensures ListFolder(Disk, "d", true) == Ok(["d/x.txt", "d/sub/y.txt"])
  {
    LocateFolder();
    DeepFolderWalk("d");
    ResolvedNames();
  }

  lemma EntryRoot()
    ensures Components("/r") == ["r"]
    ensures NormalPath("/r") == "/r"
  {
    assert SplitAll("/r", '/') == ["", "r"] by {
      assert IndexOf("/r", '/') == 0;
      assert "/r"[1..] == "r";
    }
  }

  lemma SplitArchiveUrl()
    ensures SplitJarPath("file:/x/app.jar!/r") == Ok(JarSplit("/x/app.jar", Some("/r")))
  {
    assert "file:" + "/x/app.jar" + "!" + "/r" == "file:/x/app.jar!/r";
    SplitJarUrl("/x/app.jar", "/r");
  }

  lemma ArchivedNames()
    ensures Resolve("/r", "a.png") == "/r/a.png"
    ensures Resolve("/r", "sub") == "/r/sub"
    ensures Resolve("/r/sub", "b.png") == "/r/sub/b.png"
  {
  }

  lemma FindPictures()
    ensures Lookup(Archive, ["r"]) == Some(Pictures)
  {
    assert FindEntry(Archive.entries, "r") == 0;
  }

  /** Without recursion the visitor prunes the sub-folder. */
  lemma ShallowVisit()
    ensures Visit("/r", Pictures, true, false) == ["/r/a.png"]
  {
    ArchivedNames();
    var es := Pictures.entries;
    assert Visit("/r/a.png", es[0].node, false, false) == ["/r/a.png"];
    assert Visit("/r/sub", es[1].node, false, false) == [];
    assert VisitEntries("/r", es[2..], false) == [];
    assert VisitEntries("/r", es[1..], false) == [];
  }

  lemma DeepVisit()
    ensures Visit("/r", Pictures, true, true) == ["/r/a.png", "/r/sub/b.png"]
  {
    ArchivedNames();
    var es := Pictures.entries;
    assert Visit("/r/a.png", es[0].node, false, true) == ["/r/a.png"];
    assert Visit("/r/sub", es[1].node, false, true) == ["/r/sub/b.png"] by {
      var bs := es[1].node.entries;
      assert Visit("/r/sub/b.png", bs[0].node, false, true) == ["/r/sub/b.png"];
      assert VisitEntries("/r/sub", bs[1..], true) == [];
    }
    assert VisitEntries("/r", es[2..], true) == [];
    assert VisitEntries("/r", es[1..], true) == ["/r/sub/b.png"];
  }

  lemma ShallowArchiveWalk()
    ensures WalkArchive(Packaged, JarSplit("/x/app.jar", Some("/r")), false) == Ok(["/r/a.png"])
  {
    EntryRoot();
    FindPictures();
    ShallowVisit();
  }

  lemma DeepArchiveWalk()
    ensures WalkArchive(Packaged, JarSplit("/x/app.jar", Some("/r")), true) == Ok(["/r/a.png", "/r/sub/b.png"])
  {
    EntryRoot();
    FindPictures();
    DeepVisit();
  }

  /** The resource `assets/g` lives in the archive, so its listing is the
      archive walk from `/r`, with entry paths as they are inside the archive. */
  lemma ShallowResourceListing()
    ensures JarList(Packaged, "g", false) == Ok(["/r/a.png"])
  {
    assert PathFix.ResourcePrefix + "g" == "assets/g";
    SplitArchiveUrl();
    ShallowArchiveWalk();
  }

  lemma DeepResourceListing()
    ensures JarList(Packaged, "g", true) == Ok(["/r/a.png", "/r/sub/b.png"])
  {
    assert PathFix.ResourcePrefix + "g" == "assets/g";
    SplitArchiveUrl();
    DeepArchiveWalk();
  }

  lemma JoinUnpackedNames()
    ensures Join(["g", "assets", "d"], '/') == "g/assets/d"
  {
    JoinCons("assets", ["d"], '/');
    JoinCons("g", ["assets", "d"], '/');
  }

  lemma UnpackedFolderName()
    ensures NormalPath("/g/assets/d") == "/g/assets/d"
  {
    var parts := ["g", "assets", "d"];
    assert "/" + Join(parts, '/') == "/g/assets/d" by {
      JoinUnpackedNames();
    }
    NormalPathRooted(parts);
  }

  /** A `file` URL whose normal path is on the disk finds what is there. */
  lemma LocateFileUrl(h: Host, path: string, f: string)
    requires path in h.resources && h.resources[path].protocol == "file"
    requires NormalPath(h.resources[path].path) == f && f in h.disk
    ensures Locate(h, path) == Ok(Target(f, Some(h.disk[f])))
  {
  }

  lemma LocateUnpacked()
    ensures Locate(Unpacked, "assets/d") == Ok(Target("/g/assets/d", Some(Folder)))
  {
    UnpackedFolderName();
    LocateFileUrl(Unpacked, "assets/d", "/g/assets/d");
  }

  lemma NamesOfUnpacked()
    ensures Names("/g/assets/d") == ["g", "assets", "d"]
  {
    NamesJoin(["g", "assets", "d"]);
    JoinUnpackedNames();
    assert "/g/assets/d"[1..] == "g/assets/d";
  }

  /** FixPath drops the URL's leading `/`. */
  lemma UnpackedPlain(s: string)
    requires s == "/g/assets/d"
    ensures |s| != 1 && NoneTrimmed(s)
    ensures forall i :: 0 <= i < |s| ==> !IsForbidden(s[i]) && !IsLineTerminator(s[i])
  {
    forall i | 0 <= i < |s|
      ensures s[i] in "/gasetd"
    {
    }
  }

  lemma FixUnpacked()
    ensures FixPath("/g/assets/d") == Ok("g/assets/d")
  {
    UnpackedPlain("/g/assets/d");
    FixPathNames("/g/assets/d");
    NamesOfUnpacked();
    JoinUnpackedNames();
  }

  /** Removing the resource name from the fixed path leaves `g/`, so two
      characters are cut from each walked path. */
  lemma UnpackedCut()
    ensures RemoveAll("g/assets/d", "assets/d") == "g/"
  {
    var t := "assets/d";
    assert RemoveAll(t, t) == [] by {
      assert t[..|t|] == t && t[|t|..] == [];
    }
    assert RemoveAll("/assets/d", t) == "/" + RemoveAll(t, t) by {
      assert "/assets/d"[..8] != t by {
        assert "/assets/d"[..8][0] == '/';
      }
      assert "/assets/d"[1..] == t;
    }
    assert RemoveAll("g/assets/d", t) == "g" + RemoveAll("/assets/d", t) by {
      assert "g/assets/d"[..8] != t by {
        assert "g/assets/d"[..8][0] == 'g';
      }
      assert "g/assets/d"[1..] == "/assets/d";
    }
  }

  lemma UnpackedListing(recursive: bool)
    ensures JarList(Unpacked, "d", recursive)
      == LooseList(Unpacked, "assets/d", Url("file", "/g/assets/d"), recursive)
  {
    assert PathFix.ResourcePrefix + "d" == "assets/d";
  }

  /** Wherever `Folder` is found, the listings are those of its walk. */
  lemma FolderListed(h: Host, path: string, base: string)
    requires Locate(h, path) == Ok(Target(base, Some(Folder)))
    ensures ListFolder(h, path, false) == Ok([Resolve(base, "x.txt")])
    ensures ListFolder(h, path, true) == Ok([Resolve(base, "x.txt"), Resolve(Resolve(base, "sub"), "y.txt")])
  {
    ShallowFolderWalk(base);
    DeepFolderWalk(base);
  }

  /** Resolving under `a + b` keeps the prefix `a`. */
  lemma ResolveUnder(a: string, b: string, name: string)
    requires b != [] && b[|b| - 1] != '/'
    ensures Resolve(a + b, name) == a + (b + "/" + name)
  {
    assert (a + b)[|a + b| - 1] == b[|b| - 1];
  }

  lemma UnpackedFile()
    ensures Resolve("/g/assets/d", "x.txt") == "/g" + "/assets/d/x.txt"
  {
    assert "/g/assets/d" == "/g" + "/assets/d";
    ResolveUnder("/g", "/assets/d", "x.txt");
  }

  lemma UnpackedSubFile()
    ensures Resolve(Resolve("/g/assets/d", "sub"), "y.txt") == "/g" + "/assets/d/sub/y.txt"
  {
    assert Resolve("/g/assets/d", "sub") == "/g" + "/assets/d/sub" by {
      assert "/g/assets/d" == "/g" + "/assets/d";
      ResolveUnder("/g", "/assets/d", "sub");
    }
    ResolveUnder("/g", "/assets/d/sub", "y.txt");
  }

  /** The walked paths lose the two characters `/g`, one fewer than the
      folder's prefix `/g/`: the leading `/` survives. */
  lemma UnpackedRelativise(files: seq<string>, rel: seq<string>)
    requires |files| == |rel| && forall i :: 0 <= i < |files| ==> files[i] == "/g" + rel[i]
    ensures Relativise(files, 2) == Ok(rel)
  {
    assert forall i :: 0 <= i < |files| ==> files[i][2..] == rel[i];
    RelativiseCuts(files, 2);
    assert Relativise(files, 2).value == rel;
  }

  /** The unpacked listing put together from its three parts. */
  lemma LooseListOf(h: Host, full: string, url: Url, recursive: bool, files: seq<string>, fixed: string, rel: seq<string>)
    requires |full| > 0
    requires ListFolder(h, full, recursive) == Ok(files)
    requires FixPath(url.path) == Ok(fixed)
    requires Relativise(files, |RemoveAll(fixed, full)|) == Ok(rel)
    ensures LooseList(h, full, url, recursive) == Ok(rel)
  {
  }

  lemma ShallowUnpackedFolder()
    ensures ListFolder(Unpacked, "assets/d", false) == Ok([Resolve("/g/assets/d", "x.txt")])
  {
    LocateUnpacked();
    FolderListed(Unpacked, "assets/d", "/g/assets/d");
  }

  lemma DeepUnpackedFolder()
    ensures ListFolder(Unpacked, "assets/d", true)
      == Ok([Resolve("/g/assets/d", "x.txt"), Resolve(Resolve("/g/assets/d", "sub"), "y.txt")])
  {
    LocateUnpacked();
    FolderListed(Unpacked, "assets/d", "/g/assets/d");
  }

  lemma ShallowUnpackedCut()
    ensures Relativise([Resolve("/g/assets/d", "x.txt")], |RemoveAll("g/assets/d", "assets/d")|)
      == Ok(["/assets/d/x.txt"])
  {
    UnpackedFile();
    UnpackedCut();
    UnpackedRelativise([Resolve("/g/assets/d", "x.txt")], ["/assets/d/x.txt"]);
  }

  lemma DeepUnpackedCut()
    ensures Relativise([Resolve("/g/assets/d", "x.txt"), Resolve(Resolve("/g/assets/d", "sub"), "y.txt")],
                       |RemoveAll("g/assets/d", "assets/d")|)
      == Ok(["/assets/d/x.txt", "/assets/d/sub/y.txt"])
  {
    UnpackedFile();
    UnpackedSubFile();
    UnpackedCut();
    UnpackedRelativise([Resolve("/g/assets/d", "x.txt"), Resolve(Resolve("/g/assets/d", "sub"), "y.txt")],
                       ["/assets/d/x.txt", "/assets/d/sub/y.txt"]);
  }

  lemma ShallowUnpackedLoose()
    ensures LooseList(Unpacked, "assets/d", Url("file", "/g/assets/d"), false) == Ok(["/assets/d/x.txt"])
  {
    ShallowUnpackedFolder();
    FixUnpacked();
    ShallowUnpackedCut();
    LooseListOf(Unpacked, "assets/d", Url("file", "/g/assets/d"), false,
                [Resolve("/g/assets/d", "x.txt")], "g/assets/d", ["/assets/d/x.txt"]);
  }

  lemma DeepUnpackedLoose()
    ensures LooseList(Unpacked, "assets/d", Url("file", "/g/assets/d"), true)
      == Ok(["/assets/d/x.txt", "/assets/d/sub/y.txt"])
  {
    DeepUnpackedFolder();
    FixUnpacked();
    DeepUnpackedCut();
    LooseListOf(Unpacked, "assets/d", Url("file", "/g/assets/d"), true,
                [Resolve("/g/assets/d", "x.txt"), Resolve(Resolve("/g/assets/d", "sub"), "y.txt")],
                "g/assets/d", ["/assets/d/x.txt", "/assets/d/sub/y.txt"]);
  }

  /** `JAR.GetAllFilesInFolder("d", false)` on the unpacked resource: the
      walked path `/g/assets/d/x.txt` loses only `/g`. */
  lemma ShallowUnpackedListing()
    ensures JarList(Unpacked, "d", false) == Ok(["/assets/d/x.txt"])
  {
    UnpackedListing(false);
    ShallowUnpackedLoose();
  }

  lemma DeepUnpackedListing()
    ensures JarList(Unpacked, "d", true) == Ok(["/assets/d/x.txt", "/assets/d/sub/y.txt"])
  {
    UnpackedListing(true);
    DeepUnpackedLoose();
  }
}
