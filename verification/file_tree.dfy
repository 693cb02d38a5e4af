/**
  The file tree the two folder listings walk, and the two walks themselves:
  `Files.walk(root, depth)` filtered to regular files, as the plain listing
  uses it, and the `SimpleFileVisitor` of the archive listing, which
  collects every non-directory and skips the subtree of every directory
  other than the root when the listing is not recursive.
 */
module FileTree {
  import opened Outcomes
  import opened Text
  import PathFix

  /** A regular file, or a directory whose entries come in the order the
      file system reports them. */
  datatype Node = File | Dir(entries: seq<Entry>)

  datatype Entry = Entry(name: string, node: Node)

  /** No two entries of one directory share a name. */
  predicate UniqueNames(es: seq<Entry>) {
    forall j, k :: 0 <= j < k < |es| ==> es[j].name != es[k].name
  }

  /** Every directory of the tree has uniquely named entries. */
  predicate WellFormed(n: Node)
    decreases n
  {
    match n
    case File => true
    case Dir(es) => UniqueNames(es) && forall k :: 0 <= k < |es| ==> WellFormed(es[k].node)
  }

  /** `Path.resolve(name)` on the path's string: a separator goes between
      the two unless the base is empty or already ends in one (the root). */
  function Resolve(base: string, name: string): (r: string)
    ensures base == [] ==> r == name
    ensures base != [] ==> |r| > |base| || name == []
    ensures |base| <= |r| - |name| <= |base| + 1
    ensures StartsWith(r, base) && r[|r| - |name|..] == name
    ensures |r| - |name| == |base| + 1 ==> r[|base|] == '/'
  {
    if base == [] then name
    else if base[|base| - 1] == '/' then base + name
    else base + "/" + name
  }

  /** The path string reached from `base` by the names `rel`, one at a time. */
  function Render(base: string, rel: seq<string>): string
    decreases |rel|
  {
    if rel == [] then base else Render(Resolve(base, rel[0]), rel[1..])
  }

  /** The index of the first entry named `name`, or -1. */
  function FindEntry(es: seq<Entry>, name: string): (i: int)
    ensures -1 <= i < |es|
    ensures i == -1 <==> forall k :: 0 <= k < |es| ==> es[k].name != name
    ensures 0 <= i ==> es[i].name == name && forall k :: 0 <= k < i ==> es[k].name != name
  {
    if es == [] then -1
    else if es[0].name == name then 0
    else
      var i := FindEntry(es[1..], name);
      if i == -1 then -1 else i + 1
  }

  /** The node reached from `n` by following the names `rel`, if any. */
  function Lookup(n: Node, rel: seq<string>): Option<Node>
    decreases |rel|
  {
    if rel == [] then Some(n)
    else match n
      case File => None
      case Dir(es) =>
        var i := FindEntry(es, rel[0]);
        if i == -1 then None else Lookup(es[i].node, rel[1..])
  }

  /** `Files.walk(base, depth)` without its start, filtered to regular
      files: a pre-order walk that lists the files down to `depth` levels
      below `base`. */
  function Walk(base: string, n: Node, depth: nat): (r: seq<string>)
    ensures forall k :: 0 <= k < |r| ==> StartsWith(r[k], base)
    decreases n, 1
  {
    match n
    case File => []
    case Dir(es) => WalkEntries(base, es, depth)
  }

  function WalkEntries(base: string, es: seq<Entry>, depth: nat): (r: seq<string>)
    ensures forall k :: 0 <= k < |r| ==> StartsWith(r[k], base)
    decreases es, 0
  {
    if es == [] || depth == 0 then []
    else
      var a := EntryWalk(base, es[0], depth);
      var b := WalkEntries(base, es[1..], depth);
      AllStartWithConcat(a, b, base);
      a + b
  }

  /** What the walk yields for one entry one level below `base`. */
  function EntryWalk(base: string, e: Entry, depth: nat): (r: seq<string>)
    requires depth >= 1
    ensures forall k :: 0 <= k < |r| ==> StartsWith(r[k], base)
    decreases e, 2
  {
    var here := Resolve(base, e.name);
    match e.node
    case File => [here]
    case Dir(_) =>
      var r := Walk(here, e.node, depth - 1);
      AllStartWithTrans(r, here, base);
      r
  }

  lemma StartsWithTrans(x: string, y: string, z: string)
    requires StartsWith(x, y) && StartsWith(y, z)
    ensures StartsWith(x, z)
  {
    assert x[..|z|] == x[..|y|][..|z|];
  }

  /** Paths under `here`, itself under `base`, are under `base`. */
  lemma AllStartWithTrans(xs: seq<string>, here: string, base: string)
    requires forall k :: 0 <= k < |xs| ==> StartsWith(xs[k], here)
    requires StartsWith(here, base)
    ensures forall k :: 0 <= k < |xs| ==> StartsWith(xs[k], base)
  {
    forall k | 0 <= k < |xs|
      ensures StartsWith(xs[k], base)
    {
      StartsWithTrans(xs[k], here, base);
    }
  }

  lemma AllStartWithConcat(a: seq<string>, b: seq<string>, base: string)
    requires forall k :: 0 <= k < |a| ==> StartsWith(a[k], base)
    requires forall k :: 0 <= k < |b| ==> StartsWith(b[k], base)
    ensures forall k :: 0 <= k < |a + b| ==> StartsWith((a + b)[k], base)
  {
    assert forall k :: |a| <= k < |a| + |b| ==> (a + b)[k] == b[k - |a|];
  }

  /** `p` is listed from `n`: it is the path of a file `rel` names, between
      one and `depth` levels below the start. */
  ghost predicate ListedAt(n: Node, base: string, depth: nat, rel: seq<string>, p: string) {
    1 <= |rel| <= depth && Lookup(n, rel) == Some(File) && p == Render(base, rel)
  }

  ghost predicate Listed(n: Node, base: string, depth: nat, p: string) {
    exists rel :: ListedAt(n, base, depth, rel, p)
  }

  /** A path is in a walk's sequence iff one of the entries yields it. */
  lemma {:induction false} WalkEntriesMember(base: string, es: seq<Entry>, depth: nat, p: string)
    requires depth >= 1
    ensures p in WalkEntries(base, es, depth) <==>
      exists k :: 0 <= k < |es| && p in EntryWalk(base, es[k], depth)
  {
    if es != [] {
      WalkEntriesMember(base, es[1..], depth, p);
      if p in WalkEntries(base, es[1..], depth) {
        var k :| 0 <= k < |es[1..]| && p in EntryWalk(base, es[1..][k], depth);
        assert es[1..][k] == es[k + 1];
      }
      forall k | 1 <= k < |es| && p in EntryWalk(base, es[k], depth)
        ensures p in WalkEntries(base, es[1..], depth)
      {
        assert es[1..][k - 1] == es[k];
      }
    }
  }

  /** Following the name of entry `k` of a directory with unique names
      leads into entry `k`. */
  lemma LookupEntry(es: seq<Entry>, k: int, rel: seq<string>)
    requires UniqueNames(es) && 0 <= k < |es|
    ensures Lookup(Dir(es), [es[k].name] + rel) == Lookup(es[k].node, rel)
  {
    var r := [es[k].name] + rel;
    assert r[0] == es[k].name && r[1..] == rel;
  }

  lemma RenderStep(base: string, name: string, rel: seq<string>)
    ensures Render(base, [name] + rel) == Render(Resolve(base, name), rel)
  {
    var r := [name] + rel;
    assert r[0] == name && r[1..] == rel;
  }

  /** The walk lists exactly the files at most `depth` levels below the
      start, each under the path its names render to; in particular it
      never lists a directory. */
  lemma {:induction false} WalkListsFiles(base: string, n: Node, depth: nat, p: string)
    requires WellFormed(n)
    ensures p in Walk(base, n, depth) <==> Listed(n, base, depth, p)
    decreases n, 1
  {
    match n
    case File =>
    case Dir(es) =>
      if depth != 0 {
        WalkEntriesMember(base, es, depth, p);
        if p in Walk(base, n, depth) {
          var k :| 0 <= k < |es| && p in EntryWalk(base, es[k], depth);
          EntryListed(base, es, k, depth, p);
        }
        if Listed(n, base, depth, p) {
          var rel :| ListedAt(n, base, depth, rel, p);
          ListedInEntry(base, es, depth, rel, p);
        }
      }
  }

  /** Forward direction for one entry: what entry `k` yields is listed. */
  lemma {:induction false} EntryListed(base: string, es: seq<Entry>, k: int, depth: nat, p: string)
    requires WellFormed(Dir(es)) && 0 <= k < |es| && depth >= 1
    requires p in EntryWalk(base, es[k], depth)
    ensures Listed(Dir(es), base, depth, p)
    decreases es, 0
  {
    var e := es[k];
    var here := Resolve(base, e.name);
    assert WellFormed(e.node);
    match e.node
    case File =>
      assert ListedAt(Dir(es), base, depth, [e.name], p) by {
        LookupEntry(es, k, []);
        RenderStep(base, e.name, []);
        assert [e.name] + [] == [e.name];
      }
    case Dir(_) =>
      assert Listed(e.node, here, depth - 1, p) by {
        WalkListsFiles(here, e.node, depth - 1, p);
      }
      var rel :| ListedAt(e.node, here, depth - 1, rel, p);
      ListedThroughEntry(base, es, k, depth, rel, p);
  }

  /** A path listed inside entry `k` is listed in the folder one name further. */
  lemma ListedThroughEntry(base: string, es: seq<Entry>, k: int, depth: nat, rel: seq<string>, p: string)
    requires UniqueNames(es) && 0 <= k < |es| && depth >= 1
    requires ListedAt(es[k].node, Resolve(base, es[k].name), depth - 1, rel, p)
    ensures ListedAt(Dir(es), base, depth, [es[k].name] + rel, p)
  {
    LookupEntry(es, k, rel);
    RenderStep(base, es[k].name, rel);
  }

  /** Backward direction: a listed path comes from the entry its first
      name selects. */
  lemma {:induction false} ListedInEntry(base: string, es: seq<Entry>, depth: nat, rel: seq<string>, p: string)
    requires WellFormed(Dir(es)) && depth >= 1
    requires ListedAt(Dir(es), base, depth, rel, p)
    ensures p in WalkEntries(base, es, depth)
    decreases es, 1
  {
    var k := FindEntry(es, rel[0]);
    var rest := rel[1..];
    assert k != -1 && Lookup(es[k].node, rest) == Some(File) by {
      assert Lookup(Dir(es), rel) == Some(File);
    }
    assert p == Render(Resolve(base, es[k].name), rest) by {
      assert rel == [es[k].name] + rest;
      RenderStep(base, es[k].name, rest);
    }
    EntryYields(base, es, k, depth, rest, p);
    WalkEntriesMember(base, es, depth, p);
  }

  /** A file `rest` names below entry `k` is in what that entry yields. */
  lemma {:induction false} EntryYields(base: string, es: seq<Entry>, k: int, depth: nat, rest: seq<string>, p: string)
    requires WellFormed(Dir(es)) && 0 <= k < |es| && depth >= 1
    requires |rest| <= depth - 1 && Lookup(es[k].node, rest) == Some(File)
    requires p == Render(Resolve(base, es[k].name), rest)
    ensures p in EntryWalk(base, es[k], depth)
    decreases es, 0
  {
    var e := es[k];
    var here := Resolve(base, e.name);
    if rest == [] {
      assert e.node == File;
      assert EntryWalk(base, e, depth) == [here];
    } else {
      assert e.node.Dir?;
      assert WellFormed(e.node);
      assert ListedAt(e.node, here, depth - 1, rest, p);
      WalkListsFiles(here, e.node, depth - 1, p);
      assert EntryWalk(base, e, depth) == Walk(here, e.node, depth - 1);
    }
  }

  /** The string a Unix path parser makes of `p`: repeated and trailing
      separators are dropped, a leading one is kept. */
  function NormalPath(p: string): (r: string)
    ensures (r != [] && r[0] == '/') <==> (p != [] && p[0] == '/')
    ensures PathFix.NoDoubleSlash(r)
    ensures r == [] || r == "/" || r[|r| - 1] != '/'
  {
    var body := Join(Components(p), '/');
    JoinNames(Components(p));
    if p != [] && p[0] == '/' then
      RootedJoin(body);
      "/" + body
    else body
  }

  /** The parser keeps every non-empty name of the input, in order. */
  lemma NormalPathKeepsNames(p: string)
    ensures Components(NormalPath(p)) == Components(p)
  {
    if p != [] && p[0] == '/' {
      ComponentsRooted(Components(p));
    } else {
      ComponentsPlain(Components(p));
    }
  }

  lemma RootedJoin(body: string)
    requires body == [] || (body[0] != '/' && body[|body| - 1] != '/')
    requires PathFix.NoDoubleSlash(body)
    ensures var r := "/" + body;
      && PathFix.NoDoubleSlash(r)
      && (r == "/" || r[|r| - 1] != '/')
  {
    var r := "/" + body;
    assert forall i :: 1 <= i < |r| ==> r[i] == body[i - 1];
  }

  /** Non-empty names without `/`, joined by `/`: no `/` at either end and
      never two in a row. */
  lemma {:induction false} JoinNames(parts: seq<string>)
    requires forall k :: 0 <= k < |parts| ==> parts[k] != [] && '/' !in parts[k]
    ensures var j := Join(parts, '/');
      && (j == [] <==> parts == [])
      && (j != [] ==> j[0] != '/' && j[|j| - 1] != '/')
      && PathFix.NoDoubleSlash(j)
    decreases |parts|
  {
    if |parts| >= 2 {
      var p0 := parts[0];
      var rest := Join(parts[1..], '/');
      JoinNames(parts[1..]);
      var j := p0 + ['/'] + rest;
      assert j == Join(parts, '/');
      assert forall i :: 0 <= i < |p0| ==> j[i] == p0[i];
      assert forall i :: |p0| < i < |j| ==> j[i] == rest[i - |p0| - 1];
      assert p0[0] != '/' by {
        assert p0[0] in p0;
      }
      assert forall i :: 0 <= i < |p0| ==> p0[i] != '/';
    } else if |parts| == 1 {
      assert parts[0][0] in parts[0];
      assert parts[0][|parts[0]| - 1] in parts[0];
      assert forall i :: 0 <= i < |parts[0]| ==> parts[0][i] in parts[0];
    }
  }

  /** Splitting a rooted path gives the empty name in front of the rest. */
  lemma SplitRooted(body: string)
    ensures SplitAll("/" + body, '/') == [""] + SplitAll(body, '/')
  {
    var p := "/" + body;
    assert p[..0] == "" && p[1..] == body;
    IndexOfFirst(p, '/', 0);
  }

  lemma ComponentsRooted(parts: seq<string>)
    requires forall k :: 0 <= k < |parts| ==> parts[k] != [] && '/' !in parts[k]
    ensures Components("/" + Join(parts, '/')) == parts
  {
    SplitRooted(Join(parts, '/'));
    if parts == [] {
      assert SplitAll("", '/') == [""] by {
        assert IndexOf("", '/') == -1;
      }
      assert NonEmpty(["", ""]) == [] by {
        assert ["", ""][1..] == [""];
      }
    } else {
      SplitJoin(parts, '/');
      NonEmptyKeeps(parts);
      assert ([""] + parts)[1..] == parts;
    }
  }

  /** A rooted path of non-empty names is already normal. */
  lemma NormalPathRooted(parts: seq<string>)
    requires forall k :: 0 <= k < |parts| ==> parts[k] != [] && '/' !in parts[k]
    ensures var p := "/" + Join(parts, '/'); NormalPath(p) == p
  {
    ComponentsRooted(parts);
  }

  /** The number of levels below a node at which a walk still finds entries. */
  function Height(n: Node): nat
    decreases n, 1
  {
    match n
    case File => 0
    case Dir(es) => EntriesHeight(es)
  }

  function EntriesHeight(es: seq<Entry>): nat
    decreases es, 0
  {
    if es == [] then 0
    else Max(1 + Height(es[0].node), EntriesHeight(es[1..]))
  }

  function Max(a: nat, b: nat): nat {
    if a < b then b else a
  }

  /** The archive listing's visitor. `visitFile` adds every non-directory;
      `preVisitDirectory` continues into the root, and into any other
      directory only when the listing is recursive. A root that is itself
      a file is visited as a file. */
  function Visit(path: string, n: Node, isRoot: bool, recursive: bool): (r: seq<string>)
    ensures forall k :: 0 <= k < |r| ==> StartsWith(r[k], path)
    ensures n.File? ==> r == [path]
    ensures n.Dir? && !isRoot && !recursive ==> r == []
    decreases n, 1
  {
    match n
    case File => [path]
    case Dir(es) => if isRoot || recursive then VisitEntries(path, es, recursive) else []
  }

  function VisitEntries(base: string, es: seq<Entry>, recursive: bool): (r: seq<string>)
    ensures forall k :: 0 <= k < |r| ==> StartsWith(r[k], base)
    decreases es, 0
  {
    if es == [] then []
    else
      var here := Resolve(base, es[0].name);
      var a := Visit(here, es[0].node, false, recursive);
      var b := VisitEntries(base, es[1..], recursive);
      AllStartWithTrans(a, here, base);
      AllStartWithConcat(a, b, base);
      a + b
  }

  /** Without recursion the visitor yields what a walk of depth 1 yields:
      the files directly under the root, in order. */
  lemma {:induction false} ShallowVisitIsWalk(base: string, es: seq<Entry>)
    ensures VisitEntries(base, es, false) == WalkEntries(base, es, 1)
  {
    if es != [] {
      ShallowVisitIsWalk(base, es[1..]);
      match es[0].node
      case File =>
      case Dir(sub) =>
        assert Walk(Resolve(base, es[0].name), es[0].node, 0) == [] by {
          assert WalkEntries(Resolve(base, es[0].name), sub, 0) == [];
        }
    }
  }

  /** With recursion the visitor yields what any walk deep enough to reach
      the bottom of the tree yields: every file, in the same order. */
  lemma {:induction false} DeepVisitIsWalk(base: string, n: Node, depth: nat)
    requires depth >= Height(n)
    ensures n.Dir? ==> Visit(base, n, false, true) == Walk(base, n, depth)
    decreases n, 1
  {
    match n
    case File =>
    case Dir(es) =>
      DeepVisitEntriesIsWalk(base, es, depth);
  }

  lemma {:induction false} DeepVisitEntriesIsWalk(base: string, es: seq<Entry>, depth: nat)
    requires depth >= EntriesHeight(es)
    ensures VisitEntries(base, es, true) == WalkEntries(base, es, depth)
    decreases es, 0
  {
    if es != [] {
      var e := es[0];
      var here := Resolve(base, e.name);
      DeepVisitEntriesIsWalk(base, es[1..], depth);
      match e.node
      case File =>
      case Dir(_) =>
        DeepVisitIsWalk(here, e.node, depth - 1);
    }
  }

  /** A root that is a directory: the visitor starting there matches the
      walk of the plain listing, to depth 1 or to the full height. */
  lemma VisitRootIsWalk(base: string, es: seq<Entry>, recursive: bool, depth: nat)
    requires recursive ==> depth >= EntriesHeight(es)
    requires !recursive ==> depth == 1
    ensures Visit(base, Dir(es), true, recursive) == Walk(base, Dir(es), depth)
  {
    if recursive {
      DeepVisitEntriesIsWalk(base, es, depth);
    } else {
      ShallowVisitIsWalk(base, es);
    }
  }

  /** An entry's subtree is at least one level shallower than its directory. */
  lemma {:induction false} EntryBelowHeight(es: seq<Entry>, k: int)
    requires 0 <= k < |es|
    ensures EntriesHeight(es) >= 1 + Height(es[k].node)
  {
    if k > 0 {
      EntryBelowHeight(es[1..], k - 1);
      assert es[1..][k - 1] == es[k];
    }
  }

  /** No file lies deeper than the height of its tree. */
  lemma {:induction false} LookupWithinHeight(n: Node, rel: seq<string>)
    requires Lookup(n, rel) == Some(File)
    ensures |rel| <= Height(n)
    decreases |rel|
  {
    if rel != [] {
      var es := n.entries;
      var k := FindEntry(es, rel[0]);
      LookupWithinHeight(es[k].node, rel[1..]);
      EntryBelowHeight(es, k);
    }
  }

  /** `p` is the path of some file anywhere below `n`. */
  ghost predicate Below(n: Node, base: string, p: string) {
    exists rel :: 1 <= |rel| && Lookup(n, rel) == Some(File) && p == Render(base, rel)
  }

  /** A walk at least as deep as the tree lists every file below the start. */
  lemma DeepWalkListsAll(base: string, n: Node, depth: nat, p: string)
    requires WellFormed(n) && depth >= Height(n)
    ensures p in Walk(base, n, depth) <==> Below(n, base, p)
  {
    WalkListsFiles(base, n, depth, p);
    if Below(n, base, p) {
      var rel :| 1 <= |rel| && Lookup(n, rel) == Some(File) && p == Render(base, rel);
      LookupWithinHeight(n, rel);
      assert ListedAt(n, base, depth, rel, p);
    }
  }

  /** Every node of a well-formed tree is well formed. */
  lemma {:induction false} LookupKeepsWellFormed(n: Node, rel: seq<string>)
    requires WellFormed(n) && Lookup(n, rel).Some?
    ensures WellFormed(Lookup(n, rel).value)
    decreases |rel|
  {
    if rel != [] {
      var k := FindEntry(n.entries, rel[0]);
      LookupKeepsWellFormed(n.entries[k].node, rel[1..]);
    }
  }

  lemma RenderOne(base: string, name: string)
    ensures Render(base, [name]) == Resolve(base, name)
  {
    assert [name][1..] == [];
  }

  /** `p` is the path of a regular file directly inside `n`. */
  ghost predicate Child(n: Node, base: string, p: string) {
    exists name :: Lookup(n, [name]) == Some(File) && p == Resolve(base, name)
  }

  /** A walk one level deep lists exactly the files directly inside. */
  lemma ShallowWalkListsChildren(base: string, n: Node, p: string)
    requires WellFormed(n)
    ensures p in Walk(base, n, 1) <==> Child(n, base, p)
  {
    WalkListsFiles(base, n, 1, p);
    if Listed(n, base, 1, p) {
      var rel :| ListedAt(n, base, 1, rel, p);
      assert rel == [rel[0]];
      RenderOne(base, rel[0]);
      assert Lookup(n, [rel[0]]) == Some(File) && p == Resolve(base, rel[0]);
    }
    if Child(n, base, p) {
      var name :| Lookup(n, [name]) == Some(File) && p == Resolve(base, name);
      RenderOne(base, name);
      assert ListedAt(n, base, 1, [name], p);
    }
  }
}
