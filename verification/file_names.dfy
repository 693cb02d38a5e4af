/**
  `PATH.GetFileName`, `PATH.GetFileExtension` and `PATH.GetClearFileName`
  over `/`-separated path strings, as the Unix path parser reads them.
 */
module FileNames {
  import opened Outcomes
  import opened Text

  /** The character `Paths.get` rejects on Unix. */
  const Nul: char := '\0'

  /** `s` with its trailing `/` characters removed. */
  function DropTrailingSlashes(s: string): (r: string)
    ensures |r| <= |s| && r == s[..|r|]
    ensures r == [] || r[|r| - 1] != '/'
    ensures forall k :: |r| <= k < |s| ==> s[k] == '/'
  {
    if s != [] && s[|s| - 1] == '/' then DropTrailingSlashes(s[..|s| - 1]) else s
  }

  /** `name` is the last name of path `p`: it sits at `p[i..i + |name|]`,
      a `/` or the start of `p` comes before it, and only `/` follows it. */
  predicate LastNameAt(p: string, name: string, i: int) {
    && 0 <= i <= |p| - |name|
    && p[i..i + |name|] == name
    && (i == 0 || p[i - 1] == '/')
    && forall k :: i + |name| <= k < |p| ==> p[k] == '/'
  }

  predicate AllSlashes(p: string) {
    forall k :: 0 <= k < |p| ==> p[k] == '/'
  }

  /** `Paths.get(Path).getFileName().toString()`. A NUL character makes the
      path invalid; the empty path is its own file name; a path made only of
      `/` is the root, whose file name is `null`, so `toString` fails;
      otherwise the result is the last non-empty name. */
  function GetFileName(p: string): (r: Result<string>)
    ensures Nul in p ==> r == Err(InvalidPath)
    ensures Nul !in p && p == [] ==> r == Ok([])
    ensures Nul !in p && p != [] && AllSlashes(p) ==> r == Err(NullPointer)
    ensures r.Ok? <==> Nul !in p && (p == [] || !AllSlashes(p))
    ensures r.Ok? && p != [] ==>
      && r.value != []
      && '/' !in r.value
      && exists i :: LastNameAt(p, r.value, i)
  {
    if Nul in p then Err(InvalidPath)
    else if p == [] then Ok([])
    else
      var q := DropTrailingSlashes(p);
      if q == [] then Err(NullPointer)
      else
        var i := LastIndexOf(q, '/') + 1;
        assert LastNameAt(p, q[i..], i);
        Ok(q[i..])
  }

  /** `PATH.GetFileExtension`: what follows the last `.` of the whole path,
      which must exist and must not be the final character. */
  function GetFileExtension(p: string): (r: Result<string>)
    ensures r.Ok? <==> '.' in p && p[|p| - 1] != '.'
    ensures r.Err? ==> r.failure == PathException(None)
    ensures r.Ok? ==>
      && r.value != []
      && '.' !in r.value
      && |r.value| < |p|
      && p == p[..|p| - |r.value| - 1] + "." + r.value
  {
    var d := LastIndexOf(p, '.');
    if d != -1 && d < |p| - 1 then
      assert p == p[..d] + "." + p[d + 1..];
      Ok(p[d + 1..])
    else Err(PathException(None))
  }

  /** `PATH.GetClearFileName`: the file name with as many characters cut
      from its end as the extension has, plus one for the dot. Every failure
      inside is caught and rethrown as a `PathException` wrapping the caught
      exception: the file name's failure, the extension's `PathException`,
      or the index error of a negative substring end. */
  function GetClearFileName(p: string): (r: Result<string>)
    ensures r.Ok? <==>
      && GetFileName(p).Ok?
      && GetFileExtension(p).Ok?
      && |GetFileExtension(p).value| < |GetFileName(p).value|
    ensures GetFileName(p).Err? ==> r == Err(PathException(Some(GetFileName(p).failure)))
    ensures GetFileName(p).Ok? && GetFileExtension(p).Err? ==>
      r == Err(PathException(Some(PathException(None))))
    ensures GetFileName(p).Ok? && GetFileExtension(p).Ok? ==>
      (|GetFileExtension(p).value| >= |GetFileName(p).value| <==> r == Err(PathException(Some(IndexOutOfBounds))))
    ensures r.Ok? ==>
      |r.value| == |GetFileName(p).value| - |GetFileExtension(p).value| - 1
      && StartsWith(GetFileName(p).value, r.value)
  {
    match GetFileName(p)
    case Err(e) => Err(PathException(Some(e)))
    case Ok(name) =>
      match GetFileExtension(p)
      case Err(e) => Err(PathException(Some(e)))
      case Ok(ext) =>
        var end := |name| - |ext| - 1;
        if end < 0 then Err(PathException(Some(IndexOutOfBounds))) else Ok(name[..end])
  }

  /** Two suffixes of one string: the shorter is a suffix of the longer. */
  lemma SuffixOfSuffix(p: string, x: string, y: string)
    requires |y| <= |x| <= |p|
    requires p[|p| - |x|..] == x && p[|p| - |y|..] == y
    ensures x[|x| - |y|..] == y
  {
    assert x[|x| - |y|..] == p[|p| - |y|..];
  }

  /** A last name that is longer than a `/`-free tail `.ext` of the path
      ends in that tail. */
  lemma NameEndsWithTail(p: string, name: string, i: int, ext: string)
    requires LastNameAt(p, name, i)
    requires ext != [] && '/' !in ext && |ext| < |name|
    requires |ext| < |p| && p == p[..|p| - |ext| - 1] + "." + ext
    ensures name == name[..|name| - |ext| - 1] + "." + ext
  {
    var tail := "." + ext;
    assert p[|p| - |tail|..] == tail;
    // The path ends in the extension's last character, not in a `/`.
    assert p[|p| - 1] == ext[|ext| - 1];
    assert i + |name| == |p|;
    assert p[|p| - |name|..] == name;
    SuffixOfSuffix(p, name, tail);
  }

  /** When the extension holds no `/`, it lies inside the file name, and the
      clear name, a dot and the extension give the file name back. */
  lemma ClearNameRestores(p: string)
    requires GetClearFileName(p).Ok?
    requires '/' !in GetFileExtension(p).value
    ensures GetClearFileName(p).value + "." + GetFileExtension(p).value == GetFileName(p).value
  {
    var name := GetFileName(p).value;
    var ext := GetFileExtension(p).value;
    assert p != [];
    var i :| LastNameAt(p, name, i);
    NameEndsWithTail(p, name, i, ext);
  }

  lemma FileNameOfRelativePath()
    ensures GetFileName("a/b.txt") == Ok("b.txt")
  {
    assert LastIndexOf("a/b.txt", '/') == 1;
  }

  /** Repeated and trailing separators produce no name. */
  lemma FileNameSkipsSlashes()
    ensures GetFileName("a//b/") == Ok("b")
  {
    assert DropTrailingSlashes("a//b/") == "a//b";
    assert LastIndexOf("a//b", '/') == 2;
  }

  /** The root has no file name. */
  lemma FileNameOfRootFails()
    ensures GetFileName("//") == Err(NullPointer)
  {
  }

  lemma ExtensionExamples()
    ensures GetFileExtension("a/b.txt") == Ok("txt")
    ensures GetFileExtension("a/b") == Err(PathException(None))
    ensures GetFileExtension("a.") == Err(PathException(None))
  {
    assert LastIndexOf("a/b.txt", '.') == 3;
  }

  /** The extension is looked for in the whole path, so a dot in a folder
      name yields one that reaches across the `/`, longer than the file name. */
  lemma DotInFolderFails()
    ensures GetFileExtension("a.b/c") == Ok("b/c")
    ensures GetFileName("a.b/c") == Ok("c")
    ensures GetClearFileName("a.b/c") == Err(PathException(Some(IndexOutOfBounds)))
  {
    assert LastIndexOf("a.b/c", '.') == 1;
    assert LastIndexOf("a.b/c", '/') == 3;
  }

  /** With a trailing `/` the extension is `b/` and the clear name is empty. */
  lemma TrailingSlashClearName()
    ensures GetClearFileName("a.b/") == Ok("")
  {
    TrailingSlashParts();
    ClearFromParts("a.b/", "a.b", "b/");
    assert "a.b"[..0] == "";
  }

  lemma TrailingSlashParts()
    ensures GetFileExtension("a.b/") == Ok("b/")
    ensures GetFileName("a.b/") == Ok("a.b")
  {
    assert LastIndexOf("a.b/", '.') == 1;
    assert DropTrailingSlashes("a.b/") == "a.b";
    assert LastIndexOf("a.b", '/') == -1;
  }

  lemma ClearNameExample()
    ensures GetClearFileName("a/b.txt") == Ok("b")
  {
    FileNameOfRelativePath();
    ExtensionExamples();
    ClearFromParts("a/b.txt", "b.txt", "txt");
    assert "b.txt"[..1] == "b";
  }

  /** The clear name once the file name and the extension are known. */
  lemma ClearFromParts(p: string, name: string, ext: string)
    requires GetFileName(p) == Ok(name) && GetFileExtension(p) == Ok(ext)
    requires |ext| < |name|
    ensures GetClearFileName(p) == Ok(name[..|name| - |ext| - 1])
  {
  }
}
