# File explorer paths and listings, and a student register, in Dafny

This project models two small pieces of code.

**`ExplorerAction`** (`scripts/file-java.java`) is a file-access layer for a
game. It reaches files on the disk and resources packed in the game's jar.
The model covers:

- the path helpers of its nested `PATH` class: `FixPath`,
  `ShortResourcePath`, `GetFileName`, `GetFileExtension` and
  `GetClearFileName`;
- the two folder listings: `ExplorerAction.GetAllFilesInFolder`, which walks
  a folder on the disk, and `JAR.GetAllFilesInFolder`, which walks a folder
  inside the jar or relativises the disk listing for a resource that is not
  archived.

**`StudentManager`** (`scripts/file-cs.cs`) keeps a list of students. You
can add a student, remove a student by name ignoring case, and list the
students. `Program.Main` runs a fixed sequence of these calls.

Strings are `seq<char>`. Every operation that can throw returns a `Result`
whose `Failure` names the exception. `FileException(cause)` stands for the
wrapper exception that the listings throw, and `PathException(wrapped)` for
the path helpers' own exception with the exception it wraps, if any. Host
calls become values:

- the class loader is a map from resource name to URL;
- the disk is a map from normalised path to a `File | Dir(entries)` tree;
- each archive is such a tree;
- console output is returned as lines.

Files:

| file | module | contents |
|---|---|---|
| `outcomes.dfy` | `Outcomes` | `Option`, `Result` and the `Failure` taxonomy |
| `text.dfy` | `Text` | Java string operations: `lastIndexOf`, `trim`, `replace`, `split` |
| `path_fix.dfy` | `PathFix` | `FixPath` step by step, `ShortResourcePath` |
| `path_examples.dfy` | `PathExamples` | worked `FixPath` examples, proved by evaluation |
| `file_names.dfy` | `FileNames` | `GetFileName`, `GetFileExtension`, `GetClearFileName` |
| `file_tree.dfy` | `FileTree` | file trees, `Files.walk`, the archive visitor, what each yields |
| `explorer.dfy` | `Explorer` | both `GetAllFilesInFolder` methods |
| `listing_examples.dfy` | `ListingExamples` | worked disk and archive listings, proved by evaluation |
| `students.dfy` | `Students` | `Student`, `StudentManager` |
| `student_scenario.dfy` | `StudentScenario` | the calls `Program.Main` makes |

## Model

| member | source | states |
|---|---|---|
| PathFix.FixPath | scripts/file-java.java:327-346 | Empty input gives `""`. Input of length 1 fails with an index error, because `charAt(1)` is read first. The result never has a `\` or two `/` in a row. The only forbidden character it can hold is a `:` at index 1, and only when the input had `:` at index 1. Then the result is the cleaned string with index 1 overwritten, and it fails when the cleaned string is shorter than 2. Otherwise the result is the cleaned string. |
| PathFix.FixPathNoEdgeSlash | scripts/file-java.java:333-337 | When the input has no character at or below U+0020, the result neither starts nor ends with `/`. |
| PathFix.CollapseShape | scripts/file-java.java:333 | Collapsing `[/\\]+` leaves only single `/` separators. It is never longer than the input. It is empty only for empty input, and it starts with `/` exactly when the input starts with a separator. |
| PathFix.CollapseKeepsText | scripts/file-java.java:333 | Collapsing changes only separators: the other characters survive, in order. |
| PathFix.CollapseFixesCollapsed | scripts/file-java.java:333 | A path that is already collapsed is left unchanged. |
| PathFix.CollapseRun | scripts/file-java.java:333 | A non-empty run made only of `/` and `\` becomes a single `/`. |
| PathFix.CollapseAppend | scripts/file-java.java:333 | Collapsing works run by run: when the first part does not end in a separator, collapsing the whole is collapsing each part and concatenating. |
| PathFix.StripEdgesOfCollapsed | scripts/file-java.java:335 | On a collapsed string, removing `^[/\\]+` and `[/\\]+$` leaves a collapsed string with no `/` at either end. |
| PathFix.TrailingSlash | scripts/file-java.java:335 | On a collapsed string, where every separator run is one `/`, gives the `/` that `[/\\]+$` removes. It is a `/` at the end of the input or just before a final line terminator, because Java's `$` also matches there. It gives -1 when there is no such `/`. |
| PathFix.ReplaceForbidden | scripts/file-java.java:339 | Keeps the length and leaves none of `< * > ? ' " : \|`. Each of those becomes `_` at its own index, and every other character stays where it was, so a string without them is unchanged. |
| PathFix.DriveFix | scripts/file-java.java:342-344 | `charAt(0) + ":" + substring(2)`: keeps the length, puts `:` at index 1 and changes no other index. |
| PathFix.StripEdgeSlashes | scripts/file-java.java:335 | Models the strip on the collapsed string it always receives, so it looks only at `/`. The result is the input with exactly two positions deleted, when present: a `/` at index 0 and the `/` that `TrailingSlash` names. Every other character, interior separators included, is kept in order. So at most two characters go, the non-separator text is unchanged, and no character at or below U+0020 is introduced. |
| PathFix.Cleaned | scripts/file-java.java:333-339 | After collapsing, stripping, trimming and replacing, the path has only single `/` separators, no `\`, and none of the forbidden characters. |
| PathFix.FixPathKeepsText | scripts/file-java.java:327-346 | For an input of at least two characters with no character at or below U+0020 and no forbidden character (so no `:`), the fix succeeds and changes only separators: the other characters survive, in order. |
| PathFix.NamesPieces | scripts/file-java.java:333 | Every name of a path, in the sense of a maximal run of characters other than `/` and `\`, is non-empty and holds no separator. |
| PathFix.NamesEmpty | scripts/file-java.java:333 | A path has no names exactly when it consists only of separators. |
| PathFix.NamesJoin | scripts/file-java.java:333 | Taking the names of non-empty, separator-free names joined by `/` gives back those names. |
| PathFix.CollapseNames | scripts/file-java.java:333 | Collapsing `[/\\]+` gives the names joined by single `/`, with one `/` in front exactly when the input starts with a separator and one behind exactly when it ends with one and has a name. |
| PathFix.TidyNames | scripts/file-java.java:333-335 | On an input with no line terminator, collapsing and then stripping the edge separators gives exactly the names joined by single `/`: every interior separator run survives as one `/`. |
| PathFix.FixPathNames | scripts/file-java.java:327-346 | For an input that is not one character long, with no character at or below U+0020, no forbidden character and no line terminator, the fix succeeds and gives the input's names joined by single `/`. |
| PathFix.DriveFixKeepsShape | scripts/file-java.java:342-344 | The drive fix of a collapsed path with no forbidden characters is collapsed, and its only forbidden character is the `:` at index 1. |
| Text.LastIndexOf | scripts/file-java.java:312 | `lastIndexOf(c)` is -1 exactly when `c` does not occur. Otherwise it is the index of a `c` with no `c` after it. |
| Text.IndexOf | scripts/file-java.java:448 | `indexOf(c)` is -1 exactly when `c` does not occur. Otherwise it is the index of a `c` with no `c` before it. |
| Text.Trim | scripts/file-java.java:337 | `trim()` gives a slice of the input whose ends are above U+0020, with only characters at or below U+0020 cut off on either side. |
| Text.TrimIdentity | scripts/file-java.java:337 | A string with no character at or below U+0020 is left unchanged by the trim. |
| Text.RemoveAll | scripts/file-java.java:477 | `replace(t, "")` never lengthens the string. It shortens it only when `t` occurs, and then by at least the length of `t`. |
| Text.RemoveAllAtFirst | scripts/file-java.java:477 | `replace(t, "")` keeps the text before the first occurrence of `t`, drops that occurrence, and goes on removing every later occurrence that does not overlap it. With `Text.RemoveAbsent` this gives the value of every removal. |
| Text.RemoveAllKeepsPrefix | scripts/file-java.java:477 | A prefix in which no occurrence of `t` starts is kept unchanged in front of the removal from the rest. |
| Text.RemoveTrailing | scripts/file-java.java:477 | When `t` occurs in `f + t` only at the end, removing it gives `f`: a folder path that ends with the resource name loses exactly that name. |
| Text.RemoveAbsent | scripts/file-java.java:477 | Removing a target that does not occur gives the string back. |
| Text.SplitAll | scripts/file-java.java:448 | Splitting at every separator gives at least one piece. No piece holds the separator, and joining the pieces with it gives back the string. |
| Text.SplitJoin | scripts/file-java.java:448 | Splitting pieces that hold no separator, joined by it, gives back exactly those pieces. |
| Text.JavaSplit | scripts/file-java.java:448 | `split("!")` gives the whole string when there is no `!`. Otherwise it gives the pieces without trailing empty ones, none holding `!`. Joined with `!`, they give a prefix of the string that is followed only by `!`. |
| Text.JavaSplitPieces | scripts/file-java.java:448-452 | With a separator present, piece 0 is what precedes the first separator and piece 1 is what lies between the first and the second. |
| Text.JavaSplitTwo | scripts/file-java.java:448 | Two separator-free pieces, the second non-empty, joined by the separator split back into exactly those two pieces. |
| Text.JavaSplitHead | scripts/file-java.java:448-449 | When the split has a piece, piece 0 is what precedes the first separator. When it has none, nothing precedes the first separator. |
| PathFix.StripResourcePrefix | scripts/file-java.java:356-358 | The result is a suffix of the path. It is the path with `assets/` removed when the path starts with it, and the path itself otherwise. |
| PathFix.ShortResourcePath | scripts/file-java.java:353-360 | Fails exactly when `FixPath` fails. Otherwise the result is a suffix of the fixed path. It is the fixed path with one leading `assets/` removed when it starts with one, and the fixed path itself otherwise. |
| PathExamples.DriveLetterKept | scripts/file-java.java:331-344 | `C:/a` is fixed to `C:/a`: the colon is replaced and then written back. |
| PathExamples.ForbiddenCharacters | scripts/file-java.java:339 | `a<b>c` is fixed to `a_b_c`. |
| PathExamples.TrimExposesSlash | scripts/file-java.java:335-337 | ` /a` is fixed to `/a`, because the trim runs after the slashes are stripped. |
| PathExamples.SingleCharacterFails | scripts/file-java.java:328-331 | `a` fails with an index error. |
| PathExamples.LoneDriveColonFails | scripts/file-java.java:331-344 | ` :` fails, because the cleaned string `_` is too short for the drive fix. |
| PathExamples.DriveFixOverwrites | scripts/file-java.java:331-344 | `\:x` is fixed to `_:`: the colon moved to index 0 and the `x` at index 1 is lost. |
| PathExamples.SlashBeforeLineTerminator | scripts/file-java.java:335-337 | `ab/` followed by a newline is fixed to `ab`. |
| PathExamples.BarePrefixKept | scripts/file-java.java:353-360 | `assets/` is fixed to `assets`, which no longer starts with the prefix, so it is returned unchanged. |
| FileNames.GetFileName | scripts/file-java.java:284-286 | A NUL character makes the path invalid. The empty path gives `""`. A path made only of `/` fails, because its file name is `null`. Otherwise the result is a non-empty name without `/` that ends the path, followed only by `/`. |
| FileNames.GetFileExtension | scripts/file-java.java:311-318 | Succeeds exactly when the path holds a `.` and does not end with one. The result is non-empty, has no `.`, and the path is whatever precedes it, then `.`, then the result. Every failure is a `PathException` with no cause. |
| FileNames.GetClearFileName | scripts/file-java.java:296-303 | Succeeds exactly when both the file name and the extension exist and the extension is shorter than the name. The result is the prefix of the name whose length is the name's length minus the extension's length minus 1. Every failure is a `PathException` wrapping the caught exception: the file name's `InvalidPath` or `NullPointer`, the extension's `PathException`, or an index error when the extension is at least as long as the name. |
| FileNames.ClearNameRestores | scripts/file-java.java:296-303 | When the extension has no `/`, the clear name, `.` and the extension give back the file name. |
| FileNames.DotInFolderFails | scripts/file-java.java:296-318 | For `a.b/c`, the extension is `b/c`, which is longer than the name `c`, so the clear name fails with a `PathException` wrapping an index error. |
| FileTree.Resolve | scripts/file-java.java:257-260 | `Path.resolve(name)`: the result starts with the base and ends with the name. At most one character lies between them, and if one does, it is `/`. An empty base gives the name. |
| FileTree.NormalPath | scripts/file-java.java:247 | `Paths.get` keeps a leading `/` exactly when the input has one, leaves no two `/` in a row, and ends in `/` only when it is the root. |
| FileTree.NormalPathKeepsNames | scripts/file-java.java:247 | `Paths.get` keeps every non-empty name of the input, in order, and drops nothing else: the normal path has exactly the input's names. |
| Text.ComponentsPlain | scripts/file-java.java:247 | The names of non-empty, `/`-free names joined by `/` are exactly those names. |
| FileTree.NormalPathRooted | scripts/file-java.java:247 | A `/` followed by non-empty names joined by `/` is already normal: `Paths.get` gives it back unchanged. |
| FileTree.Walk | scripts/file-java.java:257-261 | Every path the walk yields lies under the start path. |
| FileTree.WalkEntries | scripts/file-java.java:257-261 | Every path the walk of a folder's entries yields lies under the folder's path. |
| FileTree.EntryWalk | scripts/file-java.java:257-261 | Every path the walk yields for one entry lies under the folder's path. |
| FileTree.Visit | scripts/file-java.java:453-469 | Every path the visitor yields lies under the visited path. A file yields just its own path. A directory below the root yields nothing without recursion. |
| FileTree.VisitEntries | scripts/file-java.java:453-469 | Every path the visitor yields for a folder's entries lies under the folder's path. |
| FileTree.WalkListsFiles | scripts/file-java.java:256-261 | In a tree with unique names, a path is in the walk to depth `d` exactly when it names a regular file between 1 and `d` levels below the start. Directories are never listed. |
| FileTree.ShallowWalkListsChildren | scripts/file-java.java:257-261 | A walk of depth 1 lists exactly the regular files directly inside the folder. |
| FileTree.DeepWalkListsAll | scripts/file-java.java:257-261 | A walk at least as deep as the tree lists exactly the regular files anywhere below the folder. |
| FileTree.VisitRootIsWalk | scripts/file-java.java:453-469 | Without recursion, the visitor skips every directory below the root, so it yields what a walk of depth 1 yields. With recursion, it yields what an unbounded walk yields, in the same order. |
| FileTree.ShallowVisitIsWalk | scripts/file-java.java:462-467 | Skipping every subtree below the root yields the depth-1 walk of the root's entries. |
| FileTree.DeepVisitIsWalk | scripts/file-java.java:453-469 | Descending everywhere from a directory yields the walk deep enough for the tree. |
| FileTree.LookupEntry | scripts/file-java.java:452 | Among uniquely named entries, looking up an entry's name and then a relative path is the same as looking up that path in the entry. |
| FileTree.LookupKeepsWellFormed | scripts/file-java.java:452 | A subtree of a tree with unique names has unique names. |
| Explorer.Locate | scripts/file-java.java:245-254 | A name the class loader does not know is a disk path: a NUL makes it invalid, and a path with nothing there gives `DirectoryNotFound`. A known resource is reached through its URL, and only `file` URLs work. For those the target is the URL path made normal, and a missing target is not an error here. Whenever a target is located, it carries a node exactly when its path is on the disk, and that node is what the disk holds there. |
| Explorer.ListFolder | scripts/file-java.java:241-271 | Every failure is wrapped in `FileException`. When the target is located, the listing succeeds exactly when it is a directory and gives `NotDirectory` otherwise. |
| Explorer.ShallowListing | scripts/file-java.java:256-261 | Without `ExtraFolders`, the listing yields exactly the regular files directly inside the folder, under the folder's path. |
| Explorer.DeepListing | scripts/file-java.java:256-261 | With `ExtraFolders`, the listing yields exactly the regular files anywhere below the folder. |
| Explorer.SplitJarPath | scripts/file-java.java:447-449 | Fails with an index error exactly when the part before the first `!` is shorter than 5 characters. Otherwise the archive is that part without its first 5 characters. There is an entry part exactly when `split("!")` gives at least two pieces, and it is the text between the first `!` and the next one. |
| Explorer.SplitJarUrl | scripts/file-java.java:447-452 | `file:<archive>!<entry>` splits into exactly that archive and that entry path, when neither holds a `!`. |
| Explorer.WalkArchive | scripts/file-java.java:451-472 | A missing archive, a missing entry part, or a missing entry root fails inside the inner `FileException`. An entry path with nothing there in an existing archive fails with `NoSuchFile`. Otherwise the walk succeeds. |
| Explorer.ArchiveList | scripts/file-java.java:445-473 | Every failure is wrapped in `FileException`. An archive part shorter than 5 characters gives `FileException(IndexOutOfBounds)`, and a path with no `!` fails. It succeeds exactly when the split and the archive walk succeed. It then gives what the walk gives, and a failed walk's failure is wrapped. |
| Explorer.ArchiveListed | scripts/file-java.java:445-473 | On success, an entry that is a file gives just its path. A folder gives exactly the files directly inside it without recursion, and exactly the files anywhere below it with recursion, each under the entry path. |
| Explorer.ArchiveListing | scripts/file-java.java:453-469 | From an entry that is a file, the listing yields that file. From a folder, it yields the files directly inside without recursion, and every file below with recursion, each under its entry path. |
| Explorer.Relativise | scripts/file-java.java:478-481 | Succeeds exactly when no walked path is shorter than the cut, and gives an index error otherwise. It keeps the number and order of paths and shortens each by the cut. |
| Explorer.RelativiseRestores | scripts/file-java.java:478-481 | Each dropped prefix put back in front of its result gives the walked path. |
| Explorer.RelativiseUnderFolder | scripts/file-java.java:477-481 | When every walked path starts with the folder path, each result is the path relative to that folder. |
| Explorer.RelativiseAll | scripts/file-java.java:478-481 | The loop gives the same result as `Relativise`, stopping at the first path that is too short. |
| Explorer.LooseList | scripts/file-java.java:475-482 | Failures of the disk listing, of `FixPath` and of the cut are wrapped in `FileException`. It succeeds exactly when the listing and `FixPath` succeed and no walked path is shorter than the cut. Then result `i` is walked path `i` with the cut's length of characters dropped from its front. |
| Explorer.LooseListed | scripts/file-java.java:474-482 | On success, a path is listed exactly when it is the cut of a regular file directly inside the folder without recursion, or anywhere below it with recursion. |
| Explorer.JarList | scripts/file-java.java:437-487 | Lists the resource `assets/` + path. An unknown resource gives `FileException(DirectoryNotFound)`. A `jar` URL uses the archive branch, and any other URL uses the disk branch. |
| Explorer.JarListing | scripts/file-java.java:437-487 | On every host with unique names, a successful listing holds exactly the files its branch reaches. For a `jar` URL these are the archive entry's files under the entry path. Otherwise they are the folder's files on the disk, each cut by the prefix length. |
| ListingExamples.ShallowFolderListing | scripts/file-java.java:241-271 | For a folder `d` that holds `x.txt` and `sub/y.txt`, the listing without sub-folders is `d/x.txt`. |
| ListingExamples.DeepFolderListing | scripts/file-java.java:241-271 | The listing with sub-folders is `d/x.txt` then `d/sub/y.txt`. |
| ListingExamples.ShallowResourceListing | scripts/file-java.java:437-473 | For resource `g` packed at `/r` in `/x/app.jar` with `a.png` and `sub/b.png`, the listing is `/r/a.png`. |
| ListingExamples.DeepResourceListing | scripts/file-java.java:437-473 | With sub-folders, the listing is `/r/a.png` then `/r/sub/b.png`. |
| ListingExamples.ShallowUnpackedListing | scripts/file-java.java:437-482 | For resource `d` unpacked at `file` URL `/g/assets/d`, over the same folder as above, the listing is `/assets/d/x.txt`: the cut is the length of `g/`. |
| ListingExamples.DeepUnpackedListing | scripts/file-java.java:437-482 | With sub-folders, the listing is `/assets/d/x.txt` then `/assets/d/sub/y.txt`. |
| Students.ToString | scripts/file-cs.cs:20-23 | The line is `Name: `, the name, `, Age: `, the age in decimal, `, Major: ` and the major, each at the position the earlier pieces' lengths fix. |
| Students.IntStringRoundTrip | scripts/file-cs.cs:22 | The decimal rendering of an `int` reads back as that number. |
| Students.ToStringRoundTrip | scripts/file-cs.cs:20-23 | `Name: {Name}, Age: {Age}, Major: {Major}` reads back as the same student when the name has no comma. |
| Students.EqualsIgnoreCaseIsUpperEquality | scripts/file-cs.cs:46 | Two names match ignoring case exactly when their upper-cased forms are equal. |
| Students.FirstMatch | scripts/file-cs.cs:46 | Gives the least index whose name matches, or nothing exactly when no name matches. |
| Students.Find | scripts/file-cs.cs:46 | The front-to-back scan finds the same index as `FirstMatch`. |
| Students.AddStudent | scripts/file-cs.cs:37-41 | Adds the student at the end: the count grows by one, earlier entries are unchanged, and the line is `Student {Name} added.` |
| Students.RemoveStudent | scripts/file-cs.cs:44-55 | Returns true exactly when some name matches ignoring case. Then it removes the first match, keeps the rest in order, and writes `Student {name} removed.` Otherwise the list is unchanged and it writes `Student {name} not found.` |
| Students.RemoveTakesOne | scripts/file-cs.cs:46-49 | A removal takes out exactly the matched student, as a multiset. |
| Students.AddThenRemove | scripts/file-cs.cs:37-55 | Adding a student with a new name and then removing that name restores the list. |
| Students.DisplayStudents | scripts/file-cs.cs:58-71 | An empty list writes `No students found.`. Otherwise it writes `List of students:` and then one `ToString` line per student, in list order. |
| Students.DisplayRoundTrip | scripts/file-cs.cs:58-71 | Each student line of the listing reads back as the student at that position. |
| StudentScenario.Scenario | scripts/file-cs.cs:78-109 | `Main` ends with Alice, Charlie and Eve. Removing Bob returns true, removing David returns false, and the 17 lines written are listed in order. |
| StudentScenario.AgeTexts | scripts/file-cs.cs:22 | The ages 20 to 23 render as their two digits. |

## Left out

- File I/O: `OpenFile`, `ReadFile`, `WriteFile`, `CreateFile`, `DeleteFile`, `CreateFolder`, `HasFile`, `GetLastModificationDate`, `CompressFile`, `JAR.ReadFile` and `JAR.ReadFileBytes`. Each is a direct call to the host or a library, with no logic of its own.
- The one-argument `JAR.GetAllFilesInFolder(Path)` (scripts/file-java.java:495) is `Explorer.JarList` with `recursive` false.
- `null` arguments: a `null` path in `FixPath`, which returns `""`, and a `null` student name, which throws. Strings here are never `null`.
- `Paths.get` is modelled for Unix paths only: no Windows drive or `\` parsing, no `.`/`..` resolution, and no relative paths resolved against a working directory. `FileTree.NormalPath` only drops empty names.
- Characters are Unicode scalar values, not UTF-16 code units. The model has no surrogate pairs.
- Symbolic links, permissions, and I/O errors during a walk. `Files.walk` wraps those in a `RuntimeException` inside the `FileException`; the model has no such error.
- URL decoding: a `file:` URL's path is used as the disk path without percent-decoding, and `URI.create` failures count as an archive that cannot be opened (`ArchiveAccess`).
- `FileSystemAlreadyExistsException` when the same archive is mounted twice: the model mounts archives as values.
- The messages of the exceptions. The kind of each exception and the exception it wraps are modelled.
- Students.EqualsIgnoreCaseIsUpperEquality: case folding is modelled for ASCII letters only; .NET's ordinal comparison also folds other letters.
- Students.RemoveStudent: `List.Remove` removes by reference. The model removes the index that `Find` returned, which is the same student, because an earlier copy of that reference would have matched first.
- `Console.WriteLine` output is returned as a list of lines. The `try`/`catch` around the removal of David in `Main` never fires, and it is not modelled.
- `Int32.ToString` uses the current culture. The model writes a plain `-` and ASCII digits.

Where the code and its documentation differ, the model follows the code:

- `FixPath` throws on any input of length 1.
- The drive fix depends only on `:` being at index 1 of the original input, not on a drive letter before it.
- `ExplorerAction.GetAllFilesInFolder` and the archive branch of `JAR.GetAllFilesInFolder` return full paths. The archive branch returns entry paths as they are inside the archive, for example `/r/a.png`, not paths relative to the listed folder. Only the non-archive branch cuts its paths.
- The non-archive branch cuts as many characters as the fixed URL path has once every occurrence of the resource name is removed. `FixPath` drops the URL's leading `/`, so one character less is cut than the folder that holds `assets/`: from `/g/assets/d`, the walked `/g/assets/d/x.txt` comes back as `/assets/d/x.txt`.
- A resource reached through a `file` URL is not checked for existence. A missing target therefore fails as `NotDirectory`, not `DirectoryNotFound`.
