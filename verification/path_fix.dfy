/**
  `ExplorerAction.PATH.FixPath` and `PATH.ShortResourcePath`: the path
  normaliser. FixPath runs four rewriting steps in a fixed order and then
  writes a drive colon back at index 1 when the ORIGINAL input had one there.
 */
module PathFix {
  import opened Outcomes
  import opened Text

  /** `JAR.Prefix`: the folder of the game resources inside the jar. */
  const ResourcePrefix: string := "assets/"

  predicate IsSeparator(c: char) {
    c == '/' || c == '\\'
  }

  /** The characters FixPath replaces with `_`. */
  predicate IsForbidden(c: char) {
    c == '<' || c == '*' || c == '>' || c == '?' || c == '\'' || c == '"' || c == ':' || c == '|'
  }

  predicate NoDoubleSlash(s: string) {
    forall i :: 0 <= i < |s| - 1 && s[i] == '/' ==> s[i + 1] != '/'
  }

  /** Only `/` separates, and never two in a row. */
  predicate Collapsed(s: string) {
    '\\' !in s && NoDoubleSlash(s)
  }

  function SkipSeparators(s: string): (r: string)
    ensures |r| <= |s|
    ensures r == [] || !IsSeparator(r[0])
  {
    if s != [] && IsSeparator(s[0]) then SkipSeparators(s[1..]) else s
  }

  /** No character at or below U+0020, so `String.trim` has nothing to cut. */
  predicate NoneTrimmed(s: string) {
    forall k :: 0 <= k < |s| ==> !IsTrimmed(s[k])
  }

  /** Step 1, `replaceAll("[/\\\\]+", "/")`: each run of `/` and `\` becomes one `/`. */
  function CollapseSeparators(s: string): string
    decreases |s|
  {
    if s == [] then []
    else if IsSeparator(s[0]) then "/" + CollapseSeparators(SkipSeparators(s[1..]))
    else [s[0]] + CollapseSeparators(s[1..])
  }

  /** Step 1 leaves only single `/` separators, and starts with one exactly
      when the input starts with a separator. */
  lemma {:induction false} CollapseShape(s: string)
    ensures var r := CollapseSeparators(s);
      && Collapsed(r)
      && |r| <= |s|
      && (r == [] <==> s == [])
      && (r != [] ==> (r[0] == '/' <==> IsSeparator(s[0])))
    decreases |s|
  {
    if s == [] {
    } else if IsSeparator(s[0]) {
      var t := SkipSeparators(s[1..]);
      CollapseShape(t);
      ConsCollapsed('/', CollapseSeparators(t));
    } else {
      CollapseShape(s[1..]);
      ConsCollapsed(s[0], CollapseSeparators(s[1..]));
    }
  }

  /** Putting a character other than `\` in front of a collapsed string
      keeps it collapsed, unless that makes two `/` in a row. */
  lemma ConsCollapsed(c: char, t: string)
    requires c != '\\' && Collapsed(t)
    requires c == '/' && t != [] ==> t[0] != '/'
    ensures Collapsed([c] + t)
  {
    var r := [c] + t;
    assert forall k :: 1 <= k < |r| ==> r[k] == t[k - 1];
  }

  /** Step 1 brings in no character at or below U+0020. */
  lemma {:induction false} CollapseKeepsUntrimmed(s: string)
    requires NoneTrimmed(s)
    ensures NoneTrimmed(CollapseSeparators(s))
    decreases |s|
  {
    if s == [] {
    } else if IsSeparator(s[0]) {
      var t := SkipSeparators(s[1..]);
      SkipKeepsUntrimmed(s[1..]);
      CollapseKeepsUntrimmed(t);
      ConsUntrimmed('/', CollapseSeparators(t));
    } else {
      CollapseKeepsUntrimmed(s[1..]);
      ConsUntrimmed(s[0], CollapseSeparators(s[1..]));
    }
  }

  lemma {:induction false} SkipKeepsUntrimmed(s: string)
    requires NoneTrimmed(s)
    ensures NoneTrimmed(SkipSeparators(s))
    decreases |s|
  {
    if s != [] && IsSeparator(s[0]) {
      SkipKeepsUntrimmed(s[1..]);
    }
  }

  lemma ConsUntrimmed(c: char, t: string)
    requires !IsTrimmed(c) && NoneTrimmed(t)
    ensures NoneTrimmed([c] + t)
  {
    var r := [c] + t;
    assert forall k :: 1 <= k < |r| ==> r[k] == t[k - 1];
  }

  /** The text of `s` with every separator left out. */
  function Unseparated(s: string): string {
    if s == [] then []
    else if IsSeparator(s[0]) then Unseparated(s[1..])
    else [s[0]] + Unseparated(s[1..])
  }

  lemma {:induction false} SkipKeepsText(s: string)
    ensures Unseparated(SkipSeparators(s)) == Unseparated(s)
  {
    if s != [] && IsSeparator(s[0]) {
      SkipKeepsText(s[1..]);
    }
  }

  /** Collapsing changes only separators: the other characters survive, in order. */
  lemma {:induction false} CollapseKeepsText(s: string)
    ensures Unseparated(CollapseSeparators(s)) == Unseparated(s)
    decreases |s|
  {
    if s == [] {
    } else if IsSeparator(s[0]) {
      var t := SkipSeparators(s[1..]);
      CollapseKeepsText(t);
      SkipKeepsText(s[1..]);
      assert Unseparated("/" + CollapseSeparators(t)) == Unseparated(CollapseSeparators(t));
    } else {
      CollapseKeepsText(s[1..]);
      assert Unseparated([s[0]] + CollapseSeparators(s[1..])) == [s[0]] + Unseparated(CollapseSeparators(s[1..]));
    }
  }

  /** A run of separators, however long and however mixed, becomes one `/`. */
  lemma {:induction false} CollapseRun(run: string)
    requires run != [] && forall k :: 0 <= k < |run| ==> IsSeparator(run[k])
    ensures CollapseSeparators(run) == "/"
    decreases |run|
  {
    assert SkipSeparators(run[1..]) == [] by {
      SkipAllSeparators(run[1..]);
    }
  }

  lemma {:induction false} SkipAllSeparators(s: string)
    requires forall k :: 0 <= k < |s| ==> IsSeparator(s[k])
    ensures SkipSeparators(s) == []
    decreases |s|
  {
    if s != [] {
      SkipAllSeparators(s[1..]);
    }
  }

  lemma {:induction false} SkipStopsAtText(s: string)
    requires s != [] && !IsSeparator(s[|s| - 1])
    ensures SkipSeparators(s) != []
    ensures SkipSeparators(s)[|SkipSeparators(s)| - 1] == s[|s| - 1]
    decreases |s|
  {
    if IsSeparator(s[0]) {
      SkipStopsAtText(s[1..]);
    }
  }

  /** Skipping the separators of `a + b` stops inside `a` when `a` ends
      with a character that is not a separator. */
  lemma {:induction false} SkipAppend(a: string, b: string)
    requires a != [] && !IsSeparator(a[|a| - 1])
    ensures SkipSeparators(a + b) == SkipSeparators(a) + b
    decreases |a|
  {
    if IsSeparator(a[0]) {
      assert (a + b)[1..] == a[1..] + b;
      SkipAppend(a[1..], b);
    }
  }

  /** Collapsing works piece by piece: runs cannot merge across the joint
      when the first piece does not end with a separator. With `CollapseRun`
      and `CollapseFixesCollapsed` this fixes the result on every input:
      each run of separators becomes one `/`, everything else is kept. */
  lemma {:induction false} CollapseAppend(a: string, b: string)
    requires a == [] || !IsSeparator(a[|a| - 1])
    ensures CollapseSeparators(a + b) == CollapseSeparators(a) + CollapseSeparators(b)
    decreases |a|, 1
  {
    if a == [] {
      assert a + b == b;
    } else if IsSeparator(a[0]) {
      CollapseAppendAtRun(a, b);
    } else {
      CollapseAppendAtText(a, b);
    }
  }

  lemma {:induction false} CollapseAppendAtRun(a: string, b: string)
    requires a != [] && IsSeparator(a[0]) && !IsSeparator(a[|a| - 1])
    ensures CollapseSeparators(a + b) == CollapseSeparators(a) + CollapseSeparators(b)
    decreases |a|, 0
  {
    var t := SkipSeparators(a[1..]);
    assert t != [] && !IsSeparator(t[|t| - 1]) by {
      SkipStopsAtText(a[1..]);
    }
    assert CollapseSeparators(a + b) == "/" + CollapseSeparators(t + b) by {
      CollapseAtRun(a + b);
      assert (a + b)[1..] == a[1..] + b;
      SkipAppend(a[1..], b);
    }
    CollapseAtRun(a);
    CollapseAppend(t, b);
  }

  lemma CollapseAtRun(s: string)
    requires s != [] && IsSeparator(s[0])
    ensures CollapseSeparators(s) == "/" + CollapseSeparators(SkipSeparators(s[1..]))
  {
  }

  lemma {:induction false} CollapseAppendAtText(a: string, b: string)
    requires a != [] && !IsSeparator(a[0]) && !IsSeparator(a[|a| - 1])
    ensures CollapseSeparators(a + b) == CollapseSeparators(a) + CollapseSeparators(b)
    decreases |a|, 0
  {
    var ab := a + b;
    assert ab[0] == a[0] && ab[1..] == a[1..] + b;
    CollapseAppend(a[1..], b);
    assert CollapseSeparators(ab) == [a[0]] + CollapseSeparators(a[1..] + b);
  }

  /** A collapsed path is left alone, so collapsing twice is collapsing once. */
  lemma {:induction false} CollapseFixesCollapsed(s: string)
    requires Collapsed(s)
    ensures CollapseSeparators(s) == s
    decreases |s|
  {
    if s != [] {
      assert Collapsed(s[1..]);
      if s[0] == '/' {
        assert SkipSeparators(s[1..]) == s[1..];
      }
      CollapseFixesCollapsed(s[1..]);
    }
  }

  /** A line terminator as Java's regular expressions know it. */
  predicate IsLineTerminator(c: char) {
    c == '\n' || c == '\r' || c == '\U{0085}' || c == '\U{2028}' || c == '\U{2029}'
  }

  /** Where Java's `$` (without MULTILINE) matches: at the end of the input,
      or just before a final line terminator (`\r\n` counting as one). */
  predicate AtInputEnd(s: string, i: int) {
    || i == |s|
    || (0 < i == |s| - 1 && IsLineTerminator(s[i]) && !(s[i] == '\n' && s[i - 1] == '\r'))
    || (0 <= i == |s| - 2 && s[i] == '\r' && s[i + 1] == '\n')
  }

  /** On a collapsed string, the `/` at index at least 1 that `[/\\]+$`
      removes, or -1. */
  function TrailingSlash(s: string): (k: int)
    ensures k == -1 || (1 <= k < |s| && s[k] == '/' && AtInputEnd(s, k + 1))
    ensures k == -1 ==> forall j :: 1 <= j < |s| && s[j] == '/' ==> !AtInputEnd(s, j + 1)
  {
    if |s| >= 2 && s[|s| - 1] == '/' then |s| - 1
    else if |s| >= 3 && s[|s| - 2] == '/' && AtInputEnd(s, |s| - 1) then |s| - 2
    else if |s| >= 4 && s[|s| - 3] == '/' && AtInputEnd(s, |s| - 2) then |s| - 3
    else -1
  }

  /** How many characters `^[/\\]+` removes from a collapsed string: the
      `/` at index 0, if there is one. */
  function LeadingSlash(s: string): (a: nat)
    ensures a <= 1 && (a == 1 <==> s != [] && s[0] == '/')
  {
    if s != [] && s[0] == '/' then 1 else 0
  }

  /** Step 2, `replaceAll("^[/\\\\]+|[/\\\\]+$", "")`. It always runs on a
      collapsed string, where every separator run is a single `/`: it drops a
      leading `/` and a `/` that ends the input or precedes a final line
      terminator. */
  function StripEdgeSlashes(s: string): (r: string)
    ensures NoneTrimmed(s) ==> NoneTrimmed(r)
    ensures |s| - 2 <= |r| <= |s|
    ensures Unseparated(r) == Unseparated(s)
    ensures var a, k := LeadingSlash(s), TrailingSlash(s);
      && |r| == |s| - a - (if k == -1 then 0 else 1)
      && (forall i :: a <= i < |s| && (k == -1 || i < k) ==> r[i - a] == s[i])
      && (forall i :: k != -1 && k < i < |s| ==> r[i - a - 1] == s[i])
  {
    var a := LeadingSlash(s);
    var k := TrailingSlash(s);
    StripKeepsText(s, a, k);
    if k == -1 then s[a..] else s[a..k] + s[k + 1..]
  }

  /** Dropping a leading `/` and the `/` at `k` leaves the text alone. */
  lemma StripKeepsText(s: string, a: nat, k: int)
    requires a <= 1 && (a == 1 ==> s != [] && s[0] == '/')
    requires k == -1 || (a <= k < |s| && s[k] == '/')
    ensures k == -1 ==> Unseparated(s[a..]) == Unseparated(s)
    ensures k != -1 ==> Unseparated(s[a..k] + s[k + 1..]) == Unseparated(s)
  {
    LeadKeepsText(s, a);
    if k != -1 {
      var x := s[a..];
      DropSlashKeepsText(x, k - a);
      assert x[..k - a] == s[a..k] && x[k - a + 1..] == s[k + 1..];
    }
  }

  /** Dropping a leading `/` leaves the text alone. */
  lemma LeadKeepsText(s: string, a: nat)
    requires a <= 1 && (a == 1 ==> s != [] && s[0] == '/')
    ensures Unseparated(s[a..]) == Unseparated(s)
  {
    if a == 1 {
      assert Unseparated(s) == Unseparated(s[1..]);
    }
  }

  /** Deleting one `/` leaves the text alone. */
  lemma DropSlashKeepsText(x: string, k: nat)
    requires k < |x| && x[k] == '/'
    ensures Unseparated(x[..k] + x[k + 1..]) == Unseparated(x)
  {
    var t := x[k + 1..];
    var u := [x[k]] + t;
    assert Unseparated(u) == Unseparated(t) by {
      assert u[0] == '/' && u[1..] == t;
    }
    assert x == x[..k] + u;
    UnseparatedAppend(x[..k], u);
    UnseparatedAppend(x[..k], t);
  }

  lemma {:induction false} UnseparatedAppend(a: string, b: string)
    ensures Unseparated(a + b) == Unseparated(a) + Unseparated(b)
    decreases |a|
  {
    if a == [] {
      assert a + b == b;
    } else {
      assert (a + b)[0] == a[0];
      assert (a + b)[1..] == a[1..] + b;
      UnseparatedAppend(a[1..], b);
      if IsSeparator(a[0]) {
        assert Unseparated(a + b) == Unseparated(a[1..] + b);
      } else {
        assert Unseparated(a + b) == [a[0]] + Unseparated(a[1..] + b);
      }
    }
  }

  /** The characters left are exactly the non-separators of `s`. */
  lemma {:induction false} UnseparatedMember(s: string, c: char)
    ensures c in Unseparated(s) <==> c in s && !IsSeparator(c)
    decreases |s|
  {
    if s != [] {
      UnseparatedMember(s[1..], c);
      assert s == [s[0]] + s[1..];
    }
  }

  lemma SuffixKeepsCollapsed(s: string, a: nat)
    requires Collapsed(s) && a <= |s|
    ensures Collapsed(s[a..])
  {
    assert forall i :: 0 <= i < |s| - a ==> s[a..][i] == s[a + i];
  }

  /** Deleting a `/` cannot put two `/` side by side: the character before
      it was not a `/`. */
  lemma DropSlashKeepsCollapsed(s: string, k: nat)
    requires Collapsed(s) && k < |s| && s[k] == '/'
    ensures Collapsed(s[..k] + s[k + 1..])
  {
    var r := s[..k] + s[k + 1..];
    assert forall i :: 0 <= i < k ==> r[i] == s[i];
    assert forall i :: k <= i < |r| ==> r[i] == s[i + 1];
    forall i | 0 <= i < |r| - 1 && r[i] == '/'
      ensures r[i + 1] != '/'
    {
      if i + 1 < k {
        assert s[i] == '/';
      } else if i + 1 > k {
        assert s[i + 1] == '/';
      }
    }
    assert '\\' !in r by {
      assert forall c :: c in r ==> c in s;
    }
  }

  /** On a collapsed string, step 2 leaves a collapsed string that neither
      starts nor ends with `/`. */
  lemma StripEdgesOfCollapsed(s: string)
    requires Collapsed(s)
    ensures var r := StripEdgeSlashes(s);
            Collapsed(r) && (r == [] || (r[0] != '/' && r[|r| - 1] != '/'))
  {
    if TrailingSlash(s) == -1 {
      StripWithoutTrailing(s);
    } else {
      StripWithTrailing(s);
    }
  }

  lemma StripWithoutTrailing(s: string)
    requires Collapsed(s) && TrailingSlash(s) == -1
    ensures var r := StripEdgeSlashes(s);
            Collapsed(r) && (r == [] || (r[0] != '/' && r[|r| - 1] != '/'))
  {
    var a := LeadingSlash(s);
    var r := StripEdgeSlashes(s);
    assert r == s[a..];
    SuffixKeepsCollapsed(s, a);
    if r != [] {
      assert r[0] == s[a] && r[|r| - 1] == s[|s| - 1];
      if a == 1 {
        assert s[0] == '/';
      }
    }
  }

  lemma StripWithTrailing(s: string)
    requires Collapsed(s) && TrailingSlash(s) != -1
    ensures var r := StripEdgeSlashes(s);
            Collapsed(r) && (r == [] || (r[0] != '/' && r[|r| - 1] != '/'))
  {
    var a := LeadingSlash(s);
    var k := TrailingSlash(s);
    var r := StripEdgeSlashes(s);
    var d := s[..k] + s[k + 1..];
    DropSlashKeepsCollapsed(s, k);
    assert r == d[a..];
    SuffixKeepsCollapsed(d, a);
    if r != [] {
      assert r[0] == d[a];
      if a == 1 {
        assert d[1] == s[if k == 1 then 2 else 1];
      }
      assert r[|r| - 1] == d[|d| - 1];
      if k + 1 < |s| {
        assert d[|d| - 1] == s[|s| - 1];
      } else {
        assert d[|d| - 1] == s[k - 1];
      }
    }
  }

  /** Replaces each forbidden character with `_`. */
  function ReplaceForbidden(s: string): (r: string)
    ensures |r| == |s|
    ensures forall i :: 0 <= i < |r| ==> !IsForbidden(r[i])
    ensures forall i :: 0 <= i < |s| && IsForbidden(s[i]) ==> r[i] == '_'
    ensures forall i :: 0 <= i < |s| && !IsForbidden(s[i]) ==> r[i] == s[i]
    ensures (forall i :: 0 <= i < |s| ==> !IsForbidden(s[i])) ==> r == s
  {
    seq(|s|, i requires 0 <= i < |s| => if IsForbidden(s[i]) then '_' else s[i])
  }

  /** The input after the four rewriting steps, before the drive fix. */
  function Cleaned(s: string): (r: string)
    ensures Collapsed(r)
    ensures forall i :: 0 <= i < |r| ==> !IsForbidden(r[i])
  {
    var e := StripEdgeSlashes(CollapseSeparators(s));
    CollapseShape(s);
    StripEdgesOfCollapsed(CollapseSeparators(s));
    TrimKeepsCollapsed(e);
    ReplaceKeepsCollapsed(Trim(e));
    ReplaceForbidden(Trim(e))
  }

  lemma TrimKeepsCollapsed(e: string)
    requires Collapsed(e)
    ensures Collapsed(Trim(e))
  {
    var t := Trim(e);
    var i :| TrimmedAt(e, t, i);
    assert forall k :: 0 <= k < |t| ==> t[k] == e[i + k];
  }

  lemma ReplaceKeepsCollapsed(t: string)
    requires Collapsed(t)
    ensures Collapsed(ReplaceForbidden(t))
  {
    var c := ReplaceForbidden(t);
    assert forall k :: 0 <= k < |c| ==> (c[k] == '/' ==> t[k] == '/') && (c[k] == '\\' ==> t[k] == '\\');
  }

  /** True iff the only forbidden character left is a `:` at index 1. */
  predicate ColonOnlyAsDrive(p: string) {
    forall i :: 0 <= i < |p| && IsForbidden(p[i]) ==> i == 1 && p[i] == ':'
  }

  /** The drive fix `charAt(0) + ":" + substring(2)`: index 1 becomes `:`,
      every other character stays. */
  function DriveFix(c: string): (d: string)
    requires |c| >= 2
    ensures |d| == |c| && d[1] == ':'
    ensures forall i :: 0 <= i < |d| && i != 1 ==> d[i] == c[i]
  {
    [c[0]] + ":" + c[2..]
  }

  lemma DriveFixKeepsShape(c: string)
    requires |c| >= 2 && Collapsed(c) && forall i :: 0 <= i < |c| ==> !IsForbidden(c[i])
    ensures Collapsed(DriveFix(c)) && ColonOnlyAsDrive(DriveFix(c))
  {
  }

  /** `PATH.FixPath`. An empty input gives an empty path. Any other input
      reads `charAt(1)` first, so an input of length 1 fails. When the input
      had `:` at index 1, the drive fix keeps the first character of the
      cleaned path, writes `:` and then the cleaned path from index 2 on; it
      fails when the cleaned path is shorter than 2 characters. */
  function FixPath(s: string): (r: Result<string>)
    ensures s == [] ==> r == Ok([])
    ensures r.Err? <==> |s| == 1 || (|s| >= 2 && s[1] == ':' && |Cleaned(s)| < 2)
    ensures r.Err? ==> r.failure == IndexOutOfBounds
    ensures r.Ok? ==> Collapsed(r.value) && ColonOnlyAsDrive(r.value)
    ensures r.Ok? && ':' in r.value ==> |s| >= 2 && s[1] == ':'
    ensures r.Ok? && |s| >= 2 && s[1] == ':' ==>
      && |r.value| == |Cleaned(s)|
      && r.value[1] == ':'
      && forall i :: 0 <= i < |r.value| && i != 1 ==> r.value[i] == Cleaned(s)[i]
    ensures r.Ok? && |s| >= 2 && s[1] != ':' ==> r.value == Cleaned(s)
  {
    if s == [] then Ok([])
    else if |s| < 2 then Err(IndexOutOfBounds)
    else
      var c := Cleaned(s);
      if s[1] != ':' then Ok(c)
      else if |c| < 2 then Err(IndexOutOfBounds)
      else
        DriveFixKeepsShape(c);
        Ok(DriveFix(c))
  }

  /** With no character at or below U+0020 in the input, FixPath's result
      neither starts nor ends with `/`. Whitespace can defeat this: the trim
      runs after the slashes are stripped. */
  lemma FixPathNoEdgeSlash(s: string)
    requires NoneTrimmed(s)
    requires FixPath(s).Ok?
    ensures var p := FixPath(s).value;
            p == [] || (p[0] != '/' && p[|p| - 1] != '/')
  {
    var col := CollapseSeparators(s);
    var e := StripEdgeSlashes(col);
    CollapseShape(s);
    CollapseKeepsUntrimmed(s);
    StripEdgesOfCollapsed(col);
    TrimIdentity(e);
    var c := Cleaned(s);
    assert c == ReplaceForbidden(e);
    if c != [] {
      assert c[0] == '/' <==> e[0] == '/';
      assert c[|c| - 1] == '/' <==> e[|e| - 1] == '/';
    }
  }

  /** On an input with no padding, no forbidden character and no drive
      colon, FixPath changes only separators: every other character
      survives, in order. */
  lemma FixPathKeepsText(s: string)
    requires |s| >= 2
    requires NoneTrimmed(s)
    requires forall i :: 0 <= i < |s| ==> !IsForbidden(s[i])
    ensures FixPath(s).Ok?
    ensures Unseparated(FixPath(s).value) == Unseparated(s)
  {
    CleanedKeepsText(s);
  }

  /** The four rewriting steps keep the text of an input with no padding
      and no forbidden character; only its separators change. */
  lemma CleanedKeepsText(s: string)
    requires NoneTrimmed(s)
    requires forall i :: 0 <= i < |s| ==> !IsForbidden(s[i])
    ensures Unseparated(Cleaned(s)) == Unseparated(s)
  {
    var e := StripEdgeSlashes(CollapseSeparators(s));
    StepsKeepText(s);
    SameTextNoForbidden(s, e);
    assert Cleaned(s) == ReplaceForbidden(Trim(e));
  }

  /** Collapsing and stripping keep the text, and on an input with no
      padding leave nothing for the trim. */
  lemma StepsKeepText(s: string)
    requires NoneTrimmed(s)
    ensures var e := StripEdgeSlashes(CollapseSeparators(s));
      Unseparated(e) == Unseparated(s) && Trim(e) == e
  {
    var e := StripEdgeSlashes(CollapseSeparators(s));
    CollapseKeepsText(s);
    CollapseKeepsUntrimmed(s);
    TrimIdentity(e);
  }

  /** Text with the same non-separators as a string free of forbidden
      characters is free of them too: no separator is forbidden. */
  lemma SameTextNoForbidden(s: string, e: string)
    requires forall i :: 0 <= i < |s| ==> !IsForbidden(s[i])
    requires Unseparated(e) == Unseparated(s)
    ensures forall i :: 0 <= i < |e| ==> !IsForbidden(e[i])
  {
    forall i | 0 <= i < |e|
      ensures !IsForbidden(e[i])
    {
      if !IsSeparator(e[i]) {
        UnseparatedMember(e, e[i]);
        UnseparatedMember(s, e[i]);
      }
    }
  }

  predicate NoSeparator(w: string) {
    forall j :: 0 <= j < |w| ==> !IsSeparator(w[j])
  }

  /** The names of a path: its maximal runs of characters other than `/`
      and `\`, in order. */
  function Names(s: string): (r: seq<string>)
    ensures s != [] && !IsSeparator(s[0]) ==> r != []
    decreases |s|
  {
    if s == [] then []
    else if IsSeparator(s[0]) then Names(s[1..])
    else
      var rest := Names(s[1..]);
      if |s| > 1 && !IsSeparator(s[1]) then [[s[0]] + rest[0]] + rest[1..]
      else [[s[0]]] + rest
  }

  /** Every name is non-empty and holds no separator. */
  lemma {:induction false} NamesPieces(s: string)
    ensures forall k :: 0 <= k < |Names(s)| ==> Names(s)[k] != [] && NoSeparator(Names(s)[k])
    decreases |s|
  {
    if s != [] {
      NamesPieces(s[1..]);
      var rest := Names(s[1..]);
      if !IsSeparator(s[0]) {
        if |s| > 1 && !IsSeparator(s[1]) {
          assert s[1..][0] == s[1];
          var w := [s[0]] + rest[0];
          assert rest[0] != [] && NoSeparator(rest[0]);
          forall j | 0 <= j < |w|
            ensures !IsSeparator(w[j])
          {
            if j > 0 {
              assert w[j] == rest[0][j - 1];
            }
          }
          assert Names(s) == [w] + rest[1..];
          assert forall k :: 1 <= k < |Names(s)| ==> Names(s)[k] == rest[k];
        } else {
          assert Names(s) == [[s[0]]] + rest;
          assert forall k :: 1 <= k < |Names(s)| ==> Names(s)[k] == rest[k - 1];
        }
      }
    }
  }

  /** A path has no names exactly when it is made only of separators. */
  lemma {:induction false} NamesEmpty(s: string)
    ensures Names(s) == [] <==> forall k :: 0 <= k < |s| ==> IsSeparator(s[k])
    decreases |s|
  {
    if s != [] {
      NamesEmpty(s[1..]);
      assert forall k :: 1 <= k < |s| ==> s[k] == s[1..][k - 1];
    }
  }

  /** A name followed by nothing or by a separator is the first name. */
  lemma {:induction false} NamesName(w: string, s: string)
    requires w != [] && NoSeparator(w)
    requires s == [] || IsSeparator(s[0])
    ensures Names(w + s) == [w] + Names(s)
    decreases |w|
  {
    var ws := w + s;
    assert ws[1..] == w[1..] + s;
    if |w| == 1 {
      assert ws[1..] == s && w == [ws[0]];
      assert |ws| > 1 ==> ws[1] == s[0];
    } else {
      NamesName(w[1..], s);
      assert ws[1] == w[1];
      assert [ws[0]] + w[1..] == w;
    }
  }

  /** `Names` undoes joining non-empty names with `/`. */
  lemma {:induction false} NamesJoin(parts: seq<string>)
    requires forall k :: 0 <= k < |parts| ==> parts[k] != [] && NoSeparator(parts[k])
    ensures Names(Join(parts, '/')) == parts
    decreases |parts|
  {
    if |parts| == 1 {
      NamesName(parts[0], []);
      assert parts[0] + [] == parts[0];
    } else if |parts| > 1 {
      var tail := Join(parts[1..], '/');
      JoinCons(parts[0], parts[1..], '/');
      NamesName(parts[0], ['/'] + tail);
      assert parts[0] + ['/'] + tail == parts[0] + (['/'] + tail);
      assert (['/'] + tail)[1..] == tail;
      NamesJoin(parts[1..]);
      assert parts == [parts[0]] + parts[1..];
    }
  }

  /** The `/` step 1 leaves in front of the names: one exactly when the
      input starts with a separator. */
  function LeadSlash(s: string): string {
    if s != [] && IsSeparator(s[0]) then "/" else ""
  }

  /** The `/` step 1 leaves after the names: one exactly when the input
      ends with a separator that follows some name. */
  function TrailSlash(s: string): string {
    if s != [] && IsSeparator(s[|s| - 1]) && Names(s) != [] then "/" else ""
  }

  /** Step 1 on any input: an optional `/`, the names joined by single
      `/`, and an optional `/`. */
  lemma {:induction false} CollapseNames(s: string)
    ensures CollapseSeparators(s) == LeadSlash(s) + Join(Names(s), '/') + TrailSlash(s)
    decreases |s|
  {
    if s == [] {
    } else if IsSeparator(s[0]) {
      CollapseNamesAtRun(s);
    } else {
      CollapseNamesAtText(s);
    }
  }

  lemma {:induction false} CollapseNamesAtRun(s: string)
    requires s != [] && IsSeparator(s[0])
    ensures CollapseSeparators(s) == LeadSlash(s) + Join(Names(s), '/') + TrailSlash(s)
    decreases |s|, 0
  {
    var t := SkipSeparators(s[1..]);
    var j, tr := Join(Names(s), '/'), TrailSlash(s);
    assert CollapseSeparators(t) == j + tr by {
      CollapseNames(t);
      NamesSkip(s[1..]);
      assert Names(t) == Names(s);
      assert LeadSlash(t) == "";
      assert TrailSlash(t) == tr by {
        if t != [] {
          SkipLast(s[1..]);
        }
      }
    }
    assert CollapseSeparators(s) == "/" + (j + tr);
    assert LeadSlash(s) == "/";
  }

  lemma {:induction false} CollapseNamesAtText(s: string)
    requires s != [] && !IsSeparator(s[0])
    ensures CollapseSeparators(s) == LeadSlash(s) + Join(Names(s), '/') + TrailSlash(s)
    decreases |s|, 0
  {
    if |s| == 1 {
      assert Names(s) == [[s[0]]];
    } else if !IsSeparator(s[1]) {
      CollapseNames(s[1..]);
      CollapseNamesInName(s);
    } else if Names(s[1..]) == [] {
      CollapseNames(s[1..]);
      CollapseNamesBeforeLastRun(s);
    } else {
      CollapseNames(s[1..]);
      CollapseNamesBeforeRun(s);
    }
  }

  /** A name character followed by another name character. */
  lemma CollapseNamesInName(s: string)
    requires |s| >= 2 && !IsSeparator(s[0]) && !IsSeparator(s[1])
    requires var u := s[1..];
      CollapseSeparators(u) == LeadSlash(u) + Join(Names(u), '/') + TrailSlash(u)
    ensures CollapseSeparators(s) == LeadSlash(s) + Join(Names(s), '/') + TrailSlash(s)
  {
    var u := s[1..];
    var jr, tr := Join(Names(u), '/'), TrailSlash(u);
    assert CollapseSeparators(s) == [s[0]] + CollapseSeparators(u) by {
      CollapseAtText(s);
    }
    assert CollapseSeparators(u) == "" + jr + tr by {
      JoinInName(s);
    }
    assert Join(Names(s), '/') == [s[0]] + jr by {
      JoinInName(s);
    }
    assert LeadSlash(s) == "" && TrailSlash(s) == tr by {
      TrailStep(s);
    }
    Regroup([s[0]], jr, tr);
  }

  lemma Regroup(a: string, j: string, t: string)
    ensures a + ("" + j + t) == "" + (a + j) + t
  {
  }

  /** A name character followed by separators only. */
  lemma CollapseNamesBeforeLastRun(s: string)
    requires |s| >= 2 && !IsSeparator(s[0]) && IsSeparator(s[1]) && Names(s[1..]) == []
    requires var u := s[1..];
      CollapseSeparators(u) == LeadSlash(u) + Join(Names(u), '/') + TrailSlash(u)
    ensures CollapseSeparators(s) == LeadSlash(s) + Join(Names(s), '/') + TrailSlash(s)
  {
    var u := s[1..];
    assert CollapseSeparators(u) == "/";
    assert Names(s) == [[s[0]]];
    assert IsSeparator(s[|s| - 1]) by {
      NamesEmpty(u);
      assert u[|u| - 1] == s[|s| - 1];
    }
    CollapseAtText(s);
  }

  /** A name character followed by separators and then more names. */
  lemma CollapseNamesBeforeRun(s: string)
    requires |s| >= 2 && !IsSeparator(s[0]) && IsSeparator(s[1]) && Names(s[1..]) != []
    requires var u := s[1..];
      CollapseSeparators(u) == LeadSlash(u) + Join(Names(u), '/') + TrailSlash(u)
    ensures CollapseSeparators(s) == LeadSlash(s) + Join(Names(s), '/') + TrailSlash(s)
  {
    var u := s[1..];
    JoinBeforeRun(s);
    TrailStep(s);
    CollapseAtText(s);
    Prepend(s[0], CollapseSeparators(u), "/" + Join(Names(u), '/'), TrailSlash(u));
  }

  lemma Prepend(c: char, x: string, j: string, tr: string)
    requires x == j + tr
    ensures [c] + x == [c] + j + tr
  {
  }

  lemma CollapseAtText(s: string)
    requires s != [] && !IsSeparator(s[0])
    ensures CollapseSeparators(s) == [s[0]] + CollapseSeparators(s[1..])
  {
  }

  lemma JoinInName(s: string)
    requires |s| >= 2 && !IsSeparator(s[0]) && !IsSeparator(s[1])
    ensures Join(Names(s), '/') == [s[0]] + Join(Names(s[1..]), '/')
    ensures LeadSlash(s[1..]) == ""
  {
    var rest := Names(s[1..]);
    assert Names(s) == [[s[0]] + rest[0]] + rest[1..];
    JoinExtendHead(s[0], rest, '/');
  }

  lemma JoinBeforeRun(s: string)
    requires |s| >= 2 && !IsSeparator(s[0]) && IsSeparator(s[1]) && Names(s[1..]) != []
    ensures Join(Names(s), '/') == [s[0]] + ("/" + Join(Names(s[1..]), '/'))
    ensures LeadSlash(s[1..]) == "/"
  {
    var rest := Names(s[1..]);
    assert Names(s) == [[s[0]]] + rest;
    JoinCons([s[0]], rest, '/');
  }

  /** Dropping a name character in front keeps the trailing `/` when some
      name is left either way. */
  lemma TrailStep(s: string)
    requires |s| >= 2 && !IsSeparator(s[0]) && Names(s[1..]) != []
    ensures TrailSlash(s) == TrailSlash(s[1..])
    ensures LeadSlash(s) == ""
  {
    assert Names(s) != [];
    assert s[1..][|s| - 2] == s[|s| - 1];
  }

  /** Skipping leading separators keeps the names. */
  lemma {:induction false} NamesSkip(x: string)
    ensures Names(SkipSeparators(x)) == Names(x)
    decreases |x|
  {
    if x != [] && IsSeparator(x[0]) {
      NamesSkip(x[1..]);
    }
  }

  /** Skipping leading separators keeps the last character, if any is left. */
  lemma {:induction false} SkipLast(x: string)
    requires SkipSeparators(x) != []
    ensures SkipSeparators(x)[|SkipSeparators(x)| - 1] == x[|x| - 1]
    decreases |x|
  {
    if IsSeparator(x[0]) {
      SkipLast(x[1..]);
    }
  }

  /** Prepending a character to the first name prepends it to the join. */
  lemma JoinExtendHead(c: char, rest: seq<string>, sep: char)
    requires rest != []
    ensures Join([[c] + rest[0]] + rest[1..], sep) == [c] + Join(rest, sep)
  {
    var p := [[c] + rest[0]] + rest[1..];
    if |rest| > 1 {
      assert p[1..] == rest[1..];
    }
  }

  /** Joined names neither start nor end with a separator. */
  lemma {:induction false} JoinEnds(parts: seq<string>)
    requires parts != []
    requires forall k :: 0 <= k < |parts| ==> parts[k] != [] && NoSeparator(parts[k])
    ensures var j := Join(parts, '/');
      j != [] && !IsSeparator(j[0]) && !IsSeparator(j[|j| - 1])
    decreases |parts|
  {
    if |parts| > 1 {
      JoinEnds(parts[1..]);
    }
  }

  /** Without line terminators, `$` matches only at the very end. */
  lemma NoTerminatorTrailing(c: string)
    requires forall k :: 0 <= k < |c| ==> !IsLineTerminator(c[k])
    ensures TrailingSlash(c) == if |c| >= 2 && c[|c| - 1] == '/' then |c| - 1 else -1
  {
  }

  /** Step 1 brings in no line terminator. */
  lemma CollapseNoTerminator(s: string)
    requires forall k :: 0 <= k < |s| ==> !IsLineTerminator(s[k])
    ensures var c := CollapseSeparators(s);
      forall k :: 0 <= k < |c| ==> !IsLineTerminator(c[k])
  {
    var c := CollapseSeparators(s);
    CollapseKeepsText(s);
    forall k | 0 <= k < |c|
      ensures !IsLineTerminator(c[k])
    {
      if !IsSeparator(c[k]) {
        UnseparatedMember(c, c[k]);
        UnseparatedMember(s, c[k]);
      }
    }
  }

  /** Steps 1 and 2 on an input without line terminators give its names
      joined by single `/`. */
  lemma TidyNames(s: string)
    requires forall k :: 0 <= k < |s| ==> !IsLineTerminator(s[k])
    ensures StripEdgeSlashes(CollapseSeparators(s)) == Join(Names(s), '/')
  {
    CollapseNames(s);
    CollapseNoTerminator(s);
    if Names(s) != [] {
      NamesPieces(s);
      JoinEnds(Names(s));
    }
    StripFramed(CollapseSeparators(s), LeadSlash(s), Join(Names(s), '/'), TrailSlash(s));
  }

  /** Step 2 removes exactly the framing `/` around a path that neither
      starts nor ends with a separator. */
  lemma StripFramed(c: string, lead: string, j: string, trail: string)
    requires c == lead + j + trail
    requires (lead == "" || lead == "/") && (trail == "" || trail == "/")
    requires j == [] ==> trail == ""
    requires j != [] ==> !IsSeparator(j[0]) && !IsSeparator(j[|j| - 1])
    requires forall k :: 0 <= k < |c| ==> !IsLineTerminator(c[k])
    ensures StripEdgeSlashes(c) == j
  {
    NoTerminatorTrailing(c);
    if lead == "" && trail == "" {
      assert c == j;
    } else if trail == "" {
      assert c == "/" + j && c[1..] == j;
    } else if lead == "" {
      assert c == j + "/" && c[..|c| - 1] == j;
    } else {
      assert c == "/" + j + "/" && c[1..|c| - 1] == j;
    }
  }

  /** On an input with no padding, no forbidden character and no line
      terminator, FixPath gives exactly the input's names joined by `/`:
      every separator run between names becomes one `/`, the edge runs
      go, and nothing else changes. */
  lemma FixPathNames(s: string)
    requires |s| != 1
    requires NoneTrimmed(s)
    requires forall i :: 0 <= i < |s| ==> !IsForbidden(s[i]) && !IsLineTerminator(s[i])
    ensures FixPath(s) == Ok(Join(Names(s), '/'))
  {
    if s != [] {
      var e := StripEdgeSlashes(CollapseSeparators(s));
      StepsKeepText(s);
      SameTextNoForbidden(s, e);
      TidyNames(s);
      assert Cleaned(s) == ReplaceForbidden(Trim(e));
    }
  }

  /** Removes one leading `assets/` when present. */
  function StripResourcePrefix(f: string): (r: string)
    ensures |r| <= |f| && f[|f| - |r|..] == r
    ensures StartsWith(f, ResourcePrefix) ==> f == ResourcePrefix + r
    ensures !StartsWith(f, ResourcePrefix) ==> r == f
  {
    if StartsWith(f, ResourcePrefix) then
      assert f == ResourcePrefix + f[|ResourcePrefix|..];
      f[|ResourcePrefix|..]
    else f
  }

  /** `PATH.ShortResourcePath`: the fixed path without one leading
      `assets/`, or the fixed path itself when it does not start so; it fails
      exactly when FixPath does. */
  function ShortResourcePath(s: string): (r: Result<string>)
    ensures r.Err? <==> FixPath(s).Err?
    ensures r.Err? ==> r.failure == IndexOutOfBounds
    ensures r.Ok? ==> var f := FixPath(s).value;
      && |r.value| <= |f| && f[|f| - |r.value|..] == r.value
      && (StartsWith(f, ResourcePrefix) ==> f == ResourcePrefix + r.value)
      && (!StartsWith(f, ResourcePrefix) ==> r.value == f)
  {
    match FixPath(s)
    case Err(e) => Err(e)
    case Ok(f) => Ok(StripResourcePrefix(f))
  }
}
