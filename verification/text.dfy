/**
  The java.lang.String operations the explorer relies on, over `seq<char>`:
  `lastIndexOf`, `indexOf`, `startsWith`, `trim`, `replace(target, "")` and
  `split` on a single-character separator, plus the `/`-separated name
  components used for file-system paths.
 */
module Text {

  predicate StartsWith(s: string, prefix: string) {
    |prefix| <= |s| && s[..|prefix|] == prefix
  }

  predicate OccursAt(s: string, t: string, i: int) {
    0 <= i <= |s| - |t| && s[i..i + |t|] == t
  }

  /** True iff `t` occurs in `s` as a contiguous block. */
  ghost predicate Occurs(s: string, t: string) {
    exists i :: OccursAt(s, t, i)
  }

  /** `String.lastIndexOf(char)`: -1 when `c` does not occur. */
  function LastIndexOf(s: string, c: char): (r: int)
    ensures -1 <= r < |s|
    ensures r == -1 <==> c !in s
    ensures 0 <= r ==> s[r] == c && c !in s[r + 1..]
  {
    if s == [] then -1
    else if s[|s| - 1] == c then |s| - 1
    else
      var r := LastIndexOf(s[..|s| - 1], c);
      assert s == s[..|s| - 1] + [s[|s| - 1]];
      r
  }

  /** `String.indexOf(char)`: -1 when `c` does not occur. */
  function IndexOf(s: string, c: char): (r: int)
    ensures -1 <= r < |s|
    ensures r == -1 <==> c !in s
    ensures 0 <= r ==> s[r] == c && c !in s[..r]
  {
    if s == [] then -1
    else if s[0] == c then 0
    else
      var r := IndexOf(s[1..], c);
      assert s == [s[0]] + s[1..];
      if r == -1 then -1 else r + 1
  }

  /** `indexOf` finds the first occurrence: an index holding `c` with no
      `c` before it is the one returned. */
  lemma IndexOfFirst(s: string, c: char, i: int)
    requires 0 <= i < |s| && s[i] == c && c !in s[..i]
    ensures IndexOf(s, c) == i
  {
  }

  /** `String.trim` removes every character at or below U+0020 from both ends. */
  predicate IsTrimmed(c: char) {
    c <= ' '
  }

  /** The first index at or after `i` that the trim keeps, or `|s|`. */
  function FirstKept(s: string, i: nat): (j: nat)
    requires i <= |s|
    ensures i <= j <= |s|
    ensures forall k :: i <= k < j ==> IsTrimmed(s[k])
    ensures j < |s| ==> !IsTrimmed(s[j])
    decreases |s| - i
  {
    if i < |s| && IsTrimmed(s[i]) then FirstKept(s, i + 1) else i
  }

  /** The end (exclusive) of the kept part, scanning down from `j` to `lo`. */
  function EndKept(s: string, lo: nat, j: nat): (e: nat)
    requires lo <= j <= |s|
    ensures lo <= e <= j
    ensures forall k :: e <= k < j ==> IsTrimmed(s[k])
    ensures lo < e ==> !IsTrimmed(s[e - 1])
    decreases j
  {
    if lo < j && IsTrimmed(s[j - 1]) then EndKept(s, lo, j - 1) else j
  }

  /** `r` is the slice of `s` that starts at `i`, with only trimmed
      characters outside it. */
  predicate TrimmedAt(s: string, r: string, i: int) {
    && 0 <= i <= |s| - |r|
    && r == s[i..i + |r|]
    && (forall k :: 0 <= k < i ==> IsTrimmed(s[k]))
    && (forall k :: i + |r| <= k < |s| ==> IsTrimmed(s[k]))
  }

  /** `String.trim`: the longest slice of `s` whose ends are not trimmed
      characters, with only trimmed characters cut off on either side. */
  function Trim(s: string): (r: string)
    ensures exists i :: TrimmedAt(s, r, i)
    ensures r == [] || (!IsTrimmed(r[0]) && !IsTrimmed(r[|r| - 1]))
  {
    var lo := FirstKept(s, 0);
    var hi := EndKept(s, lo, |s|);
    assert TrimmedAt(s, s[lo..hi], lo);
    s[lo..hi]
  }

  lemma TrimIdentity(s: string)
    requires forall k :: 0 <= k < |s| ==> !IsTrimmed(s[k])
    ensures Trim(s) == s
  {
    var r := Trim(s);
    var i :| TrimmedAt(s, r, i);
    if |s| > 0 {
      assert !IsTrimmed(s[0]) && !IsTrimmed(s[|s| - 1]);
    }
  }

  /** `s.replace(t, "")`: deletes the non-overlapping occurrences of `t`
      found scanning from the left. */
  function RemoveAll(s: string, t: string): (r: string)
    requires |t| > 0
    ensures |r| <= |s|
    ensures |r| < |s| ==> Occurs(s, t)
    ensures Occurs(s, t) ==> |r| <= |s| - |t|
    decreases |s|
  {
    if |s| < |t| then s
    else if s[..|t|] == t then
      assert OccursAt(s, t, 0);
      RemoveAll(s[|t|..], t)
    else
      var rest := RemoveAll(s[1..], t);
      OccursShift(s, t);
      OccursUnshift(s, t);
      [s[0]] + rest
  }

  /** The value of `replace(t, "")`: the text before the first occurrence
      of `t` is kept, that occurrence is dropped, and the removal carries on
      after it. Together with `RemoveAbsent` this pins every result. */
  lemma RemoveAllAtFirst(s: string, t: string, i: int)
    requires |t| > 0 && OccursAt(s, t, i)
    requires forall j :: 0 <= j < i ==> !OccursAt(s, t, j)
    ensures RemoveAll(s, t) == s[..i] + RemoveAll(s[i + |t|..], t)
  {
    var p, q := s[..i], s[i..];
    assert s == p + q;
    RemoveAllKeepsPrefix(p, q, t);
    assert q[..|t|] == t && q[|t|..] == s[i + |t|..];
    RemoveAllHit(q, t);
  }

  /** A prefix in which no occurrence of `t` starts is kept as it is. */
  lemma {:induction false} RemoveAllKeepsPrefix(p: string, q: string, t: string)
    requires |t| > 0
    requires forall j :: 0 <= j < |p| ==> !OccursAt(p + q, t, j)
    ensures RemoveAll(p + q, t) == p + RemoveAll(q, t)
    decreases |p|
  {
    if p == [] {
      assert p + q == q;
    } else {
      var s, u := p + q, p[1..] + q;
      assert s[1..] == u;
      forall j | 0 <= j < |p| - 1
        ensures !OccursAt(u, t, j)
      {
        assert !OccursAt(s, t, j + 1);
        if j + |t| <= |u| {
          assert u[j..j + |t|] == s[j + 1..j + 1 + |t|];
        }
      }
      RemoveAllKeepsPrefix(p[1..], q, t);
      var r := RemoveAll(q, t);
      if |s| < |t| {
        assert r == q;
      } else {
        assert !OccursAt(s, t, 0);
        RemoveAllSkip(s, t);
        assert [p[0]] + (p[1..] + r) == p + r by {
          assert [p[0]] + p[1..] == p;
        }
      }
    }
  }

  /** Where `t` starts `s`, it is dropped. */
  lemma RemoveAllHit(s: string, t: string)
    requires 0 < |t| && OccursAt(s, t, 0)
    ensures RemoveAll(s, t) == RemoveAll(s[|t|..], t)
  {
    assert s[..|t|] == t;
  }

  /** Where `t` does not start `s`, the first character is kept. */
  lemma RemoveAllSkip(s: string, t: string)
    requires 0 < |t| <= |s| && !OccursAt(s, t, 0)
    ensures RemoveAll(s, t) == [s[0]] + RemoveAll(s[1..], t)
  {
    assert s[..|t|] != t;
  }

  /** An occurrence in `s` other than at its start is an occurrence in its tail. */
  lemma OccursUnshift(s: string, t: string)
    requires |s| > 0 && !OccursAt(s, t, 0)
    ensures Occurs(s, t) ==> Occurs(s[1..], t)
  {
    if Occurs(s, t) {
      var i :| OccursAt(s, t, i);
      assert i >= 1;
      assert s[1..][i - 1..i - 1 + |t|] == s[i..i + |t|];
      assert OccursAt(s[1..], t, i - 1);
    }
  }

  /** When `t` first occurs at the end of `f + t`, removing it leaves `f`:
      the case of a folder path that ends with the name removed from it. */
  lemma RemoveTrailing(f: string, t: string)
    requires |t| > 0 && !Occurs(f + t[..|t| - 1], t)
    ensures RemoveAll(f + t, t) == f
  {
    var s, g := f + t, f + t[..|t| - 1];
    forall i | 0 <= i < |s| - |t|
      ensures !OccursAt(s, t, i)
    {
      assert !OccursAt(g, t, i);
      assert s[i..i + |t|] == g[i..i + |t|];
    }
    RemoveOnlyAtEnd(s, t);
    assert s[..|s| - |t|] == f;
  }

  /** The same, stated on `s` itself: `t` ends `s` and starts nowhere before. */
  lemma {:induction false} RemoveOnlyAtEnd(s: string, t: string)
    requires 0 < |t| <= |s| && s[|s| - |t|..] == t
    requires forall i :: 0 <= i < |s| - |t| ==> !OccursAt(s, t, i)
    ensures RemoveAll(s, t) == s[..|s| - |t|]
    decreases |s|
  {
    if |s| == |t| {
      assert s[..|t|] == t && s[|t|..] == [];
    } else {
      var u := s[1..];
      assert s[..|t|] != t by {
        assert !OccursAt(s, t, 0);
      }
      forall i | 0 <= i < |u| - |t|
        ensures !OccursAt(u, t, i)
      {
        assert !OccursAt(s, t, i + 1);
        assert u[i..i + |t|] == s[i + 1..i + 1 + |t|];
      }
      assert u[|u| - |t|..] == t;
      RemoveOnlyAtEnd(u, t);
      assert s[..|s| - |t|] == [s[0]] + u[..|u| - |t|];
    }
  }

  /** An occurrence in the tail of `s` is an occurrence in `s`. */
  lemma OccursShift(s: string, t: string)
    requires |s| > 0
    ensures Occurs(s[1..], t) ==> Occurs(s, t)
  {
    if Occurs(s[1..], t) {
      var i :| OccursAt(s[1..], t, i);
      assert s[1..][i..i + |t|] == s[i + 1..i + 1 + |t|];
      assert OccursAt(s, t, i + 1);
    }
  }

  /** Removing a target that does not occur leaves the string unchanged. */
  lemma {:induction false} RemoveAbsent(s: string, t: string)
    requires |t| > 0 && !Occurs(s, t)
    ensures RemoveAll(s, t) == s
    decreases |s|
  {
    if |s| >= |t| {
      assert !OccursAt(s, t, 0);
      OccursShift(s, t);
      RemoveAbsent(s[1..], t);
      assert s == [s[0]] + s[1..];
    }
  }

  /** The separators of `s` glued back between `parts`. */
  function Join(parts: seq<string>, sep: char): (r: string)
    ensures parts == [] ==> r == []
    ensures |parts| == 1 ==> r == parts[0]
  {
    if parts == [] then []
    else if |parts| == 1 then parts[0]
    else parts[0] + [sep] + Join(parts[1..], sep)
  }

  /** Every piece between occurrences of `sep`, empty ones included. */
  function SplitAll(s: string, sep: char): (r: seq<string>)
    ensures |r| >= 1
    ensures forall k :: 0 <= k < |r| ==> sep !in r[k]
    ensures Join(r, sep) == s
    decreases |s|
  {
    var i := IndexOf(s, sep);
    if i == -1 then [s]
    else
      var rest := SplitAll(s[i + 1..], sep);
      JoinCons(s[..i], rest, sep);
      assert s == s[..i] + [sep] + s[i + 1..];
      assert forall k :: 1 <= k < |rest| + 1 ==> ([s[..i]] + rest)[k] == rest[k - 1];
      [s[..i]] + rest
  }

  lemma JoinCons(head: string, rest: seq<string>, sep: char)
    requires rest != []
    ensures Join([head] + rest, sep) == head + [sep] + Join(rest, sep)
  {
    assert ([head] + rest)[1..] == rest;
  }

  /** `split` undoes `Join` when no part holds the separator. */
  lemma {:induction false} SplitJoin(parts: seq<string>, sep: char)
    requires parts != []
    requires forall k :: 0 <= k < |parts| ==> sep !in parts[k]
    ensures SplitAll(Join(parts, sep), sep) == parts
    decreases |parts|
  {
    var head := parts[0];
    if |parts| == 1 {
      assert IndexOf(head, sep) == -1;
    } else {
      var tail := Join(parts[1..], sep);
      var s := Join(parts, sep);
      JoinCons(head, parts[1..], sep);
      assert parts == [head] + parts[1..];
      assert s == head + [sep] + tail;
      assert s[..|head|] == head;
      assert s[|head| + 1..] == tail;
      IndexOfFirst(s, sep, |head|);
      SplitJoin(parts[1..], sep);
    }
  }

  function DropTrailingEmpty(parts: seq<string>): (r: seq<string>)
    ensures |r| <= |parts| && r == parts[..|r|]
    ensures r == [] || r[|r| - 1] != []
    ensures forall k :: |r| <= k < |parts| ==> parts[k] == []
  {
    if parts != [] && parts[|parts| - 1] == [] then DropTrailingEmpty(parts[..|parts| - 1])
    else parts
  }

  /** The part of `u` before the first `sep`, or all of `u` when there is none. */
  function Before(u: string, sep: char): (r: string)
    ensures StartsWith(u, r) && sep !in r
    ensures |r| < |u| ==> u[|r|] == sep
  {
    var i := IndexOf(u, sep);
    if i == -1 then u else u[..i]
  }

  lemma SplitAllHead(u: string, sep: char)
    ensures SplitAll(u, sep)[0] == Before(u, sep)
  {
  }

  /** `String.split` with a one-character, non-special separator and limit 0:
      without a match the whole string is the only piece; otherwise the
      pieces between separators, with trailing empty pieces removed. */
  function JavaSplit(s: string, sep: char): (r: seq<string>)
    ensures forall k :: 0 <= k < |r| ==> sep !in r[k]
    ensures sep !in s ==> r == [s]
    ensures sep in s ==> r == [] || r[|r| - 1] != []
    ensures sep in s ==>
      var j := Join(r, sep);
      && |j| <= |s| && s[..|j|] == j
      && forall k :: |j| <= k < |s| ==> s[k] == sep
  {
    if sep !in s then [s]
    else
      DropTrailingJoin(SplitAll(s, sep), sep);
      DropTrailingEmpty(SplitAll(s, sep))
  }

  /** Joining after dropping the trailing empty pieces gives a prefix of
      the whole join; only separators follow it. */
  lemma {:induction false} DropTrailingJoin(parts: seq<string>, sep: char)
    ensures var j := Join(DropTrailingEmpty(parts), sep);
      var all := Join(parts, sep);
      && |j| <= |all| && all[..|j|] == j
      && forall k :: |j| <= k < |all| ==> all[k] == sep
    decreases |parts|
  {
    if parts != [] && parts[|parts| - 1] == [] {
      var init := parts[..|parts| - 1];
      assert parts == init + [[]];
      DropTrailingJoin(init, sep);
      if init != [] {
        JoinSnoc(init, [], sep);
      }
    }
  }

  lemma {:induction false} JoinSnoc(init: seq<string>, x: string, sep: char)
    requires init != []
    ensures Join(init + [x], sep) == Join(init, sep) + [sep] + x
    decreases |init|
  {
    if |init| == 1 {
      assert init + [x] == [init[0], x];
      assert [init[0], x][1..] == [x];
    } else {
      assert (init + [x])[1..] == init[1..] + [x];
      JoinSnoc(init[1..], x, sep);
    }
  }

  /** When `s` holds a separator, the first piece of the split is what
      precedes the first separator and the second piece is what lies
      between the first separator and the next one. */
  lemma JavaSplitPieces(s: string, sep: char)
    requires sep in s
    ensures var r := JavaSplit(s, sep);
            var i := IndexOf(s, sep);
            && (|r| >= 1 ==> r[0] == s[..i])
            && (|r| >= 2 ==> r[1] == Before(s[i + 1..], sep))
  {
    var i := IndexOf(s, sep);
    var all := SplitAll(s, sep);
    var tail := SplitAll(s[i + 1..], sep);
    assert all == [s[..i]] + tail;
    var r := DropTrailingEmpty(all);
    assert r == JavaSplit(s, sep);
    if |r| >= 1 {
      assert r[0] == all[0] == s[..i];
    }
    if |r| >= 2 {
      SplitAllHead(s[i + 1..], sep);
      assert r[1] == all[1] == tail[0];
    }
  }

  /** Two separator-free pieces, the second non-empty, joined by one
      separator split back into those two pieces. */
  lemma JavaSplitTwo(a: string, b: string, sep: char)
    requires sep !in a && sep !in b && b != []
    ensures JavaSplit(a + [sep] + b, sep) == [a, b]
  {
    var s := a + [sep] + b;
    assert s[..|a|] == a && s[|a| + 1..] == b;
    assert s[|a|] == sep;
    assert IndexOf(s, sep) == |a|;
    assert SplitAll(b, sep) == [b];
    assert SplitAll(s, sep) == [a] + [b];
  }

  /** The first piece of a split is what precedes the first separator;
      when there is no piece at all, nothing precedes it. */
  lemma JavaSplitHead(s: string, sep: char)
    ensures var r := JavaSplit(s, sep);
      && (r == [] ==> Before(s, sep) == [])
      && (r != [] ==> r[0] == Before(s, sep))
  {
    if sep in s {
      JavaSplitPieces(s, sep);
      SplitAllHead(s, sep);
      var all := SplitAll(s, sep);
      assert all[0] == Before(s, sep);
      if JavaSplit(s, sep) == [] {
        assert all[0] == [];
      }
    }
  }

  /** The non-empty names of a `/`-separated path, as the Unix path parser
      keeps them: repeated, leading and trailing `/` produce no name. */
  function Components(p: string): (r: seq<string>)
    ensures forall k :: 0 <= k < |r| ==> r[k] != [] && '/' !in r[k]
  {
    NonEmpty(SplitAll(p, '/'))
  }

  function NonEmpty(parts: seq<string>): (r: seq<string>)
    ensures forall k :: 0 <= k < |r| ==> r[k] != [] && r[k] in parts
  {
    if parts == [] then []
    else if parts[0] == [] then NonEmpty(parts[1..])
    else [parts[0]] + NonEmpty(parts[1..])
  }

  /** Parts that are all non-empty pass through unchanged. */
  lemma {:induction false} NonEmptyKeeps(parts: seq<string>)
    requires forall k :: 0 <= k < |parts| ==> parts[k] != []
    ensures NonEmpty(parts) == parts
    decreases |parts|
  {
    if parts != [] {
      NonEmptyKeeps(parts[1..]);
      assert parts == [parts[0]] + parts[1..];
    }
  }

  /** The names of a path made by joining names with `/` are those names. */
  lemma ComponentsPlain(parts: seq<string>)
    requires forall k :: 0 <= k < |parts| ==> parts[k] != [] && '/' !in parts[k]
    ensures Components(Join(parts, '/')) == parts
  {
    if parts == [] {
      assert SplitAll("", '/') == [""] by {
        assert IndexOf("", '/') == -1;
      }
      assert NonEmpty([""]) == [] by {
        assert [""][1..] == [];
      }
    } else {
      SplitJoin(parts, '/');
      NonEmptyKeeps(parts);
    }
  }
}
