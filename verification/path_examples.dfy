/**
  Worked examples of the path normaliser, proved by evaluation: each one a
  behaviour the Java code shows on that input. Each rewriting step is
  evaluated by a small lemma of its own, and the example composes them.
 */
module PathExamples {
  import opened Outcomes
  import opened Text
  import opened PathFix

  // Steps for "C:/a".

  lemma StripDrivePath()
    ensures StripEdgeSlashes("C:/a") == "C:/a"
  {
  }

  lemma TrimDrivePath()
    ensures Trim("C:/a") == "C:/a"
  {
  }

  lemma ReplaceDriveColon()
    ensures ReplaceForbidden("C:/a") == "C_/a"
  {
  }

  lemma CleanDrivePath()
    ensures Cleaned("C:/a") == "C_/a"
  {
    CollapseFixesCollapsed("C:/a");
    StripDrivePath();
    TrimDrivePath();
    ReplaceDriveColon();
  }

  lemma RestoreDriveColon()
    ensures DriveFix("C_/a") == "C:/a"
  {
  }

  /** The drive colon is replaced by the forbidden-character pass and then
      put back at index 1. */
  lemma DriveLetterKept()
    ensures FixPath("C:/a") == Ok("C:/a")
  {
    CleanDrivePath();
    RestoreDriveColon();
  }

  // Steps for "a<b>c".

  lemma ReplaceAngles()
    ensures ReplaceForbidden("a<b>c") == "a_b_c"
  {
  }

  lemma StripAngles()
    ensures StripEdgeSlashes("a<b>c") == "a<b>c"
  {
  }

  lemma TrimAngles()
    ensures Trim("a<b>c") == "a<b>c"
  {
  }

  lemma CleanAngles()
    ensures Cleaned("a<b>c") == "a_b_c"
  {
    CollapseFixesCollapsed("a<b>c");
    StripAngles();
    TrimAngles();
    ReplaceAngles();
  }

  lemma ForbiddenCharacters()
    ensures FixPath("a<b>c") == Ok("a_b_c")
  {
    CleanAngles();
  }

  // Steps for " /a".

  lemma StripSpaceSlash()
    ensures StripEdgeSlashes(" /a") == " /a"
  {
  }

  lemma TrimSpaceSlash()
    ensures Trim(" /a") == "/a"
  {
  }

  lemma ReplaceNothing()
    ensures ReplaceForbidden("/a") == "/a"
  {
  }

  lemma CleanSpaceSlash()
    ensures Cleaned(" /a") == "/a"
  {
    CollapseFixesCollapsed(" /a");
    StripSpaceSlash();
    TrimSpaceSlash();
    ReplaceNothing();
  }

  /** The trim runs after the slashes are stripped, so it can expose one. */
  lemma TrimExposesSlash()
    ensures FixPath(" /a") == Ok("/a")
  {
    CleanSpaceSlash();
  }

  /** `charAt(1)` is read before anything else. */
  lemma SingleCharacterFails()
    ensures FixPath("a") == Err(IndexOutOfBounds)
  {
  }

  lemma CleanLoneColon()
    ensures |Cleaned(" :")| == 1
  {
    CollapseFixesCollapsed(" :");
    assert StripEdgeSlashes(" :") == " :";
    assert Trim(" :") == ":";
  }

  /** The drive fix needs two characters after the cleaning. */
  lemma LoneDriveColonFails()
    ensures FixPath(" :") == Err(IndexOutOfBounds)
  {
    CleanLoneColon();
  }

  // Steps for "\:x".

  lemma CollapseSlashColon()
    ensures CollapseSeparators("\\:x") == "/:x"
  {
    CollapseFixesCollapsed(":x");
    assert "\\:x"[1..] == ":x";
  }

  lemma StripSlashColon()
    ensures StripEdgeSlashes("/:x") == ":x"
  {
  }

  lemma TrimLeadingColon()
    ensures Trim(":x") == ":x"
  {
  }

  lemma ReplaceLeadingColon()
    ensures ReplaceForbidden(":x") == "_x"
  {
  }

  lemma CleanSlashColon()
    ensures Cleaned("\\:x") == "_x"
  {
    CollapseSlashColon();
    StripSlashColon();
    TrimLeadingColon();
    ReplaceLeadingColon();
  }

  lemma OverwriteSecond()
    ensures DriveFix("_x") == "_:"
  {
  }

  /** The drive fix overwrites index 1 of the cleaned path: here the colon
      moved to index 0 and the `x` at index 1 is lost. */
  lemma DriveFixOverwrites()
    ensures FixPath("\\:x") == Ok("_:")
  {
    CleanSlashColon();
    OverwriteSecond();
  }

  // Steps for "ab/\n".

  lemma StripBeforeLineEnd()
    ensures StripEdgeSlashes("ab/\n") == "ab\n"
  {
    assert TrailingSlash("ab/\n") == 2;
  }

  lemma TrimLineEnd()
    ensures Trim("ab\n") == "ab"
  {
    assert IsTrimmed("ab\n"[2]) && !IsTrimmed("ab\n"[1]) && !IsTrimmed("ab\n"[0]);
    assert EndKept("ab\n", 0, 3) == 2;
    assert "ab\n"[0..2] == "ab";
  }

  lemma ReplaceLineEndWord()
    ensures ReplaceForbidden("ab") == "ab"
  {
  }

  lemma CleanLineEnd()
    ensures Cleaned("ab/\n") == "ab"
  {
    CollapseFixesCollapsed("ab/\n");
    StripBeforeLineEnd();
    TrimLineEnd();
    ReplaceLineEndWord();
  }

  /** Java's `$` also matches before a final line terminator, so the slash
      in front of one is stripped as well. */
  lemma SlashBeforeLineTerminator()
    ensures FixPath("ab/\n") == Ok("ab")
  {
    FixLineEnd();
    CleanLineEnd();
  }

  lemma FixLineEnd()
    ensures FixPath("ab/\n") == Ok(Cleaned("ab/\n"))
  {
    assert "ab/\n"[1] != ':';
  }

  // Steps for "assets/".

  lemma StripPrefixSlash()
    ensures StripEdgeSlashes("assets/") == "assets"
  {
  }

  lemma KeepPrefixWord()
    ensures Trim("assets") == "assets"
    ensures ReplaceForbidden("assets") == "assets"
  {
    TrimIdentity("assets");
  }

  lemma CleanPrefix()
    ensures Cleaned("assets/") == "assets"
  {
    CollapseFixesCollapsed("assets/");
    StripPrefixSlash();
    KeepPrefixWord();
  }

  /** A lone `assets/` is fixed to `assets`, which no longer has the prefix. */
  lemma BarePrefixKept()
    ensures ShortResourcePath("assets/") == Ok("assets")
  {
    CleanPrefix();
    assert FixPath("assets/") == Ok("assets");
    assert !StartsWith("assets", ResourcePrefix);
  }
}
