/** Output-path derivation of the two entry points.

    The command-line script filters its arguments by a case-insensitive `.mp3` suffix and
    then derives the temporary and final names with a case-sensitive replace of every
    `.mp3` substring (audio_scrubber.py:86-92). The GUI derives them by cutting the input
    at its last `'.'` (audio_scrubber_gui.py:146-147). The two disagree on many inputs;
    both are modelled as written. */
module Paths {
  import opened Outcomes

  const Mp3Extension := ".mp3"
  const RerecordSuffix := "_rerecord.wav"
  const CleanSuffix := "_clean.wav"

  // ---------------------------------------------------------------------------
  // Substrings and Python's str.replace
  // ---------------------------------------------------------------------------

  /** `pat` occurs in `s` starting at index `i`. */
  predicate OccursAt(s: string, pat: string, i: nat) {
    i + |pat| <= |s| && s[i..i + |pat|] == pat
  }

  /** `pat` occurs somewhere in `s` (Python's `pat in s`). */
  predicate Contains(s: string, pat: string) {
    exists i: nat :: i <= |s| && OccursAt(s, pat, i)
  }

  /** Python's `s.replace(pat, rep)` for a non-empty `pat`: scan left to right and replace
      every non-overlapping occurrence; characters that start no occurrence are kept. */
  function ReplaceAll(s: string, pat: string, rep: string): (r: string)
    requires |pat| > 0
    decreases |s|
  {
    if |s| < |pat| then s
    else if s[..|pat|] == pat then rep + ReplaceAll(s[|pat|..], pat, rep)
    else [s[0]] + ReplaceAll(s[1..], pat, rep)
  }

  /** A string without `pat` comes back from `replace` unchanged. */
  lemma {:induction false} ReplaceAbsent(s: string, pat: string, rep: string)
    requires |pat| > 0
    requires !Contains(s, pat)
    ensures ReplaceAll(s, pat, rep) == s
    decreases |s|
  {
    if |s| >= |pat| {
      assert !OccursAt(s, pat, 0);
      assert s[..|pat|] != pat;
      forall i: nat
        ensures !OccursAt(s[1..], pat, i)
      {
        if OccursAt(s[1..], pat, i) {
          assert s[1..][i..i + |pat|] == s[i + 1..i + 1 + |pat|];
          assert OccursAt(s, pat, i + 1);
        }
      }
      ReplaceAbsent(s[1..], pat, rep);
      assert s == [s[0]] + s[1..];
    }
  }

  // ---------------------------------------------------------------------------
  // Command-line names (audio_scrubber.py:86-92)
  // ---------------------------------------------------------------------------

  /** ASCII lower-casing of one character. */
  function LowerChar(c: char): char {
    if 'A' <= c <= 'Z' then (c as int + 32) as char else c
  }

  /** `s.lower()`, restricted to ASCII letters. */
  function Lower(s: string): (r: string)
    ensures |r| == |s|
    ensures forall i :: 0 <= i < |s| ==> r[i] == LowerChar(s[i])
  {
    seq(|s|, i requires 0 <= i < |s| => LowerChar(s[i]))
  }

  predicate EndsWith(s: string, suffix: string) {
    |suffix| <= |s| && s[|s| - |suffix|..] == suffix
  }

  /** The argument filter `mp3.lower().endswith(".mp3")`. */
  predicate IsMp3Name(s: string) {
    EndsWith(Lower(s), Mp3Extension)
  }

  /** The filter accepts exactly the names whose last four characters are `.`, `m` or `M`,
      `p` or `P`, and `3`: the digit and the dot are fixed, the letters may have either case. */
  lemma Mp3NameCharacters(s: string)
    ensures IsMp3Name(s) <==>
              |s| >= 4 && s[|s| - 4] == '.' && s[|s| - 3] in {'m', 'M'}
              && s[|s| - 2] in {'p', 'P'} && s[|s| - 1] == '3'
  {
    var l := Lower(s);
    if |s| >= 4 {
      var tail := l[|l| - 4..];
      assert tail[0] == l[|s| - 4] && tail[1] == l[|s| - 3];
      assert tail[2] == l[|s| - 2] && tail[3] == l[|s| - 1];
      if s[|s| - 4] == '.' && s[|s| - 3] in {'m', 'M'} && s[|s| - 2] in {'p', 'P'} && s[|s| - 1] == '3' {
        assert tail == Mp3Extension;
      }
    }
  }

  /** Temporary capture file of the command-line script: `mp3.replace(".mp3", "_rerecord.wav")`. */
  function CliTempPath(mp3: string): (r: string)
    ensures !Contains(r, Mp3Extension)
  {
    ReplaceLeavesNoExtension(mp3, RerecordSuffix);
    ReplaceAll(mp3, Mp3Extension, RerecordSuffix)
  }

  /** Final output file of the command-line script: `mp3.replace(".mp3", "_clean.wav")`. */
  function CliFinalPath(mp3: string): (r: string)
    ensures !Contains(r, Mp3Extension)
  {
    ReplaceLeavesNoExtension(mp3, CleanSuffix);
    ReplaceAll(mp3, Mp3Extension, CleanSuffix)
  }

  /** A string that ends in `.mp3` and has no other `.mp3` in it: only the extension is
      replaced. `.mp3` has no proper prefix that is also its suffix, so no occurrence can
      straddle the boundary between the stem and the extension. */
  lemma {:induction false} ReplaceStemExtension(stem: string, rep: string)
    requires !Contains(stem, Mp3Extension)
    ensures ReplaceAll(stem + Mp3Extension, Mp3Extension, rep) == stem + rep
    decreases |stem|
  {
    var s := stem + Mp3Extension;
    if |stem| == 0 {
      assert s == Mp3Extension;
      assert s[4..] == [];
    } else {
      if |stem| >= 4 {
        assert s[..4] == stem[..4];
        assert !OccursAt(stem, Mp3Extension, 0);
      } else {
        assert s[|stem|] == '.';
        assert Mp3Extension[|stem|] != '.';
      }
      assert s[..4] != Mp3Extension;
      forall i: nat
        ensures !OccursAt(stem[1..], Mp3Extension, i)
      {
        if OccursAt(stem[1..], Mp3Extension, i) {
          assert stem[1..][i..i + 4] == stem[i + 1..i + 5];
          assert OccursAt(stem, Mp3Extension, i + 1);
        }
      }
      assert s[1..] == stem[1..] + Mp3Extension;
      ReplaceStemExtension(stem[1..], rep);
      assert s[0] == stem[0];
      assert stem == [stem[0]] + stem[1..];
    }
  }

  /** Up to the first `'_'` it writes, `replace` copies its input: every replacement text
      used here starts with `'_'`. */
  lemma {:induction false} ReplaceCopiesPrefix(t: string, rep: string, k: nat)
    requires |rep| > 0 && rep[0] == '_'
    ensures var out := ReplaceAll(t, Mp3Extension, rep);
            k <= |out| && (forall j :: 0 <= j < k ==> out[j] != '_') ==> k <= |t| && t[..k] == out[..k]
    decreases |t|
  {
    var out := ReplaceAll(t, Mp3Extension, rep);
    if |t| >= 4 && t[..4] == Mp3Extension {
      assert out[0] == '_';
    } else if |t| >= 4 && k > 0 {
      var rest := ReplaceAll(t[1..], Mp3Extension, rep);
      assert out == [t[0]] + rest;
      ReplaceCopiesPrefix(t[1..], rep, k - 1);
      if k <= |out| && (forall j :: 0 <= j < k ==> out[j] != '_') {
        assert forall j :: 0 <= j < k - 1 ==> rest[j] == out[j + 1];
        assert t[..k] == [t[0]] + t[1..][..k - 1];
        assert out[..k] == [t[0]] + rest[..k - 1];
      }
    }
  }

  /** The only `'.'` in either replacement text starts its `.wav`. */
  lemma SuffixDots(rep: string)
    requires rep == RerecordSuffix || rep == CleanSuffix
    ensures |rep| >= 5 && rep[0] == '_' && rep[|rep| - 4] == '.' && rep[|rep| - 3] == 'w'
    ensures forall i :: 0 <= i < |rep| && i != |rep| - 4 ==> rep[i] != '.'
  {
  }

  /** A replacement followed by text without `.mp3` contains no `.mp3`. */
  lemma NoExtensionAfterSuffix(rep: string, rest: string)
    requires rep == RerecordSuffix || rep == CleanSuffix
    requires !Contains(rest, Mp3Extension)
    ensures !Contains(rep + rest, Mp3Extension)
  {
    var out := rep + rest;
    SuffixDots(rep);
    forall i: nat | i <= |out|
      ensures !OccursAt(out, Mp3Extension, i)
    {
      if i >= |rep| {
        assert !OccursAt(rest, Mp3Extension, i - |rep|);
        if i + 4 <= |out| {
          assert out[i..i + 4] == rest[i - |rep|..i - |rep| + 4];
        }
      } else if i == |rep| - 4 {
        assert out[i + 1] == 'w';
      } else {
        assert out[i] == rep[i];
      }
    }
  }

  /** A character kept by `replace`, in front of the replaced rest, cannot start a `.mp3`. */
  lemma NoExtensionAfterKeptChar(s: string, rep: string)
    requires rep == RerecordSuffix || rep == CleanSuffix
    requires |s| >= 4 && s[..4] != Mp3Extension
    requires !Contains(ReplaceAll(s[1..], Mp3Extension, rep), Mp3Extension)
    ensures !Contains([s[0]] + ReplaceAll(s[1..], Mp3Extension, rep), Mp3Extension)
  {
    var rest := ReplaceAll(s[1..], Mp3Extension, rep);
    var out := [s[0]] + rest;
    SuffixDots(rep);
    forall i: nat | i <= |out|
      ensures !OccursAt(out, Mp3Extension, i)
    {
      if i >= 1 {
        assert !OccursAt(rest, Mp3Extension, i - 1);
        if i + 4 <= |out| {
          assert out[i..i + 4] == rest[i - 1..i + 3];
        }
      } else if 4 <= |out| {
        ReplaceCopiesPrefix(s[1..], rep, 3);
        if forall j :: 0 <= j < 3 ==> rest[j] != '_' {
          assert out[..4] == [s[0]] + rest[..3];
          assert s[..4] == [s[0]] + s[1..][..3];
        } else {
          var j :| 0 <= j < 3 && rest[j] == '_';
          assert out[j + 1] == '_';
        }
      }
    }
  }

  /** `replace` leaves no `.mp3` behind: neither derived name contains one, whatever the
      input. Each replacement text starts with `'_'` and has its only dot before `wav`,
      so no new occurrence can form across or inside a replacement. */
  lemma {:induction false} ReplaceLeavesNoExtension(s: string, rep: string)
    requires rep == RerecordSuffix || rep == CleanSuffix
    ensures !Contains(ReplaceAll(s, Mp3Extension, rep), Mp3Extension)
    decreases |s|
  {
    if |s| < 4 {
      assert ReplaceAll(s, Mp3Extension, rep) == s;
    } else if s[..4] == Mp3Extension {
      ReplaceLeavesNoExtension(s[4..], rep);
      NoExtensionAfterSuffix(rep, ReplaceAll(s[4..], Mp3Extension, rep));
    } else {
      ReplaceLeavesNoExtension(s[1..], rep);
      NoExtensionAfterKeptChar(s, rep);
    }
  }

  /** Hence both derived names contain no `.mp3`, and deriving again changes nothing. */
  lemma CliPathsHaveNoExtension(mp3: string)
    ensures !Contains(CliTempPath(mp3), Mp3Extension)
    ensures !Contains(CliFinalPath(mp3), Mp3Extension)
    ensures CliTempPath(CliTempPath(mp3)) == CliTempPath(mp3)
    ensures CliFinalPath(CliFinalPath(mp3)) == CliFinalPath(mp3)
  {
    ReplaceLeavesNoExtension(mp3, RerecordSuffix);
    ReplaceLeavesNoExtension(mp3, CleanSuffix);
    ReplaceAbsent(CliTempPath(mp3), Mp3Extension, RerecordSuffix);
    ReplaceAbsent(CliFinalPath(mp3), Mp3Extension, CleanSuffix);
  }

  /** For `stem + ".mp3"` with no other `.mp3` in the stem, the script writes
      `stem_rerecord.wav` and `stem_clean.wav`, two different names, and the input passes
      the argument filter. */
  lemma CliPathsOfPlainName(stem: string)
    requires !Contains(stem, Mp3Extension)
    ensures IsMp3Name(stem + Mp3Extension)
    ensures CliTempPath(stem + Mp3Extension) == stem + RerecordSuffix
    ensures CliFinalPath(stem + Mp3Extension) == stem + CleanSuffix
    ensures CliTempPath(stem + Mp3Extension) != CliFinalPath(stem + Mp3Extension)
  {
    ReplaceStemExtension(stem, RerecordSuffix);
    ReplaceStemExtension(stem, CleanSuffix);
    Mp3NameCharacters(stem + Mp3Extension);
    var t := stem + RerecordSuffix;
    var f := stem + CleanSuffix;
    assert t[|stem| + 1] == 'r' && f[|stem| + 1] == 'c';
  }

  /** The case-sensitive replace meets the case-insensitive filter: `"A.MP3"` is accepted,
      yet both derived names equal the input itself. */
  lemma UpperCaseExtensionKeepsName()
    ensures IsMp3Name("A.MP3")
    ensures CliTempPath("A.MP3") == "A.MP3"
    ensures CliFinalPath("A.MP3") == "A.MP3"
  {
    Mp3NameCharacters("A.MP3");
    forall i: nat
      ensures !OccursAt("A.MP3", Mp3Extension, i)
    {
    }
    ReplaceAbsent("A.MP3", Mp3Extension, RerecordSuffix);
    ReplaceAbsent("A.MP3", Mp3Extension, CleanSuffix);
  }

  // ---------------------------------------------------------------------------
  // GUI names (audio_scrubber_gui.py:146-147)
  // ---------------------------------------------------------------------------

  /** The index of the last `'.'` in `s`, if there is one. */
  function LastDot(s: string): (r: Option<nat>)
    ensures r.None? <==> forall j :: 0 <= j < |s| ==> s[j] != '.'
    ensures r.Some? ==> r.value < |s| && s[r.value] == '.'
                        && forall j :: r.value < j < |s| ==> s[j] != '.'
    decreases |s|
  {
    if |s| == 0 then None
    else if s[|s| - 1] == '.' then Some(|s| - 1)
    else LastDot(s[..|s| - 1])
  }

  /** `s.rsplit('.', 1)[0]`: everything before the last dot, or all of `s` without a dot. */
  function GuiStem(s: string): (r: string)
    ensures |r| <= |s| && r == s[..|r|]
    ensures DotFree(s) ==> r == s
    ensures !DotFree(s) ==> |r| < |s| && s[|r|] == '.' && DotFree(s[|r| + 1..])
  {
    match LastDot(s)
    case None => s
    case Some(i) => s[..i]
  }

  function GuiTempPath(s: string): (r: string) {
    GuiStem(s) + RerecordSuffix
  }

  function GuiFinalPath(s: string): (r: string) {
    GuiStem(s) + CleanSuffix
  }

  predicate DotFree(s: string) {
    forall j :: 0 <= j < |s| ==> s[j] != '.'
  }

  /** Splitting at the last dot is undone by putting the dot back: every input is its stem,
      or its stem, a dot and a dot-free extension. */
  lemma GuiStemSplits(s: string)
    ensures DotFree(s) ==> GuiStem(s) == s
    ensures !DotFree(s) ==> exists ext :: DotFree(ext) && s == GuiStem(s) + "." + ext
  {
    match LastDot(s)
    case None =>
    case Some(i) =>
      var ext := s[i + 1..];
      assert DotFree(ext);
      assert s == s[..i] + "." + ext;
  }

  /** Conversely, a stem followed by a dot and a dot-free extension has exactly that stem,
      whatever dots the stem itself contains. */
  lemma GuiStemOfExtension(stem: string, ext: string)
    requires DotFree(ext)
    ensures GuiStem(stem + "." + ext) == stem
  {
    var s := stem + "." + ext;
    var r := LastDot(s);
    assert s[|stem|] == '.';
    assert r.Some?;
    assert r.value == |stem|;
    assert s[..|stem|] == stem;
  }

  /** The GUI's two names always differ from each other and from the input, so it never
      writes over the file it reads. */
  lemma GuiPathsDistinct(s: string)
    ensures GuiTempPath(s) != GuiFinalPath(s)
    ensures GuiTempPath(s) != s
    ensures GuiFinalPath(s) != s
  {
    var stem := GuiStem(s);
    var t := GuiTempPath(s);
    var f := GuiFinalPath(s);
    assert t[|stem| + 1] == 'r' && f[|stem| + 1] == 'c';
    GuiStemSplits(s);
    if DotFree(s) {
      assert |t| > |s| && |f| > |s|;
    } else {
      var ext :| DotFree(ext) && s == stem + "." + ext;
      assert s[|stem|] == '.';
      assert t[|stem|] == '_' && f[|stem|] == '_';
    }
  }

  /** A dot in a directory name, with none in the file name, cuts the path inside the
      directory: both outputs land next to the directory, not inside it. */
  lemma GuiDotInDirectory()
    ensures GuiTempPath("music/v1.2/song") == "music/v1_rerecord.wav"
    ensures GuiFinalPath("music/v1.2/song") == "music/v1_clean.wav"
  {
    StemOfDottedDirectory();
    assert "music/v1" + RerecordSuffix == "music/v1_rerecord.wav";
    assert "music/v1" + CleanSuffix == "music/v1_clean.wav";
  }

  lemma StemOfDottedDirectory()
    ensures GuiStem("music/v1.2/song") == "music/v1"
  {
    assert "music/v1.2/song" == "music/v1" + "." + "2/song";
    GuiStemOfExtension("music/v1", "2/song");
  }
}
