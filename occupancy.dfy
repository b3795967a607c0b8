/** The two occupancy patches of the preparation script: `change_occupancy`
    (after phasing: HETATM records, "0.00" becomes "0.50") and
    `change_occupancy_refine` (after refinement: ATOM and HETATM records,
    "0.00" becomes "0.01"). A line qualifies when it starts with one of the
    record names and its 0-based slice [55:62] (PDB columns 56-62, the
    occupancy field) contains "0.00"; a qualifying line then goes through
    `str.replace`, which rewrites EVERY non-overlapping "0.00" in the line,
    not only the one in the occupancy field. */
module Occupancy {
  import opened PyText

  const Match := "0.00"
  /** Replacement written by `change_occupancy`. */
  const PhaserValue := "0.50"
  /** Replacement written by `change_occupancy_refine`. */
  const RefineValue := "0.01"
  const WindowStart: nat := 55
  const WindowEnd: nat := 62
  const PhaserRecords: seq<string> := ["HETATM"]
  const RefineRecords: seq<string> := ["HETATM", "ATOM"]

  /** The PDB file as the existence check after the wait finds it. */
  datatype PdbFile = Missing | Present(lines: seq<string>)

  /** What the patch leaves behind: the lines written back, or the
      "File not found" report. */
  datatype PatchOutcome = FileNotFound | Modified(written: seq<string>)

  predicate HasRecordName(line: string, records: seq<string>) {
    exists i | 0 <= i < |records| :: StartsWith(line, records[i])
  }

  /** The guard of the patch loop: a record name at the start of the line,
      and "0.00" inside `line[55:62]`, that is, a "0.00" lying wholly within
      PDB columns 56-62 (starting at a 0-based index from 55 to 58). */
  function Qualifies(line: string, records: seq<string>): (b: bool)
    ensures b <==>
      && HasRecordName(line, records)
      && exists i :: WindowStart <= i <= WindowEnd - |Match| && OccursAt(line, Match, i)
  {
    WindowOccurrence(line);
    HasRecordName(line, records) && Contains(Slice(line, WindowStart, WindowEnd), Match)
  }

  /** "0.00" occurs in the slice `line[55:62]` exactly when it occurs in the
      line at an index from 55 to 58. */
  lemma WindowOccurrence(line: string)
    ensures Contains(Slice(line, WindowStart, WindowEnd), Match) <==>
      exists i :: WindowStart <= i <= WindowEnd - |Match| && OccursAt(line, Match, i)
  {
    var w := Slice(line, WindowStart, WindowEnd);
    if k :| OccursAt(w, Match, k) {
      OccursInSlice(line, WindowStart, WindowEnd, Match, k);
      assert WindowStart + k <= WindowEnd - |Match|;
    }
    if i :| WindowStart <= i <= WindowEnd - |Match| && OccursAt(line, Match, i) {
      var k := i - WindowStart;
      assert |w| >= k + |Match|;
      assert w[k..k + |Match|] == line[i..i + |Match|];
      assert OccursAt(w, Match, k);
    }
  }

  /** One iteration of the patch loop. Only qualifying lines can change, and
      a replacement as long as "0.00" keeps every line's length. */
  function PatchLine(line: string, records: seq<string>, value: string): (r: string)
    ensures |value| == |Match| ==> |r| == |line|
    ensures r != line ==> Qualifies(line, records)
  {
    if Qualifies(line, records) then
      ReplaceLength(line, Match, value);
      Replace(line, Match, value)
    else line
  }

  /** The whole file: the lines in their order, each one patched. */
  function PatchLines(lines: seq<string>, records: seq<string>, value: string): (r: seq<string>)
    ensures |r| == |lines|
    ensures forall i :: 0 <= i < |lines| ==> r[i] == PatchLine(lines[i], records, value)
  {
    if lines == [] then []
    else [PatchLine(lines[0], records, value)] + PatchLines(lines[1..], records, value)
  }

  /** Patching a file is patching its parts: no line influences another. */
  lemma {:induction false} PatchLinesAppend(a: seq<string>, b: seq<string>, records: seq<string>, value: string)
    ensures PatchLines(a + b, records, value) == PatchLines(a, records, value) + PatchLines(b, records, value)
  {
    var whole, parts := PatchLines(a + b, records, value), PatchLines(a, records, value) + PatchLines(b, records, value);
    forall i | 0 <= i < |a + b|
      ensures whole[i] == parts[i]
    {
      if i < |a| {
        assert (a + b)[i] == a[i];
      } else {
        assert (a + b)[i] == b[i - |a|];
      }
    }
  }

  /** A line too short to hold "0.00" inside columns 56-62 is never touched. */
  lemma ShortLineUnchanged(line: string, records: seq<string>, value: string)
    requires |line| < WindowStart + |Match|
    ensures PatchLine(line, records, value) == line
  {
    var w := Slice(line, WindowStart, WindowEnd);
    assert |w| < |Match|;
  }

  /** "0.00" overlaps itself only at distance three ("0.00.00"). */
  lemma MatchOverlap(s: string, i: int, j: int)
    requires OccursAt(s, Match, i) && OccursAt(s, Match, j)
    requires j - |Match| < i < j
    ensures i == j - 3
  {
    assert s[i..i + 4][1] == s[i + 1] == '.';
    assert s[i..i + 4][3] == s[i + 3] == '0';
    assert s[j..j + 4][0] == s[j] == '0';
    assert s[j..j + 4][1] == s[j + 1] == '.';
  }

  /** In a qualifying line, every "0.00" that does not continue a "0.00"
      three characters earlier becomes `value`, wherever it lies: in the
      occupancy field, in the temperature factor or inside a coordinate. */
  lemma PatchAnywhere(line: string, records: seq<string>, value: string, j: int)
    requires Qualifies(line, records) && |value| == |Match|
    requires OccursAt(line, Match, j) && !OccursAt(line, Match, j - 3)
    ensures PatchLine(line, records, value)[j..j + |Match|] == value
  {
    forall i | j - |Match| < i < j
      ensures !OccursAt(line, Match, i)
    {
      if OccursAt(line, Match, i) { MatchOverlap(line, i, j); }
    }
    ReplaceIsolatedOccurrence(line, Match, value, j);
  }

  /** A character of a line that belongs to no "0.00" is never changed. */
  lemma PatchKeepsOtherCharacters(line: string, records: seq<string>, value: string, k: int)
    requires |value| == |Match| && 0 <= k < |line|
    requires forall j :: k - |Match| < j <= k ==> !OccursAt(line, Match, j)
    ensures PatchLine(line, records, value)[k] == line[k]
  {
    if Qualifies(line, records) {
      ReplaceKeepsUncovered(line, Match, value, k);
    }
  }

  /** A qualifying line always changes when the new value differs from "0.00". */
  lemma QualifyingLineChanges(line: string, records: seq<string>, value: string)
    requires Qualifies(line, records) && |value| == |Match| && value != Match
    ensures PatchLine(line, records, value) != line
  {
    var i :| WindowStart <= i <= WindowEnd - |Match| && OccursAt(line, Match, i);
    var m := LeftmostOccurrence(line, Match, i);
    ReplaceIsolatedOccurrence(line, Match, value, m);
    assert line[m..m + |Match|] == Match;
  }

  /** No occurrence of `pat` can start at a character that differs from
      the first character of `pat`. */
  lemma NoOccurrenceBefore(s: string, pat: string, n: int)
    requires pat != [] && n <= |s|
    requires forall i :: 0 <= i < n ==> s[i] != pat[0]
    ensures forall i :: 0 <= i < n ==> !OccursAt(s, pat, i)
  {
    forall i | 0 <= i < n
      ensures !OccursAt(s, pat, i)
    {
      if i + |pat| <= |s| { assert s[i..i + |pat|][0] == s[i]; }
    }
  }

  /** A HETATM line whose first "0.00" starts the occupancy field and is
      followed by ".00": the first pass writes "0.50.00", and that line
      qualifies again, through the "0.00" three characters further on. */
  lemma PatchOverlappingMatch(pad: string)
    requires |pad| == WindowStart && StartsWith(pad, "HETATM")
    requires forall i :: 0 <= i < |pad| ==> pad[i] != '0'
    ensures PatchLine(pad + Match + ".00", PhaserRecords, PhaserValue) == pad + PhaserValue + ".00"
    ensures Qualifies(pad + PhaserValue + ".00", PhaserRecords)
    ensures PatchLine(pad + PhaserValue + ".00", PhaserRecords, PhaserValue) != pad + PhaserValue + ".00"
  {
    var line := pad + Match + ".00";
    var once := pad + PhaserValue + ".00";
    assert Qualifies(line, PhaserRecords) by {
      assert line[..6] == pad[..6];
      assert StartsWith(line, PhaserRecords[0]);
      assert line[55..59] == Match;
      assert OccursAt(line, Match, WindowStart);
    }
    assert Replace(line, Match, PhaserValue) == once by {
      NoOccurrenceBefore(line, Match, WindowStart);
      ReplaceAtLeftmost(pad, Match, ".00", PhaserValue);
    }
    assert Qualifies(once, PhaserRecords) by {
      assert once[..6] == pad[..6];
      assert StartsWith(once, PhaserRecords[0]);
      assert once == pad + "0.5" + Match;
      assert once[58..62] == Match;
      assert OccursAt(once, Match, WindowStart + 3);
    }
    QualifyingLineChanges(once, PhaserRecords, PhaserValue);
  }

  /** A second run of `change_occupancy` changes `line` again. */
  predicate ChangedBySecondPass(line: string) {
    var once := PatchLine(line, PhaserRecords, PhaserValue);
    PatchLine(once, PhaserRecords, PhaserValue) != once
  }

  /** Running `change_occupancy` twice is not the same as running it once:
      the first pass turns "0.00.00" into "0.50.00", which holds a fresh
      "0.00" in the occupancy field for the second pass. */
  lemma PatchNotIdempotent()
    ensures exists line :: ChangedBySecondPass(line)
  {
    var pad := "HETATM" + seq(49, _ => ' ');
    assert pad[..6] == "HETATM";
    PatchOverlappingMatch(pad);
    assert ChangedBySecondPass(pad + Match + ".00");
  }

  /** The write loop: every line read is written back, in order, through
      the per-line patch. */
  method WriteLines(lines: seq<string>, records: seq<string>, value: string) returns (written: seq<string>)
    ensures written == PatchLines(lines, records, value)
  {
    written := [];
    for i := 0 to |lines|
      invariant |written| == i
      invariant forall k :: 0 <= k < i ==> written[k] == PatchLine(lines[k], records, value)
    {
      var line := lines[i];
      if HasRecordName(line, records) {
        if Contains(Slice(line, WindowStart, WindowEnd), Match) {
          line := Replace(line, Match, value);
        }
      }
      assert line == PatchLine(lines[i], records, value);
      written := written + [line];
    }
  }

  /** `change_occupancy` after the wait for PHASER.pdb: a missing file is
      reported; otherwise as many lines are written back as were read, each
      of the same length, and only HETATM lines can differ. */
  method ChangeOccupancy(pdb: PdbFile) returns (outcome: PatchOutcome)
    ensures pdb.Missing? <==> outcome.FileNotFound?
    ensures pdb.Present? ==> outcome == Modified(PatchLines(pdb.lines, PhaserRecords, PhaserValue))
    ensures pdb.Present? ==> |outcome.written| == |pdb.lines|
    ensures pdb.Present? ==> forall i :: 0 <= i < |pdb.lines| ==>
      |outcome.written[i]| == |pdb.lines[i]| &&
      (outcome.written[i] != pdb.lines[i] ==> StartsWith(pdb.lines[i], "HETATM"))
  {
    match pdb
    case Missing =>
      outcome := FileNotFound;
    case Present(lines) =>
      var written := WriteLines(lines, PhaserRecords, PhaserValue);
      forall i | 0 <= i < |lines| && written[i] != lines[i]
        ensures StartsWith(lines[i], "HETATM")
      {
        var k :| 0 <= k < |PhaserRecords| && StartsWith(lines[i], PhaserRecords[k]);
      }
      outcome := Modified(written);
  }

  /** `change_occupancy_refine` after the wait for
      PHASER.phenix_refine_001.pdb: the same rule over ATOM and HETATM lines,
      writing "0.01". */
  method ChangeOccupancyRefine(pdb: PdbFile) returns (outcome: PatchOutcome)
    ensures pdb.Missing? <==> outcome.FileNotFound?
    ensures pdb.Present? ==> outcome == Modified(PatchLines(pdb.lines, RefineRecords, RefineValue))
    ensures pdb.Present? ==> |outcome.written| == |pdb.lines|
    ensures pdb.Present? ==> forall i :: 0 <= i < |pdb.lines| ==>
      |outcome.written[i]| == |pdb.lines[i]| &&
      (outcome.written[i] != pdb.lines[i] ==>
        StartsWith(pdb.lines[i], "HETATM") || StartsWith(pdb.lines[i], "ATOM"))
  {
    match pdb
    case Missing =>
      outcome := FileNotFound;
    case Present(lines) =>
      var written := WriteLines(lines, RefineRecords, RefineValue);
      forall i | 0 <= i < |lines| && written[i] != lines[i]
        ensures StartsWith(lines[i], "HETATM") || StartsWith(lines[i], "ATOM")
      {
        var k :| 0 <= k < |RefineRecords| && StartsWith(lines[i], RefineRecords[k]);
      }
      outcome := Modified(written);
  }
}
