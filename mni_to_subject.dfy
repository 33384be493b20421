/**
 * The MNI-to-subject coordinate converter (Codes/6_mni_to_subject_gui.py): validate the
 * m2m folder and the coordinate text, split the text into coordinate lines, run
 * `mni2subject_coords` once per line and keep the text between the last `[` and the next
 * `]` of each successful answer, labelled `Target_<k>` by the line's 1-based position.
 *
 * `isDir` stands for `os.path.isdir`; `tool` maps an argv to the tool's stdout, with
 * `None` for a `CalledProcessError`.
 */
module MniToSubject {
  import opened Wrappers
  import opened PyText

  // ------------------------------------------------------ bracket extraction

  /** `s.split('[')[-1].split(']')[0]`: the text after the last `[` up to the next `]`. */
  function Bracketed(s: string): (r: string)
    ensures '[' !in r && ']' !in r
  {
    var pieces := SplitOn(s, '[');
    var tail := pieces[|pieces| - 1];
    SplitOnFirst(tail, ']');
    SplitOn(tail, ']')[0]
  }

  /** What the converter keeps of one answer of the tool. */
  function Extract(output: string): string {
    Bracketed(Strip(output))
  }

  /** A bracketed group with no bracket after it is read back exactly. */
  lemma BracketedGroup(before: string, inner: string, after: string)
    requires '[' !in inner && ']' !in inner && '[' !in after
    ensures Bracketed(before + "[" + inner + "]" + after) == inner
  {
    var rest := inner + "]" + after;
    assert before + "[" + inner + "]" + after == before + ['['] + rest;
    SplitOnConcat(before, '[', rest);
    SplitOnNoSep(rest, '[');
    assert rest == inner + [']'] + after;
    SplitOnConcat(inner, ']', after);
    SplitOnNoSep(inner, ']');
  }

  /**
   * Without any `[` the extraction is the text before the first `]`, or the whole text
   * when there is no `]` either.
   */
  lemma BracketedWithoutOpen(s: string)
    requires '[' !in s
    ensures var r := Bracketed(s);
            |r| <= |s| && s[..|r|] == r && (|r| < |s| ==> s[|r|] == ']')
    ensures ']' !in s ==> Bracketed(s) == s
  {
    SplitOnNoSep(s, '[');
    SplitOnFirst(s, ']');
    if ']' !in s {
      SplitOnNoSep(s, ']');
    }
  }

  // ------------------------------------------------------------- validation

  /** The two input errors, reported before any conversion. */
  datatype Rejection = InvalidFolder | NoCoordinates

  /** `coords_text.strip().split("\n")`. */
  function TextLines(text: string): seq<string> {
    SplitOn(Strip(text), '\n')
  }

  /** `[line.strip() for line in coords_text.strip().split("\n") if line.strip()]`. */
  function CoordsLines(text: string): (r: seq<string>)
    ensures forall k :: 0 <= k < |r| ==> r[k] != [] && IsStripped(r[k])
  {
    StrippedNonBlank(TextLines(text))
  }

  /**
   * The coordinate lines are exactly the non-blank lines of the stripped text, stripped:
   * every entry is one of them (CoordsLinesSound), every non-blank line is kept
   * (CoordsLinesComplete), and a blank line contributes nothing, in order
   * (PyText.StrippedNonBlankOne and PyText.StrippedNonBlankConcat).
   */
  lemma CoordsLinesSound(text: string, k: nat)
    requires k < |CoordsLines(text)|
    ensures exists i :: 0 <= i < |TextLines(text)| && CoordsLines(text)[k] == Strip(TextLines(text)[i])
  {
    StrippedNonBlankSound(TextLines(text), k);
  }

  lemma CoordsLinesComplete(text: string, i: nat)
    requires i < |TextLines(text)| && Strip(TextLines(text)[i]) != []
    ensures Strip(TextLines(text)[i]) in CoordsLines(text)
  {
    StrippedNonBlankKeeps(TextLines(text));
  }

  /** Input that survives the blank check yields at least one coordinate line. */
  lemma CoordsLinesNonEmpty(text: string)
    requires Strip(text) != []
    ensures CoordsLines(text) != []
  {
    var s := Strip(text);
    var pieces := SplitOn(s, '\n');
    var p := pieces[0];
    SplitOnFirst(s, '\n');
    assert !IsSpace(s[0]);
    assert |p| > 0;
    assert p[0] == s[0];
    StrippedNonBlankKeeps(pieces);
    assert Strip(pieces[0]) in CoordsLines(text);
  }

  // -------------------------------------------------------------- conversion

  /** The argv `["mni2subject_coords", "-c"] + coord.split() + ["-m", m2m_path]`. */
  function Argv(coord: string, m2mPath: string): seq<string> {
    ["mni2subject_coords", "-c"] + Split(coord) + ["-m", m2mPath]
  }

  /** `f"Target_{idx}"`. */
  function Label(idx: nat): string {
    "Target_" + Decimal(idx)
  }

  lemma LabelInjective(i: nat, j: nat)
    requires Label(i) == Label(j)
    ensures i == j
  {
    var prefix := "Target_";
    assert Label(i)[|prefix|..] == Decimal(i);
    assert Label(j)[|prefix|..] == Decimal(j);
    DecimalInjective(i, j);
  }

  /** One entry of `results`: the label and the extracted coordinate text. */
  datatype Labelled = Labelled(name: string, coords: string)

  /** The tool succeeds on the line at 1-based position `idx`. */
  predicate Converts(lines: seq<string>, m2mPath: string, tool: seq<string> -> Option<string>, idx: nat)
    requires 1 <= idx <= |lines|
  {
    tool(Argv(lines[idx - 1], m2mPath)).Some?
  }

  /** The entry the line at 1-based position `idx` contributes when the tool succeeds. */
  function Entry(lines: seq<string>, m2mPath: string, tool: seq<string> -> Option<string>, idx: nat): Labelled
    requires 1 <= idx <= |lines| && Converts(lines, m2mPath, tool, idx)
  {
    Labelled(Label(idx), Extract(tool(Argv(lines[idx - 1], m2mPath)).value))
  }

  /** `results` after the lines `lines` of the loop; a failed line adds nothing. */
  function Results(lines: seq<string>, m2mPath: string, tool: seq<string> -> Option<string>): (r: seq<Labelled>)
    ensures |r| <= |lines|
  {
    if lines == [] then []
    else
      var n := |lines|;
      var prev := Results(lines[..n - 1], m2mPath, tool);
      match tool(Argv(lines[n - 1], m2mPath))
      case None => prev
      case Some(output) => prev + [Labelled(Label(n), Extract(output))]
  }

  /** Whether a line converts does not depend on the lines after it. */
  lemma ConvertsOnPrefix(lines: seq<string>, m2mPath: string, tool: seq<string> -> Option<string>)
    requires lines != []
    ensures forall idx :: 1 <= idx < |lines| ==>
              (Converts(lines[..|lines| - 1], m2mPath, tool, idx) <==> Converts(lines, m2mPath, tool, idx))
  {
    forall idx | 1 <= idx < |lines|
      ensures Converts(lines[..|lines| - 1], m2mPath, tool, idx) <==> Converts(lines, m2mPath, tool, idx)
    {
      assert lines[..|lines| - 1][idx - 1] == lines[idx - 1];
    }
  }

  /** The 1-based positions of the lines the tool converted, in input order. */
  function ConvertedPositions(lines: seq<string>, m2mPath: string, tool: seq<string> -> Option<string>): (r: seq<nat>)
    ensures |r| <= |lines|
    ensures forall k :: 0 <= k < |r| ==> 1 <= r[k] <= |lines| && Converts(lines, m2mPath, tool, r[k])
    ensures forall j, k :: 0 <= j < k < |r| ==> r[j] < r[k]
  {
    if lines == [] then []
    else
      var n := |lines|;
      var prefix := lines[..n - 1];
      var prev := ConvertedPositions(prefix, m2mPath, tool);
      ConvertsOnPrefix(lines, m2mPath, tool);
      if tool(Argv(lines[n - 1], m2mPath)).Some? then
        var r := prev + [n];
        assert forall k :: 0 <= k < |prev| ==> r[k] == prev[k];
        r
      else prev
  }

  /** Every line the tool converts is among the positions. */
  lemma {:induction false} ConvertedPositionsComplete(lines: seq<string>, m2mPath: string,
                                                      tool: seq<string> -> Option<string>, idx: nat)
    requires 1 <= idx <= |lines| && Converts(lines, m2mPath, tool, idx)
    ensures idx in ConvertedPositions(lines, m2mPath, tool)
  {
    var n := |lines|;
    var prefix := lines[..n - 1];
    var prev := ConvertedPositions(prefix, m2mPath, tool);
    if idx < n {
      ConvertsOnPrefix(lines, m2mPath, tool);
      ConvertedPositionsComplete(prefix, m2mPath, tool, idx);
      var k :| 0 <= k < |prev| && prev[k] == idx;
      assert ConvertedPositions(lines, m2mPath, tool)[k] == idx;
    } else {
      assert ConvertedPositions(lines, m2mPath, tool) == prev + [n];
    }
  }

  /**
   * The results are exactly the converted lines, in input order, each labelled with its
   * own position: a failed line is dropped without renumbering the lines after it.
   */
  lemma {:induction false} ResultsByPosition(lines: seq<string>, m2mPath: string, tool: seq<string> -> Option<string>)
    ensures var pos := ConvertedPositions(lines, m2mPath, tool);
            var r := Results(lines, m2mPath, tool);
            |r| == |pos| && forall k :: 0 <= k < |r| ==> r[k] == Entry(lines, m2mPath, tool, pos[k])
  {
    if lines != [] {
      var n := |lines|;
      var prefix := lines[..n - 1];
      ResultsByPosition(prefix, m2mPath, tool);
      var pos := ConvertedPositions(prefix, m2mPath, tool);
      var prev := Results(prefix, m2mPath, tool);
      var allPos := ConvertedPositions(lines, m2mPath, tool);
      var r := Results(lines, m2mPath, tool);
      if Converts(lines, m2mPath, tool, n) {
        assert r == prev + [Entry(lines, m2mPath, tool, n)];
        assert allPos == pos + [n];
      } else {
        assert r == prev && allPos == pos;
      }
      forall k | 0 <= k < |r|
        ensures r[k] == Entry(lines, m2mPath, tool, allPos[k])
      {
        if k < |pos| {
          assert prefix[pos[k] - 1] == lines[pos[k] - 1];
          assert r[k] == prev[k] == Entry(prefix, m2mPath, tool, pos[k]);
        }
      }
    }
  }

  /** Every entry names a line that converted and carries that line's extraction. */
  lemma ResultsSound(lines: seq<string>, m2mPath: string, tool: seq<string> -> Option<string>, k: nat)
    requires k < |Results(lines, m2mPath, tool)|
    ensures exists idx :: 1 <= idx <= |lines| && Converts(lines, m2mPath, tool, idx) &&
                          Results(lines, m2mPath, tool)[k] == Entry(lines, m2mPath, tool, idx)
  {
    ResultsByPosition(lines, m2mPath, tool);
    var idx := ConvertedPositions(lines, m2mPath, tool)[k];
    assert Results(lines, m2mPath, tool)[k] == Entry(lines, m2mPath, tool, idx);
  }

  /** Every line the tool converts appears in the results under its own label. */
  lemma ResultsComplete(lines: seq<string>, m2mPath: string, tool: seq<string> -> Option<string>, idx: nat)
    requires 1 <= idx <= |lines| && Converts(lines, m2mPath, tool, idx)
    ensures Entry(lines, m2mPath, tool, idx) in Results(lines, m2mPath, tool)
  {
    ResultsByPosition(lines, m2mPath, tool);
    ConvertedPositionsComplete(lines, m2mPath, tool, idx);
    var pos := ConvertedPositions(lines, m2mPath, tool);
    var k :| 0 <= k < |pos| && pos[k] == idx;
    assert Results(lines, m2mPath, tool)[k] == Entry(lines, m2mPath, tool, idx);
  }

  /** No two entries share a label. */
  lemma ResultsLabelsDistinct(lines: seq<string>, m2mPath: string, tool: seq<string> -> Option<string>, j: nat, k: nat)
    requires j < k < |Results(lines, m2mPath, tool)|
    ensures Results(lines, m2mPath, tool)[j].name != Results(lines, m2mPath, tool)[k].name
  {
    ResultsByPosition(lines, m2mPath, tool);
    var pos := ConvertedPositions(lines, m2mPath, tool);
    if Label(pos[j]) == Label(pos[k]) {
      LabelInjective(pos[j], pos[k]);
    }
  }

  /** The `enumerate(coords_lines, start=1)` loop, appending one entry per converted line. */
  method ConvertLines(lines: seq<string>, m2mPath: string, tool: seq<string> -> Option<string>)
    returns (results: seq<Labelled>)
    ensures results == Results(lines, m2mPath, tool)
  {
    results := [];
    for i := 0 to |lines|
      invariant results == Results(lines[..i], m2mPath, tool)
    {
      var coord := lines[i];
      assert lines[..i + 1][..i] == lines[..i];
      match tool(Argv(coord, m2mPath)) {
        case Some(output) =>
          var transformed := Bracketed(Strip(output));
          results := results + [Labelled(Label(i + 1), transformed)];
        case None =>
      }
    }
    assert lines[..|lines|] == lines;
  }

  datatype Outcome = Rejected(why: Rejection) | Converted(results: seq<Labelled>)

  /**
   * The button handler: an invalid folder or blank coordinate text is rejected before the
   * tool runs; otherwise every coordinate line is tried.
   */
  method Convert(m2mPath: string, coordsText: string, isDir: string -> bool, tool: seq<string> -> Option<string>)
    returns (outcome: Outcome)
    ensures outcome == Rejected(InvalidFolder) <==> !isDir(m2mPath)
    ensures outcome == Rejected(NoCoordinates) <==> isDir(m2mPath) && Strip(coordsText) == []
    ensures outcome.Converted? ==> CoordsLines(coordsText) != [] &&
                                   outcome.results == Results(CoordsLines(coordsText), m2mPath, tool)
  {
    if !isDir(m2mPath) {
      return Rejected(InvalidFolder);
    }
    if Strip(coordsText) == [] {
      return Rejected(NoCoordinates);
    }
    CoordsLinesNonEmpty(coordsText);
    var results := ConvertLines(CoordsLines(coordsText), m2mPath, tool);
    outcome := Converted(results);
  }
}
